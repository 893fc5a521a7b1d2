/** `parse_note` and `parse_measure`: building the notes of each lexed group. */
module Parser {
  import opened Outcome
  import opened Notes

  /** The level every note of a group of `n` characters gets; None for any other length. */
  function LevelOf(n: nat): (r: Option<Level>)
    ensures r.Some? <==> n in {1, 2, 3, 4, 6}
  {
    if n == 1 then Some(Quarter)
    else if n == 2 then Some(Eighth)
    else if n == 3 then Some(Triplet)
    else if n == 4 then Some(Sixteenth)
    else if n == 6 then Some(Sextuplet)
    else None
  }

  /** The direction a character names, matched case-sensitively. */
  function DirectionOf(c: char): (r: Option<Direction>)
    ensures r.Some? <==> c in "DUR_"
  {
    if c == 'D' then Some(Downward)
    else if c == 'U' then Some(Upward)
    else if c == 'R' then Some(Rest)
    else if c == '_' then Some(Extension)
    else None
  }

  /** The notes of the characters `ns`, all at `level`; fails at the first character with no direction. */
  function NotesOf(ns: string, level: Level): (r: Result<seq<Note>>)
    ensures r.Ok? ==> |r.value| == |ns| && forall n :: n in r.value ==> n.level == level && !n.tie
    ensures r.Err? ==> r.error.UnknownNote? && r.error.ch in ns && r.error.ch !in "DUR_"
    decreases |ns|
  {
    if |ns| == 0 then Ok([])
    else
      match NotesOf(ns[..|ns| - 1], level)
      case Err(e) => Err(e)
      case Ok(notes) =>
        var c := ns[|ns| - 1];
        match DirectionOf(c)
        case Some(d) => Ok(notes + [NewNote(level, d)])
        case None => Err(UnknownNote(c))
  }

  /** One group: its length decides the level before any character is looked at. */
  function GroupOf(g: string): (r: Result<seq<Note>>)
    ensures (r.Err? && r.error.InvalidGroup?) <==> |g| !in {1, 2, 3, 4, 6}
    ensures r.Err? && r.error.InvalidGroup? ==> r.error.group == g
    ensures r.Err? ==> r.error.InvalidGroup? || r.error.UnknownNote?
    ensures r.Ok? ==> |r.value| == |g| && forall n :: n in r.value ==> Some(n.level) == LevelOf(|g|) && !n.tie
  {
    match LevelOf(|g|)
    case None => Err(InvalidGroup(g))
    case Some(l) => NotesOf(g, l)
  }

  /** The note lists of a measure's groups, in order; fails with the first failing group's error. */
  function MeasureOf(groups: seq<string>): (r: Result<seq<seq<Note>>>)
    ensures r.Ok? ==> |r.value| == |groups|
    ensures r.Err? ==> r.error.InvalidGroup? || r.error.UnknownNote?
    decreases |groups|
  {
    if |groups| == 0 then Ok([])
    else
      match MeasureOf(groups[..|groups| - 1])
      case Err(e) => Err(e)
      case Ok(m) =>
        match GroupOf(groups[|groups| - 1])
        case Err(e) => Err(e)
        case Ok(notes) => Ok(m + [notes])
  }

  /** On success there is one note per character, with that character's direction, the given level and no tie. */
  lemma {:induction false} NotesOfOk(ns: string, level: Level)
    requires NotesOf(ns, level).Ok?
    ensures |NotesOf(ns, level).value| == |ns|
    ensures forall i :: 0 <= i < |ns| ==>
      DirectionOf(ns[i]).Some? && NotesOf(ns, level).value[i] == Note(level, DirectionOf(ns[i]).value, false)
    decreases |ns|
  {
    if |ns| > 0 {
      var ns' := ns[..|ns| - 1];
      NotesOfOk(ns', level);
      assert forall i :: 0 <= i < |ns'| ==> ns'[i] == ns[i];
    }
  }

  /** Building notes fails exactly when some character is not one of D, U, R, _ (so a lower-case letter fails),
      and the failure names the first such character. */
  lemma {:induction false} NotesOfErrIff(ns: string, level: Level)
    ensures NotesOf(ns, level).Err? <==> exists i :: 0 <= i < |ns| && ns[i] !in "DUR_"
    ensures NotesOf(ns, level).Err? ==>
      exists i :: 0 <= i < |ns| && ns[i] !in "DUR_" && NotesOf(ns, level).error == UnknownNote(ns[i]) &&
        forall i' :: 0 <= i' < i ==> ns[i'] in "DUR_"
    decreases |ns|
  {
    if |ns| > 0 {
      var ns' := ns[..|ns| - 1];
      NotesOfErrIff(ns', level);
      assert forall i :: 0 <= i < |ns'| ==> ns'[i] == ns[i];
      if NotesOf(ns', level).Err? {
        var i :| 0 <= i < |ns'| && ns'[i] !in "DUR_" && NotesOf(ns', level).error == UnknownNote(ns'[i]) &&
          forall i' :: 0 <= i' < i ==> ns'[i'] in "DUR_";
        assert ns[i] == ns'[i];
      } else if ns[|ns| - 1] !in "DUR_" {
        assert forall i' :: 0 <= i' < |ns| - 1 ==> ns[i'] in "DUR_";
      }
    }
  }

  /** A group of a length outside {1, 2, 3, 4, 6} fails as an invalid group whatever its characters. */
  lemma GroupOfBadLength(g: string)
    requires |g| !in {1, 2, 3, 4, 6}
    ensures GroupOf(g) == Err(InvalidGroup(g))
  {
  }

  /** A group of a valid length gets the level of its length on every note. */
  lemma GroupOfLevels(g: string)
    requires GroupOf(g).Ok?
    ensures |g| in {1, 2, 3, 4, 6} && |GroupOf(g).value| == |g| && |g| > 0
    ensures forall n :: n in GroupOf(g).value ==> Some(n.level) == LevelOf(|g|) && !n.tie
  {
    var l := LevelOf(|g|).value;
    NotesOfOk(g, l);
  }

  /** On success group `j` of the measure becomes note list `j`. */
  lemma {:induction false} MeasureOfOk(groups: seq<string>)
    requires MeasureOf(groups).Ok?
    ensures forall j :: 0 <= j < |groups| ==> GroupOf(groups[j]) == Ok(MeasureOf(groups).value[j])
    decreases |groups|
  {
    if |groups| > 0 {
      var gs' := groups[..|groups| - 1];
      MeasureOfOk(gs');
      assert forall j :: 0 <= j < |gs'| ==> gs'[j] == groups[j];
    }
  }

  /** A measure fails exactly when some group fails, and then with the error of the first failing group. */
  lemma {:induction false} MeasureOfErr(groups: seq<string>)
    ensures MeasureOf(groups).Err? <==> exists j :: 0 <= j < |groups| && GroupOf(groups[j]).Err?
    ensures MeasureOf(groups).Err? ==>
      exists j :: 0 <= j < |groups| && GroupOf(groups[j]) == Err(MeasureOf(groups).error) &&
        forall j' :: 0 <= j' < j ==> GroupOf(groups[j']).Ok?
    decreases |groups|
  {
    if |groups| > 0 {
      var gs' := groups[..|groups| - 1];
      MeasureOfErr(gs');
      assert forall j :: 0 <= j < |gs'| ==> gs'[j] == groups[j];
      if MeasureOf(gs').Err? {
        var j :| 0 <= j < |gs'| && GroupOf(gs'[j]) == Err(MeasureOf(gs').error) &&
          forall j' :: 0 <= j' < j ==> GroupOf(gs'[j']).Ok?;
        assert gs'[j] == groups[j];
      }
    }
  }

  /** A group the parser accepts: a valid length and only the characters D, U, R and _. */
  predicate ValidGroup(g: string)
  {
    |g| in {1, 2, 3, 4, 6} && forall i :: 0 <= i < |g| ==> g[i] in "DUR_"
  }

  /** A group parses exactly when it is valid, and then into one untied note per character at its length's level. */
  lemma GroupOfValid(g: string)
    ensures GroupOf(g).Ok? <==> ValidGroup(g)
    ensures ValidGroup(g) ==>
      GroupOf(g).value == seq(|g|, i requires 0 <= i < |g| => Note(LevelOf(|g|).value, DirectionOf(g[i]).value, false))
  {
    if |g| in {1, 2, 3, 4, 6} {
      var l := LevelOf(|g|).value;
      NotesOfErrIff(g, l);
      if ValidGroup(g) {
        NotesOfOk(g, l);
      }
    }
  }

  /** A measure of valid groups parses into their note lists. */
  lemma MeasureOfValid(groups: seq<string>)
    requires forall j :: 0 <= j < |groups| ==> ValidGroup(groups[j])
    ensures MeasureOf(groups).Ok?
    ensures forall j :: 0 <= j < |groups| ==> GroupOf(groups[j]).Ok? && MeasureOf(groups).value[j] == GroupOf(groups[j]).value
  {
    forall j | 0 <= j < |groups| ensures GroupOf(groups[j]).Ok? {
      GroupOfValid(groups[j]);
    }
    MeasureOfErr(groups);
    MeasureOfOk(groups);
  }

  /** The `each_char` loop of `parse_note`. */
  method ParseNote(noteString: string, level: Level) returns (r: Result<seq<Note>>)
    ensures r == NotesOf(noteString, level)
  {
    var notes: seq<Note> := [];
    var i := 0;
    assert noteString[..0] == [];
    while i < |noteString|
      invariant 0 <= i <= |noteString|
      invariant NotesOf(noteString[..i], level) == Ok(notes)
    {
      var c := noteString[i];
      assert noteString[..i + 1][..i] == noteString[..i];
      if c == 'D' {
        notes := notes + [NewNote(level, Downward)];
      } else if c == 'U' {
        notes := notes + [NewNote(level, Upward)];
      } else if c == 'R' {
        notes := notes + [NewNote(level, Rest)];
      } else if c == '_' {
        notes := notes + [NewNote(level, Extension)];
      } else {
        NotesOfPrefixError(noteString, level, i + 1);
        return Err(UnknownNote(c));
      }
      i := i + 1;
    }
    assert noteString[..i] == noteString;
    r := Ok(notes);
  }

  lemma {:induction false} NotesOfPrefixError(ns: string, level: Level, n: nat)
    requires n <= |ns| && NotesOf(ns[..n], level).Err?
    ensures NotesOf(ns, level) == NotesOf(ns[..n], level)
    decreases |ns| - n
  {
    if n < |ns| {
      var ns' := ns[..|ns| - 1];
      assert ns'[..n] == ns[..n];
      NotesOfPrefixError(ns', level, n);
    } else {
      assert ns[..n] == ns;
    }
  }

  lemma {:induction false} MeasureOfPrefixError(groups: seq<string>, n: nat)
    requires n <= |groups| && MeasureOf(groups[..n]).Err?
    ensures MeasureOf(groups) == MeasureOf(groups[..n])
    decreases |groups| - n
  {
    if n < |groups| {
      var gs' := groups[..|groups| - 1];
      assert gs'[..n] == groups[..n];
      MeasureOfPrefixError(gs', n);
    } else {
      assert groups[..n] == groups;
    }
  }

  /** The `each` loop of `parse_measure`. */
  method ParseMeasure(noteStrings: seq<string>) returns (r: Result<seq<seq<Note>>>)
    ensures r == MeasureOf(noteStrings)
  {
    var measure: seq<seq<Note>> := [];
    var j := 0;
    assert noteStrings[..0] == [];
    while j < |noteStrings|
      invariant 0 <= j <= |noteStrings|
      invariant MeasureOf(noteStrings[..j]) == Ok(measure)
    {
      var ns := noteStrings[j];
      assert noteStrings[..j + 1][..j] == noteStrings[..j];
      var level: Level;
      if |ns| == 1 {
        level := Quarter;
      } else if |ns| == 2 {
        level := Eighth;
      } else if |ns| == 3 {
        level := Triplet;
      } else if |ns| == 4 {
        level := Sixteenth;
      } else if |ns| == 6 {
        level := Sextuplet;
      } else {
        MeasureOfPrefixError(noteStrings, j + 1);
        return Err(InvalidGroup(ns));
      }
      var notes := ParseNote(ns, level);
      if notes.Err? {
        MeasureOfPrefixError(noteStrings, j + 1);
        return Err(notes.error);
      }
      measure := measure + [notes.value];
      j := j + 1;
    }
    assert noteStrings[..j] == noteStrings;
    r := Ok(measure);
  }
}

/** `strum_evaluate`: rendering the merged piece as a stream of note tokens. */
module Evaluator {
  import opened Notes
  import opened Strings
  import Merge

  const TupletOpen := "\\tuplet 3/1 { "
  const TupletClose := " }"

  predicate IsTuplet(l: Level)
  {
    l == TwoTriplet || l == Triplet
  }

  /** The duration code of a level; a sextuplet has none and is rendered without a code. */
  function LevelCode(l: Level): (c: string)
    ensures c == "" <==> l == Sextuplet
    ensures forall i :: 0 <= i < |c| ==> c[i] in "12468."
  {
    match l
    case Whole => "1"
    case DottedHalf => "2."
    case Half => "2"
    case DottedQuarter => "4."
    case Quarter => "4"
    case DottedEighth => "8."
    case Eighth => "8"
    case Sixteenth => "16"
    case TwoTriplet => "4"
    case Triplet => "8"
    case Sextuplet => ""
  }

  function RestMark(n: Note): string
  {
    if n.direction == Rest then "r" else "c"
  }

  function TieMark(n: Note): string
  {
    if n.tie then "~" else ""
  }

  function DownMark(n: Note): string
  {
    if n.direction == Downward then "\\downbow" else ""
  }

  function UpMark(n: Note): string
  {
    if n.direction == Upward then "\\upbow" else ""
  }

  /** A note: rest or pitch marker, duration code, tie marker, bow marker (downward and upward only). */
  function NoteText(n: Note): (t: string)
    ensures |t| > 0 && (t[0] == 'r' <==> n.direction == Rest) && (t[0] == 'c' <==> n.direction != Rest)
  {
    RestMark(n) + LevelCode(n.level) + TieMark(n) + DownMark(n) + UpMark(n)
  }

  /** The tuplet opening before note `k` of a group: only before note 0, and only when it is a tuplet level. */
  function OpenMark(g: Merge.Group, k: nat): string
    requires k < |g|
  {
    if k == 0 && IsTuplet(g[k].level) then TupletOpen else ""
  }

  /** The tuplet closing after note `k`: only after the last note, and only when it is a tuplet level. */
  function CloseMark(g: Merge.Group, k: nat): string
    requires k < |g|
  {
    if k == |g| - 1 && IsTuplet(g[k].level) then TupletClose else ""
  }

  /** The space after element `k` of `len`, left out after the last one. */
  function Sep(k: nat, len: nat): string
  {
    if k + 1 < len then " " else ""
  }

  /** Note `k` of a group, with its tuplet markers. */
  function Token(g: Merge.Group, k: nat): (t: string)
    requires k < |g|
    ensures |t| > 0 && (t[|t| - 1] == '}' <==> k == |g| - 1 && IsTuplet(g[k].level))
  {
    NoteTextLast(g[k]);
    LastOfConcat(OpenMark(g, k), NoteText(g[k]));
    OpenMark(g, k) + NoteText(g[k]) + CloseMark(g, k)
  }

  function GroupTokens(g: Merge.Group): (ts: seq<string>)
    ensures |ts| == |g|
  {
    seq(|g|, k requires 0 <= k < |g| => Token(g, k))
  }

  function GroupText(g: Merge.Group): string
  {
    Join(GroupTokens(g), " ")
  }

  function GroupTexts(m: Merge.Measure): (ts: seq<string>)
    ensures |ts| == |m|
  {
    seq(|m|, j requires 0 <= j < |m| => GroupText(m[j]))
  }

  function MeasureText(m: Merge.Measure): string
  {
    Join(GroupTexts(m), " ")
  }

  function MeasureTexts(piece: Merge.Piece): (ts: seq<string>)
    ensures |ts| == |piece|
  {
    seq(|piece|, i requires 0 <= i < |piece| => MeasureText(piece[i]))
  }

  /** The whole rendering: the space after a note, a group or a measure is left out after the last one. */
  function Render(piece: Merge.Piece): string
  {
    Join(MeasureTexts(piece), " ")
  }

  /** The nested `each.with_index` loops of `strum_evaluate`: measures, then groups, then notes. */
  method StrumEvaluate(piece: Merge.Piece) returns (result: string)
    ensures result == Render(piece)
  {
    result := "";
    var i := 0;
    while i < |piece|
      invariant 0 <= i <= |piece|
      invariant result == JoinPrefix(MeasureTexts(piece), i, " ")
    {
      ghost var before := result;
      result := EvaluateMeasure(result, piece[i]);
      if i + 1 < |piece| {
        result := result + " ";
      }
      assert result == before + MeasureTexts(piece)[i] + Sep(i, |piece|);
      JoinPrefixStep(MeasureTexts(piece), i, " ");
      i := i + 1;
    }
    JoinPrefixAll(MeasureTexts(piece), " ");
  }

  /** The loop over the groups of one measure, appending to `result`. */
  method EvaluateMeasure(start: string, measure: Merge.Measure) returns (result: string)
    ensures result == start + MeasureText(measure)
  {
    result := start;
    var j := 0;
    assert result == start + JoinPrefix(GroupTexts(measure), 0, " ");
    while j < |measure|
      invariant 0 <= j <= |measure|
      invariant result == start + JoinPrefix(GroupTexts(measure), j, " ")
    {
      result := EvaluateGroup(result, measure[j]);
      ghost var r := result;
      if j + 1 < |measure| {
        result := result + " ";
      }
      assert result == r + Sep(j, |measure|);
      MeasureLoopStep(start, measure, j);
      j := j + 1;
    }
    JoinPrefixAll(GroupTexts(measure), " ");
  }

  /** One turn of the loop over groups: group `j`'s text and its separator extend the join. */
  lemma MeasureLoopStep(start: string, measure: Merge.Measure, j: nat)
    requires j < |measure|
    ensures start + JoinPrefix(GroupTexts(measure), j, " ") + GroupText(measure[j]) + Sep(j, |measure|) ==
      start + JoinPrefix(GroupTexts(measure), j + 1, " ")
  {
    assert GroupTexts(measure)[j] == GroupText(measure[j]);
    PrefixStep(start, GroupTexts(measure), j);
  }

  /** The loop over the notes of one group, appending to `result`. */
  method EvaluateGroup(start: string, beat: Merge.Group) returns (result: string)
    ensures result == start + GroupText(beat)
  {
    result := start;
    var k := 0;
    assert result == start + JoinPrefix(GroupTokens(beat), 0, " ");
    while k < |beat|
      invariant 0 <= k <= |beat|
      invariant result == start + JoinPrefix(GroupTokens(beat), k, " ")
    {
      ghost var before := result;
      result := EvaluateNote(result, beat, k);
      assert result == before + Token(beat, k) + Sep(k, |beat|);
      assert GroupTokens(beat)[k] == Token(beat, k);
      PrefixStep(start, GroupTokens(beat), k);
      k := k + 1;
    }
    JoinPrefixAll(GroupTokens(beat), " ");
  }

  /** The body of the innermost loop: the appends for note `k`, in the order `strum_evaluate` makes them. */
  method EvaluateNote(start: string, beat: Merge.Group, k: nat) returns (result: string)
    requires k < |beat|
    ensures result == start + Token(beat, k) + Sep(k, |beat|)
  {
    var note := beat[k];
    result := start;
    if IsTuplet(note.level) && k == 0 {
      result := result + TupletOpen;
    }
    assert result == start + OpenMark(beat, k);
    result := result + (if note.direction == Rest then "r" else "c");
    result := result + LevelCode(note.level);
    ghost var r1 := result;
    if note.tie {
      result := result + "~";
    }
    assert result == r1 + TieMark(note);
    ghost var r2 := result;
    if note.direction == Downward {
      result := result + "\\downbow";
    }
    assert result == r2 + DownMark(note);
    ghost var r3 := result;
    if note.direction == Upward {
      result := result + "\\upbow";
    }
    assert result == r3 + UpMark(note);
    ghost var r4 := result;
    if k + 1 < |beat| {
      result := result + " ";
    }
    assert result == r4 + Sep(k, |beat|);
    ghost var r5 := result;
    if IsTuplet(note.level) && k == |beat| - 1 {
      result := result + TupletClose;
    }
    assert result == r5 + CloseMark(beat, k);
    ChunkIsToken(start, beat, k);
  }

  lemma Assoc(a: string, b: string, c: string)
    ensures a + b + c == a + (b + c)
  {
  }

  /** Appending an element and its separator to the text built so far. */
  lemma AppendStep(base: string, built: string, x: string, sep: string)
    ensures base + built + x + sep == base + (built + x + sep)
  {
    Assoc(base + built, x, sep);
    Assoc(base, built, x + sep);
    Assoc(built, x, sep);
  }

  /** One more element and its separator extend the joined prefix by one. */
  lemma PrefixStep(base: string, xs: seq<string>, n: nat)
    requires n < |xs|
    ensures base + JoinPrefix(xs, n, " ") + xs[n] + Sep(n, |xs|) == base + JoinPrefix(xs, n + 1, " ")
  {
    AppendStep(base, JoinPrefix(xs, n, " "), xs[n], Sep(n, |xs|));
    JoinPrefixStep(xs, n, " ");
  }

  /** The pieces `strum_evaluate` appends for note `k`, in its order, make up the token and its separator. */
  lemma ChunkIsToken(pre: string, g: Merge.Group, k: nat)
    requires k < |g|
    ensures var n := g[k];
      pre + OpenMark(g, k) + RestMark(n) + LevelCode(n.level) + TieMark(n) + DownMark(n) + UpMark(n) +
      Sep(k, |g|) + CloseMark(g, k) == pre + Token(g, k) + Sep(k, |g|)
  {
    var n := g[k];
    var o, t, s, c := OpenMark(g, k), NoteText(n), Sep(k, |g|), CloseMark(g, k);
    var x := pre + o + RestMark(n) + LevelCode(n.level) + TieMark(n) + DownMark(n) + UpMark(n);
    assert x == pre + o + t by {
      var r, l, ti, d := RestMark(n), LevelCode(n.level), TieMark(n), DownMark(n);
      Assoc(pre + o, r, l);
      Assoc(pre + o, r + l, ti);
      Assoc(pre + o, r + l + ti, d);
      Assoc(pre + o, r + l + ti + d, UpMark(n));
    }
    assert x + s + c == x + c + s by {
      if k + 1 < |g| {
        assert c == "";
        assert x + s + "" == x + s;
        assert x + "" == x;
      } else {
        assert s == "";
        assert x + "" + c == x + c;
        assert x + c + "" == x + c;
      }
    }
    Assoc(pre, o, t);
    Assoc(pre, o + t, c);
  }

  predicate StartsWith(s: string, p: string)
  {
    |p| <= |s| && s[..|p|] == p
  }

  predicate EndsWith(s: string, p: string)
  {
    |p| <= |s| && s[|s| - |p|..] == p
  }

  /** Only a sextuplet is rendered without a duration code. */
  lemma LevelCodeEmptyIff(l: Level)
    ensures LevelCode(l) == "" <==> l == Sextuplet
  {
  }

  /** A note's text starts with `r` exactly for a rest, and otherwise with `c`. */
  lemma NoteTextRest(n: Note)
    ensures |NoteText(n)| > 0
    ensures NoteText(n)[0] == 'r' <==> n.direction == Rest
    ensures NoteText(n)[0] == 'c' <==> n.direction != Rest
  {
    var x := LevelCode(n.level) + TieMark(n) + DownMark(n) + UpMark(n);
    assert NoteText(n) == RestMark(n) + x by {
      Assoc(RestMark(n), LevelCode(n.level), TieMark(n));
      Assoc(RestMark(n), LevelCode(n.level) + TieMark(n), DownMark(n));
      Assoc(RestMark(n), LevelCode(n.level) + TieMark(n) + DownMark(n), UpMark(n));
    }
  }

  /** A tie marker appears in a note's text exactly when the note is tied. */
  lemma NoteTextTie(n: Note)
    ensures '~' in NoteText(n) <==> n.tie
  {
    var r, l, t, d, u := RestMark(n), LevelCode(n.level), TieMark(n), DownMark(n), UpMark(n);
    assert '~' !in r && '~' !in l && '~' !in d && '~' !in u;
    assert '~' in t <==> n.tie;
    ConcatMember('~', r, l);
    ConcatMember('~', r + l, t);
    ConcatMember('~', r + l + t, d);
    ConcatMember('~', r + l + t + d, u);
  }

  lemma ConcatMember(c: char, a: string, b: string)
    ensures c in a + b <==> c in a || c in b
  {
    if c in a {
      var i :| 0 <= i < |a| && a[i] == c;
      assert (a + b)[i] == c;
    }
    if c in b {
      var i :| 0 <= i < |b| && b[i] == c;
      assert (a + b)[|a| + i] == c;
    }
  }

  /** A note's text ends with the downward bow marker exactly for a downward stroke, and likewise upward. */
  lemma NoteTextBow(n: Note)
    ensures EndsWith(NoteText(n), "\\downbow") <==> n.direction == Downward
    ensures EndsWith(NoteText(n), "\\upbow") <==> n.direction == Upward
  {
    var x := RestMark(n) + LevelCode(n.level) + TieMark(n);
    assert NoteText(n) == x + DownMark(n) + UpMark(n);
    NoteTextLast(n);
    var t := NoteText(n);
    if n.direction == Downward {
      assert UpMark(n) == "";
      assert t == x + "\\downbow";
      SuffixOfConcat(x, "\\downbow");
      if EndsWith(t, "\\upbow") {
        SuffixesAgree(t, "\\downbow", "\\upbow");
        assert false;
      }
    } else if n.direction == Upward {
      assert DownMark(n) == "";
      assert t == x + "" + "\\upbow";
      SuffixOfConcat(x + "", "\\upbow");
      if EndsWith(t, "\\downbow") {
        SuffixesAgree(t, "\\downbow", "\\upbow");
        assert false;
      }
    } else {
      assert t[|t| - 1] != 'w';
      assert !EndsWith(t, "\\downbow");
      assert !EndsWith(t, "\\upbow");
    }
  }

  /** The last character of a note's text: never a closing brace, and `w` exactly when there is a bow marker. */
  lemma NoteTextLast(n: Note)
    ensures |NoteText(n)| > 0
    ensures NoteText(n)[|NoteText(n)| - 1] != '}'
    ensures NoteText(n)[|NoteText(n)| - 1] == 'w' <==> n.direction == Downward || n.direction == Upward
  {
    var r, l, t, d, u := RestMark(n), LevelCode(n.level), TieMark(n), DownMark(n), UpMark(n);
    var s := NoteText(n);
    if u != "" {
      LastOfConcat(r + l + t + d, u);
    } else if d != "" {
      assert s == r + l + t + d;
      LastOfConcat(r + l + t, d);
    } else if t != "" {
      assert s == r + l + t;
      LastOfConcat(r + l, t);
    } else if l != "" {
      assert s == r + l;
      LastOfConcat(r, l);
    } else {
      assert s == r;
    }
  }

  lemma SuffixesAgree(t: string, a: string, b: string)
    requires EndsWith(t, a) && EndsWith(t, b) && |b| <= |a|
    ensures a[|a| - |b|..] == b
  {
    assert a[|a| - |b|..] == t[|t| - |b|..];
  }

  lemma SuffixOfConcat(a: string, b: string)
    ensures EndsWith(a + b, b)
  {
    assert (a + b)[|a|..] == b;
  }

  lemma LastOfConcat(a: string, b: string)
    requires |b| > 0
    ensures (a + b)[|a + b| - 1] == b[|b| - 1]
  {
  }

  /** A token opens a tuplet exactly when it is the first note of its group and that note has a tuplet level. */
  lemma TokenOpensIff(g: Merge.Group, k: nat)
    requires k < |g|
    ensures StartsWith(Token(g, k), TupletOpen) <==> k == 0 && IsTuplet(g[k].level)
  {
    var o, t, c := OpenMark(g, k), NoteText(g[k]), CloseMark(g, k);
    var x := Token(g, k);
    if o == TupletOpen {
      assert x == o + (t + c);
      assert x[..|o|] == o;
    } else {
      NoteTextRest(g[k]);
      assert x == t + c;
      assert x[0] == t[0];
      NoOpenAhead(x);
    }
  }

  /** A text that begins with a note's `r` or `c` does not begin with a tuplet opening. */
  lemma NoOpenAhead(x: string)
    requires |x| > 0 && (x[0] == 'r' || x[0] == 'c')
    ensures !StartsWith(x, TupletOpen)
  {
    if |TupletOpen| <= |x| {
      assert x[..|TupletOpen|][0] == x[0] != TupletOpen[0];
    }
  }

  /** A token closes a tuplet exactly when it is the last note of its group and that note has a tuplet level. */
  lemma TokenClosesIff(g: Merge.Group, k: nat)
    requires k < |g|
    ensures EndsWith(Token(g, k), TupletClose) <==> k == |g| - 1 && IsTuplet(g[k].level)
  {
    var o, t, c := OpenMark(g, k), NoteText(g[k]), CloseMark(g, k);
    var x := Token(g, k);
    NoteTextLast(g[k]);
    if c == TupletClose {
      assert x[|x| - 2..] == c;
    } else {
      assert c == "";
      assert x == o + t;
      LastOfConcat(o, t);
    }
  }

  /** The first character of a token: the tuplet opening's, or else the note's `r` or `c`. */
  lemma TokenFirst(g: Merge.Group, k: nat)
    requires k < |g|
    ensures |Token(g, k)| > 0
    ensures !(k == 0 && IsTuplet(g[k].level)) ==> Token(g, k)[0] == NoteText(g[k])[0]
  {
    NoteTextRest(g[k]);
    if !(k == 0 && IsTuplet(g[k].level)) {
      assert Token(g, k) == NoteText(g[k]) + CloseMark(g, k);
    }
  }

  /** The last character of a token: the tuplet closing's, or else the note's own. */
  lemma TokenLast(g: Merge.Group, k: nat)
    requires k < |g|
    ensures |Token(g, k)| > 0
    ensures !(k == |g| - 1 && IsTuplet(g[k].level)) ==> Token(g, k)[|Token(g, k)| - 1] != '}'
  {
    NoteTextLast(g[k]);
    if !(k == |g| - 1 && IsTuplet(g[k].level)) {
      LastOfConcat(OpenMark(g, k), NoteText(g[k]));
      assert Token(g, k) == OpenMark(g, k) + NoteText(g[k]);
    }
  }

  /** A group's text opens a tuplet exactly when its first note has a tuplet level, whatever its last note has. */
  lemma GroupOpensIff(g: Merge.Group)
    requires |g| > 0
    ensures StartsWith(GroupText(g), TupletOpen) <==> IsTuplet(g[0].level)
  {
    var ts := GroupTokens(g);
    JoinFirst(ts, " ");
    var t0, y := ts[0], GroupText(g);
    assert t0 == Token(g, 0);
    TokenOpensIff(g, 0);
    TokenFirst(g, 0);
    NoteTextRest(g[0]);
    PrefixOfPrefix(y, t0, TupletOpen);
  }

  /** When `t` begins `y`: whatever begins `t` begins `y`, and otherwise their first characters agree. */
  lemma PrefixOfPrefix(y: string, t: string, p: string)
    requires StartsWith(y, t) && |t| > 0 && |p| > 0
    ensures StartsWith(t, p) ==> StartsWith(y, p)
    ensures y[0] == t[0]
    ensures StartsWith(y, p) ==> y[0] == p[0]
  {
    assert y[0] == y[..|t|][0];
    if StartsWith(t, p) {
      assert y[..|t|][..|p|] == y[..|p|];
    }
    if StartsWith(y, p) {
      assert y[..|p|][0] == y[0];
    }
  }

  /** A group's text closes a tuplet exactly when its last note has a tuplet level, whatever its first note has. */
  lemma GroupClosesIff(g: Merge.Group)
    requires |g| > 0
    ensures EndsWith(GroupText(g), TupletClose) <==> IsTuplet(g[|g| - 1].level)
  {
    var ts := GroupTokens(g);
    JoinLast(ts, " ");
    var tl, y := ts[|ts| - 1], GroupText(g);
    assert tl == Token(g, |g| - 1);
    TokenClosesIff(g, |g| - 1);
    TokenLast(g, |g| - 1);
    SuffixOfSuffix(y, tl, TupletClose);
  }

  /** When `t` ends `y`: whatever ends `t` ends `y`, and otherwise their last characters agree. */
  lemma SuffixOfSuffix(y: string, t: string, p: string)
    requires EndsWith(y, t) && |t| > 0 && |p| > 0
    ensures EndsWith(t, p) ==> EndsWith(y, p)
    ensures y[|y| - 1] == t[|t| - 1]
    ensures EndsWith(y, p) ==> y[|y| - 1] == p[|p| - 1]
  {
    var d := |y| - |t|;
    assert y[|y| - 1] == y[d..][|t| - 1];
    if EndsWith(t, p) {
      assert y[|y| - |p|..] == y[d..][|t| - |p|..];
    }
    if EndsWith(y, p) {
      assert y[|y| - |p|..][|p| - 1] == y[|y| - 1];
    }
  }

  /** The tokens of a measure in reading order, one per note. */
  function MeasureTokens(m: Merge.Measure): (ts: seq<string>)
    ensures |ts| == |Merge.Flatten(m)|
    decreases |m|
  {
    if |m| == 0 then [] else MeasureTokens(m[..|m| - 1]) + GroupTokens(m[|m| - 1])
  }

  /** The notes of a piece in reading order. */
  function PieceNotes(piece: Merge.Piece): seq<Note>
    decreases |piece|
  {
    if |piece| == 0 then [] else PieceNotes(piece[..|piece| - 1]) + Merge.Flatten(piece[|piece| - 1])
  }

  /** The tokens of a piece in reading order, one per note. */
  function PieceTokens(piece: Merge.Piece): (ts: seq<string>)
    ensures |ts| == |PieceNotes(piece)|
    decreases |piece|
  {
    if |piece| == 0 then [] else PieceTokens(piece[..|piece| - 1]) + MeasureTokens(piece[|piece| - 1])
  }

  /** Every measure has a group and every group a note, as after merging. */
  predicate Populated(piece: Merge.Piece)
  {
    forall i :: 0 <= i < |piece| ==> |piece[i]| > 0 && Merge.AllNonEmpty(piece[i])
  }

  /** Without empty groups, a measure's text is its tokens separated by single spaces. */
  lemma {:induction false} MeasureTextIsTokens(m: Merge.Measure)
    requires |m| > 0 && Merge.AllNonEmpty(m)
    ensures MeasureText(m) == Join(MeasureTokens(m), " ")
    decreases |m|
  {
    var m', g := m[..|m| - 1], m[|m| - 1];
    if |m| == 1 {
      assert MeasureTokens(m) == GroupTokens(g);
    } else {
      MeasureTextIsTokens(m');
      MeasureTextSnoc(m);
      JoinAppend(MeasureTokens(m'), GroupTokens(g), " ");
    }
  }

  /** Without empty measures or groups, the whole rendering is the tokens separated by single spaces. */
  lemma {:induction false} RenderIsTokens(piece: Merge.Piece)
    requires |piece| > 0 && Populated(piece)
    ensures Render(piece) == Join(PieceTokens(piece), " ")
    decreases |piece|
  {
    var p', m := piece[..|piece| - 1], piece[|piece| - 1];
    assert |m| > 0 && Merge.AllNonEmpty(m);
    MeasureTextIsTokens(m);
    if |piece| == 1 {
      assert PieceTokens(piece) == MeasureTokens(m);
    } else {
      assert Populated(p') by {
        forall i | 0 <= i < |p'| ensures |p'[i]| > 0 && Merge.AllNonEmpty(p'[i]) {
          assert p'[i] == piece[i];
        }
      }
      RenderIsTokens(p');
      RenderSnoc(piece);
      TokensNonEmpty(p');
      TokensNonEmpty([m]);
      assert PieceTokens([m]) == MeasureTokens(m) by {
        assert [m][..0] == [];
      }
      JoinAppend(PieceTokens(p'), MeasureTokens(m), " ");
    }
  }

  /** One more group: the measure's text goes on after one more space. */
  lemma MeasureTextSnoc(m: Merge.Measure)
    requires |m| > 1
    ensures MeasureText(m) == MeasureText(m[..|m| - 1]) + " " + GroupText(m[|m| - 1])
  {
    assert GroupTexts(m)[..|m| - 1] == GroupTexts(m[..|m| - 1]);
  }

  /** One more measure: the rendering goes on after one more space. */
  lemma RenderSnoc(piece: Merge.Piece)
    requires |piece| > 1
    ensures Render(piece) == Render(piece[..|piece| - 1]) + " " + MeasureText(piece[|piece| - 1])
  {
    assert MeasureTexts(piece)[..|piece| - 1] == MeasureTexts(piece[..|piece| - 1]);
  }

  lemma TokensNonEmpty(piece: Merge.Piece)
    requires |piece| > 0 && Populated(piece)
    ensures |PieceTokens(piece)| > 0
  {
    var m := piece[|piece| - 1];
    assert |m| > 0 && |m[|m| - 1]| > 0;
    assert |MeasureTokens(m)| >= |GroupTokens(m[|m| - 1])|;
  }
}

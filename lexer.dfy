/** `lex_measure`: splitting one measure's pattern on `-`. */
module Lexer {
  import opened Outcome
  import opened Strings

  /** The characters the lexer accepts inside a group (it accepts lower case, the parser does not). */
  predicate IsGroupChar(c: char)
  {
    c in "DdUuRr_"
  }

  /** A character the lexer lets through: a group character or the separator. */
  predicate IsLexChar(c: char)
  {
    c == '-' || IsGroupChar(c)
  }

  function CountDashes(s: string): nat
  {
    if |s| == 0 then 0 else CountDashes(s[..|s| - 1]) + (if s[|s| - 1] == '-' then 1 else 0)
  }

  /** The groups of `s`, read left to right; the last group is appended even when empty. */
  function Lex(s: string): (r: Result<seq<string>>)
    ensures r.Ok? ==> |r.value| == CountDashes(s) + 1
    ensures r.Err? ==> r.error.LexError? && 1 <= r.error.position <= |s| && !IsLexChar(r.error.ch)
    decreases |s|
  {
    if |s| == 0 then Ok([""])
    else
      match Lex(s[..|s| - 1])
      case Err(e) => Err(e)
      case Ok(gs) =>
        var c := s[|s| - 1];
        if c == '-' then Ok(gs + [""])
        else if IsGroupChar(c) then Ok(gs[..|gs| - 1] + [gs[|gs| - 1] + [c]])
        else Err(LexError(|s|, c))
  }

  /** Joining the groups with `-` gives back the measure, and no group holds a `-` or a foreign character. */
  lemma LexRoundTrip(s: string)
    requires Lex(s).Ok?
    ensures Join(Lex(s).value, "-") == s
    ensures forall g :: g in Lex(s).value ==> forall c :: c in g ==> IsGroupChar(c)
  {
    LexJoinBack(s);
    LexGroupChars(s);
  }

  lemma {:induction false} LexJoinBack(s: string)
    requires Lex(s).Ok?
    ensures Join(Lex(s).value, "-") == s
    decreases |s|
  {
    if |s| > 0 {
      LexJoinBack(s[..|s| - 1]);
      LexJoinBackStep(s);
    }
  }

  lemma LexJoinBackStep(s: string)
    requires |s| > 0 && Lex(s).Ok?
    requires Lex(s[..|s| - 1]).Ok? && Join(Lex(s[..|s| - 1]).value, "-") == s[..|s| - 1]
    ensures Join(Lex(s).value, "-") == s
  {
    var s', c := s[..|s| - 1], s[|s| - 1];
    FrontLast(s);
    LexSnoc(s', c);
    assert IsLexChar(c) by {
      assert Lex(s' + [c]).Ok?;
    }
    JoinBackSnoc(s', Lex(s').value, c);
  }

  /** Lexing one more character after a prefix that lexes. */
  lemma LexSnoc(t: string, c: char)
    requires Lex(t).Ok?
    ensures var gs := Lex(t).value;
      Lex(t + [c]) == if c == '-' then Ok(gs + [""])
        else if IsGroupChar(c) then Ok(gs[..|gs| - 1] + [gs[|gs| - 1] + [c]])
        else Err(LexError(|t| + 1, c))
  {
    assert (t + [c])[..|t|] == t;
  }

  lemma JoinBackSnoc(t: string, gs: seq<string>, c: char)
    requires |gs| > 0 && Join(gs, "-") == t && IsLexChar(c)
    ensures Join(if c == '-' then gs + [""] else gs[..|gs| - 1] + [gs[|gs| - 1] + [c]], "-") == t + [c]
  {
    if c == '-' {
      JoinSnoc(gs, "", "-");
    } else {
      JoinExtendLast(gs, [c], "-");
    }
  }

  lemma {:induction false} LexGroupChars(s: string)
    requires Lex(s).Ok?
    ensures forall g :: g in Lex(s).value ==> forall c :: c in g ==> IsGroupChar(c)
    decreases |s|
  {
    if |s| > 0 {
      var s' := s[..|s| - 1];
      var gs := Lex(s').value;
      LexGroupChars(s');
      var c := s[|s| - 1];
      if c == '-' {
        assert Lex(s).value == gs + [""];
        forall g | g in gs + [""] ensures forall c' :: c' in g ==> IsGroupChar(c') {
          if g != "" {
            assert g in gs;
          }
        }
      } else {
        var n := |gs| - 1;
        assert IsGroupChar(c) && Lex(s).value == gs[..n] + [gs[n] + [c]];
        ExtendGroupChars(gs, c);
      }
    }
  }

  lemma ExtendGroupChars(gs: seq<string>, c: char)
    requires |gs| > 0 && IsGroupChar(c)
    requires forall g :: g in gs ==> forall c' :: c' in g ==> IsGroupChar(c')
    ensures var n := |gs| - 1; forall g :: g in gs[..n] + [gs[n] + [c]] ==> forall c' :: c' in g ==> IsGroupChar(c')
  {
    var n := |gs| - 1;
    var last := gs[n];
    assert last in gs;
    assert forall c' :: c' in last + [c] ==> c' in last || c' == c;
    forall g | g in gs[..n] ensures g in gs {
      var i :| 0 <= i < n && gs[..n][i] == g;
      assert gs[i] == g;
    }
  }

  /** A failure in a prefix is the failure of the whole measure. */
  lemma {:induction false} LexPrefixError(s: string, n: nat)
    requires n <= |s| && Lex(s[..n]).Err?
    ensures Lex(s) == Lex(s[..n])
    decreases |s| - n
  {
    if n < |s| {
      var s' := s[..|s| - 1];
      assert s'[..n] == s[..n];
      LexPrefixError(s', n);
    } else {
      assert s[..n] == s;
    }
  }

  /** Lexing succeeds exactly when every character is a group character or `-`. */
  lemma {:induction false} LexOkIff(s: string)
    ensures Lex(s).Ok? <==> forall i :: 0 <= i < |s| ==> IsLexChar(s[i])
    decreases |s|
  {
    if |s| > 0 {
      var s' := s[..|s| - 1];
      LexOkIff(s');
      assert forall i :: 0 <= i < |s'| ==> s'[i] == s[i];
    }
  }

  /** A failure names the 1-based position of the first foreign character, and that character. */
  lemma {:induction false} LexErrorIsFirstForeign(s: string)
    requires Lex(s).Err?
    ensures Lex(s).error.LexError?
    ensures 1 <= Lex(s).error.position <= |s|
    ensures s[Lex(s).error.position - 1] == Lex(s).error.ch && !IsLexChar(Lex(s).error.ch)
    ensures forall i :: 0 <= i < Lex(s).error.position - 1 ==> IsLexChar(s[i])
    decreases |s|
  {
    var s' := s[..|s| - 1];
    if Lex(s').Err? {
      LexErrorIsFirstForeign(s');
    } else {
      LexOkIff(s');
      assert forall i :: 0 <= i < |s'| ==> s'[i] == s[i];
    }
  }

  /** Group characters after a successful prefix extend its last group. */
  lemma {:induction false} LexExtend(s: string, front: seq<string>, last: string, g: string)
    requires Lex(s) == Ok(front + [last]) && forall c :: c in g ==> IsGroupChar(c)
    ensures Lex(s + g) == Ok(front + [last + g])
    decreases |g|
  {
    if |g| == 0 {
      assert s + g == s && last + g == last;
    } else {
      var g', c := g[..|g| - 1], g[|g| - 1];
      assert g == g' + [c];
      assert IsGroupChar(c) && forall c' :: c' in g' ==> c' in g;
      LexExtend(s, front, last, g');
      LexExtendMore(s, g', front, last, c);
    }
  }

  lemma LexExtendMore(s: string, g: string, front: seq<string>, last: string, c: char)
    requires Lex(s + g) == Ok(front + [last + g]) && IsGroupChar(c)
    ensures Lex(s + (g + [c])) == Ok(front + [last + (g + [c])])
  {
    LexExtendStep(s + g, front, last + g, c);
    assert (s + g) + [c] == s + (g + [c]) && (last + g) + [c] == last + (g + [c]);
  }

  lemma LexExtendStep(t: string, front: seq<string>, last: string, c: char)
    requires Lex(t) == Ok(front + [last]) && IsGroupChar(c)
    ensures Lex(t + [c]) == Ok(front + [last + [c]])
  {
    var u := t + [c];
    assert u[..|u| - 1] == t;
    LexLastGroupChar(u);
    var gs := front + [last];
    assert gs[..|gs| - 1] == front && gs[|gs| - 1] == last;
  }

  /** A group character ending a string extends the last group of the string before it. */
  lemma LexLastGroupChar(s: string)
    requires |s| > 0 && Lex(s[..|s| - 1]).Ok? && IsGroupChar(s[|s| - 1])
    ensures var gs := Lex(s[..|s| - 1]).value; Lex(s) == Ok(gs[..|gs| - 1] + [gs[|gs| - 1] + [s[|s| - 1]]])
  {
  }

  /** The converse of `LexRoundTrip`: lexing the `-`-join of groups of group characters gives them back. */
  lemma {:induction false} LexOfJoin(gs: seq<string>)
    requires |gs| > 0 && forall g :: g in gs ==> forall c :: c in g ==> IsGroupChar(c)
    ensures Lex(Join(gs, "-")) == Ok(gs)
    decreases |gs|
  {
    var n := |gs| - 1;
    assert gs[n] in gs;
    if n == 0 {
      LexOfOne(gs[0]);
      assert [gs[0]] == gs;
    } else {
      var gs' := gs[..n];
      assert forall g :: g in gs' ==> g in gs;
      LexOfJoin(gs');
      LexOfJoinStep(gs);
    }
  }

  lemma LexOfOne(g: string)
    requires forall c :: c in g ==> IsGroupChar(c)
    ensures Lex(g) == Ok([g])
  {
    var none: seq<string> := [];
    assert Lex("") == Ok([""]) && none + [""] == [""];
    LexExtend("", none, "", g);
    assert "" + g == g && none + [g] == [g];
  }

  lemma LexOfJoinStep(gs: seq<string>)
    requires |gs| > 1 && forall c :: c in gs[|gs| - 1] ==> IsGroupChar(c)
    requires Lex(Join(gs[..|gs| - 1], "-")) == Ok(gs[..|gs| - 1])
    ensures Lex(Join(gs, "-")) == Ok(gs)
  {
    var n := |gs| - 1;
    var front, x := gs[..n], Join(gs[..n], "-");
    FrontLast(gs);
    assert "" + gs[n] == gs[n];
    assert Join(gs, "-") == x + "-" + gs[n];
    LexDash(x);
    LexExtend(x + "-", front, "", gs[n]);
  }

  /** A dash after a successful prefix starts a new, empty group. */
  lemma LexDash(t: string)
    requires Lex(t).Ok?
    ensures Lex(t + "-") == Ok(Lex(t).value + [""])
  {
    assert (t + "-")[..|t|] == t;
  }

  /** The `while i` loop of `lex_measure`. */
  method LexMeasure(measure: string) returns (r: Result<seq<string>>)
    ensures r == Lex(measure)
  {
    var noteStrings: seq<string> := [];
    var noteString := "";
    var i := 0;
    assert measure[..0] == [] && noteStrings + [noteString] == [""];
    while i < |measure|
      invariant 0 <= i <= |measure|
      invariant Lex(measure[..i]) == Ok(noteStrings + [noteString])
    {
      var c := measure[i];
      assert measure[..i + 1][..i] == measure[..i];
      if c == '-' {
        noteStrings := noteStrings + [noteString];
        noteString := "";
      } else if IsGroupChar(c) {
        assert (noteStrings + [noteString])[..|noteStrings|] == noteStrings;
        noteString := noteString + [c];
      } else {
        LexPrefixError(measure, i + 1);
        return Err(LexError(i + 1, c));
      }
      i := i + 1;
    }
    assert measure[..i] == measure;
    r := Ok(noteStrings + [noteString]);
  }
}

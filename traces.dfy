/** Worked examples: measure strings taken through the whole command, each stage stated on its own. */
module Traces {
  import opened Outcome
  import opened Notes
  import Strings
  import Lexer
  import Parser
  import Merge
  import Evaluator
  import Meter
  import opened Pipeline

  // ---------------------------------------------------------------------------------------------
  // Shapes shared by the examples

  /** A measure of one group of lexer characters lexes to that group. */
  lemma LexOne(a: string)
    requires forall c :: c in a ==> Lexer.IsGroupChar(c)
    ensures Lexer.Lex(a) == Ok([a])
  {
    Lexer.LexOfJoin([a]);
  }

  /** Two groups of lexer characters joined by one dash lex back to those two groups. */
  lemma LexTwo(a: string, b: string)
    requires forall c :: c in a ==> Lexer.IsGroupChar(c)
    requires forall c :: c in b ==> Lexer.IsGroupChar(c)
    ensures Lexer.Lex(a + "-" + b) == Ok([a, b])
  {
    var gs := [a, b];
    assert Strings.Join(gs, "-") == a + "-" + b by {
      assert gs[..1] == [a];
    }
    Lexer.LexOfJoin(gs);
  }

  lemma MeasureTokensSnoc(m: Merge.Measure, g: Merge.Group)
    ensures Evaluator.MeasureTokens(m + [g]) == Evaluator.MeasureTokens(m) + Evaluator.GroupTokens(g)
  {
    assert (m + [g])[..|m|] == m;
  }

  lemma PieceTokensOne(m: Merge.Measure)
    ensures Evaluator.PieceTokens([m]) == Evaluator.MeasureTokens(m)
  {
    assert [m][..0] == [];
  }

  lemma PieceTokens1(a: Merge.Group)
    ensures Evaluator.PieceTokens([[a]]) == Evaluator.GroupTokens(a)
  {
    var none: Merge.Measure := [];
    MeasureTokensSnoc(none, a);
    assert none + [a] == [a];
    PieceTokensOne([a]);
  }

  lemma PieceTokens2(a: Merge.Group, b: Merge.Group)
    ensures Evaluator.PieceTokens([[a, b]]) == Evaluator.GroupTokens(a) + Evaluator.GroupTokens(b)
  {
    PieceTokens1(a);
    PieceTokensOne([a]);
    MeasureTokensSnoc([a], b);
    assert [a] + [b] == [a, b];
    PieceTokensOne([a, b]);
  }

  lemma PieceTokens3(a: Merge.Group, b: Merge.Group, c: Merge.Group)
    ensures Evaluator.PieceTokens([[a, b, c]]) == Evaluator.GroupTokens(a) + Evaluator.GroupTokens(b) + Evaluator.GroupTokens(c)
  {
    PieceTokens2(a, b);
    PieceTokensOne([a, b]);
    MeasureTokensSnoc([a, b], c);
    assert [a, b] + [c] == [a, b, c];
    PieceTokensOne([a, b, c]);
  }

  lemma PieceTokens4(a: Merge.Group, b: Merge.Group, c: Merge.Group, d: Merge.Group)
    ensures Evaluator.PieceTokens([[a, b, c, d]]) ==
      Evaluator.GroupTokens(a) + Evaluator.GroupTokens(b) + Evaluator.GroupTokens(c) + Evaluator.GroupTokens(d)
  {
    PieceTokens3(a, b, c);
    PieceTokensOne([a, b, c]);
    MeasureTokensSnoc([a, b, c], d);
    assert [a, b, c] + [d] == [a, b, c, d];
    PieceTokensOne([a, b, c, d]);
  }

  /** A group of one note outside the tuplets renders as that note alone. */
  lemma SingleTokens(n: Note)
    requires !Evaluator.IsTuplet(n.level)
    ensures Evaluator.GroupTokens([n]) == [Evaluator.NoteText(n)]
  {
    assert Evaluator.OpenMark([n], 0) == "" && Evaluator.CloseMark([n], 0) == "";
    assert "" + Evaluator.NoteText(n) + "" == Evaluator.NoteText(n);
    assert Evaluator.GroupTokens([n])[0] == Evaluator.Token([n], 0);
  }

  /** Gluing the stages of one single-measure command together. */
  lemma CompileOne(s: string, m0: Merge.Measure, m1: Merge.Measure, time: string, tokens: seq<string>)
    requires Merge.MeasureFrom(s) == Ok(m0) && Merge.MergeMeasure(m0) == m1
    requires Meter.Signature([m1]) == time && Evaluator.PieceTokens([m1]) == tokens
    ensures Compile([s]) == Ok(Score(time, Strings.Join(tokens, " ")))
  {
    Merge.PieceFromOne(s);
    assert Merge.MergeAll([m0]) == [m1];
    CompileSpec([s]);
  }

  /** Gluing the stages of a single-measure command that fails. */
  lemma CompileOneErr(s: string, e: Error)
    requires Merge.MeasureFrom(s) == Err(e)
    ensures Compile([s]) == Err(e)
  {
    Merge.PieceFromOne(s);
  }

  // ---------------------------------------------------------------------------------------------
  // "D-D-D-_": the trailing extension joins the quarter before it across the group boundary.

  lemma QuartersMeasure()
    ensures Merge.MeasureFrom("D-D-D-_") ==
      Ok([[Note(Quarter, Downward, false)], [Note(Quarter, Downward, false)], [Note(Quarter, Downward, false)], [Note(Quarter, Extension, false)]])
  {
    QuartersLex();
    QuartersParse();
  }

  lemma QuartersLex()
    ensures Lexer.Lex("D-D-D-_") == Ok(["D", "D", "D", "_"])
  {
    var gs := ["D", "D", "D", "_"];
    assert Strings.Join(gs, "-") == "D-D-D-_" by {
      assert gs[..3][..2][..1] == ["D"];
      assert gs[..3][..2] == ["D", "D"];
      assert gs[..3] == ["D", "D", "D"];
    }
    assert forall g :: g in gs ==> g == "D" || g == "_";
    Lexer.LexOfJoin(gs);
  }

  lemma QuartersParse()
    ensures Parser.MeasureOf(["D", "D", "D", "_"]) ==
      Ok([[Note(Quarter, Downward, false)], [Note(Quarter, Downward, false)], [Note(Quarter, Downward, false)], [Note(Quarter, Extension, false)]])
  {
    var gs := ["D", "D", "D", "_"];
    Parser.GroupOfValid("D");
    Parser.GroupOfValid("_");
    assert Parser.GroupOf("D").value == [Note(Quarter, Downward, false)];
    assert Parser.GroupOf("_").value == [Note(Quarter, Extension, false)];
    assert Parser.ValidGroup(gs[0]) && Parser.ValidGroup(gs[1]) && Parser.ValidGroup(gs[2]) && Parser.ValidGroup(gs[3]);
    Parser.MeasureOfValid(gs);
    var r := Parser.MeasureOf(gs).value;
    assert r == [r[0], r[1], r[2], r[3]];
  }

  lemma QuartersMerge()
    ensures Merge.MergeMeasure([[Note(Quarter, Downward, false)], [Note(Quarter, Downward, false)], [Note(Quarter, Downward, false)], [Note(Quarter, Extension, false)]])
      == [[Note(Quarter, Downward, false)], [Note(Quarter, Downward, false)], [Note(Half, Downward, false)]]
  {
    var d, x, h := Note(Quarter, Downward, false), Note(Quarter, Extension, false), Note(Half, Downward, false);
    var m0: Merge.Measure := [[d], [d], [d], [x]];
    var m1: Merge.Measure := [[d], [d], [h]];
    assert Merge.MergeFrom(m0, 0, 0) == Merge.MergeFrom(m0, 1, 0) by {
      assert Merge.Step(m0, 0, 0) == (m0, 1);
    }
    assert Merge.MergeFrom(m0, 1, 0) == Merge.MergeFrom(m0, 2, 0) by {
      assert Merge.Step(m0, 1, 0) == (m0, 1);
    }
    assert Merge.MergeFrom(m0, 2, 0) == Merge.MergeFrom(m1, 2, 0) by {
      assert Combine(d, x) == Some(h);
      assert Merge.AllExtensions(m0[3]);
      assert m0[2][0 := h] == [h];
      var mm := m0[2 := [h]];
      assert mm[..3] + mm[4..] == m1;
      assert Merge.Step(m0, 2, 0) == (m1, 0);
    }
    assert Merge.MergeFrom(m1, 2, 0) == Merge.MergeFrom(m1, 3, 0) by {
      assert Merge.Step(m1, 2, 0) == (m1, 1);
    }
  }

  lemma QuartersTokens()
    ensures Evaluator.PieceTokens([[[Note(Quarter, Downward, false)], [Note(Quarter, Downward, false)], [Note(Half, Downward, false)]]])
      == ["c4\\downbow", "c4\\downbow", "c2\\downbow"]
  {
    var d, h := Note(Quarter, Downward, false), Note(Half, Downward, false);
    PieceTokens3([d], [d], [h]);
    SingleTokens(d);
    SingleTokens(h);
    assert Evaluator.NoteText(d) == "c4\\downbow";
    assert Evaluator.NoteText(h) == "c2\\downbow";
  }

  lemma QuartersTime()
    ensures Meter.Signature([[[Note(Quarter, Downward, false)], [Note(Quarter, Downward, false)], [Note(Half, Downward, false)]]]) == "4/4"
  {
    var d, h := Note(Quarter, Downward, false), Note(Half, Downward, false);
    var m1: Merge.Measure := [[d], [d], [h]];
    assert m1[..2][..1][..0] == [];
    assert Merge.Flatten(m1[..2][..1]) == [d];
    assert Merge.Flatten(m1[..2]) == [d, d];
    assert Merge.Flatten(m1) == [d, d, h];
    var F := [d, d, h];
    assert F[..2][..1][..0] == [];
    assert Meter.NotesWeight(F[..2][..1]) == 1.0;
    assert Meter.NotesWeight(F[..2]) == 2.0;
    assert Meter.NotesWeight(F) == 4.0;
    assert Meter.Digits(4) == "4";
  }

  /** `D-D-D-_` gives a 4/4 measure of two quarters and a half note, all downward. */
  lemma QuartersExample()
    ensures Compile(["D-D-D-_"]) == Ok(Score("4/4", Strings.Join(["c4\\downbow", "c4\\downbow", "c2\\downbow"], " ")))
  {
    QuartersMeasure();
    QuartersMerge();
    QuartersTokens();
    QuartersTime();
    var d, x, h := Note(Quarter, Downward, false), Note(Quarter, Extension, false), Note(Half, Downward, false);
    CompileOne("D-D-D-_", [[d], [d], [d], [x]], [[d], [d], [h]], "4/4", ["c4\\downbow", "c4\\downbow", "c2\\downbow"]);
  }

  // ---------------------------------------------------------------------------------------------
  // "D-D-D-D": nothing to merge; four quarters count four beats.

  lemma FourMeasure()
    ensures Merge.MeasureFrom("D-D-D-D") ==
      Ok([[Note(Quarter, Downward, false)], [Note(Quarter, Downward, false)], [Note(Quarter, Downward, false)], [Note(Quarter, Downward, false)]])
  {
    FourLex();
    FourParse();
  }

  lemma FourLex()
    ensures Lexer.Lex("D-D-D-D") == Ok(["D", "D", "D", "D"])
  {
    var gs := ["D", "D", "D", "D"];
    assert Strings.Join(gs, "-") == "D-D-D-D" by {
      assert gs[..3][..2][..1] == ["D"];
      assert gs[..3][..2] == ["D", "D"];
      assert gs[..3] == ["D", "D", "D"];
    }
    assert forall g :: g in gs ==> g == "D";
    Lexer.LexOfJoin(gs);
  }

  lemma FourParse()
    ensures Parser.MeasureOf(["D", "D", "D", "D"]) ==
      Ok([[Note(Quarter, Downward, false)], [Note(Quarter, Downward, false)], [Note(Quarter, Downward, false)], [Note(Quarter, Downward, false)]])
  {
    var gs := ["D", "D", "D", "D"];
    Parser.GroupOfValid("D");
    assert Parser.GroupOf("D").value == [Note(Quarter, Downward, false)];
    Parser.MeasureOfValid(gs);
    var r := Parser.MeasureOf(gs).value;
    assert r == [r[0], r[1], r[2], r[3]];
  }

  lemma FourMerge()
    ensures Merge.MergeMeasure([[Note(Quarter, Downward, false)], [Note(Quarter, Downward, false)], [Note(Quarter, Downward, false)], [Note(Quarter, Downward, false)]])
      == [[Note(Quarter, Downward, false)], [Note(Quarter, Downward, false)], [Note(Quarter, Downward, false)], [Note(Quarter, Downward, false)]]
  {
    var d := Note(Quarter, Downward, false);
    var m: Merge.Measure := [[d], [d], [d], [d]];
    assert Merge.MergeFrom(m, 0, 0) == Merge.MergeFrom(m, 1, 0) by {
      assert Merge.Step(m, 0, 0) == (m, 1);
    }
    assert Merge.MergeFrom(m, 1, 0) == Merge.MergeFrom(m, 2, 0) by {
      assert Merge.Step(m, 1, 0) == (m, 1);
    }
    assert Merge.MergeFrom(m, 2, 0) == Merge.MergeFrom(m, 3, 0) by {
      assert Merge.Step(m, 2, 0) == (m, 1);
    }
    assert Merge.MergeFrom(m, 3, 0) == Merge.MergeFrom(m, 4, 0) by {
      assert Merge.Step(m, 3, 0) == (m, 1);
    }
  }

  lemma FourTokens()
    ensures Evaluator.PieceTokens([[[Note(Quarter, Downward, false)], [Note(Quarter, Downward, false)], [Note(Quarter, Downward, false)], [Note(Quarter, Downward, false)]]])
      == ["c4\\downbow", "c4\\downbow", "c4\\downbow", "c4\\downbow"]
  {
    var d := Note(Quarter, Downward, false);
    PieceTokens4([d], [d], [d], [d]);
    SingleTokens(d);
    assert Evaluator.NoteText(d) == "c4\\downbow";
  }

  lemma FourTime()
    ensures Meter.Signature([[[Note(Quarter, Downward, false)], [Note(Quarter, Downward, false)], [Note(Quarter, Downward, false)], [Note(Quarter, Downward, false)]]]) == "4/4"
  {
    var d := Note(Quarter, Downward, false);
    var m: Merge.Measure := [[d], [d], [d], [d]];
    assert m[..3][..2][..1][..0] == [];
    assert Merge.Flatten(m[..3][..2][..1]) == [d];
    assert Merge.Flatten(m[..3][..2]) == [d, d];
    assert Merge.Flatten(m[..3]) == [d, d, d];
    var F := [d, d, d, d];
    assert Merge.Flatten(m) == F;
    assert F[..3][..2][..1][..0] == [];
    assert Meter.NotesWeight(F[..3][..2][..1]) == 1.0;
    assert Meter.NotesWeight(F[..3][..2]) == 2.0;
    assert Meter.NotesWeight(F[..3]) == 3.0;
    assert Meter.NotesWeight(F) == 4.0;
    assert Meter.Digits(4) == "4";
  }

  /** `D-D-D-D` gives a 4/4 measure of four downward quarters. */
  lemma FourExample()
    ensures Compile(["D-D-D-D"]) == Ok(Score("4/4", Strings.Join(["c4\\downbow", "c4\\downbow", "c4\\downbow", "c4\\downbow"], " ")))
  {
    FourMeasure();
    FourMerge();
    FourTokens();
    FourTime();
    var d := Note(Quarter, Downward, false);
    CompileOne("D-D-D-D", [[d], [d], [d], [d]], [[d], [d], [d], [d]], "4/4", ["c4\\downbow", "c4\\downbow", "c4\\downbow", "c4\\downbow"]);
  }

  // ---------------------------------------------------------------------------------------------
  // "DDD-___": the extensions fold into the last triplet until the table has no entry, then it is tied.
  // The tuplet opened by the first group is never closed, and the second group opens and closes its own.

  lemma TupletMeasure()
    ensures Merge.MeasureFrom("DDD-___") ==
      Ok([[Note(Triplet, Downward, false), Note(Triplet, Downward, false), Note(Triplet, Downward, false)],
          [Note(Triplet, Extension, false), Note(Triplet, Extension, false), Note(Triplet, Extension, false)]])
  {
    LexTwo("DDD", "___");
    assert "DDD" + "-" + "___" == "DDD-___";
    TupletParse();
  }

  lemma TupletParse()
    ensures Parser.MeasureOf(["DDD", "___"]) ==
      Ok([[Note(Triplet, Downward, false), Note(Triplet, Downward, false), Note(Triplet, Downward, false)],
          [Note(Triplet, Extension, false), Note(Triplet, Extension, false), Note(Triplet, Extension, false)]])
  {
    var gs := ["DDD", "___"];
    Parser.GroupOfValid("DDD");
    Parser.GroupOfValid("___");
    var t, e := Note(Triplet, Downward, false), Note(Triplet, Extension, false);
    assert Parser.GroupOf("DDD").value == [t, t, t];
    assert Parser.GroupOf("___").value == [e, e, e];
    assert Parser.ValidGroup(gs[0]) && Parser.ValidGroup(gs[1]);
    Parser.MeasureOfValid(gs);
    var r := Parser.MeasureOf(gs).value;
    assert r == [r[0], r[1]];
  }

  lemma TupletMerge()
    ensures Merge.MergeMeasure(
        [[Note(Triplet, Downward, false), Note(Triplet, Downward, false), Note(Triplet, Downward, false)],
         [Note(Triplet, Extension, false), Note(Triplet, Extension, false), Note(Triplet, Extension, false)]])
      == [[Note(Triplet, Downward, false), Note(Triplet, Downward, false), Note(Quarter, Downward, true)],
          [Note(Triplet, Extension, false)]]
  {
    TupletMergeAbsorb();
    TupletMergeTie();
  }

  /** The third triplet absorbs two of the extensions that follow it: a two-triplet, then a quarter. */
  lemma TupletMergeAbsorb()
    ensures var t, e := Note(Triplet, Downward, false), Note(Triplet, Extension, false);
      Merge.MergeFrom([[t, t, t], [e, e, e]], 0, 0) == Merge.MergeFrom([[t, t, Note(Quarter, Downward, false)], [e]], 0, 2)
  {
    var t, e := Note(Triplet, Downward, false), Note(Triplet, Extension, false);
    var w, q := Note(TwoTriplet, Downward, false), Note(Quarter, Downward, false);
    var m0: Merge.Measure := [[t, t, t], [e, e, e]];
    var m1: Merge.Measure := [[t, t, w], [e, e]];
    var m2: Merge.Measure := [[t, t, q], [e]];
    assert Merge.MergeFrom(m0, 0, 0) == Merge.MergeFrom(m0, 0, 2) by {
      assert Merge.Step(m0, 0, 0) == (m0, 1);
      assert Merge.Step(m0, 0, 1) == (m0, 2);
    }
    assert Merge.MergeFrom(m0, 0, 2) == Merge.MergeFrom(m1, 0, 2) by {
      assert Combine(t, e) == Some(w);
      assert Merge.AllExtensions(m0[1]);
      assert m0[1][1..] == [e, e];
      assert m0[0][2 := w] == [t, t, w];
      assert m0[0 := [t, t, w]][1 := [e, e]] == m1;
      assert Merge.Step(m0, 0, 2) == (m1, 2);
    }
    assert Merge.MergeFrom(m1, 0, 2) == Merge.MergeFrom(m2, 0, 2) by {
      assert Combine(w, e) == Some(q);
      assert Merge.AllExtensions(m1[1]);
      assert m1[1][1..] == [e];
      assert m1[0][2 := q] == [t, t, q];
      assert m1[0 := [t, t, q]][1 := [e]] == m2;
      assert Merge.Step(m1, 0, 2) == (m2, 2);
    }
  }

  /** The quarter cannot absorb a triplet extension, so it is tied to it. */
  lemma TupletMergeTie()
    ensures var t, e := Note(Triplet, Downward, false), Note(Triplet, Extension, false);
      Merge.MergeFrom([[t, t, Note(Quarter, Downward, false)], [e]], 0, 2) == [[t, t, Note(Quarter, Downward, true)], [e]]
  {
    var t, e := Note(Triplet, Downward, false), Note(Triplet, Extension, false);
    var q := Note(Quarter, Downward, false);
    var m2: Merge.Measure := [[t, t, q], [e]];
    var m3: Merge.Measure := [[t, t, q.(tie := true)], [e]];
    assert Merge.MergeFrom(m2, 0, 2) == Merge.MergeFrom(m3, 1, 0) by {
      assert Combine(q, e) == None;
      assert m2[0][2 := m2[0][2].(tie := true)] == [t, t, q.(tie := true)];
      assert m2[0 := [t, t, q.(tie := true)]] == m3;
      assert Merge.Step(m2, 0, 2) == (m3, 3);
    }
    assert Merge.MergeFrom(m3, 1, 0) == Merge.MergeFrom(m3, 2, 0) by {
      assert Merge.Step(m3, 1, 0) == (m3, 1);
    }
  }

  lemma TupletTokens()
    ensures Evaluator.PieceTokens([[[Note(Triplet, Downward, false), Note(Triplet, Downward, false), Note(Quarter, Downward, true)],
                                    [Note(Triplet, Extension, false)]]])
      == ["\\tuplet 3/1 { c8\\downbow", "c8\\downbow", "c4~\\downbow", "\\tuplet 3/1 { c8 }"]
  {
    var t, e, q := Note(Triplet, Downward, false), Note(Triplet, Extension, false), Note(Quarter, Downward, true);
    PieceTokens2([t, t, q], [e]);
    TupletFirstTokens();
    TupletSecondTokens();
  }

  lemma TupletFirstTokens()
    ensures Evaluator.GroupTokens([Note(Triplet, Downward, false), Note(Triplet, Downward, false), Note(Quarter, Downward, true)])
      == ["\\tuplet 3/1 { c8\\downbow", "c8\\downbow", "c4~\\downbow"]
  {
    TupletOpeningToken();
    TupletInnerToken();
    TupletTiedToken();
  }

  lemma TupletOpeningToken()
    ensures Evaluator.Token([Note(Triplet, Downward, false), Note(Triplet, Downward, false), Note(Quarter, Downward, true)], 0)
      == "\\tuplet 3/1 { c8\\downbow"
  {
    assert Evaluator.NoteText(Note(Triplet, Downward, false)) == "c8\\downbow";
  }

  lemma TupletInnerToken()
    ensures Evaluator.Token([Note(Triplet, Downward, false), Note(Triplet, Downward, false), Note(Quarter, Downward, true)], 1)
      == "c8\\downbow"
  {
    assert Evaluator.NoteText(Note(Triplet, Downward, false)) == "c8\\downbow";
  }

  lemma TupletTiedToken()
    ensures Evaluator.Token([Note(Triplet, Downward, false), Note(Triplet, Downward, false), Note(Quarter, Downward, true)], 2)
      == "c4~\\downbow"
  {
    assert Evaluator.NoteText(Note(Quarter, Downward, true)) == "c4~\\downbow";
  }

  lemma TupletSecondTokens()
    ensures Evaluator.GroupTokens([Note(Triplet, Extension, false)]) == ["\\tuplet 3/1 { c8 }"]
  {
    var e := Note(Triplet, Extension, false);
    assert Evaluator.NoteText(e) == "c8";
    assert Evaluator.Token([e], 0) == "\\tuplet 3/1 { c8 }";
  }

  lemma TupletTime()
    ensures Meter.Signature([[[Note(Triplet, Downward, false), Note(Triplet, Downward, false), Note(Quarter, Downward, true)],
                              [Note(Triplet, Extension, false)]]]) == "2/4"
  {
    var t, e, q := Note(Triplet, Downward, false), Note(Triplet, Extension, false), Note(Quarter, Downward, true);
    var m: Merge.Measure := [[t, t, q], [e]];
    assert m[..1][..0] == [];
    assert Merge.Flatten(m[..1]) == [t, t, q];
    var F := [t, t, q, e];
    assert Merge.Flatten(m) == F;
    assert F[..3][..2][..1][..0] == [];
    assert Meter.NotesWeight(F[..3][..2][..1]) == 0.33;
    assert Meter.NotesWeight(F[..3][..2]) == 0.66;
    assert Meter.NotesWeight(F[..3]) == 1.66;
    assert Meter.NotesWeight(F) == 1.99;
    assert Meter.Digits(2) == "2";
  }

  /** `DDD-___` renders a 2/4 measure whose tuplet braces do not balance: two openings, one closing. */
  lemma TupletExample()
    ensures Compile(["DDD-___"]) == Ok(Score("2/4", Strings.Join(
      ["\\tuplet 3/1 { c8\\downbow", "c8\\downbow", "c4~\\downbow", "\\tuplet 3/1 { c8 }"], " ")))
  {
    TupletMeasure();
    TupletMerge();
    TupletTokens();
    TupletTime();
    var t, e := Note(Triplet, Downward, false), Note(Triplet, Extension, false);
    var q := Note(Quarter, Downward, true);
    CompileOne("DDD-___", [[t, t, t], [e, e, e]], [[t, t, q], [e]], "2/4",
      ["\\tuplet 3/1 { c8\\downbow", "c8\\downbow", "c4~\\downbow", "\\tuplet 3/1 { c8 }"]);
  }

  // ---------------------------------------------------------------------------------------------
  // "D_U": inside one group the extension folds into the triplet before it, which the tuplet keeps.

  lemma InsideMeasure()
    ensures Merge.MeasureFrom("D_U") ==
      Ok([[Note(Triplet, Downward, false), Note(Triplet, Extension, false), Note(Triplet, Upward, false)]])
  {
    LexOne("D_U");
    Parser.GroupOfValid("D_U");
    var n := [Note(Triplet, Downward, false), Note(Triplet, Extension, false), Note(Triplet, Upward, false)];
    assert Parser.GroupOf("D_U").value == n;
    Parser.MeasureOfValid(["D_U"]);
    var r := Parser.MeasureOf(["D_U"]).value;
    assert r == [r[0]];
  }

  lemma InsideMerge()
    ensures Merge.MergeMeasure([[Note(Triplet, Downward, false), Note(Triplet, Extension, false), Note(Triplet, Upward, false)]])
      == [[Note(TwoTriplet, Downward, false), Note(Triplet, Upward, false)]]
  {
    var t, e, u := Note(Triplet, Downward, false), Note(Triplet, Extension, false), Note(Triplet, Upward, false);
    var w := Note(TwoTriplet, Downward, false);
    var m0: Merge.Measure := [[t, e, u]];
    var m1: Merge.Measure := [[w, u]];
    assert Merge.MergeFrom(m0, 0, 0) == Merge.MergeFrom(m1, 0, 0) by {
      assert Combine(t, e) == Some(w);
      assert m0[0][..0] + [w] + m0[0][2..] == [w, u];
      assert m0[0 := [w, u]] == m1;
      assert Merge.Step(m0, 0, 0) == (m1, 0);
    }
    assert Merge.MergeFrom(m1, 0, 0) == Merge.MergeFrom(m1, 0, 1) by {
      assert Merge.Step(m1, 0, 0) == (m1, 1);
    }
    assert Merge.MergeFrom(m1, 0, 1) == Merge.MergeFrom(m1, 1, 0) by {
      assert Merge.Step(m1, 0, 1) == (m1, 2);
    }
  }

  lemma InsideTokens()
    ensures Evaluator.PieceTokens([[[Note(TwoTriplet, Downward, false), Note(Triplet, Upward, false)]]])
      == ["\\tuplet 3/1 { c4\\downbow", "c8\\upbow }"]
  {
    var w, u := Note(TwoTriplet, Downward, false), Note(Triplet, Upward, false);
    PieceTokens1([w, u]);
    InsideGroupTokens();
  }

  lemma InsideGroupTokens()
    ensures Evaluator.GroupTokens([Note(TwoTriplet, Downward, false), Note(Triplet, Upward, false)])
      == ["\\tuplet 3/1 { c4\\downbow", "c8\\upbow }"]
  {
    InsideOpeningToken();
    InsideClosingToken();
  }

  lemma InsideOpeningToken()
    ensures Evaluator.Token([Note(TwoTriplet, Downward, false), Note(Triplet, Upward, false)], 0) == "\\tuplet 3/1 { c4\\downbow"
  {
    assert Evaluator.NoteText(Note(TwoTriplet, Downward, false)) == "c4\\downbow";
  }

  lemma InsideClosingToken()
    ensures Evaluator.Token([Note(TwoTriplet, Downward, false), Note(Triplet, Upward, false)], 1) == "c8\\upbow }"
  {
    assert Evaluator.NoteText(Note(Triplet, Upward, false)) == "c8\\upbow";
  }

  lemma InsideTime()
    ensures Meter.Signature([[[Note(TwoTriplet, Downward, false), Note(Triplet, Upward, false)]]]) == "1/4"
  {
    var w, u := Note(TwoTriplet, Downward, false), Note(Triplet, Upward, false);
    assert [[w, u]][..0] == [];
    assert Merge.Flatten([[w, u]]) == [w, u];
    assert [w, u][..1][..0] == [];
    assert Meter.NotesWeight([w, u][..1]) == 0.66;
    assert Meter.NotesWeight([w, u]) == 0.99;
    assert Meter.Digits(1) == "1";
  }

  /** `D_U` renders one balanced tuplet of a two-triplet and a triplet in a 1/4 measure. */
  lemma InsideExample()
    ensures Compile(["D_U"]) == Ok(Score("1/4", Strings.Join(["\\tuplet 3/1 { c4\\downbow", "c8\\upbow }"], " ")))
  {
    InsideMeasure();
    InsideMerge();
    InsideTokens();
    InsideTime();
    var t, e, u := Note(Triplet, Downward, false), Note(Triplet, Extension, false), Note(Triplet, Upward, false);
    var w := Note(TwoTriplet, Downward, false);
    CompileOne("D_U", [[t, e, u]], [[w, u]], "1/4", ["\\tuplet 3/1 { c4\\downbow", "c8\\upbow }"]);
  }

  // ---------------------------------------------------------------------------------------------
  // "D-___": a quarter and a triplet extension have no table entry, so the quarter is tied instead;
  // the three triplet extensions then fold into one quarter-length extension.

  lemma TieMeasure()
    ensures Merge.MeasureFrom("D-___") ==
      Ok([[Note(Quarter, Downward, false)], [Note(Triplet, Extension, false), Note(Triplet, Extension, false), Note(Triplet, Extension, false)]])
  {
    LexTwo("D", "___");
    assert "D" + "-" + "___" == "D-___";
    TieParse();
  }

  lemma TieParse()
    ensures Parser.MeasureOf(["D", "___"]) ==
      Ok([[Note(Quarter, Downward, false)], [Note(Triplet, Extension, false), Note(Triplet, Extension, false), Note(Triplet, Extension, false)]])
  {
    var gs := ["D", "___"];
    Parser.GroupOfValid("D");
    Parser.GroupOfValid("___");
    var e := Note(Triplet, Extension, false);
    assert Parser.GroupOf("D").value == [Note(Quarter, Downward, false)];
    assert Parser.GroupOf("___").value == [e, e, e];
    assert Parser.ValidGroup(gs[0]) && Parser.ValidGroup(gs[1]);
    Parser.MeasureOfValid(gs);
    var r := Parser.MeasureOf(gs).value;
    assert r == [r[0], r[1]];
  }

  lemma TieMerge()
    ensures Merge.MergeMeasure([[Note(Quarter, Downward, false)], [Note(Triplet, Extension, false), Note(Triplet, Extension, false), Note(Triplet, Extension, false)]])
      == [[Note(Quarter, Downward, true)], [Note(Quarter, Extension, false)]]
  {
    var d, e := Note(Quarter, Downward, false), Note(Triplet, Extension, false);
    var we, qe := Note(TwoTriplet, Extension, false), Note(Quarter, Extension, false);
    var dt := d.(tie := true);
    var m0: Merge.Measure := [[d], [e, e, e]];
    var m1: Merge.Measure := [[dt], [e, e, e]];
    var m2: Merge.Measure := [[dt], [we, e]];
    var m3: Merge.Measure := [[dt], [qe]];
    assert Merge.MergeFrom(m0, 0, 0) == Merge.MergeFrom(m1, 1, 0) by {
      assert Combine(d, e) == None;
      assert m0[0][0 := dt] == [dt];
      assert m0[0 := [dt]] == m1;
      assert Merge.Step(m0, 0, 0) == (m1, 1);
    }
    assert Merge.MergeFrom(m1, 1, 0) == Merge.MergeFrom(m2, 1, 0) by {
      assert Combine(e, e) == Some(we);
      assert m1[1][..0] + [we] + m1[1][2..] == [we, e];
      assert m1[1 := [we, e]] == m2;
      assert Merge.Step(m1, 1, 0) == (m2, 0);
    }
    assert Merge.MergeFrom(m2, 1, 0) == Merge.MergeFrom(m3, 1, 0) by {
      assert Combine(we, e) == Some(qe);
      assert m2[1][..0] + [qe] + m2[1][2..] == [qe];
      assert m2[1 := [qe]] == m3;
      assert Merge.Step(m2, 1, 0) == (m3, 0);
    }
    assert Merge.MergeFrom(m3, 1, 0) == Merge.MergeFrom(m3, 2, 0) by {
      assert Merge.Step(m3, 1, 0) == (m3, 1);
    }
  }

  lemma TieTokens()
    ensures Evaluator.PieceTokens([[[Note(Quarter, Downward, true)], [Note(Quarter, Extension, false)]]])
      == ["c4~\\downbow", "c4"]
  {
    var dt, qe := Note(Quarter, Downward, true), Note(Quarter, Extension, false);
    PieceTokens2([dt], [qe]);
    SingleTokens(dt);
    SingleTokens(qe);
    assert Evaluator.NoteText(dt) == "c4~\\downbow";
    assert Evaluator.NoteText(qe) == "c4";
  }

  lemma TieTime()
    ensures Meter.Signature([[[Note(Quarter, Downward, true)], [Note(Quarter, Extension, false)]]]) == "2/4"
  {
    var dt, qe := Note(Quarter, Downward, true), Note(Quarter, Extension, false);
    var m: Merge.Measure := [[dt], [qe]];
    assert m[..1][..0] == [];
    assert Merge.Flatten(m[..1]) == [dt];
    assert Merge.Flatten(m) == [dt, qe];
    assert [dt, qe][..1][..0] == [];
    assert Meter.NotesWeight([dt, qe][..1]) == 1.0;
    assert Meter.Digits(2) == "2";
  }

  /** `D-___` renders a tied quarter followed by a bare quarter, in 2/4. */
  lemma TieExample()
    ensures Compile(["D-___"]) == Ok(Score("2/4", Strings.Join(["c4~\\downbow", "c4"], " ")))
  {
    TieMeasure();
    TieMerge();
    TieTokens();
    TieTime();
    var d, e := Note(Quarter, Downward, false), Note(Triplet, Extension, false);
    var dt, qe := Note(Quarter, Downward, true), Note(Quarter, Extension, false);
    CompileOne("D-___", [[d], [e, e, e]], [[dt], [qe]], "2/4", ["c4~\\downbow", "c4"]);
  }

  // ---------------------------------------------------------------------------------------------
  // Failures

  /** The lexer lets a lower-case letter through; the parser's case-sensitive match rejects it. */
  lemma LowerCaseExample()
    ensures Compile(["d"]) == Err(UnknownNote('d'))
  {
    LexOne("d");
    assert Parser.GroupOf("d") == Err(UnknownNote('d')) by {
      assert "d"[..0] == "";
    }
    assert ["d"][..0] == [];
    CompileOneErr("d", UnknownNote('d'));
  }

  /** A trailing `-` leaves an empty last group, which has no level. */
  lemma TrailingDashExample()
    ensures Compile(["D-"]) == Err(InvalidGroup(""))
  {
    var gs := ["D", ""];
    LexTwo("D", "");
    assert "D" + "-" + "" == "D-";
    Parser.GroupOfValid("D");
    assert gs[..1] == ["D"] && ["D"][..0] == [];
    assert Parser.MeasureOf(gs[..1]).Ok?;
    CompileOneErr("D-", InvalidGroup(""));
  }

  /** A foreign character fails the lexer at its 1-based position. */
  lemma ForeignCharExample()
    ensures Compile(["Dx"]) == Err(LexError(2, 'x'))
  {
    ForeignLex();
    CompileOneErr("Dx", LexError(2, 'x'));
  }

  lemma ForeignLex()
    ensures Lexer.Lex("Dx") == Err(LexError(2, 'x'))
  {
    assert "Dx"[..1] == "D";
    LexOne("D");
  }
}

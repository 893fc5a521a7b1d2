/** The merge loop of `strum_parse`: promoting notes over following extensions, and setting ties. */
module Merge {
  import opened Outcome
  import opened Notes
  import Lexer
  import Parser

  type Group = seq<Note>
  type Measure = seq<Group>
  type Piece = seq<Measure>

  /** The notes of a measure in reading order, group after group. */
  function Flatten(m: Measure): seq<Note>
    decreases |m|
  {
    if |m| == 0 then [] else Flatten(m[..|m| - 1]) + m[|m| - 1]
  }

  /** The reading-order index of note `k` of group `j`. */
  function Pos(m: Measure, j: nat, k: nat): nat
    requires j <= |m|
  {
    |Flatten(m[..j])| + k
  }

  predicate AllExtensions(g: Group)
  {
    forall n :: n in g ==> n.direction == Extension
  }

  predicate AllNonEmpty(m: Measure)
  {
    forall j :: 0 <= j < |m| ==> |m[j]| > 0
  }

  /** The cursor `(j, k)` of the two inner loops: `k` may sit one past the end of group `j`. */
  predicate ValidCursor(m: Measure, j: nat, k: nat)
  {
    j <= |m| && (j < |m| ==> k <= |m[j]|) && (j == |m| ==> k == 0)
  }

  /** One pass of the body of `while k < piece[i][j].length`: the new measure and the new `k`.
      `k` is unchanged exactly when a note was absorbed (the `next` branches). */
  function Step(m: Measure, j: nat, k: nat): (r: (Measure, nat))
    requires j < |m| && k < |m[j]|
    ensures r.1 == k || r.1 == k + 1
    ensures j < |r.0| <= |m| && r.0[..j] == m[..j]
    ensures k < |r.0[j]| && r.1 <= |r.0[j]| && r.0[j][k].direction == m[j][k].direction
    ensures r.1 == k + 1 ==> |r.0| == |m| && forall j' :: 0 <= j' < |m| ==> |r.0[j']| == |m[j']|
  {
    var g := m[j];
    if k + 1 < |g| then
      if g[k + 1].direction == Extension then
        match Combine(g[k], g[k + 1])
        case Some(s) => (m[j := g[..k] + [s] + g[k + 2..]], k)
        case None => (m[j := g[k := g[k].(tie := true)]], k + 1)
      else (m, k + 1)
    else if j + 1 < |m| && |m[j + 1]| > 0 && m[j + 1][0].direction == Extension then
      var c := Combine(g[k], m[j + 1][0]);
      if c.Some? && AllExtensions(m[j + 1]) then
        var m1 := m[j := g[k := c.value]];
        if |m[j + 1]| == 1 then (m1[..j + 1] + m1[j + 2..], k)
        else (m1[j + 1 := m[j + 1][1..]], k)
      else (m[j := g[k := g[k].(tie := true)]], k + 1)
    else (m, k + 1)
  }

  // ---------------------------------------------------------------------------------------------
  // Flattening

  lemma {:induction false} FlattenAppend(a: Measure, b: Measure)
    ensures Flatten(a + b) == Flatten(a) + Flatten(b)
    decreases |b|
  {
    if |b| == 0 {
      assert a + b == a;
    } else {
      var b', x := b[..|b| - 1], b[|b| - 1];
      assert (a + b)[..|a + b| - 1] == a + b' && (a + b)[|a + b| - 1] == x;
      FlattenAppend(a, b');
      assert Flatten(a + b) == Flatten(a + b') + x;
      assert Flatten(b) == Flatten(b') + x;
    }
  }

  lemma FlattenOne(a: Group)
    ensures Flatten([a]) == a
  {
    assert [a][..0] == [];
  }

  lemma FlattenTwo(a: Group, b: Group)
    ensures Flatten([a, b]) == a + b
  {
    assert [a, b][..1] == [a];
    FlattenOne(a);
  }

  /** Group `j` sits between the groups before it and the groups after it. */
  lemma FlattenAt(m: Measure, j: nat)
    requires j < |m|
    ensures Flatten(m) == Flatten(m[..j]) + m[j] + Flatten(m[j + 1..])
  {
    assert m == m[..j + 1] + m[j + 1..];
    FlattenAppend(m[..j + 1], m[j + 1..]);
    FlattenPrefixStep(m, j);
  }

  lemma FlattenPrefixStep(m: Measure, j: nat)
    requires j < |m|
    ensures Flatten(m[..j + 1]) == Flatten(m[..j]) + m[j]
  {
    assert m[..j + 1][..j] == m[..j];
  }

  /** Every note of a measure whose groups are non-empty: the note after the last of group `j` is the first of group `j + 1`. */
  lemma NextAcrossGroups(m: Measure, j: nat)
    requires j + 1 < |m| && |m[j + 1]| > 0
    ensures |Flatten(m[..j])| + |m[j]| < |Flatten(m)|
    ensures Flatten(m)[|Flatten(m[..j])| + |m[j]|] == m[j + 1][0]
  {
    FlattenAt(m, j + 1);
    FlattenPrefixStep(m, j);
  }

  /** With no empty group, a note that is last of the measure's last group has no note after it. */
  lemma LastOfMeasure(m: Measure, j: nat)
    requires j < |m| && (j + 1 == |m|)
    ensures |Flatten(m[..j])| + |m[j]| == |Flatten(m)|
  {
    FlattenPrefixStep(m, j);
    assert m[..j + 1] == m;
  }

  // ---------------------------------------------------------------------------------------------
  // What one step does to the notes in reading order

  /** In reading order: the note at `p` absorbed the extension after it, which is gone. */
  predicate Absorbed(F: seq<Note>, F': seq<Note>, p: nat)
  {
    p + 1 < |F| && F[p + 1].direction == Extension && Combine(F[p], F[p + 1]).Some? &&
    F' == F[..p] + [Combine(F[p], F[p + 1]).value] + F[p + 2..]
  }

  /** In reading order: the cursor passed the note at `p`, setting its tie at most, and only when an
      extension follows it. */
  predicate Passed(F: seq<Note>, F': seq<Note>, p: nat)
  {
    p < |F| && |F'| == |F| && F' == F[..p] + [F'[p]] + F[p + 1..] &&
    F'[p].level == F[p].level && F'[p].direction == F[p].direction &&
    (F'[p].tie ==> F[p].tie || (p + 1 < |F| && F[p + 1].direction == Extension))
  }

  lemma PassedUnchanged(F: seq<Note>, p: nat)
    requires p < |F|
    ensures Passed(F, F, p)
  {
    assert F == F[..p] + [F[p]] + F[p + 1..];
  }

  /** What a step from cursor `(j, k)` to `r` may do: it keeps the groups before `j`, and either
      absorbs the next note in reading order, keeping `k`, or passes the cursor note, moving `k` on. */
  predicate StepOk(m: Measure, j: nat, k: nat, r: (Measure, nat))
    requires j < |m|
  {
    var (m', k') := r;
    j < |m'| && m'[..j] == m[..j] && k' <= |m'[j]| && |m'| <= |m| &&
    (k' == k ==> Absorbed(Flatten(m), Flatten(m'), Pos(m, j, k))) &&
    (k' != k ==> k' == k + 1 && Passed(Flatten(m), Flatten(m'), Pos(m, j, k)))
  }

  /** One step either replaces the cursor note by its merge with the next note in reading order, which
      is an extension and is removed, keeping the cursor; or moves the cursor one note on, at most setting
      the tie of the note it leaves, and only when an extension follows it. */
  lemma StepFlat(m: Measure, j: nat, k: nat)
    requires j < |m| && k < |m[j]|
    ensures StepOk(m, j, k, Step(m, j, k))
  {
    var g := m[j];
    if k + 1 < |g| {
      if g[k + 1].direction == Extension && Combine(g[k], g[k + 1]).Some? {
        WithinOk(m, j, k, Combine(g[k], g[k + 1]).value);
      } else if g[k + 1].direction == Extension {
        assert Flatten(m)[Pos(m, j, k) + 1] == g[k + 1] by { FlattenAt(m, j); }
        RetieOk(m, j, k);
      } else {
        UnchangedOk(m, j, k);
      }
    } else if j + 1 < |m| && |m[j + 1]| > 0 && m[j + 1][0].direction == Extension {
      if Combine(g[k], m[j + 1][0]).Some? && AllExtensions(m[j + 1]) {
        var c := Combine(g[k], m[j + 1][0]).value;
        if |m[j + 1]| == 1 {
          AcrossDropOk(m, j, c);
          assert Step(m, j, k).0 == m[..j] + [g[k := c]] + m[j + 2..];
        } else {
          AcrossKeepOk(m, j, c);
          UpdateNeighbours(m, j, g[k := c], m[j + 1][1..]);
        }
      } else {
        NextAcrossGroups(m, j);
        RetieOk(m, j, k);
      }
    } else {
      UnchangedOk(m, j, k);
    }
  }

  lemma UpdateNeighbours(m: Measure, j: nat, a: Group, b: Group)
    requires j + 1 < |m|
    ensures m[j := a][j + 1 := b] == m[..j] + [a, b] + m[j + 2..]
  {
    var lhs, rhs := m[j := a][j + 1 := b], m[..j] + [a, b] + m[j + 2..];
    assert |lhs| == |rhs|;
    forall i | 0 <= i < |lhs| ensures lhs[i] == rhs[i] {
      if i < j {
      } else if i == j {
      } else if i == j + 1 {
      } else {
        assert rhs[i] == m[j + 2..][i - j - 2];
      }
    }
  }

  lemma UnchangedOk(m: Measure, j: nat, k: nat)
    requires j < |m| && k < |m[j]|
    ensures StepOk(m, j, k, (m, k + 1))
  {
    assert Pos(m, j, k) < |Flatten(m)| by { FlattenAt(m, j); }
    PassedUnchanged(Flatten(m), Pos(m, j, k));
  }

  lemma RetieOk(m: Measure, j: nat, k: nat)
    requires j < |m| && k < |m[j]|
    requires Pos(m, j, k) + 1 < |Flatten(m)| && Flatten(m)[Pos(m, j, k) + 1].direction == Extension
    ensures StepOk(m, j, k, (m[j := m[j][k := m[j][k].(tie := true)]], k + 1))
  {
    var m' := m[j := m[j][k := m[j][k].(tie := true)]];
    StepRetie(m, j, k);
    assert m'[..j] == m[..j];
  }

  lemma WithinOk(m: Measure, j: nat, k: nat, s: Note)
    requires j < |m| && k + 1 < |m[j]|
    requires m[j][k + 1].direction == Extension && Combine(m[j][k], m[j][k + 1]) == Some(s)
    ensures StepOk(m, j, k, (m[j := m[j][..k] + [s] + m[j][k + 2..]], k))
  {
    var m' := m[j := m[j][..k] + [s] + m[j][k + 2..]];
    StepMergeWithin(m, j, k, s);
    assert m'[..j] == m[..j];
  }

  lemma AcrossDropOk(m: Measure, j: nat, c: Note)
    requires j + 1 < |m| && |m[j]| > 0 && |m[j + 1]| == 1 && m[j + 1][0].direction == Extension
    requires Combine(m[j][|m[j]| - 1], m[j + 1][0]) == Some(c)
    ensures StepOk(m, j, |m[j]| - 1, (m[..j] + [m[j][|m[j]| - 1 := c]] + m[j + 2..], |m[j]| - 1))
  {
    var m' := m[..j] + [m[j][|m[j]| - 1 := c]] + m[j + 2..];
    StepMergeAcrossDrop(m, j, c);
    assert m'[..j] == m[..j];
    assert m'[j] == m[j][|m[j]| - 1 := c];
  }

  lemma AcrossKeepOk(m: Measure, j: nat, c: Note)
    requires j + 1 < |m| && |m[j]| > 0 && |m[j + 1]| > 1 && m[j + 1][0].direction == Extension
    requires Combine(m[j][|m[j]| - 1], m[j + 1][0]) == Some(c)
    ensures StepOk(m, j, |m[j]| - 1, (m[..j] + [m[j][|m[j]| - 1 := c], m[j + 1][1..]] + m[j + 2..], |m[j]| - 1))
  {
    var m' := m[..j] + [m[j][|m[j]| - 1 := c], m[j + 1][1..]] + m[j + 2..];
    StepMergeAcrossKeep(m, j, c);
    assert m'[..j] == m[..j];
    assert m'[j] == m[j][|m[j]| - 1 := c];
  }

  /** Flattening after group `j` is replaced. */
  lemma FlattenReplace(m: Measure, j: nat, g': Group)
    requires j < |m|
    ensures Flatten(m[j := g']) == Flatten(m[..j]) + g' + Flatten(m[j + 1..])
  {
    var m' := m[j := g'];
    FlattenAt(m', j);
    assert m'[..j] == m[..j] && m'[j + 1..] == m[j + 1..];
  }

  /** The cursor note absorbs the next note of its own group. */
  lemma StepMergeWithin(m: Measure, j: nat, k: nat, s: Note)
    requires j < |m| && k + 1 < |m[j]|
    ensures var F, p := Flatten(m), Pos(m, j, k);
      p + 1 < |F| && F[p] == m[j][k] && F[p + 1] == m[j][k + 1] &&
      Flatten(m[j := m[j][..k] + [s] + m[j][k + 2..]]) == F[..p] + [s] + F[p + 2..]
  {
    var g, g' := m[j], m[j][..k] + [s] + m[j][k + 2..];
    var pre, post := Flatten(m[..j]), Flatten(m[j + 1..]);
    var F, F' := Flatten(m), Flatten(m[j := g']);
    assert F == pre + g + post by { FlattenAt(m, j); }
    assert F' == pre + g' + post by { FlattenReplace(m, j, g'); }
    SpliceTwo(F, F', pre, g, post, k, s);
  }

  lemma SpliceTwo(F: seq<Note>, F': seq<Note>, pre: seq<Note>, g: seq<Note>, post: seq<Note>, k: nat, s: Note)
    requires k + 1 < |g| && F == pre + g + post && F' == pre + (g[..k] + [s] + g[k + 2..]) + post
    ensures var p := |pre| + k;
      p + 1 < |F| && F[p] == g[k] && F[p + 1] == g[k + 1] && F' == F[..p] + [s] + F[p + 2..]
  {
    var p := |pre| + k;
    assert F[..p] == pre + g[..k];
    assert F[p + 2..] == g[k + 2..] + post;
  }

  lemma SpliceAcross(F: seq<Note>, F': seq<Note>, pre: seq<Note>, g: seq<Note>, h: seq<Note>, post: seq<Note>, c: Note)
    requires |g| > 0 && |h| > 0 && F == pre + g + h + post && F' == pre + g[|g| - 1 := c] + h[1..] + post
    ensures var p := |pre| + |g| - 1;
      p + 1 < |F| && F[p] == g[|g| - 1] && F[p + 1] == h[0] && F' == F[..p] + [c] + F[p + 2..]
  {
    var p := |pre| + |g| - 1;
    assert F[..p] == pre + g[..|g| - 1];
    assert F[p + 2..] == h[1..] + post;
  }

  lemma SpliceOne(F: seq<Note>, F': seq<Note>, pre: seq<Note>, g: seq<Note>, post: seq<Note>, k: nat, x: Note)
    requires k < |g| && F == pre + g + post && F' == pre + g[k := x] + post
    ensures var p := |pre| + k; p < |F| && F[p] == g[k] && F' == F[..p] + [x] + F[p + 1..]
  {
    var p := |pre| + k;
    assert F[..p] == pre + g[..k];
    assert F[p + 1..] == g[k + 1..] + post;
  }

  /** The cursor note, last of group `j`, absorbs the only note of group `j + 1`, which is dropped. */
  lemma StepMergeAcrossDrop(m: Measure, j: nat, c: Note)
    requires j + 1 < |m| && |m[j]| > 0 && |m[j + 1]| == 1
    ensures var F, p := Flatten(m), Pos(m, j, |m[j]| - 1);
      p + 1 < |F| && F[p] == m[j][|m[j]| - 1] && F[p + 1] == m[j + 1][0] &&
      Flatten(m[..j] + [m[j][|m[j]| - 1 := c]] + m[j + 2..]) == F[..p] + [c] + F[p + 2..]
  {
    var g, h := m[j], m[j + 1];
    var g' := g[|g| - 1 := c];
    var pre, post := Flatten(m[..j]), Flatten(m[j + 2..]);
    var F, F' := Flatten(m), Flatten(m[..j] + [g'] + m[j + 2..]);
    assert F == pre + g + h + post by { FlattenAround(m, j); }
    assert F' == pre + g' + h[1..] + post by { FlattenDropShape(m, j, g'); }
    SpliceAcross(F, F', pre, g, h, post, c);
  }

  /** The cursor note, last of group `j`, absorbs the first note of group `j + 1`, which keeps the rest. */
  lemma StepMergeAcrossKeep(m: Measure, j: nat, c: Note)
    requires j + 1 < |m| && |m[j]| > 0 && |m[j + 1]| > 1
    ensures var F, p := Flatten(m), Pos(m, j, |m[j]| - 1);
      p + 1 < |F| && F[p] == m[j][|m[j]| - 1] && F[p + 1] == m[j + 1][0] &&
      Flatten(m[..j] + [m[j][|m[j]| - 1 := c], m[j + 1][1..]] + m[j + 2..]) == F[..p] + [c] + F[p + 2..]
  {
    var g, h := m[j], m[j + 1];
    var g' := g[|g| - 1 := c];
    var pre, post := Flatten(m[..j]), Flatten(m[j + 2..]);
    var F, F' := Flatten(m), Flatten(m[..j] + [g', h[1..]] + m[j + 2..]);
    assert F == pre + g + h + post by { FlattenAround(m, j); }
    assert F' == pre + g' + h[1..] + post by { FlattenKeepShape(m, j, g', h[1..]); }
    SpliceAcross(F, F', pre, g, h, post, c);
  }

  /** Groups `j` and `j + 1` sit between the groups before and the groups after them. */
  lemma FlattenAround(m: Measure, j: nat)
    requires j + 1 < |m|
    ensures Flatten(m) == Flatten(m[..j]) + m[j] + m[j + 1] + Flatten(m[j + 2..])
  {
    FlattenAt(m, j + 1);
    FlattenPrefixStep(m, j);
  }

  lemma FlattenKeepShape(m: Measure, j: nat, g': Group, h': Group)
    requires j + 1 < |m|
    ensures Flatten(m[..j] + [g', h'] + m[j + 2..]) == Flatten(m[..j]) + g' + h' + Flatten(m[j + 2..])
  {
    FlattenMiddle(m[..j], [g', h'], m[j + 2..]);
    FlattenTwo(g', h');
  }

  lemma FlattenDropShape(m: Measure, j: nat, g': Group)
    requires j + 1 < |m| && |m[j + 1]| == 1
    ensures Flatten(m[..j] + [g'] + m[j + 2..]) == Flatten(m[..j]) + g' + m[j + 1][1..] + Flatten(m[j + 2..])
  {
    FlattenAppend(m[..j] + [g'], m[j + 2..]);
    FlattenAppend(m[..j], [g']);
    FlattenOne(g');
    assert m[j + 1][1..] == [];
  }

  lemma FlattenMiddle(a: Measure, mid: Measure, b: Measure)
    ensures Flatten(a + mid + b) == Flatten(a) + Flatten(mid) + Flatten(b)
  {
    FlattenAppend(a + mid, b);
    FlattenAppend(a, mid);
  }

  /** The cursor note gets its tie set; nothing else changes. */
  lemma StepRetie(m: Measure, j: nat, k: nat)
    requires j < |m| && k < |m[j]|
    ensures var F, p := Flatten(m), Pos(m, j, k);
      p < |F| && F[p] == m[j][k] &&
      Flatten(m[j := m[j][k := m[j][k].(tie := true)]]) == F[..p] + [F[p].(tie := true)] + F[p + 1..]
  {
    var g := m[j];
    var g' := g[k := g[k].(tie := true)];
    var pre, post := Flatten(m[..j]), Flatten(m[j + 1..]);
    var F, F' := Flatten(m), Flatten(m[j := g']);
    assert F == pre + g + post by { FlattenAt(m, j); }
    assert F' == pre + g' + post by { FlattenReplace(m, j, g'); }
    SpliceOne(F, F', pre, g, post, k, g[k].(tie := true));
  }

  /** With no empty group, the step that passes a note followed by an extension ties it. */
  lemma StepTies(m: Measure, j: nat, k: nat)
    requires j < |m| && k < |m[j]| && AllNonEmpty(m)
    requires Step(m, j, k).1 != k
    requires Pos(m, j, k) + 1 < |Flatten(m)| && Flatten(m)[Pos(m, j, k) + 1].direction == Extension
    ensures Pos(m, j, k) < |Flatten(Step(m, j, k).0)| && Flatten(Step(m, j, k).0)[Pos(m, j, k)].tie
  {
    var g := m[j];
    if k + 1 < |g| {
      assert Flatten(m)[Pos(m, j, k) + 1] == g[k + 1] by { FlattenAt(m, j); }
    } else {
      if j + 1 == |m| {
        LastOfMeasure(m, j);
        assert false;
      }
      NextAcrossGroups(m, j);
    }
    StepRetieShape(m, j, k);
    StepRetie(m, j, k);
  }

  /** A step that moves on from a note an extension follows only ties that note. */
  lemma StepRetieShape(m: Measure, j: nat, k: nat)
    requires j < |m| && k < |m[j]| && Step(m, j, k).1 != k
    requires (k + 1 < |m[j]| && m[j][k + 1].direction == Extension) ||
      (k + 1 == |m[j]| && j + 1 < |m| && |m[j + 1]| > 0 && m[j + 1][0].direction == Extension)
    ensures Step(m, j, k).0 == m[j := m[j][k := m[j][k].(tie := true)]]
  {
  }

  /** The look-ahead: the cursor stays (a note was absorbed) exactly when the next note of the group combines
      with it, or, at the group's last note, when the next group of the measure is all extensions and its
      first note combines with it. */
  lemma StepAbsorbsIff(m: Measure, j: nat, k: nat)
    requires j < |m| && k < |m[j]|
    ensures Step(m, j, k).1 == k <==>
      (k + 1 < |m[j]| && Combine(m[j][k], m[j][k + 1]).Some?) ||
      (k + 1 == |m[j]| && j + 1 < |m| && |m[j + 1]| > 0 && AllExtensions(m[j + 1]) &&
       Combine(m[j][k], m[j + 1][0]).Some?)
    ensures Step(m, j, k).1 != k ==> Step(m, j, k).1 == k + 1
  {
  }

  /** A step leaves no group empty: a group emptied by the deletion is itself deleted. */
  lemma StepNonEmpty(m: Measure, j: nat, k: nat)
    requires j < |m| && k < |m[j]| && AllNonEmpty(m)
    ensures AllNonEmpty(Step(m, j, k).0)
  {
    var g := m[j];
    var m' := Step(m, j, k).0;
    if k + 1 >= |g| && j + 1 < |m| && |m[j + 1]| > 0 && m[j + 1][0].direction == Extension {
      var c := Combine(g[k], m[j + 1][0]);
      if c.Some? && AllExtensions(m[j + 1]) && |m[j + 1]| == 1 {
        var m1 := m[j := g[k := c.value]];
        assert m' == m1[..j + 1] + m1[j + 2..];
        forall i | 0 <= i < |m'| ensures |m'[i]| > 0 {
          if i > j { assert m'[i] == m[i + 1]; }
        }
      }
    }
  }

  // ---------------------------------------------------------------------------------------------
  // What a step keeps, in reading order

  /** The directions of the notes that are not extensions, in order. */
  function NonExtensions(F: seq<Note>): seq<Direction>
    decreases |F|
  {
    if |F| == 0 then []
    else (if F[0].direction == Extension then [] else [F[0].direction]) + NonExtensions(F[1..])
  }

  /** The total length of the notes, in twelfths of a quarter note. */
  function TotalDuration(F: seq<Note>): nat
    decreases |F|
  {
    if |F| == 0 then 0 else Duration(F[0].level) + TotalDuration(F[1..])
  }

  /** Before position `p`, a note is tied exactly when an extension follows it. */
  predicate TiesMatch(F: seq<Note>, p: nat)
  {
    forall q :: 0 <= q < p && q < |F| ==> (F[q].tie <==> (q + 1 < |F| && F[q + 1].direction == Extension))
  }

  /** From position `p` on, no note is tied. */
  predicate UntiedFrom(F: seq<Note>, p: nat)
  {
    forall q :: p <= q < |F| ==> !F[q].tie
  }

  lemma {:induction false} NonExtensionsAppend(a: seq<Note>, b: seq<Note>)
    ensures NonExtensions(a + b) == NonExtensions(a) + NonExtensions(b)
    decreases |a|
  {
    if |a| > 0 {
      assert (a + b)[1..] == a[1..] + b;
      NonExtensionsAppend(a[1..], b);
    } else {
      assert a + b == b;
    }
  }

  lemma {:induction false} TotalDurationAppend(a: seq<Note>, b: seq<Note>)
    ensures TotalDuration(a + b) == TotalDuration(a) + TotalDuration(b)
    decreases |a|
  {
    if |a| > 0 {
      assert (a + b)[1..] == a[1..] + b;
      TotalDurationAppend(a[1..], b);
    } else {
      assert a + b == b;
    }
  }

  /** Replacing the two notes at `p` by one note of their summed length, with the first one's direction,
      when the second is an extension, keeps the non-extension directions and the total length. */
  lemma FlatMergeKeeps(F: seq<Note>, p: nat, x: Note)
    requires p + 1 < |F| && F[p + 1].direction == Extension && x.direction == F[p].direction
    requires Duration(x.level) == Duration(F[p].level) + Duration(F[p + 1].level)
    ensures NonExtensions(F[..p] + [x] + F[p + 2..]) == NonExtensions(F)
    ensures TotalDuration(F[..p] + [x] + F[p + 2..]) == TotalDuration(F)
  {
    SplitTwo(F, p);
    PairKeeps(F[p], F[p + 1], x);
    SpliceKeeps(F[..p], [x], [F[p], F[p + 1]], F[p + 2..]);
  }

  lemma SplitTwo(F: seq<Note>, p: nat)
    requires p + 1 < |F|
    ensures F == F[..p] + [F[p], F[p + 1]] + F[p + 2..]
  {
  }

  lemma SplitOne(F: seq<Note>, p: nat)
    requires p < |F|
    ensures F == F[..p] + [F[p]] + F[p + 1..]
  {
  }

  /** A note of the summed length, with the first one's direction, stands for a note and its extension. */
  lemma PairKeeps(a: Note, b: Note, x: Note)
    requires b.direction == Extension && x.direction == a.direction
    requires Duration(x.level) == Duration(a.level) + Duration(b.level)
    ensures NonExtensions([x]) == NonExtensions([a, b]) && TotalDuration([x]) == TotalDuration([a, b])
  {
    assert [a, b][1..] == [b] && [b][1..] == [] && [x][1..] == [];
  }

  /** Replacing the note at `p` by one of the same level and direction keeps both measures. */
  lemma FlatPassKeeps(F: seq<Note>, p: nat, x: Note)
    requires p < |F| && x.direction == F[p].direction && x.level == F[p].level
    ensures NonExtensions(F[..p] + [x] + F[p + 1..]) == NonExtensions(F)
    ensures TotalDuration(F[..p] + [x] + F[p + 1..]) == TotalDuration(F)
  {
    SplitOne(F, p);
    SameKeeps(F[p], x);
    SpliceKeeps(F[..p], [x], [F[p]], F[p + 1..]);
  }

  lemma SameKeeps(a: Note, x: Note)
    requires x.direction == a.direction && x.level == a.level
    ensures NonExtensions([x]) == NonExtensions([a]) && TotalDuration([x]) == TotalDuration([a])
  {
    assert [a][1..] == [] && [x][1..] == [];
  }

  lemma SpliceKeeps(pre: seq<Note>, a: seq<Note>, b: seq<Note>, post: seq<Note>)
    requires NonExtensions(a) == NonExtensions(b) && TotalDuration(a) == TotalDuration(b)
    ensures NonExtensions(pre + a + post) == NonExtensions(pre + b + post)
    ensures TotalDuration(pre + a + post) == TotalDuration(pre + b + post)
  {
    NonExtensionsAppend(pre + a, post);
    NonExtensionsAppend(pre, a);
    NonExtensionsAppend(pre + b, post);
    NonExtensionsAppend(pre, b);
    TotalDurationAppend(pre + a, post);
    TotalDurationAppend(pre, a);
    TotalDurationAppend(pre + b, post);
    TotalDurationAppend(pre, b);
  }

  lemma AbsorbedKeeps(F: seq<Note>, F': seq<Note>, p: nat)
    requires Absorbed(F, F', p)
    requires TiesMatch(F, p) && UntiedFrom(F, p)
    ensures NonExtensions(F') == NonExtensions(F) && TotalDuration(F') == TotalDuration(F)
    ensures TiesMatch(F', p) && UntiedFrom(F', p)
    ensures |F'| < |F| && F'[..p] == F[..p] && F'[p].direction == F[p].direction
  {
    var x := Combine(F[p], F[p + 1]).value;
    FlatMergeKeeps(F, p, x);
    AbsorbedShape(F, F', p);
    AbsorbedTies(F, F', p);
  }

  lemma AbsorbedShape(F: seq<Note>, F': seq<Note>, p: nat)
    requires Absorbed(F, F', p)
    ensures |F'| == |F| - 1 && F'[..p] == F[..p] && F'[p] == Combine(F[p], F[p + 1]).value
    ensures forall q :: 0 <= q < p ==> F'[q] == F[q]
    ensures forall q :: p < q < |F'| ==> F'[q] == F[q + 1]
  {
  }

  lemma AbsorbedTies(F: seq<Note>, F': seq<Note>, p: nat)
    requires p + 1 < |F| && |F'| == |F| - 1 && TiesMatch(F, p) && UntiedFrom(F, p)
    requires F'[p].direction == F[p].direction && !F'[p].tie
    requires forall q :: 0 <= q < p ==> F'[q] == F[q]
    requires forall q :: p < q < |F'| ==> F'[q] == F[q + 1]
    ensures TiesMatch(F', p) && UntiedFrom(F', p)
  {
    forall q | 0 <= q < p && q < |F'|
      ensures F'[q].tie <==> (q + 1 < |F'| && F'[q + 1].direction == Extension)
    {
      assert F'[q] == F[q];
      if q + 1 < p {
        assert F'[q + 1] == F[q + 1];
      }
    }
    forall q | p <= q < |F'| ensures !F'[q].tie {
      if q > p {
        assert F'[q] == F[q + 1];
      }
    }
  }

  lemma PassedKeeps(F: seq<Note>, F': seq<Note>, p: nat)
    requires Passed(F, F', p)
    requires TiesMatch(F, p) && UntiedFrom(F, p)
    requires p + 1 < |F| && F[p + 1].direction == Extension ==> F'[p].tie
    ensures NonExtensions(F') == NonExtensions(F) && TotalDuration(F') == TotalDuration(F)
    ensures TiesMatch(F', p + 1) && UntiedFrom(F', p + 1)
    ensures |F'| == |F| && F'[..p] == F[..p] && F'[p].direction == F[p].direction
  {
    FlatPassKeeps(F, p, F'[p]);
    assert forall q :: 0 <= q < |F'| && q != p ==> F'[q] == F[q];
  }

  // ---------------------------------------------------------------------------------------------
  // The merge of a measure, as the inner two loops run it

  function Remaining(m: Measure, j: nat, k: nat): int
    requires j <= |m|
  {
    |Flatten(m)| - Pos(m, j, k)
  }

  /** The measure `piece[i]` becomes once the loops over `j` and `k` have run from cursor `(j, k)`. */
  function MergeFrom(m: Measure, j: nat, k: nat): (r: Measure)
    requires ValidCursor(m, j, k)
    ensures j <= |r| <= |m| && r[..j] == m[..j]
    ensures j < |m| ==> j < |r|
    decreases Remaining(m, j, k), |m| - j
  {
    if j == |m| then m
    else if k == |m[j]| then
      FlattenPrefixStep(m, j);
      MergeFrom(m, j + 1, 0)
    else
      var (m', k') := Step(m, j, k);
      StepFlat(m, j, k);
      MergeFrom(m', j, k')
  }

  function MergeMeasure(m: Measure): (r: Measure)
    ensures |r| <= |m|
    ensures |m| > 0 ==> |r| > 0
  {
    MergeFrom(m, 0, 0)
  }

  /** `strum_parse` after parsing: every measure merged on its own. */
  function MergeAll(piece: Piece): (r: Piece)
    ensures |r| == |piece|
  {
    seq(|piece|, i requires 0 <= i < |piece| => MergeMeasure(piece[i]))
  }

  // ---------------------------------------------------------------------------------------------
  // What the merge keeps

  /** What the merge from cursor `(j, k)` of `m` to `r` keeps: the non-extension directions, the total
      length, the notes before the cursor and the direction of the cursor note; it leaves no group empty,
      and ends with every note tied exactly when an extension follows it in the measure. */
  predicate Keeps(m: Measure, j: nat, k: nat, r: Measure)
    requires j <= |m|
  {
    var F, R, p := Flatten(m), Flatten(r), Pos(m, j, k);
    AllNonEmpty(r) &&
    NonExtensions(R) == NonExtensions(F) && TotalDuration(R) == TotalDuration(F) &&
    TiesMatch(R, |R|) && |R| <= |F| && p <= |R| && R[..p] == F[..p] &&
    (p < |F| ==> p < |R| && R[p].direction == F[p].direction)
  }

  lemma {:induction false} MergeFromKeeps(m: Measure, j: nat, k: nat)
    requires ValidCursor(m, j, k) && AllNonEmpty(m)
    requires TiesMatch(Flatten(m), Pos(m, j, k)) && UntiedFrom(Flatten(m), Pos(m, j, k))
    ensures Keeps(m, j, k, MergeFrom(m, j, k))
    decreases Remaining(m, j, k), |m| - j, 1
  {
    if j == |m| {
      KeepsAtEnd(m, j, k);
    } else if k == |m[j]| {
      KeepsNextGroup(m, j);
    } else if Step(m, j, k).1 == k {
      KeepsAbsorbing(m, j, k);
    } else {
      KeepsPassing(m, j, k);
    }
  }

  /** `MergeFromKeeps` once every group is done. */
  lemma KeepsAtEnd(m: Measure, j: nat, k: nat)
    requires ValidCursor(m, j, k) && j == |m| && AllNonEmpty(m)
    requires TiesMatch(Flatten(m), Pos(m, j, k)) && UntiedFrom(Flatten(m), Pos(m, j, k))
    ensures Keeps(m, j, k, MergeFrom(m, j, k))
  {
    assert m[..j] == m;
  }

  /** `MergeFromKeeps` at the end of a group: the cursor moves to the next group. */
  lemma {:induction false} KeepsNextGroup(m: Measure, j: nat)
    requires j < |m| && AllNonEmpty(m)
    requires TiesMatch(Flatten(m), Pos(m, j, |m[j]|)) && UntiedFrom(Flatten(m), Pos(m, j, |m[j]|))
    ensures Keeps(m, j, |m[j]|, MergeFrom(m, j, |m[j]|))
    decreases Remaining(m, j, |m[j]|), |m| - j, 0
  {
    FlattenPrefixStep(m, j);
    assert Pos(m, j + 1, 0) == Pos(m, j, |m[j]|);
    MergeFromKeeps(m, j + 1, 0);
  }

  /** `MergeFromKeeps` after a step that absorbs. */
  lemma {:induction false} KeepsAbsorbing(m: Measure, j: nat, k: nat)
    requires j < |m| && k < |m[j]| && AllNonEmpty(m) && Step(m, j, k).1 == k
    requires TiesMatch(Flatten(m), Pos(m, j, k)) && UntiedFrom(Flatten(m), Pos(m, j, k))
    ensures Keeps(m, j, k, MergeFrom(m, j, k))
    decreases Remaining(m, j, k), |m| - j, 0
  {
    var m' := Step(m, j, k).0;
    AbsorbStepReady(m, j, k);
    MergeFromKeeps(m', j, k);
    AbsorbStepBack(m, j, k, MergeFrom(m', j, k));
  }

  /** `MergeFromKeeps` after a step that moves on. */
  lemma {:induction false} KeepsPassing(m: Measure, j: nat, k: nat)
    requires j < |m| && k < |m[j]| && AllNonEmpty(m) && Step(m, j, k).1 != k
    requires TiesMatch(Flatten(m), Pos(m, j, k)) && UntiedFrom(Flatten(m), Pos(m, j, k))
    ensures Keeps(m, j, k, MergeFrom(m, j, k))
    decreases Remaining(m, j, k), |m| - j, 0
  {
    var m' := Step(m, j, k).0;
    PassStepReady(m, j, k);
    MergeFromKeeps(m', j, k + 1);
    PassStepBack(m, j, k, MergeFrom(m', j, k + 1));
  }

  /** After a step that absorbs, the merge can go on from the same cursor. */
  lemma AbsorbStepReady(m: Measure, j: nat, k: nat)
    requires j < |m| && k < |m[j]| && AllNonEmpty(m) && Step(m, j, k).1 == k
    requires TiesMatch(Flatten(m), Pos(m, j, k)) && UntiedFrom(Flatten(m), Pos(m, j, k))
    ensures var m' := Step(m, j, k).0;
      ValidCursor(m', j, k) && AllNonEmpty(m') && Pos(m', j, k) == Pos(m, j, k) &&
      0 <= Remaining(m', j, k) < Remaining(m, j, k) &&
      TiesMatch(Flatten(m'), Pos(m', j, k)) && UntiedFrom(Flatten(m'), Pos(m', j, k))
  {
    var m' := Step(m, j, k).0;
    StepFlat(m, j, k);
    StepNonEmpty(m, j, k);
    AbsorbedKeeps(Flatten(m), Flatten(m'), Pos(m, j, k));
  }

  lemma AbsorbStepBack(m: Measure, j: nat, k: nat, r: Measure)
    requires j < |m| && k < |m[j]| && AllNonEmpty(m) && Step(m, j, k).1 == k
    requires TiesMatch(Flatten(m), Pos(m, j, k)) && UntiedFrom(Flatten(m), Pos(m, j, k))
    requires j < |Step(m, j, k).0| && Keeps(Step(m, j, k).0, j, k, r)
    ensures Keeps(m, j, k, r)
  {
    var m' := Step(m, j, k).0;
    StepFlat(m, j, k);
    AbsorbedKeeps(Flatten(m), Flatten(m'), Pos(m, j, k));
    KeepsBackAbsorbed(m, j, k, m', r);
  }

  /** After a step that moves on, the merge can go on from the next cursor. */
  lemma PassStepReady(m: Measure, j: nat, k: nat)
    requires j < |m| && k < |m[j]| && AllNonEmpty(m) && Step(m, j, k).1 != k
    requires TiesMatch(Flatten(m), Pos(m, j, k)) && UntiedFrom(Flatten(m), Pos(m, j, k))
    ensures var m' := Step(m, j, k).0;
      Step(m, j, k).1 == k + 1 && ValidCursor(m', j, k + 1) && AllNonEmpty(m') &&
      Pos(m', j, k + 1) == Pos(m, j, k) + 1 && 0 <= Remaining(m', j, k + 1) < Remaining(m, j, k) &&
      TiesMatch(Flatten(m'), Pos(m', j, k + 1)) && UntiedFrom(Flatten(m'), Pos(m', j, k + 1))
  {
    var m' := Step(m, j, k).0;
    StepFlat(m, j, k);
    StepNonEmpty(m, j, k);
    PassTies(m, j, k);
    PassedKeeps(Flatten(m), Flatten(m'), Pos(m, j, k));
  }

  lemma PassStepBack(m: Measure, j: nat, k: nat, r: Measure)
    requires j < |m| && k < |m[j]| && AllNonEmpty(m) && Step(m, j, k).1 != k
    requires TiesMatch(Flatten(m), Pos(m, j, k)) && UntiedFrom(Flatten(m), Pos(m, j, k))
    requires j < |Step(m, j, k).0| && Keeps(Step(m, j, k).0, j, k + 1, r)
    ensures Keeps(m, j, k, r)
  {
    var m' := Step(m, j, k).0;
    StepFlat(m, j, k);
    PassTies(m, j, k);
    PassedKeeps(Flatten(m), Flatten(m'), Pos(m, j, k));
    KeepsBackPassed(m, j, k, m', r);
  }

  /** A step that moves on from a note followed by an extension has tied it. */
  lemma PassTies(m: Measure, j: nat, k: nat)
    requires j < |m| && k < |m[j]| && AllNonEmpty(m) && Step(m, j, k).1 != k
    ensures var p := Pos(m, j, k);
      p + 1 < |Flatten(m)| && Flatten(m)[p + 1].direction == Extension ==>
        p < |Flatten(Step(m, j, k).0)| && Flatten(Step(m, j, k).0)[p].tie
  {
    var p := Pos(m, j, k);
    if p + 1 < |Flatten(m)| && Flatten(m)[p + 1].direction == Extension {
      StepTies(m, j, k);
    }
  }

  lemma KeepsBackAbsorbed(m: Measure, j: nat, k: nat, m': Measure, r: Measure)
    requires j < |m| && j < |m'| && m'[..j] == m[..j]
    requires Absorbed(Flatten(m), Flatten(m'), Pos(m, j, k))
    requires NonExtensions(Flatten(m')) == NonExtensions(Flatten(m))
    requires TotalDuration(Flatten(m')) == TotalDuration(Flatten(m))
    requires Flatten(m')[Pos(m, j, k)].direction == Flatten(m)[Pos(m, j, k)].direction
    requires Flatten(m')[..Pos(m, j, k)] == Flatten(m)[..Pos(m, j, k)]
    requires Keeps(m', j, k, r)
    ensures Keeps(m, j, k, r)
  {
    assert Pos(m', j, k) == Pos(m, j, k);
  }

  lemma KeepsBackPassed(m: Measure, j: nat, k: nat, m': Measure, r: Measure)
    requires j < |m| && j < |m'| && m'[..j] == m[..j]
    requires Passed(Flatten(m), Flatten(m'), Pos(m, j, k))
    requires NonExtensions(Flatten(m')) == NonExtensions(Flatten(m))
    requires TotalDuration(Flatten(m')) == TotalDuration(Flatten(m))
    requires Flatten(m')[..Pos(m, j, k)] == Flatten(m)[..Pos(m, j, k)]
    requires Keeps(m', j, k + 1, r)
    ensures Keeps(m, j, k, r)
  {
    var p, R, F' := Pos(m, j, k), Flatten(r), Flatten(m');
    assert Pos(m', j, k + 1) == p + 1;
    assert R[..p + 1][..p] == R[..p];
    assert F'[..p + 1][..p] == F'[..p];
  }

  /** Measures as `parse_measure` builds them: no group is empty and no note is tied. */
  predicate Fresh(m: Measure)
  {
    AllNonEmpty(m) && forall j, k :: 0 <= j < |m| && 0 <= k < |m[j]| ==> !m[j][k].tie
  }

  lemma FreshUntied(m: Measure)
    requires Fresh(m)
    ensures UntiedFrom(Flatten(m), 0)
  {
    FreshUntiedPrefix(m, |m|);
    assert m[..|m|] == m;
  }

  lemma {:induction false} FreshUntiedPrefix(m: Measure, n: nat)
    requires Fresh(m) && n <= |m|
    ensures UntiedFrom(Flatten(m[..n]), 0)
  {
    if n > 0 {
      FreshUntiedPrefix(m, n - 1);
      FlattenPrefixStep(m, n - 1);
      var F := Flatten(m[..n]);
      forall q | 0 <= q < |F| ensures !F[q].tie {
        var a := |Flatten(m[..n - 1])|;
        if q >= a { assert F[q] == m[n - 1][q - a]; }
      }
    }
  }

  lemma FirstNote(m: Measure)
    requires |m| > 0 && |m[0]| > 0
    ensures |Flatten(m)| > 0 && Flatten(m)[0] == m[0][0]
  {
    FlattenAt(m, 0);
    assert m[..0] == [];
  }

  /** What merging measure `m` into `r` keeps, in reading order: the directions of the notes that are not
      extensions (so only extensions are deleted) and the total length; the measure's first note is not
      deleted; no group is empty; and a note is tied exactly when an extension follows it in the measure. */
  predicate MergedFrom(m: Measure, r: Measure)
  {
    var F, R := Flatten(m), Flatten(r);
    AllNonEmpty(r) &&
    NonExtensions(R) == NonExtensions(F) && TotalDuration(R) == TotalDuration(F) && |R| <= |F| &&
    (forall q :: 0 <= q < |R| ==> (R[q].tie <==> q + 1 < |R| && R[q + 1].direction == Extension)) &&
    (|m| > 0 && |m[0]| > 0 ==> |r| > 0 && |r[0]| > 0 && r[0][0].direction == m[0][0].direction)
  }

  /** The merge of a freshly parsed measure keeps all of `MergedFrom`. */
  lemma MergeMeasureKeeps(m: Measure)
    requires Fresh(m)
    ensures MergedFrom(m, MergeMeasure(m))
  {
    assert m[..0] == [];
    FreshUntied(m);
    MergeFromKeeps(m, 0, 0);
    assert Keeps(m, 0, 0, MergeMeasure(m));
    var r := MergeMeasure(m);
    if |m| > 0 {
      FirstNote(m);
      FirstNote(r);
    }
  }

  // ---------------------------------------------------------------------------------------------
  // The loops of `strum_parse`

  /** The body of the innermost `while` loop of `strum_parse` at cursor `(j, k)`: the measure it leaves and
      the `k` the loop goes on with. A merge writes the promoted note at `k` and deletes the absorbed
      extension, and the body re-runs at the same `k` (Ruby's `next`); otherwise `k` moves on. */
  method StrumStep(m: Measure, j: nat, k: nat) returns (measure: Measure, k': nat)
    requires j < |m| && k < |m[j]|
    ensures (measure, k') == Step(m, j, k)
  {
    measure, k' := m, k + 1;
    if k + 1 < |measure[j]| {
      if measure[j][k + 1].direction == Extension {
        var strum := Combine(measure[j][k], measure[j][k + 1]);
        if strum.Some? {
          var group := measure[j][k := strum.value];
          group := group[..k + 1] + group[k + 2..];   // delete_at(k + 1)
          assert group == m[j][..k] + [strum.value] + m[j][k + 2..];
          measure, k' := measure[j := group], k;
        } else {
          measure := measure[j := measure[j][k := measure[j][k].(tie := true)]];
        }
      }
    } else if j + 1 < |measure| && |measure[j + 1]| > 0 {
      if measure[j + 1][0].direction == Extension {
        var strum := Combine(measure[j][k], measure[j + 1][0]);
        if strum.Some? && AllExtensions(measure[j + 1]) {
          measure := measure[j := measure[j][k := strum.value]];
          measure := measure[j + 1 := measure[j + 1][1..]];   // delete_at(0)
          if |measure[j + 1]| == 0 {
            measure := measure[..j + 1] + measure[j + 2..];   // the emptied group goes
          }
          k' := k;
        } else {
          measure := measure[j := measure[j][k := measure[j][k].(tie := true)]];
        }
      }
    }
  }

  /** The loops of `strum_parse` over the groups `j` and the notes `k` of one measure. */
  method MergeMeasureLoops(input: Measure) returns (measure: Measure)
    ensures measure == MergeMeasure(input)
  {
    measure := input;
    var j := 0;
    while j < |measure|
      invariant j <= |measure|
      invariant MergeFrom(measure, j, 0) == MergeMeasure(input)
      decreases |measure| - j
    {
      var k: nat := 0;
      ghost var len := |measure|;
      while k < |measure[j]|
        invariant j < |measure| <= len && k <= |measure[j]|
        invariant MergeFrom(measure, j, k) == MergeMeasure(input)
        decreases Remaining(measure, j, k)
      {
        StepFlat(measure, j, k);
        measure, k := StrumStep(measure, j, k);
      }
      j := j + 1;
    }
  }

  /** The three nested `while` loops of `strum_parse`, over the piece the parser built. */
  method MergePiece(input: Piece) returns (piece: Piece)
    ensures piece == MergeAll(input)
  {
    piece := input;
    var i := 0;
    while i < |piece|
      invariant 0 <= i <= |piece| == |input|
      invariant forall i' :: 0 <= i' < i ==> piece[i'] == MergeMeasure(input[i'])
      invariant forall i' :: i <= i' < |piece| ==> piece[i'] == input[i']
    {
      var measure := MergeMeasureLoops(piece[i]);
      piece := piece[i := measure];
      i := i + 1;
    }
  }

  // ---------------------------------------------------------------------------------------------
  // `strum_parse` as a whole

  /** One measure string, lexed and parsed. */
  function MeasureFrom(s: string): (r: Result<Measure>)
    ensures r.Ok? ==> Lexer.Lex(s).Ok? && |r.value| == Lexer.CountDashes(s) + 1
    ensures (r.Err? && r.error.LexError?) <==> Lexer.Lex(s).Err?
  {
    match Lexer.Lex(s)
    case Err(e) => Err(e)
    case Ok(groups) => Parser.MeasureOf(groups)
  }

  /** The results of lexing and parsing each measure string. */
  function Parsed(measures: seq<string>): (rs: seq<Result<Measure>>)
    ensures |rs| == |measures|
  {
    seq(|measures|, i requires 0 <= i < |measures| => MeasureFrom(measures[i]))
  }

  /** The measures in order, or the first error among them. */
  function Collect(rs: seq<Result<Measure>>): (r: Result<Piece>)
    ensures r.Ok? ==> |r.value| == |rs|
    decreases |rs|
  {
    if |rs| == 0 then Ok([])
    else
      match Collect(rs[..|rs| - 1])
      case Err(e) => Err(e)
      case Ok(piece) =>
        match rs[|rs| - 1]
        case Err(e) => Err(e)
        case Ok(m) => Ok(piece + [m])
  }

  /** The piece the `measures.each` loop builds; fails with the error of the first failing measure. */
  function PieceFrom(measures: seq<string>): (r: Result<Piece>)
    ensures r.Ok? ==> |r.value| == |measures|
  {
    Collect(Parsed(measures))
  }

  /** `Collect` on a single result passes it on. */
  lemma CollectOne(r: Result<Measure>)
    ensures Collect([r]) == (if r.Ok? then Ok([r.value]) else Err(r.error))
  {
    assert [r][..0] == [];
    assert Collect([r][..0]) == Ok([]);
    if r.Ok? {
      var none: Piece := [];
      assert none + [r.value] == [r.value];
    }
  }

  /** A command of one measure string yields that measure alone, or its error. */
  lemma PieceFromOne(s: string)
    ensures PieceFrom([s]) == (if MeasureFrom(s).Ok? then Ok([MeasureFrom(s).value]) else Err(MeasureFrom(s).error))
  {
    assert Parsed([s]) == [MeasureFrom(s)];
    CollectOne(MeasureFrom(s));
  }

  /** `strum_parse`: the parsed piece, merged. */
  function StrumParseOf(measures: seq<string>): (r: Result<Piece>)
    ensures r.Ok? ==> |r.value| == |measures|
    ensures r.Ok? <==> forall i :: 0 <= i < |measures| ==> MeasureFrom(measures[i]).Ok?
  {
    PieceFromErr(measures);
    match PieceFrom(measures)
    case Err(e) => Err(e)
    case Ok(piece) => Ok(MergeAll(piece))
  }

  /** A parsed measure has at least one group, no empty group and no tie. */
  lemma MeasureFromFresh(s: string)
    requires MeasureFrom(s).Ok?
    ensures |MeasureFrom(s).value| > 0 && Fresh(MeasureFrom(s).value)
  {
    var groups := Lexer.Lex(s).value;
    var m: Measure := MeasureFrom(s).value;
    Parser.MeasureOfOk(groups);
    forall j | 0 <= j < |m| ensures |m[j]| > 0 && forall k :: 0 <= k < |m[j]| ==> !m[j][k].tie {
      Parser.GroupOfLevels(groups[j]);
      assert forall k :: 0 <= k < |m[j]| ==> m[j][k] in m[j];
    }
  }

  lemma {:induction false} CollectOk(rs: seq<Result<Measure>>)
    requires Collect(rs).Ok?
    ensures forall i :: 0 <= i < |rs| ==> rs[i] == Ok(Collect(rs).value[i])
    decreases |rs|
  {
    if |rs| > 0 {
      var rs' := rs[..|rs| - 1];
      CollectOk(rs');
      var p', m := Collect(rs').value, rs[|rs| - 1].value;
      assert Collect(rs).value == p' + [m];
      forall i | 0 <= i < |rs| ensures rs[i] == Ok((p' + [m])[i]) {
        if i < |rs'| {
          assert rs'[i] == rs[i];
        }
      }
    }
  }

  lemma {:induction false} CollectErr(rs: seq<Result<Measure>>)
    ensures Collect(rs).Err? <==> exists i :: 0 <= i < |rs| && rs[i].Err?
    ensures Collect(rs).Err? ==>
      exists i :: 0 <= i < |rs| && rs[i] == Err(Collect(rs).error) && forall i' :: 0 <= i' < i ==> rs[i'].Ok?
    decreases |rs|
  {
    if |rs| > 0 {
      var rs' := rs[..|rs| - 1];
      CollectErr(rs');
      assert forall i :: 0 <= i < |rs'| ==> rs'[i] == rs[i];
      if Collect(rs').Err? {
        assert Collect(rs) == Collect(rs');
        var i :| 0 <= i < |rs'| && rs'[i] == Err(Collect(rs').error) && forall i' :: 0 <= i' < i ==> rs'[i'].Ok?;
        assert rs'[i] == rs[i];
      } else {
        assert Collect(rs).Err? <==> rs[|rs'|].Err?;
      }
    }
  }

  lemma {:induction false} CollectPrefixError(rs: seq<Result<Measure>>, n: nat)
    requires n <= |rs| && Collect(rs[..n]).Err?
    ensures Collect(rs) == Collect(rs[..n])
    decreases |rs| - n
  {
    if n < |rs| {
      var rs' := rs[..|rs| - 1];
      assert rs'[..n] == rs[..n];
      CollectPrefixError(rs', n);
    } else {
      assert rs[..n] == rs;
    }
  }

  /** On success measure `i` of the piece is the parse of measure string `i`. */
  lemma PieceFromOk(measures: seq<string>)
    requires PieceFrom(measures).Ok?
    ensures forall i :: 0 <= i < |measures| ==> MeasureFrom(measures[i]) == Ok(PieceFrom(measures).value[i])
  {
    CollectOk(Parsed(measures));
  }

  /** Parsing fails exactly when some measure fails to lex or parse, and then with the first one's error. */
  lemma PieceFromErr(measures: seq<string>)
    ensures PieceFrom(measures).Err? <==> exists i :: 0 <= i < |measures| && MeasureFrom(measures[i]).Err?
    ensures PieceFrom(measures).Err? ==>
      exists i :: 0 <= i < |measures| && MeasureFrom(measures[i]) == Err(PieceFrom(measures).error) &&
        forall i' :: 0 <= i' < i ==> MeasureFrom(measures[i']).Ok?
  {
    var rs := Parsed(measures);
    CollectErr(rs);
    assert forall i :: 0 <= i < |measures| ==> rs[i] == MeasureFrom(measures[i]);
  }

  /** `strum_parse` keeps the number of measures, every measure has a group, and each measure is merged
      as `MergedFrom` describes. */
  lemma StrumParseKeeps(measures: seq<string>)
    requires StrumParseOf(measures).Ok?
    ensures |StrumParseOf(measures).value| == |measures|
    ensures forall i :: 0 <= i < |measures| ==>
      |PieceFrom(measures).value[i]| > 0 && |StrumParseOf(measures).value[i]| > 0 &&
      MergedFrom(PieceFrom(measures).value[i], StrumParseOf(measures).value[i])
  {
    var piece := PieceFrom(measures).value;
    var merged := StrumParseOf(measures).value;
    assert merged == MergeAll(piece);
    PieceFromOk(measures);
    forall i | 0 <= i < |measures|
      ensures |piece[i]| > 0 && |merged[i]| > 0 && MergedFrom(piece[i], merged[i])
    {
      MeasureFromFresh(measures[i]);
      MergeMeasureKeeps(piece[i]);
      assert merged[i] == MergeMeasure(piece[i]);
    }
  }

  /** `parse_measure(lex_measure(measure))`. */
  method ParseOne(measure: string) returns (r: Result<Measure>)
    ensures r == MeasureFrom(measure)
  {
    var groups := Lexer.LexMeasure(measure);
    if groups.Err? {
      return Err(groups.error);
    }
    r := Parser.ParseMeasure(groups.value);
  }

  /** `strum_parse`: the `measures.each` loop, then the merge loops. */
  method StrumParse(measures: seq<string>) returns (r: Result<Piece>)
    ensures r == StrumParseOf(measures)
  {
    ghost var rs := Parsed(measures);
    var piece: Piece := [];
    var i := 0;
    assert rs[..0] == [];
    while i < |measures|
      invariant 0 <= i <= |measures|
      invariant Collect(rs[..i]) == Ok(piece)
    {
      assert rs[..i + 1][..i] == rs[..i];
      var measure := ParseOne(measures[i]);
      assert rs[i] == measure;
      if measure.Err? {
        CollectPrefixError(rs, i + 1);
        return Err(measure.error);
      }
      piece := piece + [measure.value];
      i := i + 1;
    }
    assert rs[..i] == rs;
    piece := MergePiece(piece);
    r := Ok(piece);
  }
}

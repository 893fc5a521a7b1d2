/** Joining strings with a separator. */
module Strings {

  /** `xs.join(sep)`: the elements in order with `sep` between neighbours and nowhere else. */
  function Join(xs: seq<string>, sep: string): (r: string)
    ensures |xs| == 1 ==> r == xs[0]
    decreases |xs|
  {
    if |xs| == 0 then ""
    else if |xs| == 1 then xs[0]
    else Join(xs[..|xs| - 1], sep) + sep + xs[|xs| - 1]
  }

  /** Joining two non-empty lists is joining them each and putting one separator between. */
  lemma {:induction false} JoinAppend(a: seq<string>, b: seq<string>, sep: string)
    requires |a| > 0 && |b| > 0
    ensures Join(a + b, sep) == Join(a, sep) + sep + Join(b, sep)
    decreases |b|
  {
    if |b| == 1 {
      assert (a + b)[..|a + b| - 1] == a;
    } else {
      var b' := b[..|b| - 1];
      assert (a + b)[..|a + b| - 1] == a + b';
      JoinAppend(a, b', sep);
    }
  }

  /** A non-empty join begins with the first element. */
  lemma {:induction false} JoinFirst(xs: seq<string>, sep: string)
    requires |xs| > 0
    ensures |xs[0]| <= |Join(xs, sep)| && Join(xs, sep)[..|xs[0]|] == xs[0]
    decreases |xs|
  {
    if |xs| > 1 {
      var xs' := xs[..|xs| - 1];
      JoinFirst(xs', sep);
      assert xs'[0] == xs[0];
      var r := Join(xs', sep);
      assert Join(xs, sep) == r + (sep + xs[|xs| - 1]);
      assert (r + (sep + xs[|xs| - 1]))[..|xs[0]|] == r[..|xs[0]|];
    }
  }

  /** A non-empty join ends with the last element. */
  lemma JoinLast(xs: seq<string>, sep: string)
    requires |xs| > 0
    ensures var l := xs[|xs| - 1]; |l| <= |Join(xs, sep)| && Join(xs, sep)[|Join(xs, sep)| - |l|..] == l
  {
    if |xs| > 1 {
      var r := Join(xs[..|xs| - 1], sep) + sep;
      var l := xs[|xs| - 1];
      assert Join(xs, sep) == r + l;
      assert (r + l)[|r|..] == l;
    }
  }

  /** A non-empty sequence is its front followed by its last element. */
  lemma FrontLast<T>(xs: seq<T>)
    requires |xs| > 0
    ensures xs[..|xs| - 1] + [xs[|xs| - 1]] == xs
  {
  }

  /** Appending an element joins it on after one more separator. */
  lemma JoinSnoc(xs: seq<string>, x: string, sep: string)
    requires |xs| > 0
    ensures Join(xs + [x], sep) == Join(xs, sep) + sep + x
  {
    assert (xs + [x])[..|xs|] == xs;
  }

  /** Extending the last element extends the join. */
  lemma JoinExtendLast(xs: seq<string>, t: string, sep: string)
    requires |xs| > 0
    ensures var n := |xs| - 1; Join(xs[..n] + [xs[n] + t], sep) == Join(xs, sep) + t
  {
    var n := |xs| - 1;
    if n > 0 {
      JoinSnoc(xs[..n], xs[n] + t, sep);
      JoinSnoc(xs[..n], xs[n], sep);
      assert xs[..n] + [xs[n]] == xs;
    }
  }

  /** What the loop that appends element `n - 1` and then `sep` unless it was the last has built after
      `n` elements: the join of the first `n`, and a trailing `sep` while more elements follow. */
  function JoinPrefix(xs: seq<string>, n: nat, sep: string): string
    requires n <= |xs|
  {
    Join(xs[..n], sep) + (if 0 < n < |xs| then sep else "")
  }

  lemma JoinPrefixStep(xs: seq<string>, n: nat, sep: string)
    requires n < |xs|
    ensures JoinPrefix(xs, n, sep) + xs[n] + (if n + 1 < |xs| then sep else "") == JoinPrefix(xs, n + 1, sep)
  {
    assert xs[..n + 1][..n] == xs[..n];
    if n == 0 {
      assert xs[..1] == [xs[0]];
    }
  }

  lemma JoinPrefixAll(xs: seq<string>, sep: string)
    ensures JoinPrefix(xs, |xs|, sep) == Join(xs, sep)
  {
    assert xs[..|xs|] == xs;
  }
}

/** `time_signature`: the time signature written in front of the rendered notes. */
module Meter {
  import opened Notes
  import Merge

  /** The number of quarter notes a level counts for; the sextuplet has no branch and counts nothing. */
  function Weight(l: Level): (w: real)
    ensures 0.0 <= w <= 4.0
    ensures w == 0.0 <==> l == Sextuplet
  {
    match l
    case Whole => 4.0
    case DottedHalf => 3.0
    case Half => 2.0
    case DottedQuarter => 1.5
    case Quarter => 1.0
    case DottedEighth => 0.75
    case Eighth => 0.5
    case Sixteenth => 0.25
    case TwoTriplet => 0.66
    case Triplet => 0.33
    case Sextuplet => 0.0
  }

  /** The summed weight of notes in reading order. */
  function NotesWeight(F: seq<Note>): (w: real)
    ensures 0.0 <= w <= 4.0 * |F| as real
    decreases |F|
  {
    if |F| == 0 then 0.0 else NotesWeight(F[..|F| - 1]) + Weight(F[|F| - 1].level)
  }

  /** `t.ceil`: the least integer not below `t`. */
  function Ceil(t: real): (n: int)
    ensures (n - 1) as real < t <= n as real
  {
    if t == t.Floor as real then t.Floor else t.Floor + 1
  }

  function DigitChar(d: nat): char
    requires d < 10
  {
    "0123456789"[d]
  }

  /** `to_s` on a non-negative integer: its decimal digits, most significant first. */
  function Digits(n: nat): (s: string)
    ensures |s| > 0 && forall i :: 0 <= i < |s| ==> '0' <= s[i] <= '9'
    decreases n
  {
    if n < 10 then [DigitChar(n)] else Digits(n / 10) + [DigitChar(n % 10)]
  }

  /** The number a string of decimal digits denotes. */
  function DigitsValue(s: string): nat
    requires forall i :: 0 <= i < |s| ==> '0' <= s[i] <= '9'
    decreases |s|
  {
    if |s| == 0 then 0 else 10 * DigitsValue(s[..|s| - 1]) + (s[|s| - 1] as int - '0' as int)
  }

  /** Reading the digits back gives the number, and only zero is written with a leading `0`. */
  lemma {:induction false} DigitsRoundTrip(n: nat)
    ensures DigitsValue(Digits(n)) == n
    ensures Digits(n)[0] == '0' <==> n == 0
    decreases n
  {
    if n >= 10 {
      var x, c := Digits(n / 10), DigitChar(n % 10);
      DigitsRoundTrip(n / 10);
      DigitCharValue(n % 10);
      DigitsValueSnoc(x, c);
      assert (x + [c])[0] == x[0];
      assert n == 10 * (n / 10) + n % 10;
    }
  }

  lemma DigitCharValue(d: nat)
    requires d < 10
    ensures '0' <= DigitChar(d) <= '9' && DigitChar(d) as int - '0' as int == d
  {
    var digits := "0123456789";
    assert digits[d] as int == '0' as int + d by {
      assert forall i :: 0 <= i < 10 ==> digits[i] as int == '0' as int + i;
    }
  }

  /** One more digit on the right: ten times the number, plus the digit. */
  lemma DigitsValueSnoc(s: string, c: char)
    requires forall i :: 0 <= i < |s| ==> '0' <= s[i] <= '9'
    requires '0' <= c <= '9'
    ensures DigitsValue(s + [c]) == 10 * DigitsValue(s) + (c as int - '0' as int)
  {
    assert (s + [c])[..|s|] == s;
  }

  /** `"#{n}/4"`. */
  function Format(n: nat): (f: string)
    ensures |f| >= 3 && f[|f| - 2..] == "/4"
    ensures forall i :: 0 <= i < |f| - 2 ==> '0' <= f[i] <= '9'
  {
    Digits(n) + "/4"
  }

  /** Distinct beat counts give distinct signatures, and the count can be read back from the text. */
  lemma FormatInjective(a: nat, b: nat)
    ensures Format(a) == Format(b) <==> a == b
  {
    if Format(a) == Format(b) {
      var fa, fb := Format(a), Format(b);
      assert fa[..|fa| - 2] == Digits(a);
      assert fb[..|fb| - 2] == Digits(b);
      DigitsRoundTrip(a);
      DigitsRoundTrip(b);
    }
  }

  lemma {:induction false} NotesWeightNonNegative(F: seq<Note>)
    ensures NotesWeight(F) >= 0.0
    decreases |F|
  {
    if |F| > 0 {
      NotesWeightNonNegative(F[..|F| - 1]);
    }
  }

  /** The beat count of a measure: the ceiling of its summed weight. */
  function Beats(m: Merge.Measure): (n: nat)
    ensures (n - 1) as real < NotesWeight(Merge.Flatten(m)) <= n as real
  {
    NotesWeightNonNegative(Merge.Flatten(m));
    Ceil(NotesWeight(Merge.Flatten(m)))
  }

  /** The time signature of a piece is decided by its first measure alone. */
  function Signature(piece: Merge.Piece): (s: string)
    requires |piece| > 0
    ensures exists n: nat :: s == Format(n) && (n - 1) as real < NotesWeight(Merge.Flatten(piece[0])) <= n as real
  {
    var n := Beats(piece[0]);
    assert Format(n) == Format(n) && (n - 1) as real < NotesWeight(Merge.Flatten(piece[0])) <= n as real;
    Format(n)
  }

  /** The loops of `time_signature` over the groups and notes of the first measure. */
  method TimeSignature(piece: Merge.Piece) returns (sig: string)
    requires |piece| > 0
    ensures sig == Signature(piece)
  {
    var t := 0.0;
    var measure := piece[0];
    var j := 0;
    while j < |measure|
      invariant 0 <= j <= |measure|
      invariant t == NotesWeight(Merge.Flatten(measure[..j]))
    {
      t := AddGroup(t, Merge.Flatten(measure[..j]), measure[j]);
      Merge.FlattenPrefixStep(measure, j);
      j := j + 1;
    }
    assert measure[..j] == measure;
    NotesWeightNonNegative(Merge.Flatten(measure));
    sig := Format(Ceil(t));
  }

  /** The inner loop of `time_signature`: the weights of one group's notes added to `t`. */
  method AddGroup(t: real, ghost done: seq<Note>, beat: Merge.Group) returns (t': real)
    requires t == NotesWeight(done)
    ensures t' == NotesWeight(done + beat)
  {
    t' := t;
    var k := 0;
    assert done + beat[..0] == done;
    while k < |beat|
      invariant 0 <= k <= |beat|
      invariant t' == NotesWeight(done + beat[..k])
    {
      t' := AddNote(t', beat[k]);
      assert (done + beat[..k + 1])[..|done + beat[..k + 1]| - 1] == done + beat[..k];
      k := k + 1;
    }
    assert beat[..k] == beat;
  }

  /** The `if` chain of `time_signature`: a note's weight added to `t`; a sextuplet adds nothing. */
  method AddNote(t: real, note: Note) returns (t': real)
    ensures t' == t + Weight(note.level)
  {
    t' := t;
    if note.level == Whole {
      t' := t' + 4.0;
    } else if note.level == DottedHalf {
      t' := t' + 3.0;
    } else if note.level == Half {
      t' := t' + 2.0;
    } else if note.level == DottedQuarter {
      t' := t' + 1.5;
    } else if note.level == Quarter {
      t' := t' + 1.0;
    } else if note.level == DottedEighth {
      t' := t' + 0.75;
    } else if note.level == Eighth {
      t' := t' + 0.5;
    } else if note.level == Sixteenth {
      t' := t' + 0.25;
    } else if note.level == TwoTriplet {
      t' := t' + 0.66;
    } else if note.level == Triplet {
      t' := t' + 0.33;
    }
  }

  /** A level outside the tuplets. */
  predicate Plain(l: Level)
  {
    l != TwoTriplet && l != Triplet && l != Sextuplet
  }

  /** A plain level weighs its length in quarter notes; a tuplet level weighs less than its length. */
  lemma WeightByDuration(l: Level)
    ensures Plain(l) ==> Weight(l) == Duration(l) as real / 12.0
    ensures !Plain(l) ==> Weight(l) < Duration(l) as real / 12.0
  {
  }

  /** The summed weight never exceeds the length in quarter notes, and equals it when no note is a tuplet. */
  lemma {:induction false} NotesWeightByDuration(F: seq<Note>)
    ensures NotesWeight(F) <= Merge.TotalDuration(F) as real / 12.0
    ensures (forall q :: 0 <= q < |F| ==> Plain(F[q].level)) ==> NotesWeight(F) == Merge.TotalDuration(F) as real / 12.0
    decreases |F|
  {
    if |F| > 0 {
      var F', x := F[..|F| - 1], F[|F| - 1];
      NotesWeightByDuration(F');
      WeightByDuration(x.level);
      assert F == F' + [x];
      Merge.TotalDurationAppend(F', [x]);
      assert Merge.TotalDuration([x]) == Duration(x.level);
    }
  }

  /** For a first measure without tuplets, the beat count is its length in quarter notes, rounded up. */
  lemma PlainBeats(m: Merge.Measure)
    requires forall q :: 0 <= q < |Merge.Flatten(m)| ==> Plain(Merge.Flatten(m)[q].level)
    ensures var d := Merge.TotalDuration(Merge.Flatten(m)); Beats(m) == (d + 11) / 12
  {
    var d := Merge.TotalDuration(Merge.Flatten(m));
    NotesWeightByDuration(Merge.Flatten(m));
    var n: int := Beats(m);
    assert (n - 1) as real < d as real / 12.0 <= n as real;
    assert 12 * (n - 1) < d <= 12 * n;
  }
}

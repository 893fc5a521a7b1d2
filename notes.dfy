/** Notes (the `Strum` class) and the promotion table behind `Strum#+`. */
module Notes {
  import opened Outcome

  datatype Level =
    | Sixteenth | DottedEighth | Eighth | DottedQuarter | Quarter
    | DottedHalf | Half | Whole | Triplet | TwoTriplet | Sextuplet

  datatype Direction = Downward | Upward | Rest | Extension

  /** A strum: its level and direction are fixed at creation, `tie` is the only writable field. */
  datatype Note = Note(level: Level, direction: Direction, tie: bool)

  /** A fresh strum, as `Strum.new(level, direction)` creates it: not tied. */
  function NewNote(level: Level, direction: Direction): (n: Note)
    ensures n.level == level && n.direction == direction && !n.tie
  {
    Note(level, direction, false)
  }

  /** The promoted level of `a + b` for a level pair of the table, None for every other pair. */
  function Promote(a: Level, b: Level): (r: Option<Level>)
    ensures r.Some? <==> (a, b) in TablePairs
    ensures r.Some? ==> Duration(r.value) == Duration(a) + Duration(b)
  {
    match (a, b)
    case (DottedHalf, Quarter) => Some(Whole)
    case (Half, Half) => Some(Whole)
    case (Half, Quarter) => Some(DottedHalf)
    case (DottedQuarter, Eighth) => Some(Half)
    case (Quarter, Quarter) => Some(Half)
    case (Quarter, Eighth) => Some(DottedQuarter)
    case (Eighth, Eighth) => Some(Quarter)
    case (Eighth, Sixteenth) => Some(DottedEighth)
    case (Sixteenth, Sixteenth) => Some(Eighth)
    case (TwoTriplet, Triplet) => Some(Quarter)
    case (Triplet, Triplet) => Some(TwoTriplet)
    case _ => None
  }

  /** `a + b`: merges `a` with a following extension `b`, or is nil. */
  function Combine(a: Note, b: Note): (r: Option<Note>)
    ensures r.Some? ==> b.direction == Extension
    ensures r.Some? ==> r.value.direction == a.direction && !r.value.tie
    ensures r.Some? ==> Duration(r.value.level) == Duration(a.level) + Duration(b.level)
  {
    if b.direction != Extension then None
    else match Promote(a.level, b.level)
      case Some(l) => Some(NewNote(l, a.direction))
      case None => None
  }

  /** The level pairs of the promotion table, listed independently of `Promote`. */
  const TablePairs: set<(Level, Level)> := {
    (DottedHalf, Quarter), (Half, Half), (Half, Quarter), (DottedQuarter, Eighth),
    (Quarter, Quarter), (Quarter, Eighth), (Eighth, Eighth), (Eighth, Sixteenth),
    (Sixteenth, Sixteenth), (TwoTriplet, Triplet), (Triplet, Triplet)
  }

  /** The length of a level in twelfths of a quarter note. */
  function Duration(l: Level): (d: nat)
    ensures 0 < d <= 48
  {
    match l
    case Whole => 48
    case DottedHalf => 36
    case Half => 24
    case DottedQuarter => 18
    case Quarter => 12
    case DottedEighth => 9
    case Eighth => 6
    case Sixteenth => 3
    case TwoTriplet => 8
    case Triplet => 4
    case Sextuplet => 2
  }

  /** Different levels always have different lengths. */
  lemma DurationInjective(a: Level, b: Level)
    ensures Duration(a) == Duration(b) ==> a == b
  {
  }

  /** `a + b` is defined exactly when `b` is an extension and the level pair is in the table. */
  lemma CombineDefinedIff(a: Note, b: Note)
    ensures Combine(a, b).Some? <==> b.direction == Extension && (a.level, b.level) in TablePairs
  {
  }

  /** A sextuplet takes part in no promotion, in either position. */
  lemma SextupletNeverCombines(a: Note, b: Note)
    requires a.level == Sextuplet || b.level == Sextuplet
    ensures Combine(a, b) == None
  {
  }

  /** The promoted level is the unique level whose length is the sum of both lengths. */
  lemma CombineLevelByDuration(a: Note, b: Note, l: Level)
    requires Combine(a, b).Some?
    ensures Combine(a, b).value.level == l <==> Duration(l) == Duration(a.level) + Duration(b.level)
  {
    DurationInjective(l, Combine(a, b).value.level);
  }

  /** Tie flags play no part in `a + b`. */
  lemma CombineIgnoresTies(a: Note, b: Note, ta: bool, tb: bool)
    ensures Combine(a.(tie := ta), b.(tie := tb)) == Combine(a, b)
  {
  }
}

/** The value-level rules behind `isMachineWhole`: the size limits a controller
    declares, the reasons a machine is refused (with the messages of the
    MultiblockValidationException it throws), and the classification of a cell of
    the bounding box as frame, top, bottom, side or interior. */
module Validation {
  import opened Coords
  import opened Wrappers

  /** `DIMENSION_UNBOUNDED`: a maximum size of -1 switches the check off. */
  const DimensionUnbounded: int := -1

  /** The sizes a concrete controller declares. The minimum sizes default to 1. */
  datatype Limits = Limits(
    minBlocks: int,
    minX: int, minY: int, minZ: int,
    maxX: int, maxY: int, maxZ: int)

  /** The limits of the test mod's controller: no minimum block count, at most
      16 blocks along each axis, default minimum sizes. */
  const TestLimits: Limits := Limits(0, 1, 1, 1, 16, 16, 16)

  datatype Axis = X | Y | Z

  /** Why validation refused the machine. */
  datatype Problem =
    | TooFewBlocks
    | TooLarge(axis: Axis, limit: int)
    | TooSmall(axis: Axis, limit: int)
    | Rejected(at: Coord, reason: string)
    | NotValidBlock(at: Coord)

  /** Java's `%d`. */
  function DecimalString(n: int): string
    decreases if n < 0 then 1 - n else n
  {
    if n < 0 then "-" + DecimalString(-n)
    else if n < 10 then [['0', '1', '2', '3', '4', '5', '6', '7', '8', '9'][n]]
    else DecimalString(n / 10) + DecimalString(n % 10)
  }

  function AxisName(a: Axis): string {
    match a
    case X => "X"
    case Y => "Y"
    case Z => "Z"
  }

  /** The exception message the source formats for each problem. */
  function Message(p: Problem): string {
    match p
    case TooFewBlocks => "Machine is too small."
    case TooLarge(a, limit) =>
      "Machine is too large, it may be at most " + DecimalString(limit) + " blocks in the " + AxisName(a) + " dimension"
    case TooSmall(a, limit) =>
      "Machine is too small, it must be at least " + DecimalString(limit) + " blocks in the " + AxisName(a) + " dimension"
    case Rejected(_, reason) => reason
    case NotValidBlock(c) =>
      DecimalString(c.x) + ", " + DecimalString(c.y) + ", " + DecimalString(c.z)
      + " - Block is not valid for use in the machine's interior"
  }

  // ---------------------------------------------------------------------------
  // Size limits

  /** Number of blocks the box spans along an axis: `max - min + 1`. */
  function Span(lo: Coord, hi: Coord, a: Axis): int {
    match a
    case X => hi.x - lo.x + 1
    case Y => hi.y - lo.y + 1
    case Z => hi.z - lo.z + 1
  }

  function MaxSize(l: Limits, a: Axis): int {
    match a
    case X => l.maxX
    case Y => l.maxY
    case Z => l.maxZ
  }

  function MinSize(l: Limits, a: Axis): int {
    match a
    case X => l.minX
    case Y => l.minY
    case Z => l.minZ
  }

  /** The size checks of `isMachineWhole`, in the order the source makes them:
      the block count, then "too large" along X, Y, Z (only for a positive
      maximum), then "too small" along X, Y, Z. */
  function SizeProblem(l: Limits, count: int, lo: Coord, hi: Coord): Option<Problem> {
    if count < l.minBlocks then Some(TooFewBlocks)
    else if l.maxX > 0 && Span(lo, hi, X) > l.maxX then Some(TooLarge(X, l.maxX))
    else if l.maxY > 0 && Span(lo, hi, Y) > l.maxY then Some(TooLarge(Y, l.maxY))
    else if l.maxZ > 0 && Span(lo, hi, Z) > l.maxZ then Some(TooLarge(Z, l.maxZ))
    else if Span(lo, hi, X) < l.minX then Some(TooSmall(X, l.minX))
    else if Span(lo, hi, Y) < l.minY then Some(TooSmall(Y, l.minY))
    else if Span(lo, hi, Z) < l.minZ then Some(TooSmall(Z, l.minZ))
    else None
  }

  /** Reference statement of the limits, axis by axis. */
  predicate WithinLimits(l: Limits, count: int, lo: Coord, hi: Coord) {
    count >= l.minBlocks &&
    forall a: Axis ::
      (MaxSize(l, a) <= 0 || Span(lo, hi, a) <= MaxSize(l, a)) && Span(lo, hi, a) >= MinSize(l, a)
  }

  /** The size checks pass exactly when every limit holds; a maximum of zero or
      less (`DIMENSION_UNBOUNDED`) never fails. */
  lemma SizeProblemIffOutsideLimits(l: Limits, count: int, lo: Coord, hi: Coord)
    ensures SizeProblem(l, count, lo, hi).None? <==> WithinLimits(l, count, lo, hi)
    ensures SizeProblem(l, count, lo, hi).Some? ==>
      match SizeProblem(l, count, lo, hi).value
      case TooFewBlocks => count < l.minBlocks
      case TooLarge(a, limit) => limit == MaxSize(l, a) > 0 && Span(lo, hi, a) > limit
      case TooSmall(a, limit) => limit == MinSize(l, a) && Span(lo, hi, a) < limit
      case _ => false
  {
    if SizeProblem(l, count, lo, hi).None? {
      forall a: Axis
        ensures (MaxSize(l, a) <= 0 || Span(lo, hi, a) <= MaxSize(l, a)) && Span(lo, hi, a) >= MinSize(l, a)
      {
        match a
        case X =>
        case Y =>
        case Z =>
      }
    }
  }

  /** An unbounded axis is never reported as too large. */
  lemma UnboundedNeverTooLarge(l: Limits, count: int, lo: Coord, hi: Coord, a: Axis)
    requires MaxSize(l, a) <= 0
    ensures SizeProblem(l, count, lo, hi) != Some(TooLarge(a, MaxSize(l, a)))
  {
  }

  // ---------------------------------------------------------------------------
  // Where a cell sits in the bounding box

  datatype Position = Frame | Top | Bottom | Sides | Interior

  predicate InBox(lo: Coord, hi: Coord, c: Coord) {
    lo.x <= c.x <= hi.x && lo.y <= c.y <= hi.y && lo.z <= c.z <= hi.z
  }

  /** How many of the cell's coordinates equal a minimum, plus how many equal a
      maximum, counted separately. */
  function Extremes(lo: Coord, hi: Coord, c: Coord): nat {
    (if c.x == lo.x then 1 else 0) + (if c.y == lo.y then 1 else 0) + (if c.z == lo.z then 1 else 0) +
    (if c.x == hi.x then 1 else 0) + (if c.y == hi.y then 1 else 0) + (if c.z == hi.z then 1 else 0)
  }

  /** Two or more extremes: frame; exactly one: top if on the highest layer,
      bottom if on the lowest, otherwise a side; none: interior. */
  function Classify(lo: Coord, hi: Coord, c: Coord): Position {
    var e := Extremes(lo, hi, c);
    if e >= 2 then Frame
    else if e == 1 then (if c.y == hi.y then Top else if c.y == lo.y then Bottom else Sides)
    else Interior
  }

  predicate StrictlyInside(lo: int, v: int, hi: int) { lo < v < hi }

  /** In a box at least two blocks long on every axis the classification is the
      geometric one: edges and corners are frame, the inside of the top and
      bottom faces are top and bottom, the inside of the four upright faces are
      sides, and everything strictly inside is interior. */
  lemma ClassifyGeometry(lo: Coord, hi: Coord, c: Coord)
    requires InBox(lo, hi, c)
    requires lo.x < hi.x && lo.y < hi.y && lo.z < hi.z
    ensures Classify(lo, hi, c) == Interior <==>
      StrictlyInside(lo.x, c.x, hi.x) && StrictlyInside(lo.y, c.y, hi.y) && StrictlyInside(lo.z, c.z, hi.z)
    ensures Classify(lo, hi, c) == Top <==>
      c.y == hi.y && StrictlyInside(lo.x, c.x, hi.x) && StrictlyInside(lo.z, c.z, hi.z)
    ensures Classify(lo, hi, c) == Bottom <==>
      c.y == lo.y && StrictlyInside(lo.x, c.x, hi.x) && StrictlyInside(lo.z, c.z, hi.z)
    ensures Classify(lo, hi, c) == Sides <==>
      StrictlyInside(lo.y, c.y, hi.y) &&
      ((c.x in {lo.x, hi.x} && StrictlyInside(lo.z, c.z, hi.z)) ||
       (c.z in {lo.z, hi.z} && StrictlyInside(lo.x, c.x, hi.x)))
    ensures Classify(lo, hi, c) == Frame <==>
      (c.x in {lo.x, hi.x} && c.y in {lo.y, hi.y}) ||
      (c.x in {lo.x, hi.x} && c.z in {lo.z, hi.z}) ||
      (c.y in {lo.y, hi.y} && c.z in {lo.z, hi.z})
  {
  }

  /** A box one block thick along some axis has no top, bottom, sides or
      interior: each of its cells meets both faces of that axis. */
  lemma FlatBoxIsAllFrame(lo: Coord, hi: Coord, c: Coord)
    requires InBox(lo, hi, c)
    requires lo.x == hi.x || lo.y == hi.y || lo.z == hi.z
    ensures Classify(lo, hi, c) == Frame
  {
  }

  // ---------------------------------------------------------------------------
  // Judging every cell of the bounding box

  /** What the world holds at each position that has a multiblock part: the
      positions that part refuses, each with the reason it gives. A position
      without an entry holds no part. */
  type Shapes = map<Coord, map<Position, string>>

  /** The verdict on one cell: a part is asked about the position it occupies;
      a cell without a part always fails with the fixed "not valid" message. */
  function CellProblem(shapes: Shapes, lo: Coord, hi: Coord, c: Coord): (r: Option<Problem>)
    ensures r.None? ==> c in shapes
    ensures c !in shapes ==> r == Some(NotValidBlock(c))
  {
    if c in shapes then
      var p := Classify(lo, hi, c);
      if p in shapes[c] then Some(Rejected(c, shapes[c][p])) else None
    else Some(NotValidBlock(c))
  }

  ghost predicate CellsPass(shapes: Shapes, lo: Coord, hi: Coord) {
    forall c :: InBox(lo, hi, c) ==> CellProblem(shapes, lo, hi, c).None?
  }

  /** `c` is the first refused cell in the order the nested x, y, z loops visit
      the box, which is the coordinate order. */
  ghost predicate FirstRefused(shapes: Shapes, lo: Coord, hi: Coord, c: Coord) {
    InBox(lo, hi, c) && CellProblem(shapes, lo, hi, c).Some? &&
    forall d :: InBox(lo, hi, d) && Compare(d, c) < 0 ==> CellProblem(shapes, lo, hi, d).None?
  }

  lemma FirstRefusedUnique(shapes: Shapes, lo: Coord, hi: Coord, c: Coord, d: Coord)
    requires FirstRefused(shapes, lo, hi, c) && FirstRefused(shapes, lo, hi, d)
    ensures c == d
  {
    CompareTotal(c, d);
  }

  /** A machine whose box passes has a part in every cell of its box. */
  lemma PassingBoxIsFull(shapes: Shapes, lo: Coord, hi: Coord, c: Coord)
    requires CellsPass(shapes, lo, hi) && InBox(lo, hi, c)
    ensures c in shapes
  {
  }

  // ---------------------------------------------------------------------------
  // Which box is judged

  /** A machine of one part, judged on its own one-block box, passes the
      limits of the test mod whenever the part accepts a frame position. */
  lemma LonePartIsWhole(c: Coord, rejects: map<Position, string>)
    requires Frame !in rejects
    ensures SizeProblem(TestLimits, 1, c, c).None?
    ensures CellsPass(map[c := rejects], c, c)
  {
    forall d | InBox(c, c, d)
      ensures CellProblem(map[c := rejects], c, c, d).None?
    {
      assert d == c;
    }
  }

  /** The same lone part at (100, 64, 100), judged on the box (0, 0, 0) to
      (0, 0, 0) that a new controller starts with, is refused: the size
      checks pass but the origin holds no part. */
  lemma StaleBoxRefusesLonePart()
    ensures SizeProblem(TestLimits, 1, Coord(0, 0, 0), Coord(0, 0, 0)).None?
    ensures CellProblem(map[Coord(100, 64, 100) := map[]], Coord(0, 0, 0), Coord(0, 0, 0), Coord(0, 0, 0)) ==
      Some(NotValidBlock(Coord(0, 0, 0)))
    ensures !CellsPass(map[Coord(100, 64, 100) := map[]], Coord(0, 0, 0), Coord(0, 0, 0))
  {
    var o := Coord(0, 0, 0);
    assert InBox(o, o, o);
  }
}

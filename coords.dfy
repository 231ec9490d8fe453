/** Integer block coordinates (CoordTriplet): value equality, the lexicographic
    (x, y, z) order used to elect reference coordinates, the NetBeans-style hash
    with Java's 32-bit wrap-around, the face directions between two blocks, and
    the chunk arithmetic (`x >> 4`) and chunk keys the multiblock code relies on. */
module Coords {

  /** A block position. Java `int` fields are modelled as unbounded integers; the
      hash below reduces modulo 2^32 explicitly. */
  datatype Coord = Coord(x: int, y: int, z: int)

  /** A Java `Object` argument as seen by `equals(Object)` and `compareTo(Object)`. */
  datatype Obj = CoordObj(c: Coord) | OtherObj | NullObj

  // ---------------------------------------------------------------------------
  // Equality

  /** `equals(Object)`: false for null and for objects of another class,
      component-wise equality otherwise. */
  function Equals(a: Coord, other: Obj): (r: bool)
    ensures r <==> other == CoordObj(a)
  {
    match other
    case NullObj => false
    case OtherObj => false
    case CoordObj(b) => a.x == b.x && a.y == b.y && a.z == b.z
  }

  /** `equals(int, int, int)`. */
  function EqualsXYZ(a: Coord, x: int, y: int, z: int): (r: bool)
    ensures r <==> Equals(a, CoordObj(Coord(x, y, z)))
  {
    a.x == x && a.y == y && a.z == z
  }

  lemma EqualsIsEquivalence(a: Coord, b: Coord, c: Coord)
    ensures Equals(a, CoordObj(a))
    ensures Equals(a, CoordObj(b)) == Equals(b, CoordObj(a))
    ensures Equals(a, CoordObj(b)) && Equals(b, CoordObj(c)) ==> Equals(a, CoordObj(c))
    ensures !Equals(a, NullObj) && !Equals(a, OtherObj)
  {
  }

  // ---------------------------------------------------------------------------
  // Lexicographic order

  /** Reference definition of the order: x first, then y, then z. */
  predicate LexLess(a: Coord, b: Coord) {
    a.x < b.x || (a.x == b.x && (a.y < b.y || (a.y == b.y && a.z < b.z)))
  }

  /** `compareTo(Object)`: -1, 0 or 1 against another coordinate; 0 against
      anything that is not a coordinate, null included. */
  function CompareTo(a: Coord, o: Obj): (r: int)
    ensures -1 <= r <= 1
    ensures !o.CoordObj? ==> r == 0
    ensures o.CoordObj? ==> (r == -1 <==> LexLess(a, o.c))
    ensures o.CoordObj? ==> (r == 1 <==> LexLess(o.c, a))
  {
    match o
    case CoordObj(b) =>
      if a.x < b.x then -1
      else if a.x > b.x then 1
      else if a.y < b.y then -1
      else if a.y > b.y then 1
      else if a.z < b.z then -1
      else if a.z > b.z then 1
      else 0
    case _ => 0
  }

  /** `compareTo` between two coordinates. */
  function Compare(a: Coord, b: Coord): int {
    CompareTo(a, CoordObj(b))
  }

  /** Zero exactly for equal coordinates. */
  lemma CompareZeroIffEquals(a: Coord, b: Coord)
    ensures Compare(a, b) == 0 <==> Equals(a, CoordObj(b))
  {
  }

  lemma CompareAntisymmetric(a: Coord, b: Coord)
    ensures Compare(a, b) == -Compare(b, a)
  {
  }

  lemma CompareTransitive(a: Coord, b: Coord, c: Coord)
    ensures Compare(a, b) < 0 && Compare(b, c) < 0 ==> Compare(a, c) < 0
    ensures Compare(a, b) <= 0 && Compare(b, c) <= 0 ==> Compare(a, c) <= 0
  {
  }

  lemma CompareTotal(a: Coord, b: Coord)
    ensures a == b || Compare(a, b) < 0 || Compare(b, a) < 0
  {
  }

  // ---------------------------------------------------------------------------
  // Least element of a set, in the coordinate order

  predicate IsLeast(m: Coord, s: set<Coord>) {
    m in s && forall e :: e in s ==> Compare(m, e) <= 0
  }

  lemma LeastUnique(m: Coord, n: Coord, s: set<Coord>)
    requires IsLeast(m, s) && IsLeast(n, s)
    ensures m == n
  {
    CompareAntisymmetric(m, n);
  }

  /** The least of `s` together with one more coordinate is the smaller of the two. */
  lemma LeastInsert(m: Coord, s: set<Coord>, c: Coord)
    requires IsLeast(m, s)
    ensures Compare(c, m) < 0 ==> IsLeast(c, s + {c})
    ensures Compare(c, m) >= 0 ==> IsLeast(m, s + {c})
  {
    forall e | e in s + {c}
      ensures Compare(c, m) < 0 ==> Compare(c, e) <= 0
      ensures Compare(c, m) >= 0 ==> Compare(m, e) <= 0
    {
      CompareAntisymmetric(c, m);
      if e in s {
        CompareTransitive(c, m, e);
      }
    }
  }

  /** Every non-empty set of coordinates has a least element. */
  lemma {:induction false} LeastExists(s: set<Coord>)
    requires s != {}
    ensures exists m :: IsLeast(m, s)
  {
    var c :| c in s;
    if s == {c} {
      assert IsLeast(c, s);
    } else {
      LeastExists(s - {c});
      var m :| IsLeast(m, s - {c});
      LeastInsert(m, s - {c}, c);
      assert s - {c} + {c} == s;
      if Compare(c, m) < 0 {
        assert IsLeast(c, s);
      } else {
        assert IsLeast(m, s);
      }
    }
  }

  // ---------------------------------------------------------------------------
  // Hash code with Java int arithmetic

  const TwoPow32: int := 0x1_0000_0000
  const IntMin: int := -0x8000_0000
  const IntMax: int := 0x7FFF_FFFF

  /** Two's-complement reduction of a mathematical integer to a Java `int`. */
  function Wrap32(n: int): (r: int)
    ensures IntMin <= r <= IntMax
    ensures (r - n) % TwoPow32 == 0
  {
    (n - IntMin) % TwoPow32 + IntMin
  }

  lemma Wrap32Periodic(n: int, k: int)
    ensures Wrap32(n + k * TwoPow32) == Wrap32(n)
  {
  }

  lemma Wrap32OfInt(n: int)
    requires IntMin <= n <= IntMax
    ensures Wrap32(n) == n
  {
  }

  /** One step of `hash = 71 * hash + v` with wrap-around, ignoring the earlier wrap. */
  lemma WrapStep(h: int, v: int)
    ensures Wrap32(71 * Wrap32(h) + v) == Wrap32(71 * h + v)
  {
    var q := (h - IntMin) / TwoPow32;
    assert Wrap32(h) == h - q * TwoPow32;
    assert 71 * Wrap32(h) + v == 71 * h + v + (-71 * q) * TwoPow32;
    Wrap32Periodic(71 * h + v, -71 * q);
  }

  /** `hashCode()`: seed 7, then `hash = 71 * hash + component` for x, y, z,
      each step in 32-bit two's-complement arithmetic. */
  function HashCode(c: Coord): int {
    var h0 := 7;
    var h1 := Wrap32(71 * h0 + c.x);
    var h2 := Wrap32(71 * h1 + c.y);
    Wrap32(71 * h2 + c.z)
  }

  /** The wrapped hash is the polynomial 7*71^3 + 71^2*x + 71*y + z reduced to 32 bits. */
  lemma HashCodeClosedForm(c: Coord)
    ensures IntMin <= HashCode(c) <= IntMax
    ensures HashCode(c) == Wrap32(2505377 + 5041 * c.x + 71 * c.y + c.z)
  {
    var h1 := 71 * 7 + c.x;
    WrapStep(h1, c.y);
    WrapStep(71 * h1 + c.y, c.z);
  }

  /** Coordinates that are `equals` have equal hash codes. */
  lemma HashCodeRespectsEquals(a: Coord, b: Coord)
    requires Equals(a, CoordObj(b))
    ensures HashCode(a) == HashCode(b)
  {
  }

  // ---------------------------------------------------------------------------
  // Directions (Forge's ForgeDirection)

  datatype Direction = Down | Up | North | South | West | East | Unknown

  /** ForgeDirection.getOpposite(). */
  function Opposite(d: Direction): (r: Direction)
    ensures (r == Unknown) <==> (d == Unknown)
  {
    match d
    case Down => Up
    case Up => Down
    case North => South
    case South => North
    case West => East
    case East => West
    case Unknown => Unknown
  }

  lemma OppositeInvolutive(d: Direction)
    ensures Opposite(Opposite(d)) == d
    ensures d != Unknown ==> Opposite(d) != d
  {
  }

  /** `getDirectionFromSourceCoords(x, y, z)`: the first axis on which this block
      differs from the source decides the direction. */
  function DirectionFromSource(c: Coord, x: int, y: int, z: int): Direction {
    if c.x < x then West
    else if c.x > x then East
    else if c.y < y then Down
    else if c.y > y then Up
    else if c.z < z then South
    else if c.z > z then North
    else Unknown
  }

  /** `getOppositeDirectionFromSourceCoords(x, y, z)`. */
  function OppositeDirectionFromSource(c: Coord, x: int, y: int, z: int): Direction {
    if c.x < x then East
    else if c.x > x then West
    else if c.y < y then Up
    else if c.y > y then Down
    else if c.z < z then North
    else if c.z > z then South
    else Unknown
  }

  /** UNKNOWN exactly when the source is this very block. */
  lemma DirectionUnknownIffSame(c: Coord, x: int, y: int, z: int)
    ensures DirectionFromSource(c, x, y, z) == Unknown <==> EqualsXYZ(c, x, y, z)
    ensures OppositeDirectionFromSource(c, x, y, z) == Unknown <==> EqualsXYZ(c, x, y, z)
  {
  }

  /** The "opposite" query is the opposite of the direction query, for every input. */
  lemma OppositeDirectionIsOpposite(c: Coord, x: int, y: int, z: int)
    ensures OppositeDirectionFromSource(c, x, y, z) == Opposite(DirectionFromSource(c, x, y, z))
  {
  }

  /** Swapping block and source reverses the direction. */
  lemma DirectionSwap(a: Coord, b: Coord)
    ensures DirectionFromSource(a, b.x, b.y, b.z) == Opposite(DirectionFromSource(b, a.x, a.y, a.z))
  {
  }

  /** The direction agrees with the coordinate order on the first differing axis:
      West/Down/South when this block is smaller than the source. */
  lemma DirectionFollowsOrder(a: Coord, b: Coord)
    ensures DirectionFromSource(a, b.x, b.y, b.z) in {West, Down, South} <==> Compare(a, b) < 0
    ensures DirectionFromSource(a, b.x, b.y, b.z) in {East, Up, North} <==> Compare(a, b) > 0
  {
  }

  /** `copy()`. */
  function Copy(c: Coord): (r: Coord)
    ensures Equals(r, CoordObj(c)) && Equals(c, CoordObj(r))
    ensures Compare(r, c) == 0 && Compare(c, r) == 0
    ensures HashCode(r) == HashCode(c)
  {
    Coord(c.x, c.y, c.z)
  }

  // ---------------------------------------------------------------------------
  // Chunks

  /** Java's arithmetic shift `n >> 4`: floor division by 16, also for negative n. */
  function Shr4(n: int): (r: int)
    ensures 16 * r <= n < 16 * r + 16
  {
    n / 16
  }

  function ChunkX(c: Coord): int { Shr4(c.x) }
  function ChunkZ(c: Coord): int { Shr4(c.z) }

  /** The chunk column holding a coordinate, as a pair. */
  function ChunkOf(c: Coord): (int, int) { (ChunkX(c), ChunkZ(c)) }

  /** Minecraft's `ChunkCoordIntPair.chunkXZ2Int`: the low 32 bits of x and the low
      32 bits of z packed into one signed 64-bit key. */
  function ChunkKey(cx: int, cz: int): int {
    var lo := cx % TwoPow32;
    var hi := cz % TwoPow32;
    var u := lo + hi * TwoPow32;
    if u < 0x8000_0000_0000_0000 then u else u - 0x1_0000_0000_0000_0000
  }

  /** The key of a block's chunk. */
  function ChunkKeyOf(c: Coord): int { ChunkKey(ChunkX(c), ChunkZ(c)) }

  predicate IsInt(n: int) { IntMin <= n <= IntMax }

  /** Distinct chunks with Java-int chunk coordinates never share a key. */
  lemma ChunkKeyInjective(ax: int, az: int, bx: int, bz: int)
    requires IsInt(ax) && IsInt(az) && IsInt(bx) && IsInt(bz)
    requires ChunkKey(ax, az) == ChunkKey(bx, bz)
    ensures ax == bx && az == bz
  {
    var ua := ax % TwoPow32 + (az % TwoPow32) * TwoPow32;
    var ub := bx % TwoPow32 + (bz % TwoPow32) * TwoPow32;
    assert ua == ub;
    assert ua % TwoPow32 == ax % TwoPow32;
    assert ub % TwoPow32 == bx % TwoPow32;
    assert ua / TwoPow32 == az % TwoPow32;
    assert ub / TwoPow32 == bz % TwoPow32;
    LowBitsInjective(ax, bx);
    LowBitsInjective(az, bz);
  }

  lemma LowBitsInjective(a: int, b: int)
    requires IsInt(a) && IsInt(b) && a % TwoPow32 == b % TwoPow32
    ensures a == b
  {
  }

  // ---------------------------------------------------------------------------
  // Face neighbours

  /** The six face-adjacent positions, in the order `getNeighboringParts` visits them. */
  function Neighbours(c: Coord): seq<Coord> {
    [Coord(c.x - 1, c.y, c.z), Coord(c.x, c.y - 1, c.z), Coord(c.x, c.y, c.z - 1),
     Coord(c.x, c.y, c.z + 1), Coord(c.x, c.y + 1, c.z), Coord(c.x + 1, c.y, c.z)]
  }

  function Abs(n: int): nat { if n < 0 then -n else n }

  /** Reference definition: one step along exactly one axis. */
  predicate FaceAdjacent(a: Coord, b: Coord) {
    Abs(a.x - b.x) + Abs(a.y - b.y) + Abs(a.z - b.z) == 1
  }

  lemma NeighboursAreFaceAdjacent(c: Coord, n: Coord)
    ensures n in Neighbours(c) <==> FaceAdjacent(c, n)
  {
    if FaceAdjacent(c, n) {
      if n.x != c.x {
        assert n == Neighbours(c)[if n.x < c.x then 0 else 5];
      } else if n.y != c.y {
        assert n == Neighbours(c)[if n.y < c.y then 1 else 4];
      } else {
        assert n == Neighbours(c)[if n.z < c.z then 2 else 3];
      }
    }
  }

  lemma NeighboursSymmetric(a: Coord, b: Coord)
    ensures b in Neighbours(a) <==> a in Neighbours(b)
  {
    NeighboursAreFaceAdjacent(a, b);
    NeighboursAreFaceAdjacent(b, a);
  }

  lemma NeighboursDistinct(c: Coord)
    ensures |Neighbours(c)| == 6
    ensures forall i, j :: 0 <= i < j < 6 ==> Neighbours(c)[i] != Neighbours(c)[j]
    ensures c !in Neighbours(c)
  {
  }
}

/** Integer side of the particle grid: cell coordinates, the cell hash, the bucket key
    and the table of the nine neighbourhood offsets.

    C#'s `int` and `uint` are modelled as the subset types I32 and U32 of the unbounded
    integers; wherever the C# code relies on unchecked wrap-around it is written out. */
module CellHashing {
  import opened Wrappers

  const IntMin: int := -0x8000_0000
  /** `int.MaxValue`. It is also the "no run" sentinel of the start-index table. */
  const IntMax: int := 0x7FFF_FFFF

  type I32 = x: int | -0x8000_0000 <= x <= 0x7FFF_FFFF
  type U32 = x: int | 0 <= x < 0x1_0000_0000

  /** An `int2` grid cell coordinate. */
  datatype Cell = Cell(x: I32, y: I32)

  // 0x1_0000_0000 = 2^32 is the modulus of 32-bit arithmetic; it is written as a literal
  // so that the solver treats reductions by it as linear arithmetic.

  /** The value the hash would have over the unbounded integers. */
  function RawHash(x: int, y: int): int {
    x * 12289 + y * 24593
  }

  // ---------------------------------------------------------------------------
  // Modular arithmetic helpers

  lemma ModShift(v: int, q: int)
    ensures (v + q * 0x1_0000_0000) % 0x1_0000_0000 == v % 0x1_0000_0000
  {
    var d, r := v / 0x1_0000_0000, v % 0x1_0000_0000;
    assert v == d * 0x1_0000_0000 + r;
    assert v + q * 0x1_0000_0000 == (d + q) * 0x1_0000_0000 + r;
    ModUnique(v + q * 0x1_0000_0000, d + q, r);
  }

  lemma ModUnique(v: int, d: int, r: int)
    requires v == d * 0x1_0000_0000 + r && 0 <= r < 0x1_0000_0000
    ensures v % 0x1_0000_0000 == r
  {
    var d', r' := v / 0x1_0000_0000, v % 0x1_0000_0000;
    assert v == d' * 0x1_0000_0000 + r';
    assert (d - d') * 0x1_0000_0000 == r' - r;
  }

  /** Two values with the same remainder modulo 2^32 that are less than 2^32 apart are equal. */
  lemma ModEqualClose(a: int, b: int)
    requires a % 0x1_0000_0000 == b % 0x1_0000_0000
    requires -0x1_0000_0000 < a - b < 0x1_0000_0000
    ensures a == b
  {
    var da, db := a / 0x1_0000_0000, b / 0x1_0000_0000;
    assert a == da * 0x1_0000_0000 + a % 0x1_0000_0000;
    assert b == db * 0x1_0000_0000 + b % 0x1_0000_0000;
    assert a - b == (da - db) * 0x1_0000_0000;
  }

  lemma ModDiffers(a: int, b: int)
    requires a != b && -0x1_0000_0000 < a - b < 0x1_0000_0000
    ensures a % 0x1_0000_0000 != b % 0x1_0000_0000
  {
    if a % 0x1_0000_0000 == b % 0x1_0000_0000 {
      ModEqualClose(a, b);
    }
  }

  /** The wrap-around of an unchecked C# `int` operation: the value in I32 whose low
      32 bits are those of v. */
  function WrapI32(v: int): (r: I32)
    ensures r % 0x1_0000_0000 == v % 0x1_0000_0000
    ensures IntMin <= v <= IntMax ==> r == v
  {
    var r := (v - IntMin) % 0x1_0000_0000 + IntMin;
    assert r == v - ((v - IntMin) / 0x1_0000_0000) * 0x1_0000_0000;
    ModShift(v, -((v - IntMin) / 0x1_0000_0000));
    if IntMin <= v <= IntMax then
      ModUnique(v - IntMin, 0, v - IntMin);
      r
    else
      r
  }

  /** The `(uint)` cast of an `int`: the same 32 bits read as unsigned. */
  function ToU32(v: I32): (r: U32)
    ensures v >= 0 ==> r == v
    ensures v < 0 ==> r == v + 0x1_0000_0000
  {
    if v >= 0 then
      ModUnique(v, 0, v);
      v % 0x1_0000_0000
    else
      ModUnique(v, -1, v + 0x1_0000_0000);
      v % 0x1_0000_0000
  }

  /** calcCellHash: `(uint)(coord.x * 12289 + coord.y * 24593)`, evaluated with C#'s
      unchecked 32-bit `int` multiplication and addition and reinterpreted as `uint`.
      Whatever the overflows on the way, the hash is the exact value reduced modulo 2^32. */
  function CellHash(c: Cell): (h: U32)
    ensures h == RawHash(c.x, c.y) % 0x1_0000_0000
  {
    var px: int := WrapI32(c.x * 12289);
    var py: int := WrapI32(c.y * 24593);
    ReinterpretWrapped(px + py);
    SumCongruent(px, c.x * 12289, py, c.y * 24593);
    ToU32(WrapI32(px + py))
  }

  /** Wrapping to `int` and casting to `uint` keeps the low 32 bits. */
  lemma ReinterpretWrapped(v: int)
    ensures ToU32(WrapI32(v)) == v % 0x1_0000_0000
  {
    var w: int := WrapI32(v);
    var h: int := ToU32(WrapI32(v));
    if w < 0 { ModShift(w, 1); } else { ModUnique(w, 0, w); }
    ModUnique(h, 0, h);
  }

  /** Replacing the addends by congruent values keeps the sum's residue. */
  lemma SumCongruent(a: int, a': int, b: int, b': int)
    requires a % 0x1_0000_0000 == a' % 0x1_0000_0000 && b % 0x1_0000_0000 == b' % 0x1_0000_0000
    ensures (a + b) % 0x1_0000_0000 == (a' + b') % 0x1_0000_0000
  {
    var qa := a / 0x1_0000_0000 - a' / 0x1_0000_0000;
    var qb := b / 0x1_0000_0000 - b' / 0x1_0000_0000;
    assert a == a' + qa * 0x1_0000_0000;
    assert b == b' + qb * 0x1_0000_0000;
    assert a + b == (a' + b') + (qa + qb) * 0x1_0000_0000;
    ModShift(a' + b', qa + qb);
  }

  /** Congruent coordinates hash alike. */
  lemma RawHashCongruent(x: int, y: int, x': int, y': int)
    requires x % 0x1_0000_0000 == x' % 0x1_0000_0000 && y % 0x1_0000_0000 == y' % 0x1_0000_0000
    ensures RawHash(x, y) % 0x1_0000_0000 == RawHash(x', y') % 0x1_0000_0000
  {
    var qx := x / 0x1_0000_0000 - x' / 0x1_0000_0000;
    var qy := y / 0x1_0000_0000 - y' / 0x1_0000_0000;
    assert x == x' + qx * 0x1_0000_0000;
    assert y == y' + qy * 0x1_0000_0000;
    assert RawHash(x, y) == RawHash(x', y') + (qx * 12289 + qy * 24593) * 0x1_0000_0000;
    ModShift(RawHash(x', y'), qx * 12289 + qy * 24593);
  }

  // ---------------------------------------------------------------------------
  // Bucket keys

  /** getKeyFromHash: `hash % numParticles`. C# evaluates `uint % int` in 64 bits; with a
      non-negative hash and a positive count this is Dafny's `%`. The key is always a
      valid index of the start-index table, and never equals the sentinel `int.MaxValue`. */
  function KeyFromHash(h: U32, n: int): (k: U32)
    requires 0 < n <= IntMax
    ensures k < n && k != IntMax
    ensures h < n ==> k == h
  {
    ModBelowDivisor(h, n);
    h % n
  }

  lemma ModBelowDivisor(h: int, n: int)
    requires 0 <= h && 0 < n
    ensures 0 <= h % n < n
    ensures h < n ==> h % n == h
  {
    var q, k := h / n, h % n;
    assert h == q * n + k;
  }

  // ---------------------------------------------------------------------------
  // Cell offsets and neighbourhoods

  /** The `cellOffsets` table, in the source's order. */
  const CellOffsets: seq<Cell> := [
    Cell(-1, 1), Cell(0, 1), Cell(1, 1),
    Cell(-1, 0), Cell(0, 0), Cell(1, 0),
    Cell(-1, -1), Cell(0, -1), Cell(1, -1)
  ]

  /** The table holds nine different offsets, each within {-1,0,1} x {-1,0,1}. */
  lemma OffsetsDistinct(i: int, j: int)
    requires 0 <= i < |CellOffsets| && 0 <= j < |CellOffsets|
    ensures -1 <= CellOffsets[i].x <= 1 && -1 <= CellOffsets[i].y <= 1
    ensures i != j ==> CellOffsets[i] != CellOffsets[j]
  {
  }

  /** Every offset of {-1,0,1} x {-1,0,1} is in the table, so with OffsetsDistinct each is
      there exactly once. */
  lemma OffsetsCoverNeighbourhood(dx: I32, dy: I32)
    requires -1 <= dx <= 1 && -1 <= dy <= 1
    ensures Cell(dx, dy) in CellOffsets
  {
  }

  /** `int2 + int2`: component-wise unchecked addition. */
  function AddCell(a: Cell, b: Cell): (c: Cell)
    ensures IntMin <= a.x + b.x <= IntMax ==> c.x == a.x + b.x
    ensures IntMin <= a.y + b.y <= IntMax ==> c.y == a.y + b.y
  {
    Cell(WrapI32(a.x + b.x), WrapI32(a.y + b.y))
  }

  /** Wrapping the coordinates does not change the hash. */
  lemma AddCellHash(a: Cell, b: Cell)
    ensures CellHash(AddCell(a, b)) == RawHash(a.x + b.x, a.y + b.y) % 0x1_0000_0000
  {
    var c := AddCell(a, b);
    RawHashCongruent(c.x, c.y, a.x + b.x, a.y + b.y);
  }

  /** The hash of the cell at offset o from centre, as the scans compute it: the wrapping
      `int2` sum, hashed. It is the raw hash of the exact shifted coordinates modulo 2^32. */
  function ShiftedHash(centre: Cell, o: Cell): (h: U32)
    ensures h == RawHash(centre.x + o.x, centre.y + o.y) % 0x1_0000_0000
  {
    AddCellHash(centre, o);
    CellHash(AddCell(centre, o))
  }

  /** The hash of the i-th cell of the 3x3 neighbourhood around centre, as the scans
      compute it. */
  function NeighbourHash(centre: Cell, i: int): (h: U32)
    requires 0 <= i < |CellOffsets|
    ensures h == RawHash(centre.x + CellOffsets[i].x, centre.y + CellOffsets[i].y) % 0x1_0000_0000
  {
    ShiftedHash(centre, CellOffsets[i])
  }

  /** The hashes of the nine cells around centre, in the order the scans visit them. */
  function NeighbourHashes(centre: Cell): (hs: seq<U32>)
    ensures |hs| == |CellOffsets|
    ensures forall i :: 0 <= i < |hs| ==> hs[i] == NeighbourHash(centre, i)
    ensures forall i :: 0 <= i < |hs| ==>
              hs[i] == RawHash(centre.x + CellOffsets[i].x, centre.y + CellOffsets[i].y) % 0x1_0000_0000
  {
    seq(|CellOffsets|, i requires 0 <= i < |CellOffsets| => NeighbourHash(centre, i))
  }

  lemma NeighbourHashAt(centre: Cell, i: int)
    requires 0 <= i < |CellOffsets|
    ensures NeighbourHashes(centre)[i] == CellHash(AddCell(centre, CellOffsets[i]))
  {
  }

  /** The nine cells of a neighbourhood have nine different hashes, wherever the centre
      lies: the hash difference of two offsets is a non-zero number far below 2^32. So no
      particle is found twice by one neighbourhood query. */
  lemma {:induction false} NeighbourHashesDistinct(centre: Cell, i: int, j: int)
    requires 0 <= i < |CellOffsets| && 0 <= j < |CellOffsets| && i != j
    ensures NeighbourHash(centre, i) != NeighbourHash(centre, j)
  {
    OffsetsDistinct(i, j);
    OffsetsDistinct(j, i);
    ShiftedCellsDiffer(centre, CellOffsets[i], CellOffsets[j]);
  }

  /** The same, for the whole list: no hash occurs twice among the nine. */
  lemma NeighbourHashListDistinct(centre: Cell)
    ensures forall i, j :: 0 <= i < j < |CellOffsets| ==> NeighbourHashes(centre)[i] != NeighbourHashes(centre)[j]
  {
    forall i, j | 0 <= i < j < |CellOffsets|
      ensures NeighbourHashes(centre)[i] != NeighbourHashes(centre)[j]
    {
      NeighbourHashesDistinct(centre, i, j);
    }
  }

  lemma ShiftedCellsDiffer(centre: Cell, o: Cell, o': Cell)
    requires -1 <= o.x <= 1 && -1 <= o.y <= 1 && -1 <= o'.x <= 1 && -1 <= o'.y <= 1
    requires o != o'
    ensures CellHash(AddCell(centre, o)) != CellHash(AddCell(centre, o'))
  {
    AddCellHash(centre, o);
    AddCellHash(centre, o');
    ShiftedHashesDiffer(centre.x, centre.y, o, o');
  }

  /** Two different offsets from the same base cell give different hashes. */
  lemma ShiftedHashesDiffer(x: int, y: int, o: Cell, o': Cell)
    requires -1 <= o.x <= 1 && -1 <= o.y <= 1 && -1 <= o'.x <= 1 && -1 <= o'.y <= 1
    requires o != o'
    ensures RawHash(x + o.x, y + o.y) % 0x1_0000_0000 != RawHash(x + o'.x, y + o'.y) % 0x1_0000_0000
  {
    var a, b := RawHash(x + o.x, y + o.y), RawHash(x + o'.x, y + o'.y);
    assert a - b == RawHash(o.x - o'.x, o.y - o'.y);
    OffsetDifferenceHash(o.x - o'.x, o.y - o'.y);
    ModDiffers(a, b);
  }

  /** The difference of two offsets is a small non-zero vector, whose raw hash is neither
      zero nor anywhere near 2^32. */
  lemma OffsetDifferenceHash(dx: int, dy: int)
    requires -2 <= dx <= 2 && -2 <= dy <= 2 && (dx != 0 || dy != 0)
    ensures RawHash(dx, dy) != 0 && -0x1_0000_0000 < RawHash(dx, dy) < 0x1_0000_0000
  {
  }

  /** A cell whose coordinates differ from centre's by at most one on each axis is one of
      the nine cells a query visits. */
  lemma AdjacentCellInNeighbourhood(centre: Cell, c: Cell)
    requires -1 <= c.x - centre.x <= 1 && -1 <= c.y - centre.y <= 1
    ensures CellHash(c) in NeighbourHashes(centre)
  {
    var o := Cell(c.x - centre.x, c.y - centre.y);
    OffsetsCoverNeighbourhood(o.x, o.y);
    var i :| 0 <= i < |CellOffsets| && CellOffsets[i] == o;
    assert AddCell(centre, o) == c;
    assert NeighbourHashes(centre)[i] == CellHash(c);
  }

  // ---------------------------------------------------------------------------
  // Cell coordinates (calcCellCoord), over the reals

  /** The C# `(int)` cast of a floating-point value, without its range limits: it drops
      the fraction, rounding toward zero. */
  function TruncateTowardZero(r: real): (t: int)
    ensures 0.0 <= r ==> t as real <= r < t as real + 1.0
    ensures r < 0.0 ==> t as real - 1.0 < r <= t as real
  {
    if r >= 0.0 then r.Floor else -((-r).Floor)
  }

  /** calcCellCoord: each axis divided by the smoothing radius and truncated toward zero.
      Where the C# cast has no defined value (a zero radius gives a non-finite quotient,
      or the quotient lies outside the `int` range) the model gives None. */
  function CellCoord(px: real, py: real, radius: real): (c: Option<Cell>)
    ensures c.Some? <==> radius != 0.0
                         && IntMin <= TruncateTowardZero(px / radius) <= IntMax
                         && IntMin <= TruncateTowardZero(py / radius) <= IntMax
  {
    if radius == 0.0 then None
    else
      var tx, ty := TruncateTowardZero(px / radius), TruncateTowardZero(py / radius);
      if IntMin <= tx <= IntMax && IntMin <= ty <= IntMax then Some(Cell(tx, ty)) else None
  }

  lemma QuotientWithinOne(p: real, radius: real)
    requires radius > 0.0 && -radius < p < radius
    ensures -1.0 < p / radius < 1.0
  {
    var q := p / radius;
    assert q * radius == p;
  }

  /** Truncation toward zero makes the cell around the origin twice as wide as the others:
      every point strictly within one radius of the axis lands in column 0. */
  lemma OriginCellIsDoubleWidth(px: real, py: real, radius: real)
    requires radius > 0.0
    requires -radius < px < radius && -radius < py < radius
    ensures CellCoord(px, py, radius) == Some(Cell(0, 0))
  {
    QuotientWithinOne(px, radius);
    QuotientWithinOne(py, radius);
    TruncateBelowOne(px / radius);
    TruncateBelowOne(py / radius);
  }

  lemma TruncateBelowOne(r: real)
    requires -1.0 < r < 1.0
    ensures TruncateTowardZero(r) == 0
  {
  }
}

/**
 * `AbstractBlockBuffer`: a box of blocks `[start, end]` with `end = start +
 * size - (1,1,1)`, stored in one array addressed by `getIndex`. The array
 * itself lives in subclasses; here it is a sequence of block states read
 * and written through the index.
 */
module BlockBuffer {
  import opened Wrappers
  import opened Geometry

  datatype BlockState = BlockState(blockType: nat, meta: nat)

  datatype BufferError = PositionOutOfBounds(position: Vec3, min: Vec3, max: Vec3)

  datatype Buffer = Buffer(start: Vec3, size: Vec3, end: Vec3, yLine: int, yzSlice: int)

  /** The constructor: the strides as the source sets them (`size.y`, `size.y * size.z`). */
  function New(start: Vec3, size: Vec3): (b: Buffer)
    ensures b.start == start && b.size == size
    ensures forall p :: InBox3(p, b.start, b.end) <==>
      && start.x <= p.x < start.x + size.x
      && start.y <= p.y < start.y + size.y
      && start.z <= p.z < start.z + size.z
  {
    Buffer(start, size, start.Add(size).Sub(ONE3), size.y, size.y * size.z)
  }

  /** `getBlockMin` / `getBlockMax` / `getBlockSize`. */
  function Min(b: Buffer): Vec3 { b.start }
  function Max(b: Buffer): Vec3 { b.end }
  function Size(b: Buffer): Vec3 { b.size }

  /** `containsBlock`. */
  predicate Contains(b: Buffer, p: Vec3) { InBox3(p, b.start, b.end) }

  /** `checkRange`: fails exactly outside the box, reporting the position and bounds. */
  function CheckRange(b: Buffer, p: Vec3): (r: Result<(), BufferError>)
    ensures r.Ok? <==> Contains(b, p)
    ensures r.Err? ==> r.error == PositionOutOfBounds(p, Min(b), Max(b))
  {
    if InBox3(p, b.start, b.end) then Ok(()) else Err(PositionOutOfBounds(p, b.start, b.end))
  }

  /** The number of cells the backing array holds. */
  function Volume(size: Vec3): int { size.x * size.y * size.z }

  /** `getIndex` as written: y-major, then z, then x, with the y-major formula's strides. */
  function IndexAsWritten(b: Buffer, p: Vec3): int {
    (p.y - b.start.y) * b.yzSlice + (p.z - b.start.z) * b.yLine + (p.x - b.start.x)
  }

  /** `getIndex` as intended: y-major, then z, then x, with strides `size.x * size.z` and `size.x`. */
  function Index(b: Buffer, p: Vec3): int {
    (p.y - b.start.y) * (b.size.x * b.size.z) + (p.z - b.start.z) * b.size.x + (p.x - b.start.x)
  }

  /** The cell of the backing array that holds index `i`: the inverse of `Index`. */
  function Position(b: Buffer, i: int): Vec3
    requires b.size.x > 0 && b.size.z > 0
  {
    Vec3(b.start.x + i % b.size.x, b.start.y + i / (b.size.x * b.size.z), b.start.z + (i / b.size.x) % b.size.z)
  }

  lemma MulNonneg(a: int, b: int)
    requires a >= 0 && b >= 0
    ensures a * b >= 0
  {
  }

  lemma MulSub(a: int, b: int, c: int)
    ensures a * c - b * c == (a - b) * c
  {
  }

  lemma MulMono(a: int, b: int, c: int)
    requires a <= b && c >= 0
    ensures a * c <= b * c
  {
    MulSub(b, a, c);
    MulNonneg(b - a, c);
  }

  /** The quotient and remainder of `n` by `d > 0` are the only such pair. */
  lemma DivModUnique(n: int, d: int, q: int, r: int)
    requires d > 0 && 0 <= r < d && n == q * d + r
    ensures n / d == q && n % d == r
  {
    var q0, r0 := n / d, n % d;
    assert n == q0 * d + r0;
    MulSub(q, q0, d);
    if q > q0 {
      MulMono(1, q - q0, d);
      assert false;
    } else if q < q0 {
      MulMono(1, q0 - q, d);
      MulSub(q0, q, d);
      assert false;
    }
  }

  lemma MulBound(a: int, b: int, c: int)
    requires 0 <= a < b && c >= 0
    ensures a * c + c <= b * c
  {
    MulMono(a + 1, b, c);
    MulSub(a + 1, a, c);
  }

  /** Over the box, the intended index is in [0, volume) and `Position` recovers the point. */
  lemma {:induction false} IndexInverse(b: Buffer, p: Vec3)
    requires b == New(b.start, b.size) && Contains(b, p)
    ensures 0 <= Index(b, p) < Volume(b.size)
    ensures Position(b, Index(b, p)) == p
  {
    var X, Y, Z := b.size.x, b.size.y, b.size.z;
    var dx, dy, dz := p.x - b.start.x, p.y - b.start.y, p.z - b.start.z;
    var i := Index(b, p);
    assert 0 <= dx < X && 0 <= dy < Y && 0 <= dz < Z;
    var row := dy * Z + dz;
    assert i == row * X + dx by {
      assert dy * (X * Z) == (dy * Z) * X;
    }
    DivModUnique(i, X, row, dx);
    DivModUnique(row, Z, dy, dz);
    assert 0 <= row;
    MulBound(row, Y * Z, X) by {
      MulBound(dy, Y, Z);
    }
    assert i < Y * Z * X;
    assert Y * Z * X == Volume(b.size);
    assert i / (X * Z) == dy by {
      assert i == dy * (X * Z) + (dz * X + dx);
      MulBound(dz, Z, X);
      DivModUnique(i, X * Z, dy, dz * X + dx);
    }
  }

  /** Distinct positions of the box occupy distinct cells of the array. */
  lemma IndexInjective(b: Buffer, p: Vec3, q: Vec3)
    requires b == New(b.start, b.size) && Contains(b, p) && Contains(b, q)
    ensures Index(b, p) == Index(b, q) <==> p == q
  {
    IndexInverse(b, p);
    IndexInverse(b, q);
  }

  /** `getIndex(start) == 0`, for both formulas. */
  lemma IndexOfStart(b: Buffer)
    ensures Index(b, b.start) == 0 && IndexAsWritten(b, b.start) == 0
  {
  }

  /** With `size.x == size.y` the written strides are the intended ones. */
  lemma AsWrittenAgreesWhenSquare(b: Buffer, p: Vec3)
    requires b == New(b.start, b.size) && b.size.x == b.size.y
    ensures IndexAsWritten(b, p) == Index(b, p)
  {
  }

  /**
   * Otherwise, in any box at least two blocks deep in z, the written index
   * of the block one step along z from the start is not the intended one.
   */
  lemma AsWrittenDiffersWhenNotSquare(b: Buffer)
    requires b == New(b.start, b.size) && b.size.x != b.size.y
    requires b.size.x > 0 && b.size.y > 0 && b.size.z >= 2
    ensures var p := b.start.Add(Vec3(0, 0, 1));
      Contains(b, p) && IndexAsWritten(b, p) == b.size.y && Index(b, p) == b.size.x
  {
  }

  /** A 2x1x2 buffer: two distinct blocks share cell 1 under the written strides. */
  lemma AsWrittenCollides()
    ensures var b := New(ZERO3, Vec3(2, 1, 2));
      && Contains(b, Vec3(1, 0, 0)) && Contains(b, Vec3(0, 0, 1))
      && IndexAsWritten(b, Vec3(1, 0, 0)) == IndexAsWritten(b, Vec3(0, 0, 1)) == 1
      && Index(b, Vec3(1, 0, 0)) != Index(b, Vec3(0, 0, 1))
  {
  }

  /** A 1x2x1 buffer: the written index of a contained block is past the end of the array. */
  lemma AsWrittenOutOfBounds()
    ensures var b := New(ZERO3, Vec3(1, 2, 1));
      && Contains(b, Vec3(0, 1, 0))
      && IndexAsWritten(b, Vec3(0, 1, 0)) == 2 == Volume(b.size)
  {
  }

  /** A buffer together with its backing array, one state per cell. */
  datatype Blocks = Blocks(buffer: Buffer, cells: seq<BlockState>) {
    ghost predicate Valid() {
      buffer == New(buffer.start, buffer.size) && |cells| == Volume(buffer.size)
    }
  }

  /** `getBlock`: range check, then the cell at the index. */
  function GetBlock(bs: Blocks, p: Vec3): (r: Result<BlockState, BufferError>)
    requires bs.Valid()
    ensures r.Ok? <==> Contains(bs.buffer, p)
    ensures r.Ok? ==> 0 <= Index(bs.buffer, p) < |bs.cells| && r.value == bs.cells[Index(bs.buffer, p)]
  {
    if !InBox3(p, bs.buffer.start, bs.buffer.end) then Err(PositionOutOfBounds(p, bs.buffer.start, bs.buffer.end))
    else IndexInverse(bs.buffer, p); Ok(bs.cells[Index(bs.buffer, p)])
  }

  /** `getBlockType`: the type of `getBlock`, with the same failure. */
  function GetBlockType(bs: Blocks, p: Vec3): (r: Result<nat, BufferError>)
    requires bs.Valid()
    ensures r.Ok? <==> GetBlock(bs, p).Ok?
    ensures r.Ok? ==> r.value == GetBlock(bs, p).value.blockType
    ensures r.Err? ==> r.error == GetBlock(bs, p).error
  {
    var s :- GetBlock(bs, p);
    Ok(s.blockType)
  }

  /** `setBlock`: range check, then overwrite the cell at the index. */
  function SetBlock(bs: Blocks, p: Vec3, s: BlockState): (r: Result<Blocks, BufferError>)
    requires bs.Valid()
    ensures r.Ok? <==> Contains(bs.buffer, p)
    ensures r.Ok? ==> r.value.Valid() && r.value.buffer == bs.buffer
  {
    if !InBox3(p, bs.buffer.start, bs.buffer.end) then Err(PositionOutOfBounds(p, bs.buffer.start, bs.buffer.end))
    else IndexInverse(bs.buffer, p); Ok(bs.(cells := bs.cells[Index(bs.buffer, p) := s]))
  }

  /** After a write, the written block reads back and every other block is unchanged. */
  lemma SetThenGet(bs: Blocks, p: Vec3, s: BlockState, q: Vec3)
    requires bs.Valid() && Contains(bs.buffer, p)
    ensures GetBlock(SetBlock(bs, p, s).value, q) == if p == q then Ok(s) else GetBlock(bs, q)
  {
    if Contains(bs.buffer, q) {
      IndexInjective(bs.buffer, p, q);
    }
  }
}

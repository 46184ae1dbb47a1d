/** Machine integers, little-endian words and byte ranges shared by every layer. */
module Base {
  type byte = x: nat | x < 0x100
  type u32 = x: nat | x < 0x1_0000_0000

  datatype Option<+T> = None | Some(value: T)

  /** `SECTOR_SIZE` of config.h; the volume's bytes-per-sector field must equal it. */
  const SECTOR_SIZE := 512

  function Min(a: nat, b: nat): nat {
    if a <= b then a else b
  }

  function Max(a: nat, b: nat): nat {
    if a >= b then a else b
  }

  /** Unsigned 32-bit arithmetic wraps around. */
  function Wrap32(x: int): u32 {
    x % 0x1_0000_0000
  }

  // ----- little-endian words -----

  function ReadU32(buf: seq<byte>, off: nat): u32
    requires off + 4 <= |buf|
  {
    buf[off] as int + 0x100 * buf[off + 1] as int + 0x10000 * buf[off + 2] as int + 0x1000000 * buf[off + 3] as int
  }

  function U32Bytes(v: u32): (r: seq<byte>)
    ensures |r| == 4
  {
    [v % 0x100, v / 0x100 % 0x100, v / 0x100 / 0x100 % 0x100, v / 0x100 / 0x100 / 0x100]
  }

  function WriteU32(buf: seq<byte>, off: nat, v: u32): (r: seq<byte>)
    requires off + 4 <= |buf|
    ensures |r| == |buf|
  {
    Splice(buf, off, U32Bytes(v))
  }

  /** The lowest byte of a word and the rest of it. */
  lemma LowByte(low: byte, rest: nat)
    ensures (low + 0x100 * rest) % 0x100 == low && (low + 0x100 * rest) / 0x100 == rest
  {
  }

  /** Four bytes and the word they encode determine each other. */
  lemma WordDeterminesBytes(a: seq<byte>, b: seq<byte>, off: nat)
    requires off + 4 <= |a| && off + 4 <= |b|
    requires ReadU32(a, off) == ReadU32(b, off)
    ensures a[off] == b[off] && a[off + 1] == b[off + 1]
    ensures a[off + 2] == b[off + 2] && a[off + 3] == b[off + 3]
  {
    var a2: nat, b2: nat := a[off + 2] as int + 0x100 * a[off + 3] as int,
      b[off + 2] as int + 0x100 * b[off + 3] as int;
    LowByte(a[off], a[off + 1] as int + 0x100 * a2);
    LowByte(b[off], b[off + 1] as int + 0x100 * b2);
    LowByte(a[off + 1], a2);
    LowByte(b[off + 1], b2);
  }

  // ----- byte ranges -----

  /** `memcpy(buf + off, data, |data|)`. */
  function Splice(buf: seq<byte>, off: nat, data: seq<byte>): (r: seq<byte>)
    requires off + |data| <= |buf|
    ensures |r| == |buf|
    ensures forall i :: 0 <= i < |buf| ==> r[i] == if off <= i < off + |data| then data[i - off] else buf[i]
  {
    buf[..off] + data + buf[off + |data|..]
  }

  function Zeros(n: nat): (r: seq<byte>)
    ensures |r| == n && forall i :: 0 <= i < n ==> r[i] == 0
  {
    seq(n, _ => 0)
  }

  // ----- row-major indices -----

  lemma MulMonotone(a: int, b: int, w: nat)
    requires a <= b
    ensures a * w <= b * w
  {
  }

  /** Position `j` of row `i` in rows of width `w` recovers its row and column. */
  lemma RowColumn(i: nat, j: nat, w: nat)
    requires j < w
    ensures (i * w + j) / w == i && (i * w + j) % w == j
  {
    var x := i * w + j;
    var q := x / w;
    assert q * w <= x < (q + 1) * w by { assert x == q * w + x % w; assert (q + 1) * w == q * w + w; }
    assert (i + 1) * w == i * w + w;
    if q < i {
      MulMonotone(q + 1, i, w);
    }
    if i < q {
      MulMonotone(i + 1, q, w);
    }
  }

  /** The positions of row `r`. */
  lemma RowIff(x: nat, r: nat, w: nat)
    requires w > 0
    ensures x / w == r <==> r * w <= x < r * w + w
  {
    var q := x / w;
    assert x == q * w + x % w;
    if r * w <= x < r * w + w {
      RowColumn(r, x - r * w, w);
    }
  }

  lemma RowBound(i: nat, j: nat, w: nat, n: nat)
    requires i < n && j < w
    ensures i * w + j < n * w
  {
    assert (i + 1) * w == i * w + w;
  }

  lemma ColumnOf(x: nat, w: nat, n: nat)
    requires 0 < w && x < n * w
    ensures x / w < n && x % w < w && (x / w) * w + x % w == x
  {
    if x / w >= n {
      MulMonotone(n, x / w, w);
      assert false;
    }
  }

  // ----- grids: `n` rows of `w` cells, numbered row by row -----

  function Cells(n: nat, w: nat): nat {
    n * w
  }

  function Row(j: nat, w: nat): nat
    requires w > 0
  {
    j / w
  }

  function Col(j: nat, w: nat): nat
    requires w > 0
  {
    j % w
  }

  lemma CellInGrid(j: nat, w: nat, n: nat)
    requires w > 0 && j < Cells(n, w)
    ensures Row(j, w) < n && Col(j, w) < w
  {
    ColumnOf(j, w, n);
  }

  lemma CellIsUnique(i: nat, j: nat, w: nat)
    requires w > 0
    ensures i == j <==> Row(i, w) == Row(j, w) && Col(i, w) == Col(j, w)
  {
    assert i == i / w * w + i % w && j == j / w * w + j % w;
  }

  lemma CellNumber(r: nat, c: nat, w: nat, n: nat) returns (j: nat)
    requires r < n && c < w
    ensures j < Cells(n, w) && Row(j, w) == r && Col(j, w) == c
    ensures j == Cells(r, w) + c
  {
    RowBound(r, c, w, n);
    RowColumn(r, c, w);
    j := r * w + c;
  }

  lemma CellsAdd(m: nat, n: nat, w: nat)
    ensures Cells(m + n, w) == Cells(m, w) + Cells(n, w)
  {
  }

  /** Skipping `n` rows moves a cell down by `n` rows. */
  lemma CellShift(n: nat, i: nat, w: nat)
    requires w > 0
    ensures Row(Cells(n, w) + i, w) == n + Row(i, w) && Col(Cells(n, w) + i, w) == Col(i, w)
  {
    var q, r := i / w, i % w;
    assert i == q * w + r;
    CellsAdd(n, q, w);
    RowColumn(n + q, r, w);
  }
}

/**
 * The upload plan of create_pixmap_from_image: the image bytes are cut
 * into bands of whole rows, each small enough for one PutImage request,
 * with Python's floor division, a ceiling count and clamping slices.
 */
module ChunkPlan {
  /** The fixed part of a PutImage request, in bytes. */
  const PutImageStaticSize: int := 24

  /** The largest PutImage payload: the maximum request length (in 4-byte units) in bytes, less the fixed part. */
  function MaxLength(maxRequestLength: nat): int
  {
    maxRequestLength * 4 - PutImageStaticSize
  }

  /** Python's `a // b`: the floor of the quotient, for either sign of `b`. */
  function FloorDiv(a: int, b: int): (q: int)
    requires b != 0
    ensures b > 0 ==> q * b <= a < q * b + b
    ensures b < 0 ==> q * b >= a > q * b + b
  {
    if b > 0 then a / b else (-a) / (-b)
  }

  /** math.ceil(a / b), taken exactly. */
  function CeilDiv(a: int, b: int): (q: int)
    requires b != 0
    ensures b > 0 ==> (q - 1) * b < a <= q * b
  {
    -FloorDiv(-a, b)
  }

  /** For a positive divisor, the ceiling count is the least number of bands of `b` rows that covers `a` rows. */
  lemma CeilDivBounds(a: int, b: int)
    requires b > 0
    ensures CeilDiv(a, b) * b >= a
    ensures (CeilDiv(a, b) - 1) * b < a
    ensures a >= 0 ==> CeilDiv(a, b) >= 0
  {
    var q := FloorDiv(-a, b);
    assert q * b <= -a < q * b + b;
  }

  /** A non-positive band height yields no bands for a non-negative height: range() of the count is empty. */
  lemma CeilDivNonPositive(a: nat, b: int)
    requires b < 0
    ensures CeilDiv(a, b) <= 0
  {
  }

  /** Python's index normalisation for slices: a negative index counts from the end; the result is clamped to [0, n]. */
  function SliceIndex(i: int, n: nat): (k: nat)
    ensures k <= n
  {
    if i < 0 then (if i + n < 0 then 0 else i + n) else if i > n then n else i
  }

  /** Python's `s[i:j]`: it never fails, it clamps. */
  function PySlice<T>(s: seq<T>, i: int, j: int): (r: seq<T>)
    ensures 0 <= i <= j ==> r == s[if i <= |s| then i else |s|..if j <= |s| then j else |s|]
  {
    var lo := SliceIndex(i, |s|);
    var hi := SliceIndex(j, |s|);
    if lo < hi then s[lo..hi] else []
  }

  /** The bytes of chunk `k`: data[y*stride : (y + rows)*stride] with y = k*rows. */
  function ChunkData<T>(data: seq<T>, stride: nat, rows: nat, k: nat): (chunk: seq<T>)
    ensures |chunk| <= rows * stride
  {
    var y := k * rows;
    MulAdd(y, rows, stride);
    PySlice(data, y * stride, (y + rows) * stride)
  }

  /** The first `k` chunks, one after another. */
  function Chunks<T>(data: seq<T>, stride: nat, rows: nat, k: nat): seq<T>
  {
    if k == 0 then [] else Chunks(data, stride, rows, k - 1) + ChunkData(data, stride, rows, k - 1)
  }

  /** `i` clamped to the end of a sequence of length `n`. */
  function Clamp(i: nat, n: nat): (k: nat)
    ensures k <= n && k <= i
  {
    if i <= n then i else n
  }

  /** A clamped prefix followed by the clamped slice after it is the longer clamped prefix. */
  lemma PrefixThenSlice<T>(data: seq<T>, a: nat, b: nat)
    requires a <= b
    ensures data[..Clamp(a, |data|)] + PySlice(data, a, b) == data[..Clamp(b, |data|)]
  {
    assert data[..Clamp(b, |data|)] == data[..Clamp(a, |data|)] + data[Clamp(a, |data|)..Clamp(b, |data|)];
  }

  /** Chunk k spans bytes k*band to (k + 1)*band, where band = rows*stride. */
  lemma ChunkBounds(stride: nat, rows: nat, k: nat)
    ensures k * rows * stride == k * (rows * stride)
    ensures (k * rows + rows) * stride == (k + 1) * (rows * stride)
    ensures k * (rows * stride) <= (k + 1) * (rows * stride)
  {
    var band := rows * stride;
    assert (k * rows) * stride == k * (rows * stride);
    assert (k * rows + rows) * stride == (k * rows) * stride + rows * stride;
    assert (k + 1) * band == k * band + band;
  }

  /** The first `k` chunks are exactly the first k*rows*stride bytes of the data, clamped at its end. */
  lemma {:induction false} ChunksPrefix<T>(data: seq<T>, stride: nat, rows: nat, k: nat)
    ensures Chunks(data, stride, rows, k) == data[..Clamp(k * (rows * stride), |data|)]
  {
    if k > 0 {
      ChunksPrefix(data, stride, rows, k - 1);
      ChunkBounds(stride, rows, k - 1);
      assert ChunkData(data, stride, rows, k - 1) == PySlice(data, (k - 1) * (rows * stride), k * (rows * stride));
      PrefixThenSlice(data, (k - 1) * (rows * stride), k * (rows * stride));
    }
  }

  /** Coverage and order: with |data| = height*stride, the chunks of the plan put back together are the data. */
  lemma ChunksCoverData<T>(data: seq<T>, stride: nat, rows: nat, height: nat)
    requires rows > 0 && |data| == height * stride
    ensures Chunks(data, stride, rows, CeilDiv(height, rows)) == data
  {
    CeilDivBounds(height, rows);
    ChunksCover(data, stride, rows, height, CeilDiv(height, rows));
  }

  lemma ChunksCover<T>(data: seq<T>, stride: nat, rows: nat, height: nat, c: nat)
    requires |data| == height * stride && c * rows >= height
    ensures Chunks(data, stride, rows, c) == data
  {
    ChunksPrefix(data, stride, rows, c);
    MulLe(height, c * rows, stride);
    MulAssoc(c, rows, stride);
    assert Clamp(c * (rows * stride), |data|) == |data|;
  }

  lemma MulAssoc(a: int, b: int, c: int)
    ensures a * (b * c) == (a * b) * c
  {
  }

  lemma MulLe(a: int, b: int, c: nat)
    requires a <= b
    ensures a * c <= b * c
  {
  }

  /** Chunk `k` starts at row k*rows: it is the slice of the data from byte k*rows*stride. */
  lemma ChunkStart<T>(data: seq<T>, stride: nat, rows: nat, k: nat)
    requires k * rows * stride <= |data|
    ensures Chunks(data, stride, rows, k) == data[..k * rows * stride]
    ensures ChunkData(data, stride, rows, k) == data[k * rows * stride..Clamp((k * rows + rows) * stride, |data|)]
  {
    ChunksPrefix(data, stride, rows, k);
    ChunkBounds(stride, rows, k);
  }

  /** Disjointness and contiguity: chunk k+1 begins exactly where chunk k ends, so no byte is sent twice or skipped. */
  lemma ChunksContiguous<T>(data: seq<T>, stride: nat, rows: nat, k: nat)
    ensures Chunks(data, stride, rows, k + 1) == Chunks(data, stride, rows, k) + ChunkData(data, stride, rows, k)
    ensures |Chunks(data, stride, rows, k)| == Clamp(Offset(stride, rows, k), |data|)
  {
    ChunksPrefix(data, stride, rows, k);
    ChunkBounds(stride, rows, k);
  }

  /** The byte offset of row k*rows. */
  function Offset(stride: nat, rows: nat, k: nat): nat
  {
    k * rows * stride
  }

  /** Every chunk is at most rows*stride bytes, and every chunk that ends inside the data is exactly that long. */
  lemma ChunkSize<T>(data: seq<T>, stride: nat, rows: nat, k: nat)
    ensures |ChunkData(data, stride, rows, k)| <= rows * stride
    ensures (k * rows + rows) * stride <= |data| ==> |ChunkData(data, stride, rows, k)| == rows * stride
  {
    assert (k * rows + rows) * stride == k * rows * stride + rows * stride;
  }

  /** The bands of rows_per_chunk = max_length // stride rows fit in a PutImage payload. */
  lemma RowsFit(maxLength: int, stride: nat)
    requires stride > 0
    ensures FloorDiv(maxLength, stride) * stride <= maxLength
  {
  }

  /**
   * Which chunks are full: every chunk but the last of the plan carries
   * rows*stride bytes; the last carries only the rows that are left.
   */
  lemma ChunkSizesInPlan<T>(data: seq<T>, stride: nat, rows: nat, height: nat, k: nat)
    requires rows > 0 && |data| == height * stride
    requires k < CeilDiv(height, rows)
    ensures k + 1 < CeilDiv(height, rows) ==> |ChunkData(data, stride, rows, k)| == rows * stride
    ensures k + 1 == CeilDiv(height, rows) ==> |ChunkData(data, stride, rows, k)| == (height - k * rows) * stride
  {
    CeilDivBounds(height, rows);
    var c := CeilDiv(height, rows);
    if k + 1 < c {
      MulLe(k + 1, c - 1, rows);
      FullChunk(data, stride, rows, height, k);
    } else {
      LastChunk(data, stride, rows, height, k);
    }
  }

  /** A chunk whose rows all lie inside the image is full. */
  lemma FullChunk<T>(data: seq<T>, stride: nat, rows: nat, height: nat, k: nat)
    requires |data| == height * stride && (k + 1) * rows < height
    ensures |ChunkData(data, stride, rows, k)| == rows * stride
  {
    MulLe((k + 1) * rows, height, stride);
    ChunkBounds(stride, rows, k);
    assert (k + 1) * (rows * stride) == ((k + 1) * rows) * stride;
    ChunkSize(data, stride, rows, k);
  }

  /** The chunk that reaches past the last row carries the rows that are left. */
  lemma LastChunk<T>(data: seq<T>, stride: nat, rows: nat, height: nat, k: nat)
    requires |data| == height * stride && k * rows < height <= (k + 1) * rows
    ensures |ChunkData(data, stride, rows, k)| == (height - k * rows) * stride
  {
    var lo := k * rows;
    var hi := lo + rows;
    MulAddOne(k, rows);
    MulLe(lo, height, stride);
    MulLe(height, hi, stride);
    MulSub(height, lo, stride);
    assert ChunkData(data, stride, rows, k) == data[lo * stride..|data|];
  }

  lemma MulAddOne(k: int, rows: int)
    ensures (k + 1) * rows == k * rows + rows
  {
  }

  lemma MulAdd(a: int, b: int, c: int)
    ensures (a + b) * c == a * c + b * c
  {
  }

  lemma MulSub(a: int, b: int, c: int)
    ensures (a - b) * c == a * c - b * c
  {
  }

  /**
   * The number of rows a PutImage request declares must match its payload:
   * for a ZPixmap of depth 24 (32 bits per pixel) each row is stride bytes.
   */
  predicate PayloadMatches<T>(declaredRows: int, stride: nat, payload: seq<T>)
  {
    |payload| == declaredRows * stride
  }

  /** As written, every chunk declares rows_per_chunk rows. */
  function AsWrittenDeclaredRows(rows: nat, height: nat, k: nat): nat
  {
    rows
  }

  /**
   * As written, when the height is not a multiple of rows_per_chunk the last
   * request declares more rows than it carries, which the server answers
   * with BadLength.
   */
  lemma AsWrittenLastChunkShort<T>(data: seq<T>, stride: nat, rows: nat, height: nat)
    requires rows > 0 && stride > 0 && |data| == height * stride
    requires height % rows != 0
    ensures CeilDiv(height, rows) >= 1
    ensures var k := CeilDiv(height, rows) - 1;
      !PayloadMatches(AsWrittenDeclaredRows(rows, height, k), stride, ChunkData(data, stride, rows, k))
  {
    CeilDivBounds(height, rows);
    var c := CeilDiv(height, rows);
    var k := c - 1;
    ShortRemainder(rows, height, c);
    ChunkSizesInPlan(data, stride, rows, height, k);
    MulLt(height - k * rows, rows, stride);
  }

  /** When the rows do not divide the height, the last band is short. */
  lemma ShortRemainder(rows: nat, height: nat, c: int)
    requires rows > 0 && height % rows != 0
    requires (c - 1) * rows < height <= c * rows
    ensures c >= 1 && height - (c - 1) * rows < rows
  {
    if c < 1 {
      MulLe(c, 0, rows);
    }
    assert (c - 1) * rows == c * rows - rows;
    if height == c * rows {
      MultipleMod(c, rows);
    }
  }

  lemma MultipleMod(c: nat, rows: nat)
    requires rows > 0
    ensures (c * rows) % rows == 0
  {
    var x := c * rows;
    var q := x / rows;
    var r := x % rows;
    assert x == q * rows + r;
    assert (c - q) * rows == r;
    if c - q >= 1 {
      MulLe(1, c - q, rows);
    } else if c - q <= -1 {
      MulLe(c - q, -1, rows);
    }
  }

  lemma MulLt(a: int, b: int, c: nat)
    requires a < b && c > 0
    ensures a * c < b * c
  {
  }

  /**
   * A 1920x1080 ZPixmap on a server with the common maximum request length
   * of 65535 units: 34 rows per chunk, 32 chunks, and the last chunk has only
   * 26 of its declared 34 rows.
   */
  lemma AsWrittenScreenExample()
    ensures FloorDiv(MaxLength(65535), 4 * 1920) == 34
    ensures CeilDiv(1080, 34) == 32
    ensures 1080 - 31 * 34 == 26
    ensures 1080 % 34 != 0
  {
  }

  /** The evidently intended row count: rows_per_chunk, or the rows left for the last chunk. */
  function DeclaredRows(rows: nat, height: nat, k: nat): (n: int)
    ensures n <= rows
  {
    if height - k * rows < rows then height - k * rows else rows
  }

  /** With the intended row count every request of the plan declares exactly the rows it carries. */
  lemma DeclaredRowsMatch<T>(data: seq<T>, stride: nat, rows: nat, height: nat, k: nat)
    requires rows > 0 && |data| == height * stride
    requires k < CeilDiv(height, rows)
    ensures DeclaredRows(rows, height, k) > 0
    ensures PayloadMatches(DeclaredRows(rows, height, k), stride, ChunkData(data, stride, rows, k))
  {
    CeilDivBounds(height, rows);
    var c := CeilDiv(height, rows);
    MulLe(k, c - 1, rows);
    assert (k + 1) * rows == k * rows + rows;
    if (k + 1) * rows < height {
      FullChunk(data, stride, rows, height, k);
    } else {
      LastChunk(data, stride, rows, height, k);
    }
  }
}

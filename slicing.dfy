/**
 * Splitting the shuffled ISBN table into files of 5000 rows: chunk k is the
 * slice of rows k * 5000 up to (k + 1) * 5000, cut off at the end of the
 * table, for every start position that `range(0, n, 5000)` produces. The
 * shuffle itself is library randomness; the rows arrive here already in
 * their shuffled order.
 */
module Slicing {

  const ChunkSize := 5000

  function Min(a: int, b: int): int {
    if a < b then a else b
  }

  /** The number of start positions `range(0, n, size)` yields: n / size
      rounded up. */
  function ChunkCount(n: nat, size: nat): (c: nat)
    requires size > 0
    ensures n <= c * size
    ensures c > 0 ==> (c - 1) * size < n
    ensures c == 0 <==> n == 0
  {
    var c := (n + size - 1) / size;
    CeilingBounds(n, size, c);
    c
  }

  lemma CeilingBounds(n: nat, size: nat, c: nat)
    requires size > 0 && c == (n + size - 1) / size
    ensures n <= c * size && (c > 0 ==> (c - 1) * size < n) && (c == 0 <==> n == 0)
  {
    var r := (n + size - 1) % size;
    assert n + size - 1 == c * size + r;
    if c > 0 {
      assert (c - 1) * size == c * size - size;
    }
  }

  lemma MulMonotone(a: nat, b: nat, m: nat)
    requires a <= b
    ensures a * m <= b * m
  {
  }

  /** The slice `rows[k * size : k * size + size]`, which pandas cuts off at
      the end of the table. */
  function ChunkAt<T>(rows: seq<T>, size: nat, k: nat): seq<T>
    requires size > 0 && k < ChunkCount(|rows|, size)
  {
    MulMonotone(k, ChunkCount(|rows|, size) - 1, size);
    rows[k * size .. Min(k * size + size, |rows|)]
  }

  /** The list comprehension: one slice per start position. */
  function Chunks<T>(rows: seq<T>, size: nat): (cs: seq<seq<T>>)
    requires size > 0
    ensures |cs| == ChunkCount(|rows|, size)
  {
    seq(ChunkCount(|rows|, size), k requires 0 <= k < ChunkCount(|rows|, size) => ChunkAt(rows, size, k))
  }

  /** The chunks of the table, 5000 rows each. */
  function Slice<T>(shuffled: seq<T>): (cs: seq<seq<T>>)
    ensures |cs| == ChunkCount(|shuffled|, ChunkSize)
  {
    Chunks(shuffled, ChunkSize)
  }

  function Flatten<T>(css: seq<seq<T>>): seq<T> {
    if css == [] then [] else Flatten(css[..|css| - 1]) + css[|css| - 1]
  }

  lemma MulCancel(a: nat, b: nat, m: nat)
    requires a * m < b * m
    ensures a < b
  {
  }

  /** Every chunk starts inside the table. */
  lemma ChunkStartInside(n: nat, size: nat, k: nat)
    requires size > 0 && k < ChunkCount(n, size)
    ensures k * size < n
  {
    MulMonotone(k, ChunkCount(n, size) - 1, size);
  }

  lemma FlattenStep<T>(css: seq<seq<T>>, m: nat)
    requires 0 < m <= |css|
    ensures Flatten(css[..m]) == Flatten(css[..m - 1]) + css[m - 1]
  {
    assert css[..m][..m - 1] == css[..m - 1];
  }

  lemma {:induction false} FlattenPrefix<T>(rows: seq<T>, size: nat, m: nat)
    requires size > 0 && m <= ChunkCount(|rows|, size)
    ensures Flatten(Chunks(rows, size)[..m]) == rows[..Min(m * size, |rows|)]
  {
    var cs := Chunks(rows, size);
    if m == 0 {
      assert cs[..m] == [];
    } else {
      FlattenPrefix(rows, size, m - 1);
      FlattenStep(cs, m);
      var start := (m - 1) * size;
      assert m * size == start + size;
      ChunkStartInside(|rows|, size, m - 1);
      var end := Min(start + size, |rows|);
      assert cs[m - 1] == rows[start..end];
      assert rows[..start] + rows[start..end] == rows[..end];
    }
  }

  /** Putting the chunks back together in order gives the table back. */
  lemma ChunksConcat<T>(rows: seq<T>, size: nat)
    requires size > 0
    ensures Flatten(Chunks(rows, size)) == rows
  {
    var cs := Chunks(rows, size);
    FlattenPrefix(rows, size, |cs|);
    assert cs[..|cs|] == cs;
  }

  /** Chunk k starts at row k * size: its j-th row is row k * size + j. */
  lemma ChunkRow<T>(rows: seq<T>, size: nat, k: nat, j: nat)
    requires size > 0 && k < |Chunks(rows, size)| && j < |Chunks(rows, size)[k]|
    ensures k * size + j < |rows| && Chunks(rows, size)[k][j] == rows[k * size + j]
  {
    assert Chunks(rows, size)[k] == ChunkAt(rows, size, k);
    ChunkStartInside(|rows|, size, k);
  }

  /** Row p of the table is in chunk p / size, at offset p % size. */
  lemma RowInChunk<T>(rows: seq<T>, size: nat, p: nat)
    requires size > 0 && p < |rows|
    ensures p / size < |Chunks(rows, size)| && p % size < |Chunks(rows, size)[p / size]|
    ensures Chunks(rows, size)[p / size][p % size] == rows[p]
  {
    var c := ChunkCount(|rows|, size);
    var q, r := p / size, p % size;
    DivisionBounds(p, size);
    MulCancel(q, c, size);
    ChunkStartInside(|rows|, size, q);
    ChunkRow(rows, size, q, r);
  }

  lemma DivisionBounds(p: nat, size: nat)
    requires size > 0
    ensures p == (p / size) * size + p % size && p % size < size
  {
  }

  /** Every chunk but the last holds exactly `size` rows; the last holds
      between 1 and `size`. */
  lemma ChunkLengths<T>(rows: seq<T>, size: nat)
    requires size > 0
    ensures forall k :: 0 <= k < |Chunks(rows, size)| - 1 ==> |Chunks(rows, size)[k]| == size
    ensures |Chunks(rows, size)| > 0 ==> 1 <= |Chunks(rows, size)[|Chunks(rows, size)| - 1]| <= size
  {
    var c := ChunkCount(|rows|, size);
    forall k: nat | k + 1 < c
      ensures |Chunks(rows, size)[k]| == size
    {
      ChunkLengthAt(rows, size, k);
      FullChunk(|rows|, size, k);
    }
    if c > 0 {
      ChunkLengthAt(rows, size, c - 1);
    }
  }

  lemma ChunkLengthAt<T>(rows: seq<T>, size: nat, k: nat)
    requires size > 0 && k < ChunkCount(|rows|, size)
    ensures |Chunks(rows, size)[k]| == Min(k * size + size, |rows|) - k * size
  {
    assert Chunks(rows, size)[k] == ChunkAt(rows, size, k);
    ChunkStartInside(|rows|, size, k);
  }

  lemma FullChunk(n: nat, size: nat, k: nat)
    requires size > 0 && k + 1 < ChunkCount(n, size)
    ensures k * size + size <= n
  {
    MulMonotone(k + 1, ChunkCount(n, size) - 1, size);
    assert (k + 1) * size == k * size + size;
  }

  /** Two different chunks never share a row: chunk j, which starts at row
      j * size, ends at or before the row where any later chunk k starts. */
  lemma ChunksDisjoint<T>(rows: seq<T>, size: nat, j: nat, k: nat)
    requires size > 0 && j < k < |Chunks(rows, size)|
    ensures j * size + |Chunks(rows, size)[j]| <= k * size
  {
    ChunkLengthAt(rows, size, j);
    MulMonotone(j + 1, k, size);
    assert (j + 1) * size == j * size + size;
  }

  /** No chunks for an empty table; a table of n rows gives n / 5000
      chunks, rounded up. */
  lemma SliceCount<T>(shuffled: seq<T>)
    ensures |Slice(shuffled)| == 0 <==> shuffled == []
    ensures |Slice(shuffled)| * ChunkSize >= |shuffled| > (|Slice(shuffled)| - 1) * ChunkSize
  {
  }
}

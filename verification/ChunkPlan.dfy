/** How a reservation is cut into chunks on ROCm, in 64-bit unsigned arithmetic. */
module ChunkPlan {

  const TWO_63 := 0x8000_0000_0000_0000
  const TWO_64 := 0x1_0000_0000_0000_0000
  const MB := 0x10_0000
  const DEFAULT_MEMCREATE_CHUNK_SIZE := 256 * MB

  /** A C value of type unsigned long long. */
  function U64(x: int): int { x % TWO_64 }

  lemma U64Small(x: int)
    requires 0 <= x < TWO_64
    ensures U64(x) == x
  {
  }

  lemma U64Wrapped(x: int)
    requires TWO_64 <= x < 2 * TWO_64
    ensures U64(x) == x - TWO_64
  {
  }

  lemma SmallQuotient(x: int, g: int)
    requires 0 <= x < g
    ensures x / g == 0
  {
  }

  /** Reducing a summand first makes no difference. */
  lemma U64Sum(x: int, y: int)
    ensures U64(U64(x) + y) == U64(x + y)
  {
  }

  datatype EnvValue = Unset | Unparsable | Megabytes(mb: nat)

  /** The base chunk size: the configured one whenever it is positive and its bytes fit 64 bits. */
  function GetMemcreateChunkSize(env: EnvValue): (bytes: int)
    ensures 0 < bytes < TWO_64 && bytes % MB == 0
    ensures env.Megabytes? && 0 < env.mb * MB < TWO_64 ==> bytes == env.mb * MB
    ensures !(env.Megabytes? && 0 < env.mb * MB < TWO_64) ==> bytes == DEFAULT_MEMCREATE_CHUNK_SIZE
  {
    if env.Megabytes? && env.mb != 0 && env.mb <= (TWO_64 - 1) / MB then env.mb * MB else DEFAULT_MEMCREATE_CHUNK_SIZE
  }

  /** ((x + g - 1) / g) * g */
  function AlignUp(x: int, g: int): int
    requires 0 < g
  {
    U64(U64(x + g - 1) / g * g)
  }

  /** (aligned + chunk - 1) / chunk */
  function NumChunks(aligned: int, chunk: int): nat
    requires 0 < chunk
  {
    U64(aligned + chunk - 1) / chunk
  }

  function Min(a: int, b: int): int { if a < b then a else b }

  function ChunkSize(aligned: int, chunk: int, i: nat): int {
    Min(U64(aligned - U64(i * chunk)), chunk)
  }

  function ChunkSizes(aligned: int, chunk: int): seq<int>
    requires 0 < chunk
  {
    seq(NumChunks(aligned, chunk), i requires 0 <= i => ChunkSize(aligned, chunk, i))
  }

  /** Where chunk i starts: the sizes before it, added up. */
  function Offset(sizes: seq<int>, i: nat): int
    requires i <= |sizes|
  {
    if i == 0 then 0 else Offset(sizes, i - 1) + sizes[i - 1]
  }

  function Total(sizes: seq<int>): int { Offset(sizes, |sizes|) }

  function Times(k: int, g: int): int { k * g }

  ghost predicate MultipleOf(x: int, g: int) {
    exists k :: x == Times(k, g)
  }

  /** The chunks tile the reservation: they add up to it, each is positive and a multiple of the
      granularity, and all but the last have the full chunk size. */
  ghost predicate Tiles(sizes: seq<int>, aligned: int, chunk: int, g: int) {
    && Total(sizes) == aligned
    && (forall i :: 0 <= i < |sizes| ==> 0 < sizes[i] <= chunk && MultipleOf(sizes[i], g))
    && (forall i :: 0 <= i < |sizes| - 1 ==> sizes[i] == chunk)
  }

  // ---------------------------------------------------------------- aligning

  lemma DivBounds(x: int, g: int)
    requires 0 < g && 0 <= x
    ensures x / g * g <= x < x / g * g + g && 0 <= x / g
    ensures MultipleOf(x / g * g, g)
  {
    assert x / g * g == Times(x / g, g);
  }

  /** Aligning works exactly while x + g - 1 fits; beyond that the result collapses to 0. */
  lemma AlignUpExactly(x: int, g: int)
    requires 0 < x < TWO_64 && 0 < g < TWO_64
    ensures x + g - 1 < TWO_64 ==> x <= AlignUp(x, g) < x + g && MultipleOf(AlignUp(x, g), g)
    ensures x + g - 1 >= TWO_64 ==> AlignUp(x, g) == 0
  {
    hide U64, MultipleOf;
    var y := x + g - 1;
    if y < TWO_64 {
      U64Small(y);
      DivBounds(y, g);
      U64Small(y / g * g);
    } else {
      U64Wrapped(y);
      SmallQuotient(y - TWO_64, g);
      U64Small(0);
    }
  }

  // ---------------------------------------------------------------- cutting

  /** The number of chunks brackets the size. */
  lemma CountBrackets(aligned: int, chunk: int)
    requires 0 < aligned && 0 < chunk && aligned + chunk - 1 < TWO_64
    ensures var n := NumChunks(aligned, chunk);
      n > 0 && (n - 1) * chunk < aligned <= n * chunk
  {
    var y := aligned + chunk - 1;
    assert U64(y) == y;
    DivBounds(y, chunk);
    var n := y / chunk;
    assert (n - 1) * chunk == n * chunk - chunk;
  }

  lemma ProductMonotone(i: int, n: int, c: int)
    requires 0 <= i <= n && 0 <= c
    ensures 0 <= i * c <= n * c
  {
  }

  lemma SizesAre(aligned: int, chunk: int, i: nat)
    requires 0 < aligned && 0 < chunk && aligned + chunk - 1 < TWO_64
    requires i < NumChunks(aligned, chunk)
    ensures ChunkSize(aligned, chunk, i) == if i < NumChunks(aligned, chunk) - 1 then chunk else aligned - i * chunk
    ensures 0 < ChunkSize(aligned, chunk, i) <= chunk
  {
    var n := NumChunks(aligned, chunk);
    CountBrackets(aligned, chunk);
    ProductMonotone(i, n - 1, chunk);
    assert U64(i * chunk) == i * chunk;
    assert U64(aligned - i * chunk) == aligned - i * chunk;
    if i < n - 1 {
      ProductMonotone(i + 1, n - 1, chunk);
      assert (i + 1) * chunk == i * chunk + chunk;
    } else {
      assert n * chunk == i * chunk + chunk;
    }
  }

  lemma {:induction false} OffsetIsMultiple(aligned: int, chunk: int, i: nat)
    requires 0 < aligned && 0 < chunk && aligned + chunk - 1 < TWO_64
    requires i < NumChunks(aligned, chunk)
    ensures Offset(ChunkSizes(aligned, chunk), i) == i * chunk
  {
    hide NumChunks, ChunkSize, U64;
    if i > 0 {
      OffsetIsMultiple(aligned, chunk, i - 1);
      SizesAre(aligned, chunk, i - 1);
      assert i * chunk == (i - 1) * chunk + chunk;
    }
  }

  lemma MultipleMinus(x: int, k: int, c: int, g: int)
    requires MultipleOf(x, g) && MultipleOf(c, g)
    ensures MultipleOf(x - k * c, g)
  {
    var a :| x == Times(a, g);
    var b :| c == Times(b, g);
    assert k * (b * g) == (k * b) * g;
    assert x - k * c == Times(a - k * b, g);
  }

  lemma PlanTiles(aligned: int, chunk: int, g: int)
    requires 0 < aligned && 0 < chunk && aligned + chunk - 1 < TWO_64
    requires MultipleOf(aligned, g) && MultipleOf(chunk, g)
    ensures Tiles(ChunkSizes(aligned, chunk), aligned, chunk, g)
  {
    var sizes, n := ChunkSizes(aligned, chunk), NumChunks(aligned, chunk);
    CountBrackets(aligned, chunk);
    OffsetIsMultiple(aligned, chunk, n - 1);
    SizesAre(aligned, chunk, n - 1);
    forall i | 0 <= i < n
      ensures 0 < sizes[i] <= chunk && MultipleOf(sizes[i], g) && (i < n - 1 ==> sizes[i] == chunk)
    {
      SizesAre(aligned, chunk, i);
      MultipleMinus(aligned, i, chunk, g);
    }
  }

  /** Beyond 64 bits the count collapses to zero: nothing would be mapped. */
  lemma PlanCollapses(aligned: int, chunk: int)
    requires 0 < aligned < TWO_64 && 0 < chunk < TWO_64 && aligned + chunk - 1 >= TWO_64
    ensures ChunkSizes(aligned, chunk) == [] && Total(ChunkSizes(aligned, chunk)) == 0
  {
    hide U64, ChunkSize;
    var y := aligned + chunk - 1;
    U64Wrapped(y);
    SmallQuotient(y - TWO_64, chunk);
  }

  /** Nothing is planned for nothing. */
  lemma NothingPlanned(chunk: int, g: int)
    requires 0 < chunk < TWO_64 && 0 < g < TWO_64
    ensures AlignUp(0, g) == 0 && ChunkSizes(0, chunk) == []
  {
    hide U64, ChunkSize;
    U64Small(g - 1);
    SmallQuotient(g - 1, g);
    U64Small(0);
    U64Small(chunk - 1);
    SmallQuotient(chunk - 1, chunk);
  }

  /** The chunk plan of an allocation is sound exactly when two sums fit into 64 bits: otherwise the
      chunk size is 0 (and the next line divides by it) or no chunk is planned at all. */
  lemma PlanSoundExactly(size: int, g: int, env: EnvValue)
    requires 0 < size < TWO_63 && 0 < g < TWO_63
    ensures var aligned := AlignUp(size, g); var base := GetMemcreateChunkSize(env); var chunk := AlignUp(base, g);
      && size <= aligned < size + g && MultipleOf(aligned, g)
      && (0 < chunk && Tiles(ChunkSizes(aligned, chunk), aligned, chunk, g)
          <==> base + g - 1 < TWO_64 && aligned + chunk - 1 < TWO_64)
  {
    hide AlignUp, GetMemcreateChunkSize, ChunkSizes, Total;
    var aligned, base := AlignUp(size, g), GetMemcreateChunkSize(env);
    var chunk := AlignUp(base, g);
    AlignUpExactly(size, g);
    AlignUpExactly(base, g);
    AlignUpFits(base, g);
    AlignUpFits(size, g);
    if 0 < chunk && base + g - 1 < TWO_64 {
      if aligned + chunk - 1 < TWO_64 {
        PlanTiles(aligned, chunk, g);
      } else {
        PlanCollapses(aligned, chunk);
      }
    }
  }

  /** Two configurations near 2^64 with a granularity of 2 MB: with the first the aligned chunk size is
      0; with the second it is positive, but no chunk is planned for 4 MB. */
  lemma ConfiguredPlansCollapse()
    ensures GetMemcreateChunkSize(Megabytes(17592186044415)) == TWO_64 - MB && AlignUp(TWO_64 - MB, 2 * MB) == 0
    ensures var base := GetMemcreateChunkSize(Megabytes(17592186044414)); var chunk := AlignUp(base, 2 * MB);
      base == chunk == TWO_64 - 2 * MB && ChunkSizes(AlignUp(4 * MB, 2 * MB), chunk) == []
  {
    AlignUpExactly(TWO_64 - MB, 2 * MB);
    assert AlignUp(TWO_64 - 2 * MB, 2 * MB) == TWO_64 - 2 * MB;
    assert AlignUp(4 * MB, 2 * MB) == 4 * MB;
    PlanCollapses(4 * MB, TWO_64 - 2 * MB);
  }

  lemma AlignUpFits(x: int, g: int)
    requires 0 < g
    ensures 0 <= AlignUp(x, g) < TWO_64
  {
  }

  // ---------------------------------------------------------------- addresses

  lemma {:induction false} OffsetsGrow(sizes: seq<int>, i: nat, j: nat)
    requires i <= j <= |sizes| && forall k :: 0 <= k < |sizes| ==> 0 < sizes[k]
    ensures Offset(sizes, i) <= Offset(sizes, j) && (i < j ==> Offset(sizes, i) + sizes[i] <= Offset(sizes, j))
    decreases j
  {
    if i < j {
      OffsetsGrow(sizes, i, j - 1);
    }
  }

  /** The map addresses form consecutive, disjoint ranges inside the reservation. */
  lemma RangesDisjoint(sizes: seq<int>, i: nat, j: nat)
    requires i <= j < |sizes| && forall k :: 0 <= k < |sizes| ==> 0 < sizes[k]
    ensures 0 <= Offset(sizes, i) && (i < j ==> Offset(sizes, i) + sizes[i] <= Offset(sizes, j))
    ensures Offset(sizes, j) + sizes[j] <= Total(sizes)
  {
    OffsetsGrow(sizes, 0, i);
    OffsetsGrow(sizes, i, j);
    OffsetsGrow(sizes, j, |sizes|);
  }

  /** Every byte of the reservation lies in exactly one chunk. */
  lemma {:induction false} EveryByteCovered(sizes: seq<int>, n: nat, x: int)
    requires n <= |sizes| && 0 <= x < Offset(sizes, n)
    ensures exists i :: 0 <= i < n && Offset(sizes, i) <= x < Offset(sizes, i) + sizes[i]
    decreases n
  {
    if x < Offset(sizes, n - 1) {
      EveryByteCovered(sizes, n - 1, x);
    } else {
      assert Offset(sizes, n - 1) <= x < Offset(sizes, n - 1) + sizes[n - 1];
    }
  }

  /** The loop of my_malloc that fills chunk_sizes. */
  method FillChunkSizes(alignedSize: int, alignedChunkSize: int) returns (chunkSizes: array<int>)
    requires 0 < alignedChunkSize
    ensures fresh(chunkSizes) && chunkSizes[..] == ChunkSizes(alignedSize, alignedChunkSize)
  {
    var numChunks := NumChunks(alignedSize, alignedChunkSize);
    chunkSizes := new int[numChunks];
    for i := 0 to numChunks
      invariant forall k :: 0 <= k < i ==> chunkSizes[k] == ChunkSize(alignedSize, alignedChunkSize, k)
    {
      chunkSizes[i] := Min(U64(alignedSize - U64(i * alignedChunkSize)), alignedChunkSize);
    }
  }
}

/** The chunk arithmetic of constants/documents/chunked-upload.ts. */
module ChunkedUpload {

  const MB := 1024 * 1024
  const MEDIA_CHUNK_SIZE_BYTES := 2 * MB
  const MIN_CHUNK_SIZE_BYTES := 1 * MB
  const MAX_CHUNK_SIZE_BYTES := 50 * MB
  const MAX_FILE_SIZE_BYTES := 5 * 1024 * 1024 * 1024

  predicate IsStreamableMedia(mimeType: string) {
    "video/" <= mimeType || "audio/" <= mimeType
  }

  /** Valid whatever the size and type. */
  function CalculateOptimalChunkSize(fileSize: nat, mimeType: string): (chunkSize: nat)
    ensures IsValidChunkSize(chunkSize)
  {
    if IsStreamableMedia(mimeType) then MEDIA_CHUNK_SIZE_BYTES
    else if fileSize < 100 * MB then 5 * MB
    else if fileSize < 500 * MB then 10 * MB
    else if fileSize < 2 * 1024 * MB then 20 * MB
    else if fileSize < 5 * 1024 * MB then 30 * MB
    else 40 * MB
  }

  predicate IsValidChunkSize(chunkSize: int) {
    MIN_CHUNK_SIZE_BYTES <= chunkSize <= MAX_CHUNK_SIZE_BYTES
  }

  /** The quotient, rounded up. */
  function CalculateTotalChunks(fileSize: nat, chunkSize: nat): (n: nat)
    requires chunkSize > 0
  {
    fileSize / chunkSize + if fileSize % chunkSize > 0 then 1 else 0
  }

  datatype Boundaries = Boundaries(start: int, end: int, size: int)

  function CalculateChunkBoundaries(chunkIndex: nat, fileSize: nat, chunkSize: nat): Boundaries {
    var start := chunkIndex * chunkSize;
    var end := if start + chunkSize < fileSize then start + chunkSize else fileSize;
    Boundaries(start, end, end - start)
  }

  // ----- the chunks partition the file

  lemma NextProduct(i: nat, c: nat)
    ensures (i + 1) * c == i * c + c
  {
  }

  lemma Monotone(i: nat, j: nat, c: nat)
    requires i <= j
    ensures i * c <= j * c
  {
  }

  lemma CountBounds(fileSize: nat, chunkSize: nat)
    requires chunkSize > 0
    ensures var n := CalculateTotalChunks(fileSize, chunkSize);
            fileSize <= n * chunkSize && (n > 0 ==> (n - 1) * chunkSize < fileSize)
  {
    var q := fileSize / chunkSize;
    assert fileSize == q * chunkSize + fileSize % chunkSize;
    NextProduct(q, chunkSize);
    if q > 0 { NextProduct(q - 1, chunkSize); }
  }

  /** A chunk holds bytes exactly when its index is below the number of chunks. */
  lemma NonEmptyExactlyWhen(chunkIndex: nat, fileSize: nat, chunkSize: nat)
    requires chunkSize > 0
    ensures CalculateChunkBoundaries(chunkIndex, fileSize, chunkSize).size > 0
            <==> chunkIndex < CalculateTotalChunks(fileSize, chunkSize)
  {
    var n := CalculateTotalChunks(fileSize, chunkSize);
    CountBounds(fileSize, chunkSize);
    if chunkIndex < n {
      Monotone(chunkIndex, n - 1, chunkSize);
    } else {
      Monotone(n, chunkIndex, chunkSize);
    }
  }

  /** Chunks start at zero, follow one another, are full but for the last, and end with the file. */
  lemma Consecutive(chunkIndex: nat, fileSize: nat, chunkSize: nat)
    requires chunkSize > 0 && chunkIndex < CalculateTotalChunks(fileSize, chunkSize)
    ensures var b := CalculateChunkBoundaries(chunkIndex, fileSize, chunkSize);
            var n := CalculateTotalChunks(fileSize, chunkSize);
            && 0 <= b.start < b.end <= fileSize && b.size == b.end - b.start <= chunkSize
            && (chunkIndex == 0 ==> b.start == 0)
            && (chunkIndex < n - 1 ==>
                  && b.size == chunkSize
                  && b.end == CalculateChunkBoundaries(chunkIndex + 1, fileSize, chunkSize).start)
            && (chunkIndex == n - 1 ==> b.end == fileSize)
  {
    NonEmptyExactlyWhen(chunkIndex, fileSize, chunkSize);
    NonEmptyExactlyWhen(chunkIndex + 1, fileSize, chunkSize);
    NextProduct(chunkIndex, chunkSize);
    assert 0 <= chunkIndex * chunkSize;
  }

  function Slice<T>(file: seq<T>, chunkIndex: nat, chunkSize: nat): seq<T>
    requires chunkSize > 0 && chunkIndex < CalculateTotalChunks(|file|, chunkSize)
  {
    Consecutive(chunkIndex, |file|, chunkSize);
    var b := CalculateChunkBoundaries(chunkIndex, |file|, chunkSize);
    file[b.start..b.end]
  }

  /** The first n chunks, one after the other. */
  function Assemble<T>(file: seq<T>, chunkSize: nat, n: nat): seq<T>
    requires chunkSize > 0 && n <= CalculateTotalChunks(|file|, chunkSize)
  {
    if n == 0 then [] else Assemble(file, chunkSize, n - 1) + Slice(file, n - 1, chunkSize)
  }

  lemma {:induction false} AssemblePrefix<T>(file: seq<T>, chunkSize: nat, n: nat)
    requires chunkSize > 0 && 0 < n <= CalculateTotalChunks(|file|, chunkSize)
    ensures var end := CalculateChunkBoundaries(n - 1, |file|, chunkSize).end;
            0 <= end <= |file| && Assemble(file, chunkSize, n) == file[..end]
  {
    Consecutive(n - 1, |file|, chunkSize);
    if n == 1 {
      assert Assemble(file, chunkSize, 0) == [];
    } else {
      Consecutive(n - 2, |file|, chunkSize);
      AssemblePrefix(file, chunkSize, n - 1);
    }
  }

  /** Splitting and assembling gives the file back. */
  lemma AssembleAll<T>(file: seq<T>, chunkSize: nat)
    requires chunkSize > 0
    ensures Assemble(file, chunkSize, CalculateTotalChunks(|file|, chunkSize)) == file
  {
    var n := CalculateTotalChunks(|file|, chunkSize);
    CountBounds(|file|, chunkSize);
    if n > 0 {
      AssemblePrefix(file, chunkSize, n);
      Consecutive(n - 1, |file|, chunkSize);
    }
  }

  function TotalSize(fileSize: nat, chunkSize: nat, n: nat): int {
    if n == 0 then 0
    else TotalSize(fileSize, chunkSize, n - 1) + CalculateChunkBoundaries(n - 1, fileSize, chunkSize).size
  }

  lemma {:induction false} SizesSum<T>(file: seq<T>, chunkSize: nat, n: nat)
    requires chunkSize > 0 && n <= CalculateTotalChunks(|file|, chunkSize)
    ensures TotalSize(|file|, chunkSize, n) == |Assemble(file, chunkSize, n)|
  {
    if n > 0 {
      SizesSum(file, chunkSize, n - 1);
      Consecutive(n - 1, |file|, chunkSize);
    }
  }

  /** A byte lies in the chunk its offset names, and in no other. */
  lemma ByteInOneChunk(offset: nat, chunkIndex: nat, fileSize: nat, chunkSize: nat)
    requires chunkSize > 0 && offset < fileSize
    ensures var b := CalculateChunkBoundaries(chunkIndex, fileSize, chunkSize);
            b.start <= offset < b.end <==> chunkIndex == offset / chunkSize
  {
    var q := offset / chunkSize;
    assert offset == q * chunkSize + offset % chunkSize;
    NextProduct(chunkIndex, chunkSize);
    NextProduct(q, chunkSize);
    if chunkIndex < q {
      Monotone(chunkIndex + 1, q, chunkSize);
    } else if q < chunkIndex {
      Monotone(q + 1, chunkIndex, chunkSize);
    }
  }

  // ----- how many chunks an upload needs

  lemma FewerThan(fileSize: nat, chunkSize: nat, n: nat)
    requires chunkSize > 0 && fileSize <= n * chunkSize
    ensures CalculateTotalChunks(fileSize, chunkSize) <= n
  {
    CountBounds(fileSize, chunkSize);
    var k := CalculateTotalChunks(fileSize, chunkSize);
    if k > n { Monotone(n, k - 1, chunkSize); }
  }

  /** A file within the upload limit that is not media needs at most 171 chunks. */
  lemma ChunkCountBound(fileSize: nat, mimeType: string)
    requires fileSize <= MAX_FILE_SIZE_BYTES && !IsStreamableMedia(mimeType)
    ensures CalculateTotalChunks(fileSize, CalculateOptimalChunkSize(fileSize, mimeType)) <= 171
  {
    FewerThan(fileSize, CalculateOptimalChunkSize(fileSize, mimeType), 171);
  }

  lemma MoreThan(fileSize: nat, chunkSize: nat, n: nat)
    requires chunkSize > 0 && n > 0 && fileSize > (n - 1) * chunkSize
    ensures CalculateTotalChunks(fileSize, chunkSize) >= n
  {
    CountBounds(fileSize, chunkSize);
    var k := CalculateTotalChunks(fileSize, chunkSize);
    if k < n { Monotone(k, n - 1, chunkSize); }
  }

  /** Between n megabytes and less than m a chunk size of c megabytes needs this many chunks. */
  lemma TierCount(fileSize: nat, chunkSize: nat, low: nat, high: nat)
    requires chunkSize > 0 && low > 0 && (low - 1) * chunkSize < fileSize <= high * chunkSize
    ensures low <= CalculateTotalChunks(fileSize, chunkSize) <= high
  {
    MoreThan(fileSize, chunkSize, low);
    FewerThan(fileSize, chunkSize, high);
  }

  /** How many chunks a file that is not media needs, size range by size range. */
  lemma ChunksPerTier(fileSize: nat, mimeType: string)
    requires !IsStreamableMedia(mimeType)
    ensures var n, megabyte := CalculateTotalChunks(fileSize, CalculateOptimalChunkSize(fileSize, mimeType)), 1_048_576;
            && (fileSize < 100 * megabyte ==> n <= 20 && 5 * megabyte * n < fileSize + 5 * megabyte)
            && (100 * megabyte <= fileSize < 500 * megabyte ==> 10 <= n <= 50)
            && (500 * megabyte <= fileSize < 2048 * megabyte ==> 25 <= n <= 103)
            && (2048 * megabyte <= fileSize < 5120 * megabyte ==> 69 <= n <= 171)
            && (5120 * megabyte <= fileSize ==> 128 <= n && 40 * megabyte * (n - 1) < fileSize <= 40 * megabyte * n)
  {
    var c := CalculateOptimalChunkSize(fileSize, mimeType);
    CountBounds(fileSize, c);
    if 100 * MB <= fileSize < 500 * MB { TierCount(fileSize, c, 10, 50); }
    if 500 * MB <= fileSize < 2048 * MB { TierCount(fileSize, c, 25, 103); }
    if 2048 * MB <= fileSize < 5120 * MB { TierCount(fileSize, c, 69, 171); }
    if 5120 * MB <= fileSize { MoreThan(fileSize, c, 128); }
    if fileSize < 100 * MB { FewerThan(fileSize, c, 20); }
  }

  /** A larger file never gets smaller chunks, and media always gets chunks of two megabytes. */
  lemma ChunkSizeGrows(fileSize: nat, larger: nat, mimeType: string)
    requires fileSize <= larger
    ensures CalculateOptimalChunkSize(fileSize, mimeType) <= CalculateOptimalChunkSize(larger, mimeType)
    ensures IsStreamableMedia(mimeType) ==> CalculateOptimalChunkSize(fileSize, mimeType) == 2_097_152
  {
  }

  /** For other files the size changes where a file reaches 100 or 500 megabytes, or two or five gigabytes. */
  lemma SizeChangesExactlyWhen(fileSize: nat, mimeType: string)
    requires !IsStreamableMedia(mimeType)
    ensures CalculateOptimalChunkSize(fileSize + 1, mimeType) > CalculateOptimalChunkSize(fileSize, mimeType) <==>
              fileSize + 1 in {104_857_600, 524_288_000, 2_147_483_648, 5_368_709_120}
  {
  }

  /** How many chunks fill the file just before each change: they are of 5, 10, 20, 30 and then 40 megabytes. */
  lemma WholeChunksBeforeChange(mimeType: string)
    requires !IsStreamableMedia(mimeType)
    ensures 20 * CalculateOptimalChunkSize(104_857_599, mimeType) == 104_857_600
    ensures 50 * CalculateOptimalChunkSize(524_287_999, mimeType) == 524_288_000
    ensures 1024 * CalculateOptimalChunkSize(2_147_483_647, mimeType) == 10 * 2_147_483_648
    ensures 512 * CalculateOptimalChunkSize(5_368_709_119, mimeType) == 3 * 5_368_709_120
    ensures 128 * CalculateOptimalChunkSize(5_368_709_120, mimeType) == 5_368_709_120
  {
  }

  /** Exactly video and audio get chunks of two megabytes whatever their size. */
  lemma MediaExactlyWhen(mimeType: string)
    ensures (forall fileSize :: CalculateOptimalChunkSize(fileSize, mimeType) == 2_097_152) <==>
              "video/" <= mimeType || "audio/" <= mimeType
  {
    assert CalculateOptimalChunkSize(0, mimeType) == 2_097_152 ==> IsStreamableMedia(mimeType);
  }

  /** With any valid size the largest file takes between 103 and 5120 chunks, and both extremes are valid. */
  lemma ValidSizesBound(chunkSize: int)
    requires IsValidChunkSize(chunkSize)
    ensures 103 <= CalculateTotalChunks(MAX_FILE_SIZE_BYTES, chunkSize) <= 5120
    ensures IsValidChunkSize(1_048_576) && CalculateTotalChunks(MAX_FILE_SIZE_BYTES, 1_048_576) == 5120
    ensures IsValidChunkSize(52_428_800) && CalculateTotalChunks(MAX_FILE_SIZE_BYTES, 52_428_800) == 103
    ensures !IsValidChunkSize(1_048_575) && !IsValidChunkSize(52_428_801)
  {
    TierCount(MAX_FILE_SIZE_BYTES, chunkSize, 103, 5120);
  }

  /** A media file needs at most 2560. */
  lemma MediaChunkCountBound(fileSize: nat, mimeType: string)
    requires fileSize <= MAX_FILE_SIZE_BYTES && IsStreamableMedia(mimeType)
    ensures CalculateTotalChunks(fileSize, CalculateOptimalChunkSize(fileSize, mimeType)) <= 2560
  {
    FewerThan(fileSize, MEDIA_CHUNK_SIZE_BYTES, 2560);
  }

  /** Both bounds are reached, the first by a file one byte short of the limit. */
  lemma ChunkCountAttained(mimeType: string)
    ensures !IsStreamableMedia(mimeType) ==>
              var size := MAX_FILE_SIZE_BYTES - 1;
              CalculateTotalChunks(size, CalculateOptimalChunkSize(size, mimeType)) == 171
    ensures IsStreamableMedia(mimeType) ==>
              var size := MAX_FILE_SIZE_BYTES;
              CalculateTotalChunks(size, CalculateOptimalChunkSize(size, mimeType)) == 2560
  {
  }
}

/** Erasure coding of a blob: stripe it over chunks, encode every chunk, and keep the j-th shard of
    every chunk together, so that losing a validator loses one shard of each chunk. */
module ErasureCoding {
  import opened Bytes
  import opened Division
  import opened RS = ReedSolomon

  const ORIGINALS := 342
  const RECOVERY := 681
  const SHARDS := 1023
  const CHUNK := 684
  const SHARD := 2

  // ------------------------------------------------------------------------------------- striping

  function ChunkCount(n: nat, length: nat): nat
    requires n > 0
  {
    (length + n - 1) / n
  }

  /** Where octet `j` of chunk `i` comes from when there are `k` chunks. */
  function Cell(k: nat, i: nat, j: nat): nat {
    k * j + i
  }

  function OctetOf(data: seq<byte>, x: nat): byte {
    if x < |data| then data[x] else 0
  }

  /** Chunk `i` of the striped data. */
  function Stripe(n: nat, data: seq<byte>, k: nat, i: nat): (r: seq<byte>)
    ensures |r| == n
  {
    seq(n, j requires 0 <= j => OctetOf(data, Cell(k, i, j)))
  }

  /** No chunks of no octets. */
  function Unzip(n: nat, data: seq<byte>): (r: seq<seq<byte>>)
    ensures |r| == (if n == 0 then 0 else ChunkCount(n, |data|)) && Uniform(r, n)
  {
    if n == 0 then []
    else
      var k := ChunkCount(n, |data|);
      seq(k, i requires 0 <= i => Stripe(n, data, k, i))
  }

  /** Every octet that lacing reads is there. */
  predicate Laceable(chunks: seq<seq<byte>>, outSize: nat) {
    chunks == [] || forall i :: 0 <= i < outSize ==> HasLaced(chunks, i)
  }

  predicate HasLaced(chunks: seq<seq<byte>>, i: nat) {
    chunks != [] && i / |chunks| < |chunks[i % |chunks|]|
  }

  /** Octet `i` of the laced chunks. */
  function LacedOctet(chunks: seq<seq<byte>>, i: nat): byte
    requires HasLaced(chunks, i)
  {
    chunks[i % |chunks|][i / |chunks|]
  }

  function Lace(chunks: seq<seq<byte>>, outSize: nat): (r: seq<byte>)
    requires Laceable(chunks, outSize)
    ensures |r| == if chunks == [] then 0 else outSize
  {
    if chunks == [] then []
    else seq(outSize, i requires 0 <= i < outSize => LacedOctet(chunks, i))
  }

  /** The cells of a `k`-row table are the numbers, each once. */
  lemma CellIs(k: nat, i: nat, j: nat, x: nat)
    requires k > 0 && i < k
    ensures Cell(k, i, j) == x <==> i == x % k && j == x / k
  {
    Divided(x, k);
    DivisionIs(Cell(k, i, j), k, j, i);
  }

  lemma EnoughRoom(n: nat, length: nat, x: nat)
    requires n > 0 && x < length
    ensures ChunkCount(n, length) > 0 && x / ChunkCount(n, length) < n &&
            x % ChunkCount(n, length) < ChunkCount(n, length)
  {
    var k := ChunkCount(n, length);
    Divided(length + n - 1, n);
    assert length <= n * k;
    assert k == 0 ==> n * k == 0;
    Divided(x, k);
    var q := x / k;
    MultiplesApart(k, n, q + 1);
    assert n * k == k * n;
    assert k * (q + 1) == k * q + k;
  }

  /** The table after the first `x` octets have been put in their cells. */
  ghost predicate Filled(k: nat, n: nat, data: seq<byte>, x: nat, table: array2<byte>)
    requires table.Length0 == k && table.Length1 == n
    reads table
  {
    forall i, j :: 0 <= i < k && 0 <= j < n ==>
      table[i, j] == if Cell(k, i, j) < x then OctetOf(data, Cell(k, i, j)) else 0
  }

  method PutOctet(k: nat, n: nat, data: seq<byte>, x: nat, table: array2<byte>)
    requires table.Length0 == k && table.Length1 == n
    requires n > 0 && k == ChunkCount(n, |data|) && x < |data| && Filled(k, n, data, x, table)
    modifies table
    ensures Filled(k, n, data, x + 1, table)
  {
    assert OctetOf(data, x) == data[x];
    hide Cell, OctetOf, ChunkCount;
    EnoughRoom(n, |data|, x);
    var p, q := x % k, x / k;
    forall i, j | 0 <= i < k && 0 <= j < n ensures Cell(k, i, j) == x <==> i == p && j == q {
      CellIs(k, i, j, x);
    }
    table[p, q] := data[x];
  }

  method UnzipData(n: nat, data: seq<byte>) returns (r: seq<seq<byte>>)
    ensures r == Unzip(n, data)
    ensures n > 0 ==> |r| == (|data| + n - 1) / n
    ensures forall i, j :: 0 <= i < |r| && 0 <= j < n ==>
              |r[i]| == n && r[i][j] == if |r| * j + i < |data| then data[|r| * j + i] else 0
  {
    if n == 0 { return []; }
    var k := ChunkCount(n, |data|);
    var table := new byte[k, n]((_, _) => 0);
    assert forall x: nat :: x >= |data| ==> OctetOf(data, x) == 0;
    hide Cell, OctetOf, ChunkCount;
    for x := 0 to |data|
      invariant Filled(k, n, data, x, table)
    {
      PutOctet(k, n, data, x, table);
    }
    var rows := new seq<byte>[k];
    for i := 0 to k
      invariant Filled(k, n, data, |data|, table)
      invariant forall m :: 0 <= m < i ==> rows[m] == Stripe(n, data, k, m)
    {
      rows[i] := Row(table, i);
      assert rows[i] == Stripe(n, data, k, i);
    }
    r := rows[..];
  }

  function Row(table: array2<byte>, i: nat): (r: seq<byte>)
    requires i < table.Length0
    reads table
    ensures |r| == table.Length1 && forall j :: 0 <= j < |r| ==> r[j] == table[i, j]
  {
    seq(table.Length1, j requires 0 <= j < table.Length1 reads table => table[i, j])
  }

  method LaceChunks(chunks: seq<seq<byte>>, outSize: nat) returns (r: seq<byte>)
    requires Laceable(chunks, outSize)
    ensures r == Lace(chunks, outSize)
    ensures chunks != [] ==> |r| == outSize
    ensures forall i :: 0 <= i < |r| ==>
              chunks != [] && HasLaced(chunks, i) && r[i] == chunks[i % |chunks|][i / |chunks|]
  {
    if |chunks| == 0 { return []; }
    hide LacedOctet, HasLaced;
    var result := new byte[outSize];
    for i := 0 to outSize
      invariant forall m :: 0 <= m < i ==> result[m] == LacedOctet(chunks, m)
    {
      result[i] := LacedOctet(chunks, i);
    }
    r := result[..];
    forall i | 0 <= i < |r| ensures HasLaced(chunks, i) && r[i] == chunks[i % |chunks|][i / |chunks|] {
      LacedAt(chunks, i);
    }
  }

  lemma LacedAt(chunks: seq<seq<byte>>, i: nat)
    requires HasLaced(chunks, i)
    ensures LacedOctet(chunks, i) == chunks[i % |chunks|][i / |chunks|]
  {
  }

  lemma LaceFits(n: nat, data: seq<byte>)
    requires n > 0 && data != []
    ensures Unzip(n, data) != [] && Laceable(Unzip(n, data), |data|)
  {
    var chunks := Unzip(n, data);
    EnoughRoom(n, |data|, 0);
    forall i | 0 <= i < |data| ensures HasLaced(chunks, i) {
      EnoughRoom(n, |data|, i);
    }
  }

  /** Lacing undoes unzipping, padding and all. */
  lemma LaceUndoesUnzip(n: nat, data: seq<byte>)
    requires n > 0 && data != []
    ensures Unzip(n, data) != [] && Laceable(Unzip(n, data), |data|)
    ensures Lace(Unzip(n, data), |data|) == data
  {
    LaceFits(n, data);
    var chunks := Unzip(n, data);
    forall i | 0 <= i < |data| ensures HasLaced(chunks, i) && LacedOctet(chunks, i) == data[i] {
      OctetComesBack(n, data, i);
    }
    hide Unzip, LacedOctet, HasLaced, ChunkCount;
    assert Lace(chunks, |data|) == data;
  }

  lemma OctetComesBack(n: nat, data: seq<byte>, i: nat)
    requires n > 0 && i < |data|
    ensures HasLaced(Unzip(n, data), i) && LacedOctet(Unzip(n, data), i) == data[i]
  {
    var k := ChunkCount(n, |data|);
    EnoughRoom(n, |data|, i);
    CellIs(k, i % k, i / k, i);
    hide Cell, ChunkCount;
  }

  // ---------------------------------------------------------------------------- one chunk in shards

  /** Data in `n` original shards, the last one padded with zeros, and room for `r` more. Cutting
      runs past the end of the data exactly when rounding up leaves nothing for the last shards. */
  method Chunk(n: nat, r: nat, data: seq<byte>) returns (e: Option<Error>, shards: seq<seq<byte>>)
    requires n > 0
    ensures e == Some(TooLong) <==> |data| > MAX_DATA
    ensures e == Some(TooShort) <==> |data| <= MAX_DATA && |data| < SHARD * n
    ensures e == Some(Crash) <==>
              |data| <= MAX_DATA && SHARD * n <= |data| && (n - 1) * ChunkCount(n, |data|) > |data|
    ensures e.None? <==>
              |data| <= MAX_DATA && SHARD * n <= |data| && (n - 1) * ChunkCount(n, |data|) <= |data|
    ensures e.None? ==> |shards| == n + r && Uniform(shards[..n], ChunkCount(n, |data|))
    ensures e.None? ==> data <= Flatten(shards[..n]) && forall i :: n <= i < n + r ==> shards[i] == []
  {
    if |data| > MAX_DATA { return Some(TooLong), []; }
    if |data| < n * 2 { return Some(TooShort), []; }
    var size := ChunkCount(n, |data|);
    CoversData(n, |data|);
    hide ChunkCount, Flatten;
    var full := FullShards(data, size, n - 1);
    assert n * size == (n - 1) * size + size;
    if full.None? { return Some(Crash), []; }
    var start := (n - 1) * size;
    var padded := data[start..] + seq(size - (|data| - start), _ => 0);
    LastShard(full.value, data, start, padded);
    shards := full.value + [padded] + seq(r, _ => []);
    assert shards[..n] == full.value + [padded];
    e := None;
  }

  /** The loop over all shards but the last. */
  method FullShards(data: seq<byte>, size: nat, count: nat) returns (r: Option<seq<seq<byte>>>)
    ensures r.Some? <==> count * size <= |data|
    ensures r.Some? ==> |r.value| == count && Uniform(r.value, size) && Flatten(r.value) == data[..count * size]
  {
    hide Flatten;
    var parts: seq<seq<byte>> := [];
    FlattenNothing(parts);
    var start := 0;
    for i := 0 to count
      invariant |parts| == i && start == i * size && start <= |data|
      invariant Flatten(parts) == data[..start] && Uniform(parts, size)
    {
      assert (i + 1) * size == i * size + size;
      if start + size > |data| {
        MultiplesGrow(size, i + 1, count);
        return None;
      }
      FlattenAppend(parts, data[start..start + size]);
      assert data[..start] + data[start..start + size] == data[..start + size];
      parts := parts + [data[start..start + size]];
      start := start + size;
    }
    r := Some(parts);
  }

  lemma LastShard(parts: seq<seq<byte>>, data: seq<byte>, start: nat, padded: seq<byte>)
    requires start <= |data| && Flatten(parts) == data[..start] && data[start..] <= padded
    ensures data <= Flatten(parts + [padded])
  {
    FlattenAppend(parts, padded);
    hide Flatten;
    assert data == data[..start] + data[start..];
  }

  lemma FlattenAppend(s: seq<seq<byte>>, x: seq<byte>)
    ensures Flatten(s + [x]) == Flatten(s) + x
  {
    assert (s + [x])[..|s|] == s;
  }

  lemma MultiplesGrow(d: nat, p: nat, q: nat)
    requires p <= q
    ensures p * d <= q * d
  {
    MultiplesApart(d, p, q);
    assert p * d == d * p && q * d == d * q;
  }

  lemma CoversData(n: nat, length: nat)
    requires n > 0
    ensures length <= n * ChunkCount(n, length)
  {
    Divided(length + n - 1, n);
  }

  lemma EvenSize(n: nat, length: nat)
    requires n > 0 && length == SHARD * n
    ensures ChunkCount(n, length) == SHARD
  {
    DivisionIs(length + n - 1, n, SHARD, n - 1);
  }

  // --------------------------------------------------------------------------------------- encoding

  /** The code word of one chunk. */
  function WordOf(lib: Library, chunk: seq<byte>): Result<seq<seq<byte>>> {
    Codeword(lib, ORIGINALS, RECOVERY, Cut(chunk, SHARD), SHARD)
  }

  lemma {:induction false} PairsLength(s: seq<seq<byte>>)
    requires Uniform(s, SHARD)
    ensures |Flatten(s)| == SHARD * |s|
  {
    if s != [] { PairsLength(s[..|s| - 1]); }
  }

  lemma {:induction false} AllThere(s: seq<seq<byte>>, size: nat)
    requires Uniform(s, size) && size > 0
    ensures Count(s) == |s|
  {
    CountBound(s);
  }

  /** What `Chunk` hands to the encoder, and what the encoder makes of it. */
  lemma ReadyToEncode(chunk: seq<byte>, shards: seq<seq<byte>>)
    requires |chunk| == CHUNK && |shards| == SHARDS && Uniform(shards[..ORIGINALS], SHARD)
    requires chunk <= Flatten(shards[..ORIGINALS])
    ensures shards[..ORIGINALS] == Cut(chunk, SHARD)
    ensures Encodable(ORIGINALS, RECOVERY, shards) && SizeFrom(shards, 0) == SHARD
  {
    var originals := shards[..ORIGINALS];
    PairsLength(originals);
    assert Flatten(originals) == chunk;
    CutFlatten(originals, SHARD);
    AllThere(originals, SHARD);
    assert shards[0] == originals[0];
  }

  method EncodeChunk(lib: Library, chunk: seq<byte>) returns (r: Result<seq<seq<byte>>>)
    requires |chunk| == CHUNK
    ensures r == WordOf(lib, chunk)
  {
    hide Codeword, Cut, Flatten, Encodable, SizeFrom;
    EvenSize(ORIGINALS, CHUNK);
    var e, shards := Chunk(ORIGINALS, RECOVERY, chunk);
    ReadyToEncode(chunk, shards);
    var buffer := new seq<byte>[SHARDS](j requires 0 <= j < SHARDS => shards[j]);
    assert buffer[..] == shards && buffer[..ORIGINALS] == shards[..ORIGINALS];
    var failure := RS.Encode(lib, ORIGINALS, RECOVERY, buffer);
    if failure.Some? { return Err(failure.value); }
    r := Ok(buffer[..]);
  }

  ghost predicate WordsOf(lib: Library, chunks: seq<seq<byte>>, words: seq<seq<seq<byte>>>) {
    |words| == |chunks| && forall i :: 0 <= i < |words| ==> WordOf(lib, chunks[i]) == Ok(words[i])
  }

  predicate FullWords(words: seq<seq<seq<byte>>>) {
    forall i :: 0 <= i < |words| ==> |words[i]| == SHARDS && Uniform(words[i], SHARD)
  }

  /** Shard `j` of every chunk, one after the other. */
  function Column(words: seq<seq<seq<byte>>>, j: nat): seq<byte>
    requires FullWords(words) && j < SHARDS
  {
    if words == [] then [] else Column(words[..|words| - 1], j) + words[|words| - 1][j]
  }

  ghost predicate AreColumns(words: seq<seq<seq<byte>>>, shards: seq<seq<byte>>)
    requires FullWords(words)
  {
    |shards| == SHARDS && forall j :: 0 <= j < SHARDS ==> shards[j] == Column(words, j)
  }

  lemma {:induction false} CutPairs(flat: seq<byte>, n: nat)
    requires |flat| == SHARD * n
    ensures |Cut(flat, SHARD)| == n && Flatten(Cut(flat, SHARD)) == flat
    decreases n
  {
    if n > 0 {
      CutPairs(flat[SHARD..], n - 1);
      FlattenCons(flat[..SHARD], Cut(flat[SHARD..], SHARD));
      assert flat == flat[..SHARD] + flat[SHARD..];
    }
  }

  lemma WordIsFull(lib: Library, chunk: seq<byte>)
    requires |chunk| == CHUNK && WordOf(lib, chunk).Ok?
    ensures |WordOf(lib, chunk).value| == SHARDS && Uniform(WordOf(lib, chunk).value, SHARD)
    ensures WordOf(lib, chunk).value[..ORIGINALS] == Cut(chunk, SHARD)
  {
    CutPairs(chunk, ORIGINALS);
    CutUniform(chunk, SHARD);
    hide Cut, Codeword;
    CodewordShape(lib, ORIGINALS, RECOVERY, Cut(chunk, SHARD), SHARD);
  }

  /** Copy one code word into the final shards, transposed. */
  method AddWord(final: array<seq<byte>>, word: seq<seq<byte>>, ghost words: seq<seq<seq<byte>>>)
    requires FullWords(words + [word]) && FullWords(words) && AreColumns(words, final[..])
    modifies final
    ensures AreColumns(words + [word], final[..])
  {
    assert (words + [word])[|words|] == word && (words + [word])[..|words|] == words;
    for j := 0 to SHARDS
      invariant forall m :: 0 <= m < j ==> final[m] == Column(words, m) + word[m]
      invariant forall m :: j <= m < SHARDS ==> final[m] == Column(words, m)
    {
      final[j] := final[j] + word[j];
    }
  }

  method Encode(lib: Library, data: seq<byte>) returns (r: Result<seq<seq<byte>>>, ghost words: seq<seq<seq<byte>>>)
    ensures data == [] ==> r == Err(TooShort)
    ensures |data| > MAX_DATA ==> r == Err(TooLong)
    ensures r.Ok? ==> WordsOf(lib, Unzip(CHUNK, data), words) && FullWords(words) && AreColumns(words, r.value)
    ensures data != [] && |data| <= MAX_DATA && r.Err? ==>
              exists i :: 0 <= i < |Unzip(CHUNK, data)| && WordOf(lib, Unzip(CHUNK, data)[i]) == Err(r.error)
  {
    hide WordOf, Unzip, Uniform;
    words := [];
    if |data| == 0 { return Err(TooShort), words; }
    if |data| > MAX_DATA { return Err(TooLong), words; }
    var chunks := UnzipData(CHUNK, data);
    UnzippedChunks(data);
    var final := new seq<byte>[SHARDS](_ => []);
    for i := 0 to |chunks|
      invariant |words| == i && FullWords(words) && AreColumns(words, final[..])
      invariant forall m :: 0 <= m < i ==> WordOf(lib, chunks[m]) == Ok(words[m])
    {
      var word := EncodeChunk(lib, chunks[i]);
      if word.Err? { return Err(word.error), words; }
      WordIsFull(lib, chunks[i]);
      AddWord(final, word.value, words);
      words := words + [word.value];
    }
    r := Ok(final[..]);
  }

  lemma UnzippedChunks(data: seq<byte>)
    ensures |Unzip(CHUNK, data)| == ChunkCount(CHUNK, |data|)
    ensures forall i :: 0 <= i < |Unzip(CHUNK, data)| ==> |Unzip(CHUNK, data)[i]| == CHUNK
  {
  }

  // --------------------------------------------------------------------------------------- decoding

  predicate LongEnough(s: seq<seq<byte>>, size: nat) {
    forall j :: 0 <= j < |s| ==> s[j] == [] || size <= |s[j]|
  }

  /** The shards of chunk `i`. */
  function Slice(s: seq<seq<byte>>, i: nat): (r: seq<seq<byte>>)
    requires LongEnough(s, SHARD * i + SHARD)
    ensures |r| == |s| && SizedOrMissing(r, SHARD) && forall j :: 0 <= j < |s| ==> (r[j] == [] <==> s[j] == [])
  {
    seq(|s|, j requires 0 <= j < |s| => if s[j] == [] then [] else s[j][SHARD * i..SHARD * i + SHARD])
  }

  lemma {:induction false} SameCount(a: seq<seq<byte>>, b: seq<seq<byte>>)
    requires |a| == |b| && forall j :: 0 <= j < |a| ==> (a[j] == [] <==> b[j] == [])
    ensures Count(a) == Count(b)
  {
    if a != [] { SameCount(a[..|a| - 1], b[..|b| - 1]); }
  }

  /** One chunk from its shards. */
  function ChunkBack(lib: Library, word: seq<seq<byte>>): Result<seq<byte>>
    requires |word| >= ORIGINALS
  {
    match Recovered(lib, ORIGINALS, RECOVERY, word, SHARD)
    case Err(e) => Err(e)
    case Ok(full) => if |full| >= ORIGINALS then Ok(Flatten(full[..ORIGINALS])) else Err(Crash)
  }

  function ChunksBack(lib: Library, s: seq<seq<byte>>, k: nat): Result<seq<seq<byte>>>
    requires |s| >= ORIGINALS && LongEnough(s, SHARD * k)
  {
    if k == 0 then Ok([])
    else
      var before := ChunksBack(lib, s, k - 1);
      if before.Err? then before
      else
        match ChunkBack(lib, Slice(s, k - 1))
        case Err(e) => Err(e)
        case Ok(chunk) => Ok(before.value + [chunk])
  }

  function Decoded(lib: Library, s: seq<seq<byte>>, outSize: nat): Result<seq<byte>> {
    CountBound(s);
    if Count(s) < ORIGINALS then Err(TooFew)
    else
      var size := SizeFrom(s, 0);
      if size % SHARD != 0 then Err(BadShardSize)
      else if outSize > size * ORIGINALS then Err(TooLong)
      else if !LongEnough(s, size) then Err(Crash)
      else
        match ChunksBack(lib, s, size / SHARD)
        case Err(e) => Err(e)
        case Ok(chunks) => if Laceable(chunks, outSize) then Ok(Lace(chunks, outSize)) else Err(Crash)
  }

  lemma SliceIsDecodable(s: seq<seq<byte>>, i: nat)
    requires Count(s) >= ORIGINALS && LongEnough(s, SHARD * i + SHARD)
    ensures Decodable(ORIGINALS, Slice(s, i)) && SizeFrom(Slice(s, i), 0) == SHARD
  {
    var word := Slice(s, i);
    SameCount(word, s);
    SizeFromIs(word, 0, SHARD);
    CountBound(word);
    if forall j :: 0 <= j < |word| ==> word[j] == [] { NoneThere(word); }
  }

  lemma {:induction false} NoneThere(s: seq<seq<byte>>)
    requires forall j :: 0 <= j < |s| ==> s[j] == []
    ensures Count(s) == 0
  {
    if s != [] { NoneThere(s[..|s| - 1]); }
  }

  method DecodeChunk(lib: Library, s: seq<seq<byte>>, i: nat) returns (r: Result<seq<byte>>)
    requires Count(s) >= ORIGINALS && |s| >= ORIGINALS && LongEnough(s, SHARD * i + SHARD)
    ensures r == ChunkBack(lib, Slice(s, i))
  {
    SliceIsDecodable(s, i);
    hide Count, SizeFrom, Decodable, Flatten, Recovered, LongEnough;
    var word := Slice(s, i);
    var buffer := new seq<byte>[|word|](j requires 0 <= j < |word| => word[j]);
    assert buffer[..] == word;
    var failure := RS.Decode(lib, ORIGINALS, RECOVERY, buffer);
    if failure.Some? { return Err(failure.value); }
    r := Ok(Flatten(buffer[..ORIGINALS]));
    assert buffer[..][..ORIGINALS] == buffer[..ORIGINALS];
  }

  method Decode(lib: Library, s: seq<seq<byte>>, outSize: nat) returns (r: Result<seq<byte>>)
    ensures r == Decoded(lib, s, outSize)
    ensures Count(s) < 342 ==> r == Err(TooFew)
    ensures Count(s) >= 342 && SizeFrom(s, 0) % 2 != 0 ==> r == Err(BadShardSize)
    ensures Count(s) >= 342 && SizeFrom(s, 0) % 2 == 0 && outSize > 342 * SizeFrom(s, 0) ==> r == Err(TooLong)
    ensures r.Ok? && SizeFrom(s, 0) > 0 ==> |r.value| == outSize
  {
    hide Count, SizeFrom, ChunkBack, Slice, Lace;
    CountBound(s);
    var count := ShardCount(s);
    if count < ORIGINALS { return Err(TooFew); }
    var size := ShardSize(s);
    if size % SHARD != 0 { return Err(BadShardSize); }
    if outSize > size * ORIGINALS { return Err(TooLong); }
    if !LongEnough(s, size) { return Err(Crash); }
    var chunks: seq<seq<byte>> := [];
    for i := 0 to size / SHARD
      invariant ChunksBack(lib, s, i) == Ok(chunks)
    {
      var chunk := DecodeChunk(lib, s, i);
      if chunk.Err? {
        StaysFailed(lib, s, i + 1, size / SHARD, chunk.error);
        return Err(chunk.error);
      }
      chunks := chunks + [chunk.value];
    }
    if !Laceable(chunks, outSize) { return Err(Crash); }
    r := Ok(Lace(chunks, outSize));
  }

  lemma {:induction false} StaysFailed(lib: Library, s: seq<seq<byte>>, i: nat, k: nat, e: Error)
    requires |s| >= ORIGINALS && LongEnough(s, SHARD * k) && i <= k && ChunksBack(lib, s, i) == Err(e)
    ensures ChunksBack(lib, s, k) == Err(e)
  {
    hide ChunkBack;
    if i < k { StaysFailed(lib, s, i, k - 1, e); }
  }

  // ------------------------------------------------------------------------------------- the theorem

  lemma {:induction false} ColumnAt(words: seq<seq<seq<byte>>>, j: nat, i: nat)
    requires FullWords(words) && j < SHARDS && i < |words|
    ensures |Column(words, j)| == SHARD * |words|
    ensures Column(words, j)[SHARD * i..SHARD * i + SHARD] == words[i][j]
  {
    var n := |words| - 1;
    if n > 0 { ColumnAt(words[..n], j, if i < n then i else 0); }
    if i < n {
      assert Column(words, j)[SHARD * i..SHARD * i + SHARD] == Column(words[..n], j)[SHARD * i..SHARD * i + SHARD];
    }
  }

  /** Slicing what is left of the shards gives what is left of each code word. */
  lemma SliceIsDamagedWord(words: seq<seq<seq<byte>>>, shards: seq<seq<byte>>, left: seq<seq<byte>>, i: nat)
    requires FullWords(words) && AreColumns(words, shards) && Damaged(left, shards) && i < |words|
    ensures LongEnough(left, SHARD * i + SHARD) && Damaged(Slice(left, i), words[i])
  {
    hide Column;
    forall j | 0 <= j < |left| ensures left[j] == [] || |left[j]| == SHARD * |words| {
      ColumnAt(words, j, i);
    }
    forall j | 0 <= j < |left| ensures Slice(left, i)[j] == [] || Slice(left, i)[j] == words[i][j] {
      ColumnAt(words, j, i);
    }
  }

  lemma ChunkComesBack(lib: Library, chunk: seq<byte>, word: seq<seq<byte>>)
    requires Mds(lib, ORIGINALS, RECOVERY, SHARD) && |chunk| == CHUNK && WordOf(lib, chunk).Ok?
    requires Damaged(word, WordOf(lib, chunk).value) && Count(word) >= ORIGINALS && |word| == SHARDS
    ensures ChunkBack(lib, word) == Ok(chunk)
  {
    CutPairs(chunk, ORIGINALS);
    CutUniform(chunk, SHARD);
    hide Mds, Cut, Codeword, Flatten, Recovered, Damaged, Count;
    DecodeUndoesEncode(lib, ORIGINALS, RECOVERY, SHARD, Cut(chunk, SHARD), word);
  }

  lemma {:induction false} ChunksComeBack(lib: Library, chunks: seq<seq<byte>>, words: seq<seq<seq<byte>>>,
                                          shards: seq<seq<byte>>, left: seq<seq<byte>>, k: nat)
    requires Mds(lib, ORIGINALS, RECOVERY, SHARD) && Uniform(chunks, CHUNK) && WordsOf(lib, chunks, words)
    requires FullWords(words) && AreColumns(words, shards) && Damaged(left, shards) && Count(left) >= ORIGINALS
    requires k <= |words| && LongEnough(left, SHARD * k)
    ensures ChunksBack(lib, left, k) == Ok(chunks[..k])
  {
    hide Mds, WordOf, ChunkBack, Count, Column;
    if k > 0 {
      ChunksComeBack(lib, chunks, words, shards, left, k - 1);
      SliceIsDamagedWord(words, shards, left, k - 1);
      SameCount(Slice(left, k - 1), left);
      ChunkComesBack(lib, chunks[k - 1], Slice(left, k - 1));
      assert chunks[..k] == chunks[..k - 1] + [chunks[k - 1]];
    }
  }

  lemma SizeOfLeft(words: seq<seq<seq<byte>>>, shards: seq<seq<byte>>, left: seq<seq<byte>>)
    requires FullWords(words) && words != [] && AreColumns(words, shards) && Damaged(left, shards) && Count(left) > 0
    ensures SizeFrom(left, 0) == SHARD * |words| && LongEnough(left, SHARD * |words|)
  {
    hide Column, Count;
    forall j | 0 <= j < |left| ensures left[j] == [] || |left[j]| == SHARD * |words| {
      ColumnAt(words, j, 0);
    }
    SizeFromIs(left, 0, SHARD * |words|);
    if forall j :: 0 <= j < |left| ==> left[j] == [] { NoneThere(left); }
  }

  /** Whatever shards are lost, as long as 342 of the 1023 are left, decoding gives the data back.
      All that is assumed is that the library's code is MDS. */
  lemma SurvivesLoss(lib: Library, data: seq<byte>, words: seq<seq<seq<byte>>>, shards: seq<seq<byte>>,
                     left: seq<seq<byte>>)
    requires Mds(lib, ORIGINALS, RECOVERY, SHARD) && data != []
    requires WordsOf(lib, Unzip(CHUNK, data), words) && FullWords(words) && AreColumns(words, shards)
    requires Damaged(left, shards) && Count(left) >= ORIGINALS
    ensures Decoded(lib, left, |data|) == Ok(data)
  {
    var chunks := Unzip(CHUNK, data);
    ChunksToLace(data);
    assert |words| == |chunks|;
    SizeOfLeft(words, shards, left);
    hide Mds, WordsOf, FullWords, AreColumns, Damaged, Count, Unzip, Lace, Laceable, LongEnough, SizeFrom, Decoded,
        ChunksBack;
    ChunksComeBack(lib, chunks, words, shards, left, |words|);
    assert chunks[..|words|] == chunks;
    DecodedFrom(lib, left, |data|, chunks, |words|);
  }

  lemma ChunksToLace(data: seq<byte>)
    requires data != []
    ensures var chunks := Unzip(CHUNK, data);
            && chunks != [] && Uniform(chunks, CHUNK) && Laceable(chunks, |data|) && Lace(chunks, |data|) == data
            && |data| <= CHUNK * |chunks|
  {
    LaceUndoesUnzip(CHUNK, data);
    CoversData(CHUNK, |data|);
  }

  lemma DecodedFrom(lib: Library, s: seq<seq<byte>>, outSize: nat, chunks: seq<seq<byte>>, k: nat)
    requires Count(s) >= ORIGINALS && |s| >= ORIGINALS && SizeFrom(s, 0) == SHARD * k && LongEnough(s, SHARD * k)
    requires outSize <= CHUNK * k && Laceable(chunks, outSize) && ChunksBack(lib, s, k) == Ok(chunks)
    ensures Decoded(lib, s, outSize) == Ok(Lace(chunks, outSize))
  {
    hide Count, SizeFrom, LongEnough, Laceable, ChunksBack, Lace;
  }

  /** With an MDS library every blob within the limits is encoded. */
  lemma EveryChunkEncodes(lib: Library, chunk: seq<byte>)
    requires Mds(lib, ORIGINALS, RECOVERY, SHARD) && |chunk| == CHUNK
    ensures WordOf(lib, chunk).Ok?
  {
    CutPairs(chunk, ORIGINALS);
    CutUniform(chunk, SHARD);
    hide Cut, Codeword;
  }

  /** Encode, lose what `keep` does not name, decode. */
  method EncodeLoseDecode(lib: Library, data: seq<byte>, keep: set<nat>) returns (r: Result<seq<byte>>)
    requires Mds(lib, ORIGINALS, RECOVERY, SHARD)
    requires 0 < |data| <= MAX_DATA && ORIGINALS <= |keep| && forall j :: j in keep ==> j < SHARDS
    ensures r == Ok(data)
  {
    hide Mds, WordsOf, FullWords, AreColumns, Unzip, WordOf, Count;
    ghost var words;
    var encoded;
    encoded, words := Encode(lib, data);
    UnzippedChunks(data);
    forall i | 0 <= i < |Unzip(CHUNK, data)| ensures WordOf(lib, Unzip(CHUNK, data)[i]).Ok? {
      EveryChunkEncodes(lib, Unzip(CHUNK, data)[i]);
    }
    assert encoded.Ok?;
    ColumnsAreFull(lib, data, words, encoded.value);
    var left := seq(|encoded.value|, j requires 0 <= j < |encoded.value| => if j in keep then encoded.value[j] else []);
    KeptCount(left, keep);
    SurvivesLoss(lib, data, words, encoded.value, left);
    r := Decode(lib, left, |data|);
  }

  lemma ColumnsAreFull(lib: Library, data: seq<byte>, words: seq<seq<seq<byte>>>, shards: seq<seq<byte>>)
    requires data != [] && WordsOf(lib, Unzip(CHUNK, data), words) && FullWords(words) && AreColumns(words, shards)
    ensures |shards| == SHARDS && forall j :: 0 <= j < SHARDS ==> shards[j] != []
  {
    UnzippedChunks(data);
    LaceFits(CHUNK, data);
    hide Column, WordOf, Unzip;
    forall j | 0 <= j < SHARDS ensures shards[j] != [] { ColumnAt(words, j, 0); }
  }

  lemma {:induction false} KeptCount(left: seq<seq<byte>>, keep: set<nat>)
    requires forall j :: j in keep ==> j < |left| && left[j] != []
    ensures Count(left) >= |keep|
  {
    if left == [] {
      assert keep == {};
    } else {
      var n := |left| - 1;
      KeptCount(left[..n], keep - {n});
    }
  }
}

/** Bookkeeping around a Reed-Solomon library: original shards are flattened for it, what it makes is
    cut up again, present shards are gathered with their indices and restored ones put in their
    places. The library is a parameter; that any `n` shards determine the message is a hypothesis
    on it, stated in `Mds`. A missing shard is the empty string. */
module ReedSolomon {
  import opened Bytes

  const MAX_SHARD_SIZE := 1024
  const MAX_DATA := 12 * 1024 * 1024

  datatype Error =
    | TooLong | TooShort | TooFewOriginals | NoSpace | BadShardSize | Inconsistent | LibraryFailed | TooFew | Crash

  datatype Result<+T> = Ok(value: T) | Err(error: Error)

  /** `encode(n, r, size, originals)` and
      `decode(n, r, size, originals, their indices, recovery shards, their indices)`. */
  datatype Library = Library(
    encode: (nat, nat, nat, seq<byte>) -> Option<seq<byte>>,
    decode: (nat, nat, nat, seq<byte>, seq<nat>, seq<byte>, seq<nat>) -> Option<(seq<byte>, seq<nat>)>)

  // ------------------------------------------------------------------------- shards and flat data

  function Flatten(s: seq<seq<byte>>): seq<byte> {
    if s == [] then [] else Flatten(s[..|s| - 1]) + s[|s| - 1]
  }

  /** The data in pieces of `size`; a shorter remainder is dropped. */
  function Cut(flat: seq<byte>, size: nat): seq<seq<byte>>
    decreases |flat|
  {
    if size == 0 || |flat| < size then [] else [flat[..size]] + Cut(flat[size..], size)
  }

  predicate Uniform(s: seq<seq<byte>>, size: nat) {
    forall i :: 0 <= i < |s| ==> |s[i]| == size
  }

  lemma {:induction false} CutUniform(flat: seq<byte>, size: nat)
    ensures Uniform(Cut(flat, size), size)
    decreases |flat|
  {
    if size > 0 && |flat| >= size { CutUniform(flat[size..], size); }
  }

  lemma {:induction false} FlattenCons(x: seq<byte>, s: seq<seq<byte>>)
    ensures Flatten([x] + s) == x + Flatten(s)
  {
    if s == [] {
      assert [x] + s == [x];
    } else {
      var n := |s| - 1;
      FlattenCons(x, s[..n]);
      var t := [x] + s;
      assert t[..n + 1] == [x] + s[..n] && t[n + 1] == s[n];
      assert x + (Flatten(s[..n]) + s[n]) == (x + Flatten(s[..n])) + s[n];
    }
  }

  /** Cutting undoes flattening. */
  lemma {:induction false} CutFlatten(s: seq<seq<byte>>, size: nat)
    requires size > 0 && Uniform(s, size)
    ensures Cut(Flatten(s), size) == s
  {
    if s != [] {
      CutFlatten(s[1..], size);
      assert s == [s[0]] + s[1..];
      FlattenCons(s[0], s[1..]);
      assert Flatten(s)[size..] == Flatten(s[1..]);
    }
  }

  function Count(s: seq<seq<byte>>): nat {
    if s == [] then 0 else Count(s[..|s| - 1]) + if s[|s| - 1] != [] then 1 else 0
  }

  lemma {:induction false} CountBound(s: seq<seq<byte>>)
    ensures Count(s) <= |s|
    ensures Count(s) == |s| <==> forall i :: 0 <= i < |s| ==> s[i] != []
  {
    if s != [] { CountBound(s[..|s| - 1]); }
  }

  function SizeFrom(s: seq<seq<byte>>, i: nat): nat
    decreases |s| - i
  {
    if i >= |s| then 0 else if s[i] != [] then |s[i]| else SizeFrom(s, i + 1)
  }

  lemma {:induction false} SizeFromIs(s: seq<seq<byte>>, i: nat, size: nat)
    requires size > 0 && forall k :: i <= k < |s| ==> s[k] == [] || |s[k]| == size
    ensures SizeFrom(s, i) == 0 || SizeFrom(s, i) == size
    ensures SizeFrom(s, i) == 0 <==> forall k :: i <= k < |s| ==> s[k] == []
    decreases |s| - i
  {
    if i < |s| && s[i] == [] { SizeFromIs(s, i + 1, size); }
  }

  /** Positions of the shards that are there. */
  function Present(s: seq<seq<byte>>): seq<nat> {
    if s == [] then []
    else Present(s[..|s| - 1]) + if s[|s| - 1] != [] then [|s| - 1] else []
  }

  lemma {:induction false} IsPresent(s: seq<seq<byte>>, i: nat)
    ensures i in Present(s) <==> i < |s| && s[i] != []
  {
    if s != [] { IsPresent(s[..|s| - 1], i); }
  }

  lemma {:induction false} PresentAscend(s: seq<seq<byte>>)
    ensures forall a, b :: 0 <= a < b < |Present(s)| ==> Present(s)[a] < Present(s)[b]
    ensures |Present(s)| == Count(s)
  {
    if s != [] {
      var n := |s| - 1;
      PresentAscend(s[..n]);
      var p := Present(s[..n]);
      forall a | 0 <= a < |p| ensures p[a] < n { IsPresent(s[..n], p[a]); assert p[a] in p; }
    }
  }

  /** The positions are those of the shards that are not empty, ascending. */
  lemma PresentAre(s: seq<seq<byte>>)
    ensures forall i: nat :: i in Present(s) <==> i < |s| && s[i] != []
    ensures forall a, b :: 0 <= a < b < |Present(s)| ==> Present(s)[a] < Present(s)[b]
    ensures |Present(s)| == Count(s)
  {
    forall i: nat ensures i in Present(s) <==> i < |s| && s[i] != [] { IsPresent(s, i); }
    PresentAscend(s);
  }

  method ShardSize(s: seq<seq<byte>>) returns (r: nat)
    ensures r == SizeFrom(s, 0)
    ensures r == 0 <==> forall i :: 0 <= i < |s| ==> s[i] == []
    ensures r > 0 ==> exists i :: 0 <= i < |s| && |s[i]| == r && forall j :: 0 <= j < i ==> s[j] == []
  {
    for i := 0 to |s|
      invariant SizeFrom(s, 0) == SizeFrom(s, i)
      invariant forall j :: 0 <= j < i ==> s[j] == []
    {
      if |s[i]| != 0 { return |s[i]|; }
    }
    r := 0;
  }

  method ShardCount(s: seq<seq<byte>>) returns (count: nat)
    ensures count == Count(s)
  {
    count := 0;
    for i := 0 to |s|
      invariant count == Count(s[..i])
    {
      assert s[..i + 1][..i] == s[..i];
      if |s[i]| != 0 { count := count + 1; }
    }
    assert s[..|s|] == s;
  }

  // --------------------------------------------------------------------------------------- encoding

  predicate Encodable(n: nat, r: nat, s: seq<seq<byte>>) {
    && |s| == n + r && Count(s[..n]) == n
    && 0 < SizeFrom(s, 0) <= MAX_SHARD_SIZE && Uniform(s[..n], SizeFrom(s, 0))
  }

  /** Original shards followed by the recovery shards. */
  function Codeword(lib: Library, n: nat, r: nat, originals: seq<seq<byte>>, size: nat): Result<seq<seq<byte>>> {
    match lib.encode(n, r, size, Flatten(originals))
    case None => Err(LibraryFailed)
    case Some(flat) =>
      var recovery := Cut(flat, size);
      if |recovery| == r then Ok(originals + recovery) else Err(Crash)
  }

  method Encode(lib: Library, n: nat, r: nat, shards: array<seq<byte>>) returns (e: Option<Error>)
    modifies shards
    ensures e.Some? ==> shards[..] == old(shards[..])
    ensures !Encodable(n, r, old(shards[..])) ==> e.Some?
    ensures n <= shards.Length && Count(old(shards[..n])) != n ==> e == Some(TooFewOriginals)
    ensures n <= shards.Length && Count(old(shards[..n])) == n && shards.Length != n + r ==> e == Some(NoSpace)
    ensures n + r == shards.Length && Count(old(shards[..n])) == n ==>
              var size := SizeFrom(old(shards[..]), 0);
              && (e == Some(BadShardSize) <==> !(0 < size <= 1024))
              && (e == Some(Inconsistent) <==>
                    0 < size <= 1024 && exists i :: 0 <= i < n && |old(shards[..])[i]| != size)
    ensures Encodable(n, r, old(shards[..])) ==>
              var w := Codeword(lib, n, r, old(shards[..n]), SizeFrom(old(shards[..]), 0));
              if w.Ok? then e.None? && shards[..] == w.value else e == Some(w.error)
  {
    hide Count, Cut, Flatten, SizeFrom;
    if n > shards.Length { return Some(Crash); }
    var count := ShardCount(shards[..n]);
    if count != n { return Some(TooFewOriginals); }
    if shards.Length != n + r { return Some(NoSpace); }
    var size := ShardSize(shards[..]);
    if size == 0 || size > MAX_SHARD_SIZE { return Some(BadShardSize); }
    var flat: seq<byte> := [];
    FlattenNothing(shards[..0]);
    for i := 0 to n
      invariant flat == Flatten(shards[..i]) && Uniform(shards[..i], size)
      invariant shards[..] == old(shards[..])
    {
      if |shards[i]| != size {
        assert shards[..n][i] == shards[i];
        return Some(Inconsistent);
      }
      FlattenSnoc(shards[..], i);
      flat := flat + shards[i];
      assert shards[..i + 1] == shards[..i] + [shards[i]];
    }
    var out := lib.encode(n, r, size, flat);
    if out.None? { return Some(LibraryFailed); }
    var recovery := Cut(out.value, size);
    if |recovery| != r { return Some(Crash); }
    for i := 0 to r
      invariant shards[..n] == old(shards[..n]) && shards[n..n + i] == recovery[..i]
    {
      shards[n + i] := recovery[i];
      assert shards[n..n + i + 1] == shards[n..n + i] + [recovery[i]];
    }
    assert shards[..] == shards[..n] + shards[n..n + r];
    e := None;
  }

  lemma FlattenNothing(s: seq<seq<byte>>)
    requires s == []
    ensures Flatten(s) == []
  {
  }

  lemma FlattenSnoc(s: seq<seq<byte>>, i: nat)
    requires i < |s|
    ensures Flatten(s[..i + 1]) == Flatten(s[..i]) + s[i]
  {
    assert s[..i + 1][..i] == s[..i];
  }

  // --------------------------------------------------------------------------------------- decoding

  predicate SizedOrMissing(s: seq<seq<byte>>, size: nat) {
    forall i :: 0 <= i < |s| ==> s[i] == [] || |s[i]| == size
  }

  predicate Decodable(n: nat, s: seq<seq<byte>>) {
    && Count(s) >= n && n <= |s| && 0 < SizeFrom(s, 0) <= MAX_SHARD_SIZE && SizedOrMissing(s, SizeFrom(s, 0))
  }

  /** Put each restored shard in its place. */
  function Restored(s: seq<seq<byte>>, pieces: seq<seq<byte>>, places: seq<nat>): (t: seq<seq<byte>>)
    requires |pieces| == |places| && forall i :: 0 <= i < |places| ==> places[i] < |s|
    ensures |t| == |s|
  {
    if places == [] then s
    else
      var n := |places| - 1;
      Restored(s, pieces[..n], places[..n])[places[n] := pieces[n]]
  }

  predicate PlacesFit(places: seq<nat>, n: nat) {
    forall i :: 0 <= i < |places| ==> places[i] < n
  }

  function Recovered(lib: Library, n: nat, r: nat, s: seq<seq<byte>>, size: nat): Result<seq<seq<byte>>>
    requires n <= |s|
  {
    match lib.decode(n, r, size, Flatten(s[..n]), Present(s[..n]), Flatten(s[n..]), Present(s[n..]))
    case None => Err(LibraryFailed)
    case Some(out) =>
      var pieces := Cut(out.0, size);
      if |pieces| == |out.1| && PlacesFit(out.1, |s|) then Ok(Restored(s, pieces, out.1)) else Err(Crash)
  }

  /** The first loops of `Decode`: shards and indices of one half. */
  method Collect(s: seq<seq<byte>>, size: nat) returns (e: Option<Error>, flat: seq<byte>, indices: seq<nat>)
    ensures e.None? <==> SizedOrMissing(s, size)
    ensures e.None? ==> flat == Flatten(s) && indices == Present(s)
    ensures e.None? ==> forall i: nat :: i in indices <==> i < |s| && s[i] != []
    ensures e.Some? ==> e == Some(Inconsistent)
  {
    flat, indices := [], [];
    for i := 0 to |s|
      invariant SizedOrMissing(s[..i], size)
      invariant flat == Flatten(s[..i]) && indices == Present(s[..i])
    {
      assert s[..i + 1][..i] == s[..i];
      if |s[i]| != 0 {
        if |s[i]| != size { return Some(Inconsistent), flat, indices; }
        flat := flat + s[i];
        indices := indices + [i];
      } else {
        assert flat + s[i] == flat && indices + [] == indices;
      }
    }
    assert s[..|s|] == s;
    hide Present, Flatten;
    PresentAre(s);
    e := None;
  }

  method Decode(lib: Library, n: nat, r: nat, shards: array<seq<byte>>) returns (e: Option<Error>)
    modifies shards
    ensures e.Some? ==> shards[..] == old(shards[..])
    ensures !Decodable(n, old(shards[..])) ==> e.Some?
    ensures e == Some(TooFew) <==> Count(old(shards[..])) < n
    ensures e == Some(Inconsistent) <==>
              && Count(old(shards[..])) >= n && 0 < SizeFrom(old(shards[..]), 0) <= 1024
              && exists i :: 0 <= i < shards.Length && old(shards[..])[i] != []
                    && |old(shards[..])[i]| != SizeFrom(old(shards[..]), 0)
    ensures e == Some(BadShardSize) <==> Count(old(shards[..])) >= n && !(0 < SizeFrom(old(shards[..]), 0) <= 1024)
    ensures Decodable(n, old(shards[..])) ==>
              var w := Recovered(lib, n, r, old(shards[..]), SizeFrom(old(shards[..]), 0));
              if w.Ok? then e.None? && shards[..] == w.value else e == Some(w.error)
  {
    hide Count, Cut, Flatten, SizeFrom, Present;
    ghost var s := shards[..];
    var count := ShardCount(shards[..]);
    CountBound(shards[..]);
    if count < n { return Some(TooFew); }
    var size := ShardSize(shards[..]);
    if size == 0 || size > MAX_SHARD_SIZE { return Some(BadShardSize); }
    var flatO, indicesO, flatR, indicesR;
    BothHalves(s, n, size);
    e, flatO, indicesO := Collect(shards[..n], size);
    if e.Some? { return; }
    e, flatR, indicesR := Collect(shards[n..], size);
    if e.Some? { return; }
    assert s[..n] == shards[..n] && s[n..] == shards[n..];
    var out := lib.decode(n, r, size, flatO, indicesO, flatR, indicesR);
    if out.None? { return Some(LibraryFailed); }
    var pieces := Cut(out.value.0, size);
    var places := out.value.1;
    if |pieces| != |places| || !PlacesFit(places, shards.Length) { return Some(Crash); }
    for i := 0 to |places|
      invariant shards[..] == Restored(s, pieces[..i], places[..i])
    {
      assert pieces[..i + 1][..i] == pieces[..i] && places[..i + 1][..i] == places[..i];
      shards[places[i]] := pieces[i];
    }
    assert pieces[..|places|] == pieces && places[..|places|] == places;
    e := None;
  }

  lemma BothHalves(s: seq<seq<byte>>, n: nat, size: nat)
    requires n <= |s|
    ensures SizedOrMissing(s, size) <==> SizedOrMissing(s[..n], size) && SizedOrMissing(s[n..], size)
  {
    if SizedOrMissing(s[..n], size) && SizedOrMissing(s[n..], size) {
      forall i | 0 <= i < |s| ensures s[i] == [] || |s[i]| == size {
        if i < n { assert s[i] == s[..n][i]; } else { assert s[i] == s[n..][i - n]; }
      }
    }
  }

  // ----------------------------------------------------------------------------------- any n suffice

  /** `word` is a code word with some shards missing. */
  ghost predicate Damaged(word: seq<seq<byte>>, full: seq<seq<byte>>) {
    |word| == |full| && forall i :: 0 <= i < |word| ==> word[i] == [] || word[i] == full[i]
  }

  /** What the library says restores exactly the missing originals of `message`. */
  ghost predicate Restores(out: (seq<byte>, seq<nat>), size: nat, message: seq<seq<byte>>, word: seq<seq<byte>>) {
    && |Cut(out.0, size)| == |out.1|
    && (forall k :: 0 <= k < |out.1| ==> out.1[k] < |message| && Cut(out.0, size)[k] == message[out.1[k]])
    && (forall i :: 0 <= i < |message| && i < |word| && word[i] == [] ==> i in out.1)
  }

  /** The library encodes every message, and any `n` shards of the code word give the message
      back. */
  ghost predicate Mds(lib: Library, n: nat, r: nat, size: nat) {
    forall message: seq<seq<byte>> | |message| == n && Uniform(message, size) ::
      && Codeword(lib, n, r, message, size).Ok?
      && (forall word: seq<seq<byte>> | Damaged(word, Codeword(lib, n, r, message, size).value) && Count(word) >= n ::
            Answers(lib, n, r, size, message, word))
  }

  ghost predicate Answers(lib: Library, n: nat, r: nat, size: nat, message: seq<seq<byte>>, word: seq<seq<byte>>) {
    if n > |word| then false
    else
      var out := lib.decode(n, r, size, Flatten(word[..n]), Present(word[..n]), Flatten(word[n..]), Present(word[n..]));
      out.Some? && Restores(out.value, size, message, word)
  }

  lemma {:induction false} RestoredAt(s: seq<seq<byte>>, pieces: seq<seq<byte>>, places: seq<nat>,
                                      message: seq<seq<byte>>, i: nat)
    requires |pieces| == |places| && PlacesFit(places, |s|) && i < |message| <= |s|
    requires forall k :: 0 <= k < |places| ==> places[k] < |message| && pieces[k] == message[places[k]]
    ensures Restored(s, pieces, places)[i] == if i in places then message[i] else s[i]
  {
    if places != [] {
      var n := |places| - 1;
      RestoredAt(s, pieces[..n], places[..n], message, i);
      assert places == places[..n] + [places[n]];
    }
  }

  /** Decoding a damaged code word that still has `n` shards gives back the originals. */
  lemma DecodeUndoesEncode(lib: Library, n: nat, r: nat, size: nat, message: seq<seq<byte>>, word: seq<seq<byte>>)
    requires Mds(lib, n, r, size) && |message| == n && Uniform(message, size)
    requires Codeword(lib, n, r, message, size).Ok? && Damaged(word, Codeword(lib, n, r, message, size).value)
    requires Count(word) >= n && n <= |word|
    ensures Recovered(lib, n, r, word, size).Ok? && |Recovered(lib, n, r, word, size).value| == |word|
    ensures Recovered(lib, n, r, word, size).value[..n] == message
  {
    hide Cut, Flatten, Count, Present;
    assert Answers(lib, n, r, size, message, word);
    var out := lib.decode(n, r, size, Flatten(word[..n]), Present(word[..n]), Flatten(word[n..]),
        Present(word[n..])).value;
    var t := Restored(word, Cut(out.0, size), out.1);
    assert Recovered(lib, n, r, word, size) == Ok(t);
    forall i | 0 <= i < n ensures t[i] == message[i] {
      RestoredAt(word, Cut(out.0, size), out.1, message, i);
    }
  }

  /** What the library makes of the originals follows them, cut to size, if it is as much as was asked for. What it
      restores goes where it says, if it says where each piece goes. */
  lemma LibraryIsUsed(lib: Library, n: nat, r: nat, s: seq<seq<byte>>, size: nat)
    requires n <= |s|
    ensures var out := lib.encode(n, r, size, Flatten(s[..n]));
            Codeword(lib, n, r, s[..n], size) ==
              if out.None? then Err(LibraryFailed)
              else if |Cut(out.value, size)| != r then Err(Crash)
              else Ok(s[..n] + Cut(out.value, size))
    ensures var out := lib.decode(n, r, size, Flatten(s[..n]), Present(s[..n]), Flatten(s[n..]), Present(s[n..]));
            && (out.None? ==> Recovered(lib, n, r, s, size) == Err(LibraryFailed))
            && (out.Some? && |Cut(out.value.0, size)| == |out.value.1| && PlacesFit(out.value.1, |s|) ==>
                  Recovered(lib, n, r, s, size) == Ok(Restored(s, Cut(out.value.0, size), out.value.1)))
            && (out.Some? && !(|Cut(out.value.0, size)| == |out.value.1| && PlacesFit(out.value.1, |s|)) ==>
                  Recovered(lib, n, r, s, size) == Err(Crash))
  {
    hide Cut, Flatten, Present, Restored;
  }

  /** What is in a code word: the originals, then shards of the same size. */
  lemma CodewordShape(lib: Library, n: nat, r: nat, originals: seq<seq<byte>>, size: nat)
    requires |originals| == n && Uniform(originals, size) && Codeword(lib, n, r, originals, size).Ok?
    ensures var w := Codeword(lib, n, r, originals, size).value;
            |w| == n + r && Uniform(w, size) && w[..n] == originals
  {
    var flat := lib.encode(n, r, size, Flatten(originals)).value;
    CutUniform(flat, size);
  }
}

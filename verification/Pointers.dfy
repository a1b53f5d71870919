/** Decoding into a destination. The entry points of the decoder follow and allocate every pointer of
    the destination before they read, so that a pointer at the top has no marker for them, while the
    encoder writes one. */
module Pointers {
  import opened Bytes
  import opened Naturals
  import opened Codec

  /** What is left of a type when its pointers have been followed. */
  function Pointee(s: Schema): (r: Schema)
    ensures !r.Optional?
  {
    if s.Optional? then Pointee(s.elem) else s
  }

  /** The value a destination holds when `v` is written at the end of its pointers. */
  function Wrapped(s: Schema, v: Value): Value {
    if s.Optional? then Ptr(Wrapped(s.elem, v)) else v
  }

  /** `Unmarshal` and `Decoder.Decode`. */
  function DecodeInto(s: Schema, inp: seq<byte>): Option<(Value, seq<byte>)> {
    match Decode(Pointee(s), inp) case None => None case Some((v, rest)) => Some((Wrapped(s, v), rest))
  }

  // --------------------------------------------------------------------------- lagging behind

  predicate Bits(s: seq<byte>) {
    forall i :: 0 <= i < |s| ==> s[i] <= 1
  }

  /** `inp` is `rest` after at least one octet more, and each octet more is 0 or 1. */
  predicate Lags(inp: seq<byte>, rest: seq<byte>) {
    var n := |inp| - |rest|;
    n > 0 && inp[n..] == rest && Bits(inp[..n])
  }

  lemma FirstIsBit(inp: seq<byte>, rest: seq<byte>)
    requires Lags(inp, rest)
    ensures inp != [] && inp[0] <= 1
  {
    assert inp[..|inp| - |rest|][0] == inp[0];
  }

  /** Passing octets that are bits leaves the input as far behind as it was. */
  lemma Passed(inp: seq<byte>, octets: seq<byte>, rest: seq<byte>)
    requires Lags(inp, octets + rest) && Bits(octets)
    ensures |octets| < |inp| && Lags(inp[|octets|..], rest)
  {
    var n := |inp| - |octets| - |rest|;
    var after := inp[|octets|..];
    assert inp == inp[..n] + octets + rest;
    assert after[n..] == rest;
    forall i | 0 <= i < n ensures after[i] <= 1 {
      if i + |octets| < n {
        assert inp[..n][i + |octets|] <= 1;
      } else {
        assert after[i] == octets[i + |octets| - n];
      }
    }
    assert Bits(after[..n]);
  }

  lemma PassedOne(inp: seq<byte>, c: byte, rest: seq<byte>)
    requires Lags(inp, [c] + rest) && c == inp[0]
    ensures c <= 1 && Lags(inp[1..], rest)
  {
    FirstIsBit(inp, [c] + rest);
    Passed(inp, [c], rest);
  }

  /** Octets that repeat the input are bits, because the input begins with bits and goes on with them. */
  lemma {:induction false} RepeatsAreBits(inp: seq<byte>, octets: seq<byte>, rest: seq<byte>, j: nat)
    requires Lags(inp, octets + rest) && j < |octets|
    requires forall i :: 0 <= i < |octets| ==> octets[i] == inp[i] || octets[i] == 0
    ensures octets[j] <= 1
  {
    var n := |inp| - |octets| - |rest|;
    if j < n {
      assert inp[..n][j] == inp[j];
    } else {
      RepeatsAreBits(inp, octets, rest, j - n);
      assert inp[n..][j - n] == octets[j - n];
    }
  }

  lemma PassedRepeats(inp: seq<byte>, octets: seq<byte>, rest: seq<byte>)
    requires Lags(inp, octets + rest)
    requires forall i :: 0 <= i < |octets| ==> octets[i] == inp[i] || octets[i] == 0
    ensures |octets| < |inp| && Lags(inp[|octets|..], rest)
  {
    forall j | 0 <= j < |octets| ensures octets[j] <= 1 { RepeatsAreBits(inp, octets, rest, j); }
    Passed(inp, octets, rest);
  }

  lemma BitEncoding(c: byte)
    requires c <= 1
    ensures c < TWO_64 && EncodeNatural(c) == [c]
  {
    LengthBounds(c);
    assert Pow2(7) == 128;
    LengthTest(c, 0);
  }

  /** A natural read from such an input is its first octet. */
  lemma NaturalLags(inp: seq<byte>, rest: seq<byte>)
    requires Lags(inp, rest)
    ensures inp != [] && inp[0] <= 1 && DecodeNatural(inp) == Some((inp[0], inp[1..]))
    ensures inp[0] < TWO_64 && EncodeNatural(inp[0]) == [inp[0]]
  {
    FirstIsBit(inp, rest);
    BitEncoding(inp[0]);
    NaturalRoundTrip(inp[0], inp[1..]);
    assert inp == [inp[0]] + inp[1..];
  }

  /** Written back on as many octets, a number cut to a word is the octets it came from, or zeros. */
  lemma {:induction false} CutOctets(data: seq<byte>, w: nat, j: nat)
    requires j < |data|
    ensures var cut := LittleEndian(Low(FromLittleEndian(data), 8 * w), |data|);
            cut[j] == data[j] || cut[j] == 0
  {
    var x, tail := FromLittleEndian(data), data[1..];
    assert x % 256 == data[0] && x / 256 == FromLittleEndian(tail);
    if w == 0 {
      ZeroOctets(|data|, j);
    } else {
      Bytes.Octet(x, 8 * (w - 1));
      var y := Low(x, 8 * w);
      assert y % 256 == data[0] && y / 256 == Low(FromLittleEndian(tail), 8 * (w - 1));
      if j > 0 { CutOctets(tail, w - 1, j - 1); }
    }
  }

  lemma {:induction false} ZeroOctets(l: nat, j: nat)
    requires j < l
    ensures LittleEndian(0, l)[j] == 0
  {
    if j > 0 { ZeroOctets(l - 1, j - 1); }
  }

  // ---------------------------------------------- a decoder that lags behind never catches up

  /** Decoding gave `v` from an input that lags behind the encoding of `v`. */
  ghost predicate Behind(s: Schema, v: Value, inp: seq<byte>, r: seq<byte>, rest: seq<byte>) {
    WellTyped(s, v) && Lags(inp, Encode(s, v) + rest) && Decode(s, inp) == Some((v, r))
  }

  lemma ScalarParts(s: Schema, v: Value, inp: seq<byte>, r: seq<byte>)
    requires (s.General? || s.Boolean?) && WellTyped(s, v) && Decode(s, inp) == Some((v, r))
    requires inp != [] && inp[0] <= 1 && DecodeNatural(inp) == Some((inp[0], inp[1..]))
    requires EncodeNatural(inp[0]) == [inp[0]]
    ensures r == inp[1..] && Encode(s, v) == [inp[0]]
  {
    hide DecodeNatural, EncodeNatural;
  }

  lemma ScalarLags(s: Schema, v: Value, inp: seq<byte>, r: seq<byte>, rest: seq<byte>)
    requires (s.General? || s.Boolean?) && Behind(s, v, inp, r, rest)
    ensures Lags(r, rest)
  {
    hide Lags, EncodeNatural, DecodeNatural, Decode, Encode, WellTyped;
    NaturalLags(inp, Encode(s, v) + rest);
    ScalarParts(s, v, inp, r);
    PassedOne(inp, inp[0], rest);
  }

  lemma FixedLags(s: Schema, v: Value, inp: seq<byte>, r: seq<byte>, rest: seq<byte>)
    requires s.Fixed? && Behind(s, v, inp, r, rest)
    ensures Lags(r, rest)
  {
    var octets := Encode(s, v);
    assert |octets| == s.length && |inp| > |octets|;
    var data := inp[..s.length];
    assert Read(inp, s.length) == Some((data, inp[s.length..]));
    forall i | 0 <= i < |octets| ensures octets[i] == inp[i] || octets[i] == 0 { CutOctets(data, s.width, i); }
    hide Lags, Encode, Decode;
    PassedRepeats(inp, octets, rest);
  }

  lemma RawLags(s: Schema, v: Value, inp: seq<byte>, r: seq<byte>, rest: seq<byte>)
    requires s.Raw? && Behind(s, v, inp, r, rest)
    ensures Lags(r, rest)
  {
    assert Encode(s, v) == inp[..s.size];
    PassedRepeats(inp, Encode(s, v), rest);
  }

  lemma BlobParts(s: Schema, v: Value, inp: seq<byte>, r: seq<byte>, n: nat, mid: seq<byte>)
    requires s.Blob? && WellTyped(s, v) && DecodeNatural(inp) == Some((n, mid)) && Decode(s, inp) == Some((v, r))
    ensures v.Octets? && |v.octets| == n && Read(mid, n) == Some((v.octets, r))
    ensures n < TWO_64 && Encode(s, v) == EncodeNatural(n) + v.octets
  {
  }

  lemma BlobLags(s: Schema, v: Value, inp: seq<byte>, r: seq<byte>, rest: seq<byte>)
    requires s.Blob? && Behind(s, v, inp, r, rest)
    ensures Lags(r, rest)
  {
    hide Decode, Encode, WellTyped, DecodeNatural, EncodeNatural, Lags;
    NaturalLags(inp, Encode(s, v) + rest);
    BlobParts(s, v, inp, r, inp[0], inp[1..]);
    var mid, data := inp[1..], v.octets;
    assert Encode(s, v) + rest == [inp[0]] + (data + rest);
    PassedOne(inp, inp[0], data + rest);
    LagsLonger(mid, data + rest);
    PassedRepeats(mid, data, rest);
  }

  lemma LagsLonger(inp: seq<byte>, rest: seq<byte>)
    requires Lags(inp, rest)
    ensures |inp| > |rest|
  {
  }

  lemma OptionalParts(s: Schema, v: Value, inp: seq<byte>, r: seq<byte>)
    requires s.Optional? && WellTyped(s, v) && Decode(s, inp) == Some((v, r))
    ensures inp != [] && inp[0] == (if v.Nil? then 0 else 1)
    ensures v.Nil? ==> r == inp[1..] && Encode(s, v) == [0]
    ensures !v.Nil? ==> v.Ptr? && WellTyped(s.elem, v.target) && Decode(s.elem, inp[1..]) == Some((v.target, r))
    ensures !v.Nil? ==> Encode(s, v) == [1] + Encode(s.elem, v.target)
  {
  }

  lemma EnumParts(s: Schema, v: Value, inp: seq<byte>, r: seq<byte>)
    requires s.Enum? && WellTyped(s, v) && Decode(s, inp) == Some((v, r))
    ensures v.Variant? && v.index in s.cases && inp != [] && inp[0] == v.index
    ensures s.cases[v.index].None? ==> r == inp[1..] && Encode(s, v) == [v.index]
    ensures s.cases[v.index].Some? ==>
              var e := s.cases[v.index].value;
              && v.payload.Some? && WellTyped(e, v.payload.value)
              && Decode(e, inp[1..]) == Some((v.payload.value, r))
              && Encode(s, v) == [v.index] + Encode(e, v.payload.value)
  {
  }

  lemma {:induction false} SameCount(e: Schema, n: nat, inp: seq<byte>)
    ensures DecodeItems(e, n, inp).Some? ==> |DecodeItems(e, n, inp).value.0| == n
  {
    hide Decode;
    if n > 0 && Decode(e, inp).Some? { SameCount(e, n - 1, Decode(e, inp).value.1); }
  }

  lemma SliceParts(s: Schema, v: Value, inp: seq<byte>, r: seq<byte>, n: nat, mid: seq<byte>)
    requires s.Slice? && WellTyped(s, v) && DecodeNatural(inp) == Some((n, mid)) && Decode(s, inp) == Some((v, r))
    ensures v.List? && |v.items| == n < TWO_64 && forall i :: 0 <= i < n ==> WellTyped(s.elem, v.items[i])
    ensures DecodeItems(s.elem, n, mid) == Some((v.items, r))
    ensures Encode(s, v) == EncodeNatural(n) + EncodeItems(s.elem, v.items)
  {
    SameCount(s.elem, n, mid);
  }

  lemma MapParts(s: Schema, v: Value, inp: seq<byte>, r: seq<byte>, n: nat, mid: seq<byte>)
    requires s.Map? && WellTyped(s, v) && DecodeNatural(inp) == Some((n, mid)) && Decode(s, inp) == Some((v, r))
    ensures v.Dict? && DecodeEntries(s, n, map[], mid) == Some((v.entries, r))
  {
  }

  /** With one entry the sorted keys are that key. */
  lemma OneEntry(s: Schema, v: Value, k: Value)
    requires s.Map? && WellTyped(s, v) && v.entries.Keys == {k}
    ensures WellTyped(s.key, k) && WellTyped(s.val, v.entries[k]) && |v.entries| == 1
    ensures Encode(s, v) == EncodeNatural(1) + (Encode(s.key, k) + Encode(s.val, v.entries[k]))
  {
    EncodeMapShape(s, v);
    assert k in v.entries.Keys && |v.entries.Keys| == 1;
    assert |v.entries| == |v.entries.Keys|;
    var ks := SortedKeys(s.key, v.entries.Keys);
    hide Encode, WellTyped;
    assert ks == [k];
    EntriesOfOne(s, v.entries, k);
  }

  lemma EntriesOfOne(s: Schema, m: map<Value, Value>, k: Value)
    requires s.Map? && k in m && WellTyped(s.key, k) && WellTyped(s.val, m[k]) && EntriesTyped(s, m, [k])
    ensures EncodeEntries(s, m, [k]) == Encode(s.key, k) + Encode(s.val, m[k])
  {
    hide Encode;
    assert [k][1..] == [];
    assert EncodeEntries(s, m, []) == [];
  }

  /** An input that lags behind the encoding of the value it decodes to still lags behind afterwards. */
  lemma {:induction false} StaysBehind(s: Schema, v: Value, inp: seq<byte>, r: seq<byte>, rest: seq<byte>)
    requires Behind(s, v, inp, r, rest)
    ensures Lags(r, rest)
    decreases s, 1, 0
  {
    match s
    case General => ScalarLags(s, v, inp, r, rest);
    case Boolean => ScalarLags(s, v, inp, r, rest);
    case Fixed(_, _) => FixedLags(s, v, inp, r, rest);
    case Blob => BlobLags(s, v, inp, r, rest);
    case Raw(_) => RawLags(s, v, inp, r, rest);
    case Optional(_) => OptionalLags(s, v, inp, r, rest);
    case Enum(_) => EnumLags(s, v, inp, r, rest);
    case Slice(_) => SliceLags(s, v, inp, r, rest);
    case Array(n, e) => SameCount(e, n, inp); ItemsLag(e, v.items, inp, r, rest);
    case Struct(fs) => FieldsLag(fs, v.items, inp, r, rest);
    case Map(_, _) => MapLags(s, v, inp, r, rest);
  }

  lemma {:induction false} OptionalLags(s: Schema, v: Value, inp: seq<byte>, r: seq<byte>, rest: seq<byte>)
    requires s.Optional? && Behind(s, v, inp, r, rest)
    ensures Lags(r, rest)
    decreases s, 0, 0
  {
    hide Decode, Encode, WellTyped, Lags;
    OptionalParts(s, v, inp, r);
    if v.Nil? {
      PassedOne(inp, 0, rest);
    } else {
      var body := Encode(s.elem, v.target);
      Assoc([1], body, rest);
      PassedOne(inp, 1, body + rest);
      StaysBehind(s.elem, v.target, inp[1..], r, rest);
    }
  }

  lemma {:induction false} EnumLags(s: Schema, v: Value, inp: seq<byte>, r: seq<byte>, rest: seq<byte>)
    requires s.Enum? && Behind(s, v, inp, r, rest)
    ensures Lags(r, rest)
    decreases s, 0, 0
  {
    hide Decode, Encode, WellTyped, Lags;
    EnumParts(s, v, inp, r);
    match s.cases[v.index]
    case None => PassedOne(inp, v.index, rest);
    case Some(e) =>
      var body := Encode(e, v.payload.value);
      Assoc([v.index], body, rest);
      PassedOne(inp, v.index, body + rest);
      StaysBehind(e, v.payload.value, inp[1..], r, rest);
  }

  lemma {:induction false} SliceLags(s: Schema, v: Value, inp: seq<byte>, r: seq<byte>, rest: seq<byte>)
    requires s.Slice? && Behind(s, v, inp, r, rest)
    ensures Lags(r, rest)
    decreases s, 0, 0
  {
    hide Decode, Encode, WellTyped, Lags, DecodeNatural, EncodeNatural;
    NaturalLags(inp, Encode(s, v) + rest);
    SliceParts(s, v, inp, r, inp[0], inp[1..]);
    var body := EncodeItems(s.elem, v.items);
    Assoc([inp[0]], body, rest);
    PassedOne(inp, inp[0], body + rest);
    ItemsLag(s.elem, v.items, inp[1..], r, rest);
  }

  lemma {:induction false} ItemsLag(e: Schema, items: seq<Value>, inp: seq<byte>, r: seq<byte>, rest: seq<byte>)
    requires forall i :: 0 <= i < |items| ==> WellTyped(e, items[i])
    requires Lags(inp, EncodeItems(e, items) + rest) && DecodeItems(e, |items|, inp) == Some((items, r))
    ensures Lags(r, rest)
    decreases e, 2, |items|
  {
    hide Decode, Encode, WellTyped, Lags;
    if items == [] {
      assert EncodeItems(e, items) + rest == rest;
    } else {
      var v, tail := items[0], items[1..];
      var first, more := Encode(e, v), EncodeItems(e, tail);
      var mid := Decode(e, inp).value.1;
      assert Decode(e, inp) == Some((v, mid)) && DecodeItems(e, |tail|, mid) == Some((tail, r));
      Assoc(first, more, rest);
      StaysBehind(e, v, inp, mid, more + rest);
      ItemsLag(e, tail, mid, r, rest);
    }
  }

  lemma {:induction false} FieldsLag(fs: seq<Schema>, vals: seq<Value>, inp: seq<byte>, r: seq<byte>, rest: seq<byte>)
    requires |vals| == |fs| && forall i :: 0 <= i < |fs| ==> WellTyped(fs[i], vals[i])
    requires Lags(inp, EncodeFields(fs, vals) + rest) && DecodeFields(fs, inp) == Some((vals, r))
    ensures Lags(r, rest)
    decreases fs, 0, 0
  {
    hide Decode, Encode, WellTyped, Lags;
    if fs == [] {
      assert EncodeFields(fs, vals) + rest == rest;
    } else {
      var v, tail := vals[0], vals[1..];
      var first, more := Encode(fs[0], v), EncodeFields(fs[1..], tail);
      var mid := Decode(fs[0], inp).value.1;
      assert Decode(fs[0], inp) == Some((v, mid)) && DecodeFields(fs[1..], mid) == Some((tail, r));
      Assoc(first, more, rest);
      StaysBehind(fs[0], v, inp, mid, more + rest);
      FieldsLag(fs[1..], tail, mid, r, rest);
    }
  }

  lemma {:induction false} MapLags(s: Schema, v: Value, inp: seq<byte>, r: seq<byte>, rest: seq<byte>)
    requires s.Map? && Behind(s, v, inp, r, rest)
    ensures Lags(r, rest)
    decreases s, 0, 0
  {
    hide Decode, Encode, WellTyped, Lags, DecodeNatural, EncodeNatural;
    NaturalLags(inp, Encode(s, v) + rest);
    var n, mid := inp[0], inp[1..];
    MapParts(s, v, inp, r, n, mid);
    if n == 0 {
      EncodeMapShape(s, v);
      assert v.entries == map[];
      assert Encode(s, v) + rest == [n] + rest;
      PassedOne(inp, n, rest);
    } else {
      var k, after := Decode(s.key, mid).value.0, Decode(s.key, mid).value.1;
      assert v.entries == map[k := Decode(s.val, after).value.0];
      OneEntry(s, v, k);
      var first, more := Encode(s.key, k), Encode(s.val, v.entries[k]);
      assert Encode(s, v) + rest == [n] + (first + (more + rest));
      PassedOne(inp, n, first + (more + rest));
      StaysBehind(s.key, k, mid, after, more + rest);
      StaysBehind(s.val, v.entries[k], after, r, rest);
    }
  }

  // ------------------------------------------------------------------ what comes back, and when

  lemma {:induction false} NoPointerBack(s: Schema, v: Value, inp: seq<byte>, x: Value, rest: seq<byte>)
    requires WellTyped(s, v) && Lags(inp, Encode(s, v) + rest) && Decode(Pointee(s), inp) == Some((x, rest))
    ensures Wrapped(s, x) != v
    decreases s
  {
    if !s.Optional? {
      if x == v { StaysBehind(s, v, inp, rest, rest); }
    } else if v.Ptr? {
      assert Encode(s, v) == [1] + Encode(s.elem, v.target);
      Assoc([1], Encode(s.elem, v.target), rest);
      OneMore(inp, Encode(s.elem, v.target) + rest);
      NoPointerBack(s.elem, v.target, inp, x, rest);
    }
  }

  lemma OneMore(inp: seq<byte>, rest: seq<byte>)
    requires Lags(inp, [1] + rest)
    ensures Lags(inp, rest)
  {
    var n := |inp| - |rest|;
    assert inp == inp[..n - 1] + ([1] + rest);
    assert inp[n..] == rest;
    forall i | 0 <= i < n ensures inp[i] <= 1 {
      if i < n - 1 { assert inp[..n - 1][i] == inp[i]; }
    }
  }

  lemma PointerEncoding(s: Schema, v: Value)
    requires s.Optional? && WellTyped(s, v) && v.Ptr?
    ensures WellTyped(s.elem, v.target) && Encode(s, v) == [1] + Encode(s.elem, v.target)
  {
  }

  lemma PointerIsLost(s: Schema, v: Value, rest: seq<byte>)
    requires s.Optional? && WellTyped(s, v)
    ensures DecodeInto(s, Encode(s, v) + rest) != Some((v, rest))
  {
    hide Decode, Encode, WellTyped;
    var d := Decode(Pointee(s), Encode(s, v) + rest);
    if v.Ptr? && d.Some? && d.value.1 == rest {
      PointerEncoding(s, v);
      var inner := Encode(s.elem, v.target) + rest;
      var inp := [1] + inner;
      assert Encode(s, v) + rest == inp;
      assert inp[1..] == inner && inp[..1] == [1];
      NoPointerBack(s.elem, v.target, inp, d.value.0, rest);
    }
  }

  /** Marshalling a value and decoding it into a destination of the same type gives the value back and
      leaves what follows exactly when the type is not a pointer. */
  lemma ComesBackExactlyWhen(s: Schema, v: Value, rest: seq<byte>)
    requires WellTyped(s, v)
    ensures DecodeInto(s, Encode(s, v) + rest) == Some((v, rest)) <==> !s.Optional?
  {
    hide Decode, Encode, WellTyped;
    if s.Optional? { PointerIsLost(s, v, rest); } else { RoundTrip(s, v, rest); }
  }

  lemma ByteAt(c: byte, rest: seq<byte>)
    ensures WellTyped(BYTE, Num(c)) && Encode(BYTE, Num(c)) == [c]
    ensures Decode(BYTE, [c] + rest) == Some((Num(c), rest))
  {
    hide Pow2, Decode;
    WordSizes();
    assert BYTE == Fixed(1, 1) && LittleEndian(c, 1) == [c] + LittleEndian(0, 0);
    RoundTrip(BYTE, Num(c), rest);
  }

  /** A pointer to an octet is written as a marker and the octet, and a nil one as a marker. */
  lemma PointerToByte(s: Schema, c: byte)
    requires s == Optional(BYTE)
    ensures WellTyped(s, Ptr(Num(c))) && Encode(s, Ptr(Num(c))) == [1, c]
    ensures WellTyped(s, Nil) && Encode(s, Nil) == [0]
  {
    ByteAt(c, []);
    assert WellTyped(s, Ptr(Num(c)));
    PointerEncoding(s, Ptr(Num(c)));
  }

  /** The destination of such a pointer takes the marker for the octet. */
  lemma ByteInto(s: Schema, c: byte, rest: seq<byte>)
    requires s == Optional(BYTE)
    ensures DecodeInto(s, [c] + rest) == Some((Ptr(Num(c)), rest))
  {
    hide Decode;
    assert Pointee(s) == BYTE && Wrapped(s, Num(c)) == Ptr(Num(c));
    ByteAt(c, rest);
  }

  /** A nil pointer comes back as a pointer to 0, and a pointer to 7 as a pointer to 1. */
  lemma PointerExample(s: Schema)
    requires s == Optional(BYTE)
    ensures WellTyped(s, Nil) && Encode(s, Nil) == [0] && DecodeInto(s, [0]) == Some((Ptr(Num(0)), []))
    ensures WellTyped(s, Ptr(Num(7))) && Encode(s, Ptr(Num(7))) == [1, 7]
    ensures DecodeInto(s, [1, 7]) == Some((Ptr(Num(1)), [7]))
  {
    hide DecodeInto, Encode, WellTyped;
    PointerToByte(s, 7);
    ByteInto(s, 0, []);
    ByteInto(s, 1, [7]);
    assert [0] + [] == [0] && [1] + [7] == [1, 7];
  }
}

/** The two integer encodings of the JAM codec: fixed-width ("trivial") naturals and the
    variable-length general natural, together with the reader they are decoded from. */
module Naturals {
  import opened Bytes

  // ------------------------------------------------------------- bytes.Buffer

  /** A read of `n` octets from a `bytes.Buffer`. A buffer with fewer octets than asked for
      hands over what it has and the caller's zeroed destination keeps its tail; only an
      empty buffer reports the end of input. */
  function Read(s: seq<byte>, n: nat): (r: Option<(seq<byte>, seq<byte>)>)
    ensures r.None? <==> s == [] && n > 0
    ensures r.Some? ==> |r.value.0| == n
    ensures r.Some? && n <= |s| ==> r.value == (s[..n], s[n..])
  {
    if s == [] && n > 0 then None
    else if n <= |s| then Some((s[..n], s[n..]))
    else Some((s + seq(n - |s|, _ => 0 as byte), []))
  }

  lemma ReadExactly(data: seq<byte>, rest: seq<byte>)
    ensures Read(data + rest, |data|) == Some((data, rest))
  {
    assert (data + rest)[..|data|] == data && (data + rest)[|data|..] == rest;
  }

  // --------------------------------------------------------- trivial naturals

  method SerializeTrivialNatural(x: nat, l: nat) returns (s: seq<byte>)
    ensures s == LittleEndian(x, l)
  {
    var bytes := new byte[l];
    for i := 0 to l
      invariant forall j :: 0 <= j < i ==> bytes[j] == LittleEndian(x, l)[j]
    {
      LittleEndianAt(x, l, i);
      bytes[i] := Shr(x, 8 * i) % 256;
    }
    s := bytes[..];
  }

  /** Octets shifted past the width of the word vanish; the others keep their place. */
  lemma ShiftedOctet(b: byte, i: nat, w: nat)
    requires w % 8 == 0
    ensures Low(Shl(b, 8 * i), w) == if 8 * i < w then Shl(b, 8 * i) else 0
  {
    if 8 * i < w {
      JoinBound(0, b, 8 * i, 8) by { assert Pow2(8) == 256; }
      Pow2Monotone(8 * i + 8, w);
      LowSmall(Shl(b, 8 * i), w);
    } else {
      ShlShl(b, 8 * i - w, w);
      JoinBits(0, Shl(b, 8 * i - w), w);
    }
  }

  /** What the little-endian value of a prefix becomes when one more octet is read. */
  lemma FromLittleEndianSnoc(s: seq<byte>, i: nat)
    requires i < |s|
    ensures FromLittleEndian(s[..i + 1]) == FromLittleEndian(s[..i]) + Shl(s[i], 8 * i)
    ensures FromLittleEndian(s[..i]) < Pow2(8 * i)
  {
    assert s[..i + 1] == s[..i] + [s[i]];
    FromLittleEndianAppend(s[..i], [s[i]]);
    FromLittleEndianBound(s[..i]);
    assert FromLittleEndian([s[i]]) == s[i];
  }

  /** The or-accumulation into an unsigned word of `w` bits. */
  method DeserializeTrivialNatural(s: seq<byte>, w: nat) returns (u: nat)
    requires w % 8 == 0
    ensures u == Low(FromLittleEndian(s), w)
  {
    u := 0;
    ghost var n := Min(|s|, w / 8);
    for i := 0 to |s|
      invariant u == FromLittleEndian(s[..Min(i, n)])
    {
      ShiftedOctet(s[i], i, w);
      if i < n {
        FromLittleEndianSnoc(s, i);
        BitOrDisjoint(u, s[i], 8 * i);
      } else {
        BitOrZero(u);
      }
      u := BitOr(u, Low(Shl(s[i], 8 * i), w));
    }
    FromLittleEndianTruncated(s, w);
  }

  lemma FromLittleEndianTruncated(s: seq<byte>, w: nat)
    requires w % 8 == 0
    ensures Low(FromLittleEndian(s), w) == FromLittleEndian(s[..Min(|s|, w / 8)])
  {
    var n := Min(|s|, w / 8);
    FromLittleEndianBound(s[..n]);
    if n == |s| {
      assert s[..n] == s;
      Pow2Monotone(8 * n, w);
      LowSmall(FromLittleEndian(s), w);
    } else {
      assert s == s[..n] + s[n..];
      FromLittleEndianAppend(s[..n], s[n..]);
      JoinBits(FromLittleEndian(s[..n]), FromLittleEndian(s[n..]), w);
    }
  }

  // --------------------------------------------------------- general naturals

  /** How many further groups of seven bits a number has. */
  function Sevens(x: nat): (r: nat) {
    if x < 128 then 0 else 1 + Sevens(x / 128)
  }

  /** The number of octets that follow the first one: the least `l < 8` with
      `x < 2^(7(l+1))`, and 8 when there is none. */
  function NaturalLength(x: nat): (r: nat)
    ensures r <= 8
  {
    Min(8, Sevens(x))
  }

  lemma {:induction false} SevensBounds(x: nat)
    ensures x < Pow2(7 * (Sevens(x) + 1))
    ensures Sevens(x) > 0 ==> x >= Pow2(7 * Sevens(x))
  {
    assert Pow2(7) == 128;
    if x >= 128 {
      SevensBounds(x / 128);
      Group(7 * (Sevens(x / 128) + 1));
      Group(7 * Sevens(x / 128));
    }
  }

  lemma Group(k: nat)
    ensures Pow2(k + 7) == 128 * Pow2(k)
  {
    assert Pow2(k + 7) == 2 * Pow2(k + 6) == 4 * Pow2(k + 5) == 8 * Pow2(k + 4)
        == 16 * Pow2(k + 3) == 32 * Pow2(k + 2) == 64 * Pow2(k + 1);
  }

  lemma LengthBounds(x: nat)
    ensures NaturalLength(x) < 8 ==> x < Pow2(7 * (NaturalLength(x) + 1))
    ensures NaturalLength(x) > 0 ==> x >= Pow2(7 * NaturalLength(x))
  {
    hide Sevens, Pow2;
    SevensBounds(x);
    if Sevens(x) > 8 { Pow2Monotone(56, 7 * Sevens(x)); }
  }

  /** The loop test of the length search. */
  lemma LengthTest(x: nat, l: nat)
    requires l < 8
    ensures x < Pow2(7 * (l + 1)) <==> NaturalLength(x) <= l
  {
    LengthBounds(x);
    hide *;
    var n := NaturalLength(x);
    if n <= l { Pow2Monotone(7 * (n + 1), 7 * (l + 1)); } else { Pow2Monotone(7 * (l + 1), 7 * n); }
  }

  /** `256 - 2^(8-l)`: the first octet of class `l` with its payload bits clear. */
  function Marker(l: nat): byte
    requires l <= 8
  {
    Pow2Monotone(8 - l, 8);
    assert Pow2(8) == 256;
    256 - Pow2(8 - l)
  }

  /** The bits of `x` above its `l` low octets fit beside the marker of class `l`. */
  lemma HighBits(x: nat, l: nat)
    requires l < 8 && x < Pow2(7 * (l + 1))
    ensures Shr(x, 8 * l) < Pow2(7 - l) <= 128
    ensures Marker(l) + Shr(x, 8 * l) < Marker(l + 1)
  {
    ShrBound(x, 8 * l, 7 - l);
    Pow2Monotone(7 - l, 7);
    assert Pow2(7) == 128;
  }

  function EncodeNatural(x: nat): (s: seq<byte>)
    requires x < TWO_64
    ensures |s| == 1 + NaturalLength(x)
  {
    var l := NaturalLength(x);
    if l < 8 then
      LengthBounds(x); HighBits(x, l);
      [Marker(l) + Shr(x, 8 * l) % 256] + LittleEndian(x, l)
    else
      [255] + LittleEndian(x, l)
  }

  /** `bits.LeadingZeros8(^b)`: shift left until the top bit is clear. */
  function LeadingOnes(b: byte): (n: nat)
    decreases b
  {
    if b < 128 then 0 else 1 + LeadingOnes(2 * b - 256)
  }

  /** The octets with `l` leading ones are the interval from marker `l` to the next marker. */
  lemma {:induction false} LeadingOnesInterval(b: byte)
    ensures LeadingOnes(b) <= 8
    ensures 256 - Pow2(8 - LeadingOnes(b)) <= b
    ensures LeadingOnes(b) < 8 ==> b < 256 - Pow2(7 - LeadingOnes(b))
    decreases b
  {
    assert Pow2(7) == 128 && Pow2(8) == 256;
    if b >= 128 { LeadingOnesInterval(2 * b - 256); }
  }

  lemma LeadingOnesOf(b: byte, l: nat)
    requires l <= 8 && Marker(l) <= b && (l < 8 ==> b < Marker(l + 1))
    ensures LeadingOnes(b) == l
  {
    hide LeadingOnes, Pow2;
    LeadingOnesInterval(b);
    var n := LeadingOnes(b);
    if n < l { Pow2Monotone(8 - l, 7 - n); } else if n > l { Pow2Monotone(8 - n, 7 - l); }
  }

  /** An octet is its payload below `l` ones. */
  lemma OnesAbove(b: byte, l: nat)
    requires l < 8 && Marker(l) <= b
    ensures b == b - Marker(l) + Shl(Pow2(l) - 1, 8 - l)
  {
    ShlPow2(0, 8 - l);
    ShlPow2(l, 8 - l);
    ShlAdd(Pow2(l) - 1, 1, 8 - l);
    assert Pow2(8) == 256;
  }

  /** The payload of a first octet: what is left after its leading ones and the zero. */
  lemma Payload(b: byte)
    requires LeadingOnes(b) < 8
    ensures Low(b, 8 - LeadingOnes(b)) == b - Marker(LeadingOnes(b)) < Pow2(7 - LeadingOnes(b))
  {
    hide Pow2, Shl, Low, LeadingOnes;
    LeadingOnesInterval(b);
    var l := LeadingOnes(b);
    Pow2Step(8 - l);
    OnesAbove(b, l);
    JoinBits(b - Marker(l), Pow2(l) - 1, 8 - l);
  }

  lemma EncodingShape(x: nat)
    requires x < TWO_64
    ensures NaturalLength(x) < 8 ==>
              EncodeNatural(x)[0] == 256 - Pow2(8 - NaturalLength(x)) + Shr(x, 8 * NaturalLength(x))
    ensures NaturalLength(x) == 8 ==> EncodeNatural(x)[0] == 255
    ensures EncodeNatural(x)[1..] == LittleEndian(x, NaturalLength(x))
    ensures NaturalLength(x) < 8 ==> Shr(x, 8 * NaturalLength(x)) < 128
  {
    LengthBounds(x);
    if NaturalLength(x) < 8 { HighBits(x, NaturalLength(x)); }
  }

  /** The length search and the octet-by-octet appends of `serializeUint64`. */
  method SerializeUint64(x: nat) returns (s: seq<byte>)
    requires x < TWO_64
    ensures s == EncodeNatural(x)
  {
    hide *;
    var l := 0;
    while l < 8
      invariant l <= NaturalLength(x)
    {
      LengthTest(x, l);
      if x < Pow2(7 * (l + 1)) { break; }
      l := l + 1;
    }
    EncodingShape(x);
    ghost var enc := EncodeNatural(x);
    var first := 255;
    if l < 8 { first := 256 - Pow2(8 - l) + Shr(x, 8 * l) % 256; }
    s := [first];
    for i := 0 to l
      invariant s == enc[..i + 1]
    {
      LittleEndianAt(x, l, i);
      assert enc[i + 1] == enc[1..][i];
      s := s + [Shr(x, 8 * i) % 256];
    }
  }

  function Assemble(first: byte, l: nat, data: seq<byte>): nat
    requires l <= 8
  {
    if l == 8 then FromLittleEndian(data)
    else FromLittleEndian(data) + Shl(Low(first, 8 - l), 8 * l)
  }

  /** `decodeUint`: read the first octet, count its leading ones, read that many octets more. */
  function DecodeNatural(s: seq<byte>): (r: Option<(nat, seq<byte>)>)
  {
    if s == [] then None
    else
      var l := LeadingOnes(s[0]);
      LeadingOnesInterval(s[0]);
      var more := Read(s[1..], l);
      if more.None? then None
      else Some((Assemble(s[0], l, more.value.0), more.value.1))
  }

  method DeserializeUint64WithLength(serialized: seq<byte>, l: nat) returns (u: Option<nat>)
    requires |serialized| == l + 1 <= 9
    ensures u.None? <==> l == 8 && serialized[0] != 255
    ensures u.Some? ==> u.value == Assemble(serialized[0], l, serialized[1..])
  {
    var n := |serialized|;
    if n > 8 {
      if serialized[0] != 255 { return None; }
      assert serialized[1..9] == serialized[1..];
      return Some(FromLittleEndian(serialized[1..9]));
    }
    var v := 0;
    ghost var data := serialized[1..];
    for i := 0 to l
      invariant v == FromLittleEndian(data[..i])
    {
      FromLittleEndianSnoc(data, i);
      BitOrDisjoint(v, data[i], 8 * i);
      v := BitOr(v, Shl(serialized[i + 1], 8 * i));
    }
    assert data[..l] == data;
    FromLittleEndianBound(data);
    BitOrDisjoint(v, Low(serialized[0], 8 - l), 8 * l);
    v := BitOr(v, Shl(Low(serialized[0], 8 - l), 8 * l));
    u := Some(v);
  }

  // ------------------------------------------------------------ what is promised

  /** The count of leading ones in the first octet is the number of octets that follow. */
  lemma FirstOctetAnnouncesLength(x: nat)
    requires x < TWO_64
    ensures LeadingOnes(EncodeNatural(x)[0]) == |EncodeNatural(x)| - 1
  {
    hide Pow2, Shr, LeadingOnes, LittleEndian, Sevens, NaturalLength;
    var l := NaturalLength(x);
    LengthBounds(x);
    if l < 8 { HighBits(x, l); } else { assert Marker(8) <= 255; }
    LeadingOnesOf(EncodeNatural(x)[0], l);
  }

  /** Putting the octets of an encoding together again gives the number. */
  lemma AssembleEncoding(x: nat)
    requires x < TWO_64
    ensures Assemble(EncodeNatural(x)[0], NaturalLength(x), LittleEndian(x, NaturalLength(x))) == x
  {
    hide Pow2, Shl, Shr, Low, LeadingOnes, LittleEndian, FromLittleEndian, NaturalLength, EncodeNatural;
    var l := NaturalLength(x);
    LittleEndianRoundTrip(x, l);
    EncodingShape(x);
    if l < 8 {
      FirstOctetAnnouncesLength(x);
      Payload(EncodeNatural(x)[0]);
      SplitBits(x, 8 * l);
    } else {
      WordSizes();
      LowSmall(x, 64);
    }
  }

  /** Decoding when the buffer holds all the octets that the first one announces. */
  lemma DecodeComplete(first: byte, data: seq<byte>, rest: seq<byte>)
    requires |data| == LeadingOnes(first) <= 8
    ensures DecodeNatural([first] + data + rest) == Some((Assemble(first, |data|, data), rest))
  {
    var s := [first] + data + rest;
    assert s[1..] == data + rest;
    assert s[1..][..|data|] == data && s[1..][|data|..] == rest;
  }

  /** Any first octet and the octets it announces are a number: what is left of the first octet below its leading
      ones and the zero after them, above the other octets, lowest first. */
  lemma NaturalDecodes(first: byte, data: seq<byte>, rest: seq<byte>)
    requires |data| == LeadingOnes(first) <= 8
    ensures |data| == 8 ==> DecodeNatural([first] + data + rest) == Some((FromLittleEndian(data), rest))
    ensures |data| < 8 ==>
              var payload := first - (256 - Pow2(8 - |data|));
              && 0 <= payload < Pow2(7 - |data|)
              && DecodeNatural([first] + data + rest) == Some((FromLittleEndian(data) + Shl(payload, 8 * |data|), rest))
  {
    hide DecodeNatural, LeadingOnes, FromLittleEndian, Low, Shl, Pow2;
    DecodeComplete(first, data, rest);
    LeadingOnesInterval(first);
    if |data| < 8 { Payload(first); }
  }

  lemma NaturalRoundTrip(x: nat, rest: seq<byte>)
    requires x < TWO_64
    ensures DecodeNatural(EncodeNatural(x) + rest) == Some((x, rest))
  {
    FirstOctetAnnouncesLength(x);
    AssembleEncoding(x);
    EncodingShape(x);
    assert EncodeNatural(x) == [EncodeNatural(x)[0]] + EncodeNatural(x)[1..];
    DecodeComplete(EncodeNatural(x)[0], EncodeNatural(x)[1..], rest);
  }

  /** No encoding is a proper prefix of another, so the encoding is injective too. */
  lemma NaturalPrefixFree(x: nat, y: nat)
    requires x < TWO_64 && y < TWO_64 && EncodeNatural(x) <= EncodeNatural(y)
    ensures x == y
  {
    hide EncodeNatural, DecodeNatural;
    var rest := EncodeNatural(y)[|EncodeNatural(x)|..];
    assert EncodeNatural(y) + [] == EncodeNatural(x) + rest;
    NaturalRoundTrip(x, rest);
    NaturalRoundTrip(y, []);
  }

  // ------------------------------------------------------------------ minimality

  ghost predicate DecodesTo(s: seq<byte>, x: nat) {
    DecodeNatural(s).Some? && DecodeNatural(s).value.0 == x
  }

  /** A first octet of a smaller class cannot announce a number this large. So among the
      strings that hold every octet their first one announces, the encoding is shortest. */
  lemma NoSmallerClass(s: seq<byte>, x: nat)
    requires x < TWO_64 && DecodesTo(s, x)
    ensures LeadingOnes(s[0]) >= NaturalLength(x)
  {
    hide Pow2, Shl, Low, LeadingOnes, FromLittleEndian, NaturalLength, Marker;
    var l := LeadingOnes(s[0]);
    LengthBounds(x);
    if l < NaturalLength(x) {
      var data := Read(s[1..], l).value.0;
      FromLittleEndianBound(data);
      Payload(s[0]);
      JoinBound(FromLittleEndian(data), Low(s[0], 8 - l), 8 * l, 7 - l);
      Pow2Monotone(7 * (l + 1), 7 * NaturalLength(x));
    }
  }

  /** Whether some shorter string decodes to `x` too. Because the reader pads a short read
      with zeros, dropping a zero octet at the end of an encoding of three to eight octets
      goes unnoticed. */
  predicate Shortenable(x: nat)
    requires x < TWO_64
  {
    var l := NaturalLength(x);
    2 <= l <= 7 && EncodeNatural(x)[l] == 0
  }

  /** The value of data that a short read has padded. */
  lemma PaddedData(t: seq<byte>, n: nat)
    requires |t| <= n && (t == [] ==> n == 0)
    ensures Read(t, n).Some?
    ensures Read(t, n).value.0 == t + seq(n - |t|, _ => 0 as byte)
    ensures FromLittleEndian(Read(t, n).value.0) == FromLittleEndian(t) < Pow2(8 * |t|)
  {
    FromLittleEndianBound(t);
    var zeros := seq(n - |t|, _ => 0 as byte);
    if n == |t| { assert t + zeros == t; }
    FromLittleEndianAppend(t, zeros);
    ZerosAreZero(n - |t|);
    ShlZero(8 * |t|);
  }

  /** A short string of the right class gives the encoding's own data octets. */
  lemma SameClassIsPadded(x: nat, data: seq<byte>, p: nat)
    requires x < TWO_64 && |data| == NaturalLength(x) > 0
    requires x == FromLittleEndian(data) + Shl(p, 8 * NaturalLength(x))
    ensures data == LittleEndian(x, NaturalLength(x))
  {
    var l := NaturalLength(x);
    FromLittleEndianBound(data);
    JoinBits(FromLittleEndian(data), p, 8 * l);
    LittleEndianRoundTrip(x, l);
    LittleEndianOfBytes(data);
    LittleEndianOfBytes(LittleEndian(x, l));
  }

  /** A payload above `8 * l'` bits would be too large for a number of a smaller class. */
  lemma NoPayloadAbove(x: nat, l: nat, l': nat, lo: nat, p: nat)
    requires l < l' && x < Pow2(7 * (l + 1)) && x == lo + Shl(p, 8 * l')
    ensures x == lo
  {
    Pow2Monotone(7 * (l + 1), 8 * l');
    if p > 0 { ShlMonotone(1, p, 8 * l'); ShlPow2(0, 8 * l'); } else { ShlZero(8 * l'); }
  }

  lemma FewOctetsAreSmall(t: seq<byte>, l: nat)
    requires |t| < l <= 8
    ensures FromLittleEndian(t) < Pow2(7 * l)
  {
    FromLittleEndianBound(t);
    Pow2Monotone(8 * |t|, 7 * l);
  }

  /** The first octet of the right class with the right payload is the encoding's own. */
  lemma SameFirstOctet(b: byte, x: nat, data: seq<byte>)
    requires x < TWO_64 && LeadingOnes(b) == NaturalLength(x) == |data| < 8
    requires x == FromLittleEndian(data) + Shl(Low(b, 8 - NaturalLength(x)), 8 * NaturalLength(x))
    ensures b == EncodeNatural(x)[0]
  {
    hide Pow2, Shl, Shr, Low, LeadingOnes, FromLittleEndian, NaturalLength;
    FromLittleEndianBound(data);
    JoinBits(FromLittleEndian(data), Low(b, 8 - NaturalLength(x)), 8 * NaturalLength(x));
    Payload(b);
    EncodingShape(x);
  }

  /** `s` is `t` with some zero octets at its end dropped. */
  predicate DropsZeros(s: seq<byte>, t: seq<byte>) {
    s <= t && forall i :: |s| <= i < |t| ==> t[i] == 0
  }

  /** A short string of the right class, padded by the reader, is a part of the encoding. */
  lemma PaddedIsEncoding(s: seq<byte>, x: nat, data: seq<byte>)
    requires x < TWO_64 && s != [] && |s| <= NaturalLength(x) == |data| && s[0] == EncodeNatural(x)[0]
    requires data == s[1..] + seq(NaturalLength(x) + 1 - |s|, _ =>
        0 as byte) && data == LittleEndian(x, NaturalLength(x))
    ensures DropsZeros(s, EncodeNatural(x)) && EncodeNatural(x)[NaturalLength(x)] == 0
  {
    hide LittleEndian, NaturalLength;
    EncodingShape(x);
    var enc := EncodeNatural(x);
    assert enc == [enc[0]] + data;
    assert s == [s[0]] + s[1..];
    hide EncodeNatural;
    forall i | |s| <= i < |enc| ensures enc[i] == 0 { assert enc[i] == data[i - 1]; }
  }

  /** Every shorter string that decodes to the number is its encoding with zero octets at the end
      dropped. */
  lemma ShorterIsPadded(s: seq<byte>, x: nat)
    requires x < TWO_64 && DecodesTo(s, x) && |s| < |EncodeNatural(x)|
    ensures Shortenable(x) && DropsZeros(s, EncodeNatural(x))
  {
    var l, l' := NaturalLength(x), LeadingOnes(s[0]);
    var t := s[1..];
    LengthBounds(x);
    LeadingOnesInterval(s[0]);
    NoSmallerClass(s, x);
    PaddedData(t, l');
    FewOctetsAreSmall(t, l);
    var data := Read(t, l').value.0;
    if l' < 8 {
      var p := Low(s[0], 8 - l');
      if l' > l {
        NoPayloadAbove(x, l, l', FromLittleEndian(data), p);
      } else {
        SameClassIsPadded(x, data, p);
        SameFirstOctet(s[0], x, data);
        PaddedIsEncoding(s, x, data);
      }
    }
  }

  /** Dropping the zero octet at the end of an encoding. */
  lemma Shorten(x: nat)
    requires x < TWO_64 && Shortenable(x)
    ensures DecodesTo(EncodeNatural(x)[..NaturalLength(x)], x)
  {
    hide LeadingOnes, FromLittleEndian, LittleEndian, NaturalLength, EncodeNatural, Assemble;
    var l := NaturalLength(x);
    var enc := EncodeNatural(x);
    var s := enc[..l];
    LeadingOnesInterval(enc[0]);
    FirstOctetAnnouncesLength(x);
    AssembleEncoding(x);
    EncodingShape(x);
    PaddedData(s[1..], l);
    assert Read(s[1..], l).value.0 == enc[1..];
  }

  /** Exactly when the encoding is the shortest string that decodes to the number. */
  lemma MinimalExactlyWhen(x: nat)
    requires x < TWO_64
    ensures (forall s :: DecodesTo(s, x) ==> |s| >= |EncodeNatural(x)|) <==> !Shortenable(x)
  {
    if Shortenable(x) { Shorten(x); }
    forall s | DecodesTo(s, x) && |s| < |EncodeNatural(x)| ensures Shortenable(x) {
      ShorterIsPadded(s, x);
    }
  }

  /** 65536 is encoded in three octets, and two of them are enough to get it back. */
  lemma ShortenedExample()
    ensures EncodeNatural(65536) == [193, 0, 0]
    ensures DecodesTo([193, 0], 65536)
  {
    assert NaturalLength(65536) == 2 && LittleEndian(65536, 2) == [0, 0] && Pow2(6) == 64;
    hide *;
    EncodingShape(65536);
    SixteenDown(65536);
    var enc := EncodeNatural(65536);
    assert enc == [enc[0]] + enc[1..];
    ShortenAt(65536, 2);
    assert enc[..2] == [193, 0];
  }

  lemma SixteenDown(x: nat)
    ensures Shr(x, 16) == x / 256 / 256
  {
    assert Shr(x / 256 / 256, 0) == x / 256 / 256;
    hide Shr;
    Octet(x, 8);
    Octet(x / 256, 0);
  }

  lemma ShortenAt(x: nat, l: nat)
    requires x < TWO_64 && NaturalLength(x) == l && 2 <= l <= 7 && EncodeNatural(x)[l] == 0
    ensures DecodesTo(EncodeNatural(x)[..l], x)
  {
    Shorten(x);
  }
}

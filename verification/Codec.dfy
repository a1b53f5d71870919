/** The JAM codec: a printer and a parser directed by the type of the value. Go finds the
    type by reflection; here it is a schema. */
module Codec {
  import opened Bytes
  import opened Naturals

  datatype Schema =
    | General                                  // int, uint: the general natural
    | Fixed(width: nat, length: nat)           // an unsigned of `width` octets, written on `length`
    | Boolean
    | Blob                                     // []byte
    | Raw(size: nat)                           // ed25519.PublicKey: octets without a length
    | Optional(elem: Schema)                   // a pointer to anything but an enum
    | Slice(elem: Schema)
    | Array(size: nat, elem: Schema)
    | Struct(fields: seq<Schema>)              // the exported fields that are not tagged "-"
    | Map(key: Schema, val: Schema)
    | Enum(cases: map<byte, Option<Schema>>)   // what ValueAt answers for each index

  datatype Value =
    | Num(n: nat)
    | Bool(b: bool)
    | Octets(octets: seq<byte>)
    | Nil
    | Ptr(target: Value)
    | List(items: seq<Value>)
    | Dict(entries: map<Value, Value>)
    | Variant(index: byte, payload: Option<Value>)

  // ------------------------------------------------------------------ typing

  const BYTE := Fixed(1, 1)

  /** The key kinds that `sortMapKeys` can order and that are unsigned, bool or [N]byte. */
  predicate OrderedKey(s: Schema) {
    s.General? || s.Fixed? || s.Boolean? || (s.Array? && s.elem == BYTE)
  }

  predicate WellTyped(s: Schema, v: Value)
    decreases s
  {
    match s
    case General => v.Num? && v.n < TWO_64
    case Fixed(w, l) => v.Num? && v.n < Pow2(8 * w) && v.n < Pow2(8 * l)
    case Boolean => v.Bool?
    case Blob => v.Octets? && |v.octets| < TWO_32
    case Raw(n) => v.Octets? && |v.octets| == n
    case Optional(e) => v.Nil? || (v.Ptr? && WellTyped(e, v.target))
    case Slice(e) => v.List? && |v.items| < TWO_64 && forall i :: 0 <= i < |v.items| ==> WellTyped(e, v.items[i])
    case Array(n, e) => v.List? && |v.items| == n && forall i :: 0 <= i < |v.items| ==> WellTyped(e, v.items[i])
    case Struct(fs) => v.List? && |v.items| == |fs| && forall i :: 0 <= i < |fs| ==> WellTyped(fs[i], v.items[i])
    case Map(k, e) =>
      && v.Dict? && |v.entries| < TWO_64
      && (v.entries == map[] || OrderedKey(k))
      && forall key :: key in v.entries ==> WellTyped(k, key) && WellTyped(e, v.entries[key])
    case Enum(cases) =>
      && v.Variant? && v.index in cases
      && (cases[v.index].None? <==> v.payload.None?)
      && (cases[v.index].Some? ==> WellTyped(cases[v.index].value, v.payload.value))
  }

  // -------------------------------------------------------------- order of keys

  /** `reflectToByteSlice`: the octets of a [N]byte key. */
  function KeyBytes(v: Value): seq<byte> {
    if v.List? then seq(|v.items|, i requires 0 <= i < |v.items| => ByteOf(v.items[i])) else []
  }

  function ByteOf(v: Value): byte {
    if v.Num? && v.n < 256 then v.n else 0
  }

  lemma KeyBytesInjective(n: nat, a: Value, b: Value)
    requires WellTyped(Array(n, BYTE), a) && WellTyped(Array(n, BYTE), b) && KeyBytes(a) == KeyBytes(b)
    ensures a == b
  {
    assert Pow2(8) == 256;
    forall i | 0 <= i < n ensures a.items[i] == b.items[i] {
      assert WellTyped(BYTE, a.items[i]) && WellTyped(BYTE, b.items[i]);
      assert KeyBytes(a)[i] == KeyBytes(b)[i];
    }
    assert a.items == b.items;
  }

  /** The comparisons that `sortMapKeys` hands to the sort. */
  predicate KeyLess(s: Schema, a: Value, b: Value)
    requires OrderedKey(s) && WellTyped(s, a) && WellTyped(s, b)
  {
    match s
    case Boolean => !a.b && b.b
    case Array(_, _) => Less(KeyBytes(a), KeyBytes(b))
    case _ => a.n < b.n
  }

  lemma KeyLessTransitive(s: Schema, a: Value, b: Value, c: Value)
    requires OrderedKey(s) && WellTyped(s, a) && WellTyped(s, b) && WellTyped(s, c)
    requires KeyLess(s, a, b) && KeyLess(s, b, c)
    ensures KeyLess(s, a, c)
  {
    if s.Array? { LessTransitive(KeyBytes(a), KeyBytes(b), KeyBytes(c)); }
  }

  lemma KeyLessStrict(s: Schema, a: Value, b: Value)
    requires OrderedKey(s) && WellTyped(s, a) && WellTyped(s, b)
    ensures a != b ==> KeyLess(s, a, b) || KeyLess(s, b, a)
    ensures KeyLess(s, a, b) ==> a != b && !KeyLess(s, b, a)
  {
    if s.Array? {
      var x, y := KeyBytes(a), KeyBytes(b);
      LessTotal(x, y);
      LessIrreflexive(x);
      if Less(x, y) && Less(y, x) { LessTransitive(x, y, x); }
      if x == y { KeyBytesInjective(s.size, a, b); }
    }
  }

  ghost predicate TypedKeys(s: Schema, ks: seq<Value>) {
    forall i :: 0 <= i < |ks| ==> WellTyped(s, ks[i])
  }

  ghost predicate Ascending(s: Schema, ks: seq<Value>)
    requires OrderedKey(s) && TypedKeys(s, ks)
  {
    forall i, j :: 0 <= i < j < |ks| ==> KeyLess(s, ks[i], ks[j])
  }

  /** Strictly ascending sequences with the same elements are equal: sorting the keys leaves
      no trace of the order in which the map was iterated. */
  lemma {:induction false} AscendingUnique(s: Schema, a: seq<Value>, b: seq<Value>)
    requires OrderedKey(s) && TypedKeys(s, a) && TypedKeys(s, b) && Ascending(s, a) && Ascending(s, b)
    requires forall k :: k in a <==> k in b
    ensures a == b
  {
    hide WellTyped, KeyLess, OrderedKey;
    assert a != [] ==> a[0] in a;
    assert b != [] ==> b[0] in b;
    if a != [] {
      HeadsAgree(s, a, b);
      var a', b' := a[1..], b[1..];
      forall k ensures k in a' <==> k in b' {
        TailMember(s, a, k);
        TailMember(s, b, k);
      }
      AscendingUnique(s, a', b');
      assert a == [a[0]] + a' && b == [b[0]] + b';
    }
  }

  lemma HeadsAgree(s: Schema, a: seq<Value>, b: seq<Value>)
    requires OrderedKey(s) && TypedKeys(s, a) && TypedKeys(s, b) && Ascending(s, a) && Ascending(s, b)
    requires a != [] && b != [] && a[0] in b && b[0] in a
    ensures a[0] == b[0]
  {
    var i :| 0 <= i < |b| && b[i] == a[0];
    var j :| 0 <= j < |a| && a[j] == b[0];
    KeyLessStrict(s, a[0], b[0]);
  }

  lemma TailMember(s: Schema, a: seq<Value>, k: Value)
    requires OrderedKey(s) && TypedKeys(s, a) && a != [] && Ascending(s, a)
    ensures k in a[1..] <==> k in a && k != a[0]
  {
    if k in a[1..] {
      var i :| 0 <= i < |a[1..]| && a[1..][i] == k;
      KeyLessStrict(s, a[0], a[i + 1]);
    }
  }

  ghost predicate IsLeast(s: Schema, m: Value, keys: set<Value>)
    requires OrderedKey(s) && forall k :: k in keys ==> WellTyped(s, k)
  {
    m in keys && forall k :: k in keys && k != m ==> KeyLess(s, m, k)
  }

  /** Every finite set of keys has a least one. */
  lemma {:induction false} LeastKeyExists(s: Schema, keys: set<Value>)
    requires OrderedKey(s) && keys != {} && forall k :: k in keys ==> WellTyped(s, k)
    ensures exists m :: IsLeast(s, m, keys)
    decreases |keys|
  {
    hide WellTyped, KeyLess, OrderedKey;
    var x :| x in keys;
    var rest := keys - {x};
    if rest == {} {
      assert keys == {x};
      assert IsLeast(s, x, keys);
    } else {
      LeastKeyExists(s, rest);
      var m :| IsLeast(s, m, rest);
      LesserIsLeast(s, x, m, rest);
      assert rest + {x} == keys;
    }
  }

  lemma LesserIsLeast(s: Schema, x: Value, m: Value, rest: set<Value>)
    requires OrderedKey(s) && WellTyped(s, x) && forall k :: k in rest ==> WellTyped(s, k)
    requires x !in rest && IsLeast(s, m, rest)
    ensures IsLeast(s, if KeyLess(s, x, m) then x else m, rest + {x})
  {
    hide WellTyped, KeyLess, OrderedKey;
    KeyLessStrict(s, x, m);
    if KeyLess(s, x, m) {
      forall k | k in rest && k != m ensures KeyLess(s, x, k) { KeyLessTransitive(s, x, m, k); }
    }
  }

  ghost function LeastKey(s: Schema, keys: set<Value>): (m: Value)
    requires OrderedKey(s) && keys != {} && forall k :: k in keys ==> WellTyped(s, k)
    ensures IsLeast(s, m, keys)
  {
    LeastKeyExists(s, keys);
    var m :| IsLeast(s, m, keys);
    m
  }

  /** The keys of a map in the order they are written. */
  ghost function SortedKeys(s: Schema, keys: set<Value>): (ks: seq<Value>)
    requires keys == {} || OrderedKey(s)
    requires forall k :: k in keys ==> WellTyped(s, k)
    ensures |ks| == |keys|
    ensures forall k :: k in ks <==> k in keys
    decreases |keys|
  {
    if keys == {} then [] else [LeastKey(s, keys)] + SortedKeys(s, keys - {LeastKey(s, keys)})
  }

  lemma {:induction false} SortedKeysAscend(s: Schema, keys: set<Value>)
    requires OrderedKey(s) && forall k :: k in keys ==> WellTyped(s, k)
    ensures TypedKeys(s, SortedKeys(s, keys)) && Ascending(s, SortedKeys(s, keys))
    decreases |keys|
  {
    hide WellTyped, KeyLess, OrderedKey;
    if keys != {} {
      var m := LeastKey(s, keys);
      var ks := SortedKeys(s, keys - {m});
      SortedKeysAscend(s, keys - {m});
      forall j | 0 <= j < |ks| ensures KeyLess(s, m, ks[j]) { assert ks[j] in ks; }
      AscendingCons(s, m, ks);
    }
  }

  /** What the order of two keys of one kind is: smaller numbers first, false before true, and octet
      arrays by the first octet in which they differ. */
  ghost predicate ComesBefore(s: Schema, a: Value, b: Value) {
    match s
    case General => a.Num? && b.Num? && a.n < b.n
    case Fixed(_, _) => a.Num? && b.Num? && a.n < b.n
    case Boolean => a == Bool(false) && b == Bool(true)
    case Array(n, _) =>
      && a.List? && b.List? && |a.items| == |b.items| == n
      && exists d :: 0 <= d < n && SmallerFrom(a.items, b.items, d)
    case _ => false
  }

  /** The lists agree before `d` and the first has the smaller number at `d`. */
  predicate SmallerFrom(a: seq<Value>, b: seq<Value>, d: nat) {
    d < |a| && d < |b| && a[..d] == b[..d] && a[d].Num? && b[d].Num? && a[d].n < b[d].n
  }

  lemma {:induction false} LessMeans(a: seq<byte>, b: seq<byte>) returns (d: nat)
    requires |a| == |b| && Less(a, b)
    ensures d < |a| && a[..d] == b[..d] && a[d] < b[d]
  {
    if a[0] != b[0] {
      d := 0;
    } else {
      d := LessMeans(a[1..], b[1..]);
      assert a[..d + 1] == [a[0]] + a[1..][..d] && b[..d + 1] == [b[0]] + b[1..][..d];
      d := d + 1;
    }
  }

  lemma ArraysInOrder(n: nat, a: Value, b: Value) returns (d: nat)
    requires WellTyped(Array(n, BYTE), a) && WellTyped(Array(n, BYTE), b) && Less(KeyBytes(a), KeyBytes(b))
    ensures d < n && SmallerFrom(a.items, b.items, d)
  {
    WordSizes();
    hide Pow2;
    d := LessMeans(KeyBytes(a), KeyBytes(b));
    forall i | 0 <= i < d ensures a.items[i] == b.items[i] {
      assert KeyBytes(a)[..d][i] == KeyBytes(b)[..d][i];
      assert WellTyped(BYTE, a.items[i]) && WellTyped(BYTE, b.items[i]);
    }
    assert a.items[..d] == b.items[..d];
    assert WellTyped(BYTE, a.items[d]) && WellTyped(BYTE, b.items[d]);
  }

  lemma KeyLessMeans(s: Schema, a: Value, b: Value)
    requires OrderedKey(s) && WellTyped(s, a) && WellTyped(s, b) && KeyLess(s, a, b)
    ensures ComesBefore(s, a, b)
  {
    if s.Array? {
      var d := ArraysInOrder(s.size, a, b);
    }
  }

  /** The keys are written in that order. */
  lemma SortedKeysInOrder(s: Schema, keys: set<Value>)
    requires OrderedKey(s) && forall k :: k in keys ==> WellTyped(s, k)
    ensures var ks := SortedKeys(s, keys);
            forall i, j :: 0 <= i < j < |ks| ==> ComesBefore(s, ks[i], ks[j])
  {
    SortedKeysAscend(s, keys);
    var ks := SortedKeys(s, keys);
    hide WellTyped, KeyLess, OrderedKey, ComesBefore, SortedKeys;
    forall i, j | 0 <= i < j < |ks| ensures ComesBefore(s, ks[i], ks[j]) { KeyLessMeans(s, ks[i], ks[j]); }
  }

  lemma AscendingCons(s: Schema, m: Value, ks: seq<Value>)
    requires OrderedKey(s) && TypedKeys(s, ks) && WellTyped(s, m) && Ascending(s, ks)
    requires forall j :: 0 <= j < |ks| ==> KeyLess(s, m, ks[j])
    ensures TypedKeys(s, [m] + ks) && Ascending(s, [m] + ks)
  {
    hide WellTyped, KeyLess, OrderedKey;
    var all := [m] + ks;
    forall i | 0 <= i < |all| ensures WellTyped(s, all[i]) {
      if i > 0 { assert all[i] == ks[i - 1]; }
    }
    forall i, j | 0 <= i < j < |all| ensures KeyLess(s, all[i], all[j]) {
      assert all[j] == ks[j - 1];
      if i > 0 { assert all[i] == ks[i - 1]; }
    }
  }

  // ------------------------------------------------------------------ encoding

  ghost function Encode(s: Schema, v: Value): seq<byte>
    requires WellTyped(s, v)
    decreases s, 1, 0
  {
    match s
    case General => EncodeNatural(v.n)
    case Fixed(_, l) => LittleEndian(v.n, l)
    case Boolean => [if v.b then 1 else 0]
    case Blob => EncodeNatural(|v.octets|) + v.octets
    case Raw(_) => v.octets
    case Optional(e) => if v.Nil? then [0] else [1] + Encode(e, v.target)
    case Slice(e) => EncodeNatural(|v.items|) + EncodeItems(e, v.items)
    case Array(_, e) => EncodeItems(e, v.items)
    case Struct(fs) => EncodeFields(fs, v.items)
    case Map(k, _) => EncodeNatural(|v.entries|) + EncodeEntries(s, v.entries, SortedKeys(k, v.entries.Keys))
    case Enum(cases) =>
      [v.index] + match cases[v.index] case None => [] case Some(e) => Encode(e, v.payload.value)
  }

  ghost function EncodeItems(e: Schema, items: seq<Value>): seq<byte>
    requires forall i :: 0 <= i < |items| ==> WellTyped(e, items[i])
    decreases e, 2, |items|
  {
    if items == [] then [] else Encode(e, items[0]) + EncodeItems(e, items[1..])
  }

  ghost function EncodeFields(fs: seq<Schema>, vals: seq<Value>): seq<byte>
    requires |vals| == |fs| && forall i :: 0 <= i < |fs| ==> WellTyped(fs[i], vals[i])
    decreases fs, 0, 0
  {
    if fs == [] then [] else Encode(fs[0], vals[0]) + EncodeFields(fs[1..], vals[1..])
  }

  ghost predicate EntriesTyped(s: Schema, m: map<Value, Value>, ks: seq<Value>) {
    s.Map? && forall i :: 0 <= i < |ks| ==> ks[i] in m && WellTyped(s.key, ks[i]) && WellTyped(s.val, m[ks[i]])
  }

  ghost function EncodeEntries(s: Schema, m: map<Value, Value>, ks: seq<Value>): seq<byte>
    requires EntriesTyped(s, m, ks)
    decreases s, 0, |ks|
  {
    if ks == [] then []
    else Encode(s.key, ks[0]) + Encode(s.val, m[ks[0]]) + EncodeEntries(s, m, ks[1..])
  }

  // ---------------------------------------------------------------- the format

  /** A number on `l` octets has its lowest eight bits first. */
  lemma FixedFormat(w: nat, l: nat, v: Value, i: nat)
    requires WellTyped(Fixed(w, l), v) && i < l
    ensures |Encode(Fixed(w, l), v)| == l && Encode(Fixed(w, l), v)[i] == Shr(v.n, 8 * i) % 256
  {
    LittleEndianAt(v.n, l, i);
  }

  /** Truth is 1; a missing pointer is 0 and one that is there is 1 before its target; an enum is its index before
      its payload. */
  lemma TagFormat(s: Schema, v: Value)
    requires WellTyped(s, v) && (s.Boolean? || s.Optional? || s.Enum?)
    ensures Encode(s, v) != []
    ensures s.Boolean? ==> Encode(s, v) == [if v.b then 1 else 0]
    ensures s.Optional? && v.Nil? ==> Encode(s, v) == [0]
    ensures s.Optional? && v.Ptr? ==> Encode(s, v)[0] == 1 && Encode(s, v)[1..] == Encode(s.elem, v.target)
    ensures s.Enum? ==> Encode(s, v)[0] == v.index
    ensures s.Enum? && v.payload.None? ==> |Encode(s, v)| == 1
    ensures s.Enum? && v.payload.Some? ==> Encode(s, v)[1..] == Encode(s.cases[v.index].value, v.payload.value)
  {
    if s.Optional? && v.Ptr? { assert ([1] + Encode(s.elem, v.target))[1..] == Encode(s.elem, v.target); }
  }

  /** Octets, slices and maps begin with their length; a public key, an array and a struct do not. */
  lemma LengthFormat(s: Schema, v: Value)
    requires WellTyped(s, v)
    ensures s.General? ==> Encode(s, v) == EncodeNatural(v.n)
    ensures s.Blob? ==> Encode(s, v) == EncodeNatural(|v.octets|) + v.octets
    ensures s.Raw? ==> Encode(s, v) == v.octets
    ensures s.Slice? ==> Encode(s, v) == EncodeNatural(|v.items|) + EncodeItems(s.elem, v.items)
    ensures s.Array? ==> Encode(s, v) == EncodeItems(s.elem, v.items)
    ensures s.Struct? ==> Encode(s, v) == EncodeFields(s.fields, v.items)
    ensures s.Map? ==> EntriesTyped(s, v.entries, SortedKeys(s.key, v.entries.Keys))
    ensures s.Map? ==>
              Encode(s, v) ==
                EncodeNatural(|v.entries|) + EncodeEntries(s, v.entries, SortedKeys(s.key, v.entries.Keys))
  {
    if s.Map? { EncodeMapShape(s, v); }
  }

  /** Elements, fields and entries follow each other in order, each key before its value. */
  lemma SequenceFormat(s: Schema, v: Value, w: Value)
    ensures EncodeItems(s, []) == [] && EncodeFields([], []) == []
    ensures WellTyped(s, v) && WellTyped(s, w) ==> EncodeItems(s, [v, w]) == Encode(s, v) + Encode(s, w)
    ensures WellTyped(s, v) && WellTyped(s, w) ==> EncodeFields([s, s], [v, w]) == Encode(s, v) + Encode(s, w)
    ensures s.Map? && WellTyped(s.key, v) && WellTyped(s.val, w) ==>
              EncodeEntries(s, map[v := w], [v]) == Encode(s.key, v) + Encode(s.val, w)
  {
    hide Encode, WellTyped;
    if WellTyped(s, v) && WellTyped(s, w) {
      assert [v, w][1..] == [w] && [w][1..] == [] && [s, s][1..] == [s] && [s][1..] == [];
      assert EncodeItems(s, [w]) == Encode(s, w) + [];
      assert EncodeFields([s], [w]) == Encode(s, w) + EncodeFields([], []);
    }
    if s.Map? && WellTyped(s.key, v) && WellTyped(s.val, w) { assert [v][1..] == []; }
  }

  // ------------------------------------------------------------------ decoding

  function Octet(s: seq<byte>): Option<(byte, seq<byte>)> {
    if s == [] then None else Some((s[0], s[1..]))
  }

  function Decode(s: Schema, inp: seq<byte>): (r: Option<(Value, seq<byte>)>)
    decreases s, 1, 0
  {
    match s
    case General =>
      (match DecodeNatural(inp) case None => None case Some((n, rest)) => Some((Num(n), rest)))
    case Fixed(w, l) =>
      (match Read(inp, l) case None => None
       case Some((data, rest)) => Some((Num(Low(FromLittleEndian(data), 8 * w)), rest)))
    case Boolean =>
      (match Octet(inp) case None => None
       case Some((b, rest)) => if b <= 1 then Some((Bool(b == 1), rest)) else None)
    case Blob =>
      (match DecodeNatural(inp) case None => None
       case Some((n, rest)) =>
         if n >= TWO_32 then None
         else match Read(rest, n) case None => None case Some((data, rest')) => Some((Octets(data), rest')))
    case Raw(n) => if |inp| < n then None else Some((Octets(inp[..n]), inp[n..]))
    case Optional(e) =>
      (match Octet(inp) case None => None
       case Some((b, rest)) =>
         if b == 0 then Some((Nil, rest))
         else if b == 1 then (match Decode(e, rest) case None => None case Some((v, rest')) => Some((Ptr(v), rest')))
         else None)
    case Slice(e) =>
      (match DecodeNatural(inp) case None => None
       case Some((n, rest)) => AsList(DecodeItems(e, n, rest)))
    case Array(n, e) => AsList(DecodeItems(e, n, inp))
    case Struct(fs) => AsList(DecodeFields(fs, inp))
    case Map(_, _) =>
      (match DecodeNatural(inp) case None => None
       case Some((n, rest)) =>
         match DecodeEntries(s, n, map[], rest) case None => None
         case Some((m, rest')) => Some((Dict(m), rest')))
    case Enum(cases) =>
      (match Octet(inp) case None => None
       case Some((b, rest)) =>
         if b !in cases then None
         else match cases[b]
         case None => Some((Variant(b, None), rest))
         case Some(e) =>
           match Decode(e, rest) case None => None
           case Some((v, rest')) => Some((Variant(b, Some(v)), rest')))
  }

  function AsList(r: Option<(seq<Value>, seq<byte>)>): Option<(Value, seq<byte>)> {
    match r case None => None case Some((vs, rest)) => Some((List(vs), rest))
  }

  function DecodeItems(e: Schema, n: nat, inp: seq<byte>): Option<(seq<Value>, seq<byte>)>
    decreases e, 2, n
  {
    if n == 0 then Some(([], inp))
    else match Decode(e, inp) case None => None
    case Some((v, rest)) =>
      match DecodeItems(e, n - 1, rest) case None => None
      case Some((vs, rest')) => Some(([v] + vs, rest'))
  }

  function DecodeFields(fs: seq<Schema>, inp: seq<byte>): Option<(seq<Value>, seq<byte>)>
    decreases fs, 0, 0
  {
    if fs == [] then Some(([], inp))
    else match Decode(fs[0], inp) case None => None
    case Some((v, rest)) =>
      match DecodeFields(fs[1..], rest) case None => None
      case Some((vs, rest')) => Some(([v] + vs, rest'))
  }

  function DecodeEntries(s: Schema, n: nat, m: map<Value, Value>, inp: seq<byte>): Option<(map<Value, Value>,
                         seq<byte>)>
    requires s.Map?
    decreases s, 0, n
  {
    if n == 0 then Some((m, inp))
    else match Decode(s.key, inp) case None => None
    case Some((k, rest)) =>
      match Decode(s.val, rest) case None => None
      case Some((v, rest')) => DecodeEntries(s, n - 1, m[k := v], rest')
  }

  // ------------------------------------------------------ what any input decodes to

  /** A first octet other than 0 and 1 is no boolean and no pointer, and one without a case is no enum. */
  lemma TagDecodes(s: Schema, b: byte, rest: seq<byte>)
    ensures s.Boolean? || s.Optional? || s.Enum? ==> Decode(s, []) == None
    ensures s.Boolean? ==>
              Decode(s, [b] + rest) ==
                (if b == 0 then Some((Bool(false), rest)) else if b == 1 then Some((Bool(true), rest)) else None)
    ensures s.Optional? && b == 0 ==> Decode(s, [b] + rest) == Some((Nil, rest))
    ensures s.Optional? && b > 1 ==> Decode(s, [b] + rest) == None
    ensures s.Optional? && b == 1 ==> (Decode(s, [b] + rest).None? <==> Decode(s.elem, rest).None?)
    ensures s.Optional? && b == 1 && Decode(s.elem, rest).Some? ==>
              Decode(s, [b] + rest) == Some((Ptr(Decode(s.elem, rest).value.0), Decode(s.elem, rest).value.1))
    ensures s.Enum? && b !in s.cases ==> Decode(s, [b] + rest) == None
    ensures s.Enum? && b in s.cases && s.cases[b].None? ==> Decode(s, [b] + rest) == Some((Variant(b, None), rest))
    ensures s.Enum? && b in s.cases && s.cases[b].Some? ==>
              var d := Decode(s.cases[b].value, rest);
              Decode(s, [b] + rest) == if d.None? then None else Some((Variant(b, Some(d.value.0)), d.value.1))
  {
    assert ([b] + rest)[1..] == rest;
  }

  /** A number that ends early is completed with zeros, but not one that does not begin. Octets are as many as the
      length before them says, below 2^32; a public key needs all of its octets. */
  lemma OctetsDecode(s: Schema, inp: seq<byte>)
    ensures s.Fixed? && s.length <= |inp| ==>
              Decode(s, inp) == Some((Num(Low(FromLittleEndian(inp[..s.length]), 8 * s.width)), inp[s.length..]))
    ensures s.Fixed? && 0 < |inp| < s.length ==>
              Decode(s, inp) == Some((Num(Low(FromLittleEndian(inp + Zeros(s.length - |inp|)), 8 * s.width)), []))
    ensures s.Fixed? && inp == [] && s.length > 0 ==> Decode(s, inp) == None
    ensures s.Raw? ==>
              Decode(s, inp) == if |inp| < s.size then None else Some((Octets(inp[..s.size]), inp[s.size..]))
    ensures s.General? ==>
              (match DecodeNatural(inp)
               case None => Decode(s, inp) == None
               case Some((n, rest)) => Decode(s, inp) == Some((Num(n), rest)))
    ensures s.Blob? && DecodeNatural(inp).None? ==> Decode(s, inp) == None
    ensures s.Blob? && DecodeNatural(inp).Some? ==>
              var n, rest := DecodeNatural(inp).value.0, DecodeNatural(inp).value.1;
              && (n >= TWO_32 || (rest == [] && n > 0) ==> Decode(s, inp) == None)
              && (n < TWO_32 && n <= |rest| ==> Decode(s, inp) == Some((Octets(rest[..n]), rest[n..])))
              && (n < TWO_32 && 0 < |rest| < n ==> Decode(s, inp) == Some((Octets(rest + Zeros(n - |rest|)), [])))
  {
    hide DecodeNatural, Low, FromLittleEndian;
  }

  function Zeros(n: nat): seq<byte> {
    seq(n, _ => 0 as byte)
  }

  /** Elements and fields are decoded one after the other. */
  lemma SequencesDecode(s: Schema, inp: seq<byte>, v: Value, rest: seq<byte>, w: Value, end: seq<byte>)
    ensures DecodeItems(s, 0, inp) == Some(([], inp)) && DecodeFields([], inp) == Some(([], inp))
    ensures Decode(s, inp).None? ==> DecodeItems(s, 2, inp) == None && DecodeFields([s, s], inp) == None
    ensures Decode(s, inp) == Some((v, rest)) && Decode(s, rest).None? ==>
              DecodeItems(s, 2, inp) == None && DecodeFields([s, s], inp) == None
    ensures Decode(s, inp) == Some((v, rest)) && Decode(s, rest) == Some((w, end)) ==>
              DecodeItems(s, 2, inp) == Some(([v, w], end)) && DecodeFields([s, s], inp) == Some(([v, w], end))
  {
    hide Decode;
    assert [s, s][1..] == [s] && [s][1..] == [] && [w] + [] == [w] && [v] + [w] == [v, w];
    assert DecodeItems(s, 0, end) == Some(([], end)) && DecodeFields([], end) == Some(([], end));
    if Decode(s, inp) == Some((v, rest)) && Decode(s, rest) == Some((w, end)) {
      DecodeItemsStep(s, 1, rest, w, end, [], end);
      DecodeItemsStep(s, 2, inp, v, rest, [w], end);
      assert DecodeFields([s], rest) == Some(([w], end));
    }
  }

  /** Of two entries with one key the later one counts. */
  lemma EntriesDecode(s: Schema, m: map<Value, Value>, inp: seq<byte>, k: Value, rest: seq<byte>, v: Value,
                      end: seq<byte>)
    requires s.Map? && Decode(s.key, inp) == Some((k, rest)) && Decode(s.val, rest) == Some((v, end))
    ensures DecodeEntries(s, 1, m, inp) == Some((m[k := v], end)) && DecodeEntries(s, 0, m, inp) == Some((m, inp))
  {
    hide Decode;
    assert DecodeEntries(s, 0, m[k := v], end) == Some((m[k := v], end));
  }

  // ---------------------------------------------------------------- round trip

  /** A fixed-width natural survives exactly when it fits the octets its length tag gives it;
      a larger one is silently truncated. */
  lemma FixedRoundTrip(w: nat, l: nat, n: nat, rest: seq<byte>)
    requires n < Pow2(8 * w)
    ensures Decode(Fixed(w, l), LittleEndian(n, l) + rest) == Some((Num(n), rest)) <==> n < Pow2(8 * l)
  {
    ReadExactly(LittleEndian(n, l), rest);
    LittleEndianRoundTrip(n, l);
    SplitBits(n, 8 * l);
    Pow2Monotone(Min(8 * l, 8 * w), 8 * w);
    LowSmall(Low(n, 8 * l), 8 * w) by { LowAtMost(n, 8 * l); }
    if n < Pow2(8 * l) { LowSmall(n, 8 * l); }
  }

  /** 256 written on one octet is the octet 0, and does not come back. */
  lemma TruncatedExample()
    ensures LittleEndian(256, 1) == [0] && Decode(Fixed(2, 1), [0]) != Some((Num(256), []))
  {
    assert LittleEndian(256, 1) == [256 % 256] + LittleEndian(1, 0);
    WordSizes();
    hide Decode, Pow2;
    FixedRoundTrip(2, 1, 256, []);
    assert [0] + [] == [0];
  }

  lemma BlobRoundTrip(b: seq<byte>, rest: seq<byte>)
    requires |b| < TWO_32
    ensures Decode(Blob, EncodeNatural(|b|) + b + rest) == Some((Octets(b), rest))
  {
    Assoc(EncodeNatural(|b|), b, rest);
    NaturalRoundTrip(|b|, b + rest);
    assert (b + rest)[..|b|] == b && (b + rest)[|b|..] == rest;
  }

  lemma Assoc(a: seq<byte>, b: seq<byte>, c: seq<byte>)
    ensures a + b + c == a + (b + c)
  {
  }

  lemma OctetOf(b: byte, rest: seq<byte>)
    ensures Octet([b] + rest) == Some((b, rest))
  {
    assert ([b] + rest)[1..] == rest;
  }

  lemma ScalarRoundTrip(s: Schema, v: Value, rest: seq<byte>)
    requires WellTyped(s, v) && (s.General? || s.Boolean? || s.Raw? || s.Blob? || s.Fixed?)
    ensures Decode(s, Encode(s, v) + rest) == Some((v, rest))
  {
    match s
    case General => NaturalRoundTrip(v.n, rest);
    case Fixed(w, l) => FixedRoundTrip(w, l, v.n, rest);
    case Boolean => OctetOf(if v.b then 1 else 0, rest);
    case Blob => BlobRoundTrip(v.octets, rest);
    case Raw(n) => assert (v.octets + rest)[..n] == v.octets && (v.octets + rest)[n..] == rest;
  }

  /** Decoding an encoding followed by anything returns the value and leaves the rest. */
  lemma {:induction false} RoundTrip(s: Schema, v: Value, rest: seq<byte>)
    requires WellTyped(s, v)
    ensures Decode(s, Encode(s, v) + rest) == Some((v, rest))
    decreases s, 1, 0
  {
    match s
    case General => ScalarRoundTrip(s, v, rest);
    case Fixed(_, _) => ScalarRoundTrip(s, v, rest);
    case Boolean => ScalarRoundTrip(s, v, rest);
    case Blob => ScalarRoundTrip(s, v, rest);
    case Raw(_) => ScalarRoundTrip(s, v, rest);
    case Optional(_) => OptionalRoundTrip(s, v, rest);
    case Slice(_) => SliceRoundTrip(s, v, rest);
    case Array(_, e) => ItemsRoundTrip(e, v.items, rest);
    case Struct(fs) => FieldsRoundTrip(fs, v.items, rest);
    case Map(_, _) => MapRoundTrip(s, v, rest);
    case Enum(_) => EnumRoundTrip(s, v, rest);
  }

  lemma {:induction false} SliceRoundTrip(s: Schema, v: Value, rest: seq<byte>)
    requires s.Slice? && WellTyped(s, v)
    ensures Decode(s, Encode(s, v) + rest) == Some((v, rest))
    decreases s, 0, 0
  {
    var body := EncodeItems(s.elem, v.items);
    Assoc(EncodeNatural(|v.items|), body, rest);
    NaturalRoundTrip(|v.items|, body + rest);
    ItemsRoundTrip(s.elem, v.items, rest);
  }

  lemma {:induction false} OptionalRoundTrip(s: Schema, v: Value, rest: seq<byte>)
    requires s.Optional? && WellTyped(s, v)
    ensures Decode(s, Encode(s, v) + rest) == Some((v, rest))
    decreases s, 0, 0
  {
    if v.Nil? {
      OctetOf(0, rest);
    } else {
      var body := Encode(s.elem, v.target);
      Assoc([1], body, rest);
      OctetOf(1, body + rest);
      RoundTrip(s.elem, v.target, rest);
    }
  }

  lemma {:induction false} EnumRoundTrip(s: Schema, v: Value, rest: seq<byte>)
    requires s.Enum? && WellTyped(s, v)
    ensures Decode(s, Encode(s, v) + rest) == Some((v, rest))
    decreases s, 0, 0
  {
    match s.cases[v.index]
    case None =>
      assert Encode(s, v) + rest == [v.index] + rest;
      OctetOf(v.index, rest);
    case Some(e) =>
      var body := Encode(e, v.payload.value);
      Assoc([v.index], body, rest);
      OctetOf(v.index, body + rest);
      RoundTrip(e, v.payload.value, rest);
  }

  lemma DecodeItemsStep(e: Schema, n: nat, inp: seq<byte>, v: Value, mid: seq<byte>, vs: seq<Value>, rest: seq<byte>)
    requires n > 0 && Decode(e, inp) == Some((v, mid)) && DecodeItems(e, n - 1, mid) == Some((vs, rest))
    ensures DecodeItems(e, n, inp) == Some(([v] + vs, rest))
  {
  }

  lemma {:induction false} ItemsRoundTrip(e: Schema, items: seq<Value>, rest: seq<byte>)
    requires forall i :: 0 <= i < |items| ==> WellTyped(e, items[i])
    ensures DecodeItems(e, |items|, EncodeItems(e, items) + rest) == Some((items, rest))
    decreases e, 2, |items|
  {
    hide WellTyped, Decode, Encode;
    if items == [] {
      assert EncodeItems(e, items) + rest == rest;
    } else {
      var v, tail := items[0], items[1..];
      var first, more := Encode(e, v), EncodeItems(e, tail);
      RoundTrip(e, v, more + rest);
      ItemsRoundTrip(e, tail, rest);
      DecodeItemsStep(e, |items|, first + (more + rest), v, more + rest, tail, rest);
      Assoc(first, more, rest);
      assert [v] + tail == items;
    }
  }

  lemma {:induction false} FieldsRoundTrip(fs: seq<Schema>, vals: seq<Value>, rest: seq<byte>)
    requires |vals| == |fs| && forall i :: 0 <= i < |fs| ==> WellTyped(fs[i], vals[i])
    ensures DecodeFields(fs, EncodeFields(fs, vals) + rest) == Some((vals, rest))
    decreases fs, 0, 0
  {
    hide WellTyped, Decode, Encode;
    if fs == [] {
      assert EncodeFields(fs, vals) + rest == rest;
    } else {
      var first, more := Encode(fs[0], vals[0]), EncodeFields(fs[1..], vals[1..]);
      Assoc(first, more, rest);
      RoundTrip(fs[0], vals[0], more + rest);
      FieldsRoundTrip(fs[1..], vals[1..], rest);
      assert [vals[0]] + vals[1..] == vals;
    }
  }

  /** What inserting the listed keys of `m` one by one leaves in the new map. */
  ghost function Insert(acc: map<Value, Value>, m: map<Value, Value>, ks: seq<Value>): map<Value, Value>
    requires forall k :: k in ks ==> k in m
  {
    map k | k in acc.Keys + (set i | 0 <= i < |ks| :: ks[i]) :: if k in ks then m[k] else acc[k]
  }

  lemma InsertNone(acc: map<Value, Value>, m: map<Value, Value>)
    ensures Insert(acc, m, []) == acc
  {
  }

  lemma {:induction false} EntriesRoundTrip(s: Schema, acc: map<Value, Value>, m: map<Value, Value>, ks: seq<Value>,
      rest: seq<byte>)
    requires EntriesTyped(s, m, ks)
    ensures DecodeEntries(s, |ks|, acc, EncodeEntries(s, m, ks) + rest) == Some((Insert(acc, m, ks), rest))
    decreases s, 0, |ks|
  {
    hide WellTyped, Decode, Encode, Insert;
    if ks == [] {
      assert EncodeEntries(s, m, ks) + rest == rest;
      InsertNone(acc, m);
    } else {
      var k, v := ks[0], m[ks[0]];
      var a, b, more := Encode(s.key, k), Encode(s.val, v), EncodeEntries(s, m, ks[1..]);
      Assoc(a + b, more, rest);
      Assoc(a, b, more + rest);
      RoundTrip(s.key, k, b + (more + rest));
      RoundTrip(s.val, v, more + rest);
      EntriesRoundTrip(s, acc[k := v], m, ks[1..], rest);
      InsertFirst(acc, m, ks);
    }
  }

  lemma InsertFirst(acc: map<Value, Value>, m: map<Value, Value>, ks: seq<Value>)
    requires ks != [] && forall k :: k in ks ==> k in m
    ensures Insert(acc[ks[0] := m[ks[0]]], m, ks[1..]) == Insert(acc, m, ks)
  {
    assert ks == [ks[0]] + ks[1..];
  }

  lemma InsertAll(m: map<Value, Value>, ks: seq<Value>)
    requires forall k :: k in ks <==> k in m
    ensures Insert(map[], m, ks) == m
  {
    assert Insert(map[], m, ks).Keys == m.Keys;
  }

  lemma SortedEntriesTyped(s: Schema, v: Value)
    requires s.Map? && WellTyped(s, v)
    ensures EntriesTyped(s, v.entries, SortedKeys(s.key, v.entries.Keys))
  {
    var ks := SortedKeys(s.key, v.entries.Keys);
    forall i | 0 <= i < |ks| ensures ks[i] in v.entries { assert ks[i] in ks; }
  }

  lemma DecodeMapStep(s: Schema, inp: seq<byte>, n: nat, mid: seq<byte>, m: map<Value, Value>, rest: seq<byte>)
    requires s.Map? && DecodeNatural(inp) == Some((n, mid)) && DecodeEntries(s, n, map[], mid) == Some((m, rest))
    ensures Decode(s, inp) == Some((Dict(m), rest))
  {
  }

  lemma EncodeMapShape(s: Schema, v: Value)
    requires s.Map? && WellTyped(s, v)
    ensures EntriesTyped(s, v.entries, SortedKeys(s.key, v.entries.Keys))
    ensures Encode(s, v) ==
            EncodeNatural(|v.entries|) + EncodeEntries(s, v.entries, SortedKeys(s.key, v.entries.Keys))
  {
    SortedEntriesTyped(s, v);
  }

  lemma {:induction false} MapRoundTrip(s: Schema, v: Value, rest: seq<byte>)
    requires s.Map? && WellTyped(s, v)
    ensures Decode(s, Encode(s, v) + rest) == Some((v, rest))
    decreases s, 0, |v.entries| + 1
  {
    EncodeMapShape(s, v);
    var m, ks := v.entries, SortedKeys(s.key, v.entries.Keys);
    var size, body := EncodeNatural(|m|), EncodeEntries(s, m, ks);
    EntriesRoundTrip(s, map[], m, ks, rest);
    InsertAll(m, ks);
    NaturalRoundTrip(|m|, body + rest);
    DecodeMapStep(s, size + (body + rest), |m|, body + rest, m, rest);
    Assoc(size, body, rest);
  }

  /** Encodings of one type are prefix-free, hence injective. */
  lemma PrefixFree(s: Schema, v: Value, w: Value)
    requires WellTyped(s, v) && WellTyped(s, w) && Encode(s, v) <= Encode(s, w)
    ensures v == w
  {
    hide WellTyped, Encode, Decode;
    var rest := Encode(s, w)[|Encode(s, v)|..];
    assert Encode(s, w) + [] == Encode(s, v) + rest;
    RoundTrip(s, v, rest);
    RoundTrip(s, w, []);
  }
}

/** The writer and the reader of the codec as they run: a buffer that grows and a buffer that
    is consumed, with loops over elements, fields and sorted keys. Each is proved against the
    functions of `Codec`. */
module CodecIO {
  import opened Bytes
  import opened Naturals
  import opened Codec
  import opened Pointers

  // --------------------------------------------------------------- map keys

  /** `v.MapKeys()`: the keys in whatever order the map hands them out. */
  method MapKeys(m: map<Value, Value>) returns (keys: seq<Value>)
    ensures |keys| == |m|
    ensures forall k :: k in keys <==> k in m
    ensures forall i, j :: 0 <= i < j < |keys| ==> keys[i] != keys[j]
  {
    keys := [];
    var left := m.Keys;
    while left != {}
      invariant left <= m.Keys && |keys| + |left| == |m.Keys|
      invariant forall k :: k in keys <==> k in m && k !in left
      invariant forall i, j :: 0 <= i < j < |keys| ==> keys[i] != keys[j]
      decreases |left|
    {
      var k :| k in left;
      keys := keys + [k];
      left := left - {k};
    }
  }

  /** Where `k` belongs in an ascending sequence that does not have it. */
  method InsertionPoint(s: Schema, ks: seq<Value>, k: Value) returns (p: nat)
    requires OrderedKey(s) && TypedKeys(s, ks) && WellTyped(s, k) && Ascending(s, ks) && k !in ks
    ensures p <= |ks|
    ensures forall i :: 0 <= i < p ==> KeyLess(s, ks[i], k)
    ensures forall i :: p <= i < |ks| ==> KeyLess(s, k, ks[i])
  {
    hide WellTyped, KeyLess, OrderedKey;
    p := 0;
    while p < |ks| && KeyLess(s, ks[p], k)
      invariant p <= |ks|
      invariant forall i :: 0 <= i < p ==> KeyLess(s, ks[i], k)
    {
      p := p + 1;
    }
    forall i | p <= i < |ks| ensures KeyLess(s, k, ks[i]) {
      KeyLessStrict(s, ks[p], k);
      if i > p { KeyLessTransitive(s, k, ks[p], ks[i]); }
    }
  }

  function InsertAt(ks: seq<Value>, k: Value, p: nat): (all: seq<Value>)
    requires p <= |ks|
    ensures |all| == |ks| + 1
    ensures forall i :: 0 <= i < |all| ==> all[i] == if i < p then ks[i] else if i == p then k else ks[i - 1]
  {
    ks[..p] + [k] + ks[p..]
  }

  lemma TypedInsert(s: Schema, ks: seq<Value>, k: Value, p: nat)
    requires TypedKeys(s, ks) && WellTyped(s, k) && p <= |ks|
    ensures TypedKeys(s, InsertAt(ks, k, p))
  {
    hide WellTyped;
    var all := InsertAt(ks, k, p);
    forall i | 0 <= i < |all| ensures WellTyped(s, all[i]) {
      if i < p { assert WellTyped(s, ks[i]); } else if i > p { assert WellTyped(s, ks[i - 1]); }
    }
  }

  lemma AscendingInsert(s: Schema, ks: seq<Value>, k: Value, p: nat)
    requires OrderedKey(s) && TypedKeys(s, ks) && WellTyped(s, k) && Ascending(s, ks) && p <= |ks|
    requires forall i :: 0 <= i < p ==> KeyLess(s, ks[i], k)
    requires forall i :: p <= i < |ks| ==> KeyLess(s, k, ks[i])
    ensures TypedKeys(s, InsertAt(ks, k, p)) && Ascending(s, InsertAt(ks, k, p))
  {
    hide WellTyped, KeyLess, OrderedKey;
    var all := InsertAt(ks, k, p);
    TypedInsert(s, ks, k, p);
    forall i, j | 0 <= i < j < |all| ensures KeyLess(s, all[i], all[j]) {
      if j < p {
        assert KeyLess(s, ks[i], ks[j]);
      } else if j > p && i < p {
        assert KeyLess(s, ks[i], ks[j - 1]);
      } else if i > p {
        assert KeyLess(s, ks[i - 1], ks[j - 1]);
      }
    }
  }

  /** `sortMapKeys`: puts distinct keys in the order of their kind. */
  method SortMapKeys(s: Schema, keys: seq<Value>) returns (ks: seq<Value>)
    requires OrderedKey(s) && TypedKeys(s, keys)
    requires forall i, j :: 0 <= i < j < |keys| ==> keys[i] != keys[j]
    ensures TypedKeys(s, ks) && Ascending(s, ks)
    ensures forall k :: k in ks <==> k in keys
    ensures forall i, j :: 0 <= i < j < |ks| ==> ComesBefore(s, ks[i], ks[j])
  {
    hide WellTyped, KeyLess, OrderedKey, ComesBefore;
    ks := [];
    for n := 0 to |keys|
      invariant TypedKeys(s, ks) && Ascending(s, ks)
      invariant forall k :: k in ks <==> k in keys[..n]
    {
      assert keys[n] !in keys[..n];
      var p := InsertionPoint(s, ks, keys[n]);
      AscendingInsert(s, ks, keys[n], p);
      assert keys[..n + 1] == keys[..n] + [keys[n]];
      MemberInsert(ks, keys[n], p);
      ks := InsertAt(ks, keys[n], p);
    }
    forall i, j | 0 <= i < j < |ks| ensures ComesBefore(s, ks[i], ks[j]) { KeyLessMeans(s, ks[i], ks[j]); }
    assert keys[..|keys|] == keys;
  }

  lemma MemberInsert(ks: seq<Value>, x: Value, p: nat)
    requires p <= |ks|
    ensures forall k :: k in InsertAt(ks, x, p) <==> k in ks || k == x
  {
    assert ks == ks[..p] + ks[p..];
  }

  // -------------------------------------------------------------- the writer

  /** What is still to be written of a list, as the loops see it. */
  lemma ItemsUnfold(e: Schema, items: seq<Value>, i: nat)
    requires i < |items| && forall j :: 0 <= j < |items| ==> WellTyped(e, items[j])
    ensures EncodeItems(e, items[i..]) == Encode(e, items[i]) + EncodeItems(e, items[i + 1..])
  {
    hide WellTyped, Encode;
    assert items[i..][0] == items[i] && items[i..][1..] == items[i + 1..];
  }

  lemma FieldsUnfold(fs: seq<Schema>, vals: seq<Value>, i: nat)
    requires i < |fs| == |vals| && forall j :: 0 <= j < |fs| ==> WellTyped(fs[j], vals[j])
    ensures EncodeFields(fs[i..], vals[i..]) == Encode(fs[i], vals[i]) + EncodeFields(fs[i + 1..], vals[i + 1..])
  {
    hide WellTyped, Encode;
    assert fs[i..][0] == fs[i] && fs[i..][1..] == fs[i + 1..];
    assert vals[i..][0] == vals[i] && vals[i..][1..] == vals[i + 1..];
  }

  lemma EntriesUnfold(s: Schema, m: map<Value, Value>, ks: seq<Value>, i: nat)
    requires EntriesTyped(s, m, ks) && i < |ks|
    ensures EntriesTyped(s, m, ks[i..]) && EntriesTyped(s, m, ks[i + 1..])
    ensures EncodeEntries(s, m, ks[i..]) ==
            Encode(s.key, ks[i]) + Encode(s.val, m[ks[i]]) + EncodeEntries(s, m, ks[i + 1..])
  {
    hide WellTyped, Encode;
    assert ks[i..][0] == ks[i] && ks[i..][1..] == ks[i + 1..];
  }

  class ByteWriter {
    var buffer: seq<byte>

    constructor ()
      ensures buffer == []
    {
      buffer := [];
    }

    method EncodeLength(n: nat)
      requires n < TWO_64
      modifies this
      ensures buffer == old(buffer) + EncodeNatural(n)
    {
      var s := SerializeUint64(n);
      buffer := buffer + s;
    }

    /** `marshal`: appends the encoding of `v` and touches nothing before it. */
    method Marshal(s: Schema, v: Value)
      requires WellTyped(s, v)
      modifies this
      ensures buffer == old(buffer) + Encode(s, v)
      decreases s, 1, 0
    {
      match s
      case General => EncodeLength(v.n);
      case Fixed(_, l) =>
        var data := SerializeTrivialNatural(v.n, l);
        buffer := buffer + data;
      case Boolean => buffer := buffer + [if v.b then 1 else 0];
      case Blob =>
        Assoc(buffer, EncodeNatural(|v.octets|), v.octets);
        EncodeLength(|v.octets|);
        buffer := buffer + v.octets;
      case Raw(_) => buffer := buffer + v.octets;
      case Optional(e) => MarshalPointer(s, v);
      case Slice(e) =>
        Assoc(buffer, EncodeNatural(|v.items|), EncodeItems(e, v.items));
        EncodeLength(|v.items|);
        MarshalItems(e, v.items);
      case Array(_, e) => MarshalItems(e, v.items);
      case Struct(fs) => MarshalFields(s, v);
      case Map(_, _) => MarshalMap(s, v);
      case Enum(_) => MarshalEnum(s, v);
    }

    method MarshalPointer(s: Schema, v: Value)
      requires s.Optional? && WellTyped(s, v)
      modifies this
      ensures buffer == old(buffer) + Encode(s, v)
      decreases s, 0, 0
    {
      if v.Nil? {
        buffer := buffer + [0];
      } else {
        Assoc(buffer, [1], Encode(s.elem, v.target));
        assert Encode(s, v) == [1] + Encode(s.elem, v.target);
        hide WellTyped, Encode;
        buffer := buffer + [1];
        Marshal(s.elem, v.target);
      }
    }

    method MarshalEnum(s: Schema, v: Value)
      requires s.Enum? && WellTyped(s, v)
      modifies this
      ensures buffer == old(buffer) + Encode(s, v)
      decreases s, 0, 0
    {
      ghost var tail := if v.payload.Some? then Encode(s.cases[v.index].value, v.payload.value) else [];
      assert Encode(s, v) == [v.index] + tail;
      Assoc(buffer, [v.index], tail);
      hide WellTyped, Encode;
      buffer := buffer + [v.index];
      if v.payload.Some? { Marshal(s.cases[v.index].value, v.payload.value); }
    }

    method MarshalItems(e: Schema, items: seq<Value>)
      requires forall i :: 0 <= i < |items| ==> WellTyped(e, items[i])
      modifies this
      ensures buffer == old(buffer) + EncodeItems(e, items)
      decreases e, 2, |items|
    {
      hide WellTyped, Encode;
      assert items[0..] == items;
      for i := 0 to |items|
        invariant buffer + EncodeItems(e, items[i..]) == old(buffer) + EncodeItems(e, items)
      {
        ItemsUnfold(e, items, i);
        Assoc(buffer, Encode(e, items[i]), EncodeItems(e, items[i + 1..]));
        Marshal(e, items[i]);
      }
    }

    method MarshalFields(s: Schema, v: Value)
      requires s.Struct? && WellTyped(s, v)
      modifies this
      ensures buffer == old(buffer) + EncodeFields(s.fields, v.items)
      decreases s, 0, 0
    {
      var fs, vals := s.fields, v.items;
      hide WellTyped, Encode;
      assert fs[0..] == fs && vals[0..] == vals;
      for i := 0 to |fs|
        invariant buffer + EncodeFields(fs[i..], vals[i..]) == old(buffer) + EncodeFields(fs, vals)
      {
        FieldsUnfold(fs, vals, i);
        Assoc(buffer, Encode(fs[i], vals[i]), EncodeFields(fs[i + 1..], vals[i + 1..]));
        Marshal(fs[i], vals[i]);
      }
    }

    /** `encodeMap`: whatever order the keys come in, the same octets are written. */
    method MarshalMap(s: Schema, v: Value)
      requires s.Map? && WellTyped(s, v)
      modifies this
      ensures buffer == old(buffer) + Encode(s, v)
      decreases s, 0, 1
    {
      var m := v.entries;
      var keys := MapKeys(m);
      EncodeMapShape(s, v);
      ghost var sorted := SortedKeys(s.key, m.Keys);
      if |keys| == 0 {
        EncodeLength(0);
        assert sorted == [];
        return;
      }
      assert keys[0] in keys;
      hide WellTyped, Encode, OrderedKey, KeyLess, SortedKeys;
      var ks := SortMapKeys(s.key, keys);
      SortedKeysAscend(s.key, m.Keys);
      AscendingUnique(s.key, ks, sorted);
      EncodeLength(|keys|);
      MarshalEntries(s, m, ks);
      Assoc(old(buffer), EncodeNatural(|m|), EncodeEntries(s, m, ks));
    }

    method MarshalEntries(s: Schema, m: map<Value, Value>, ks: seq<Value>)
      requires EntriesTyped(s, m, ks)
      modifies this
      ensures buffer == old(buffer) + EncodeEntries(s, m, ks)
      decreases s, 0, 0
    {
      hide WellTyped, Encode;
      assert ks[0..] == ks;
      for i := 0 to |ks|
        invariant EntriesTyped(s, m, ks[i..])
        invariant buffer + EncodeEntries(s, m, ks[i..]) == old(buffer) + EncodeEntries(s, m, ks)
      {
        EntriesUnfold(s, m, ks, i);
        ghost var a, b, more := Encode(s.key, ks[i]), Encode(s.val, m[ks[i]]), EncodeEntries(s, m, ks[i + 1..]);
        Assoc(buffer, a + b, more);
        Assoc(buffer, a, b);
        Marshal(s.key, ks[i]);
        Marshal(s.val, m[ks[i]]);
      }
    }
  }

  // -------------------------------------------------------------- the reader

  /** Puts what a loop has already decoded in front of what is still to come. */
  function Prepend(vs: seq<Value>, r: Option<(seq<Value>, seq<byte>)>): Option<(seq<Value>, seq<byte>)> {
    match r case None => None case Some((ws, rest)) => Some((vs + ws, rest))
  }

  lemma PrependNothing(r: Option<(seq<Value>, seq<byte>)>)
    ensures Prepend([], r) == r
  {
    if r.Some? { assert [] + r.value.0 == r.value.0; }
  }

  lemma PrependSnoc(vs: seq<Value>, v: Value, r: Option<(seq<Value>, seq<byte>)>)
    ensures Prepend(vs, Prepend([v], r)) == Prepend(vs + [v], r)
  {
    if r.Some? { assert vs + ([v] + r.value.0) == vs + [v] + r.value.0; }
  }

  lemma DecodeItemsUnfold(e: Schema, n: nat, inp: seq<byte>)
    requires n > 0
    ensures Decode(e, inp).None? ==> DecodeItems(e, n, inp).None?
    ensures Decode(e, inp).Some? ==>
              var (v, rest) := Decode(e, inp).value;
              DecodeItems(e, n, inp) == Prepend([v], DecodeItems(e, n - 1, rest))
  {
    hide Decode;
  }

  lemma DecodeFieldsUnfold(fs: seq<Schema>, i: nat, inp: seq<byte>)
    requires i < |fs|
    ensures Decode(fs[i], inp).None? ==> DecodeFields(fs[i..], inp).None?
    ensures Decode(fs[i], inp).Some? ==>
              var (v, rest) := Decode(fs[i], inp).value;
              DecodeFields(fs[i..], inp) == Prepend([v], DecodeFields(fs[i + 1..], rest))
  {
    hide Decode;
    assert fs[i..][0] == fs[i] && fs[i..][1..] == fs[i + 1..];
  }

  lemma DecodeEntriesUnfold(s: Schema, n: nat, m: map<Value, Value>, inp: seq<byte>)
    requires s.Map? && n > 0
    ensures Decode(s.key, inp).None? ==> DecodeEntries(s, n, m, inp).None?
    ensures Decode(s.key, inp).Some? ==>
              var (k, rest) := Decode(s.key, inp).value;
              && (Decode(s.val, rest).None? ==> DecodeEntries(s, n, m, inp).None?)
              && (Decode(s.val, rest).Some? ==>
                    var (v, rest') := Decode(s.val, rest).value;
                    DecodeEntries(s, n, m, inp) == DecodeEntries(s, n - 1, m[k := v], rest'))
  {
    hide Decode;
  }

  class ByteReader {
    var inp: seq<byte>

    constructor (data: seq<byte>)
      ensures inp == data
    {
      inp := data;
    }

    /** `br.Read` into a zeroed buffer of `n` octets. */
    method ReadBytes(n: nat) returns (data: Option<seq<byte>>)
      modifies this
      ensures data.Some? <==> Read(old(inp), n).Some?
      ensures data.Some? ==> Read(old(inp), n) == Some((data.value, inp))
    {
      var r := Read(inp, n);
      if r.None? { return None; }
      inp := r.value.1;
      data := Some(r.value.0);
    }

    /** `decodeUint` and `decodeLength`. */
    method DecodeUint() returns (n: Option<nat>)
      modifies this
      ensures n.Some? <==> DecodeNatural(old(inp)).Some?
      ensures n.Some? ==> DecodeNatural(old(inp)) == Some((n.value, inp))
    {
      if inp == [] { return None; }
      var first := inp[0];
      inp := inp[1..];
      LeadingOnesInterval(first);
      var l := LeadingOnes(first);
      var data := ReadBytes(l);
      if data.None? { return None; }
      assert ([first] + data.value)[1..] == data.value;
      NinthOctet(first);
      n := DeserializeUint64WithLength([first] + data.value, l);
    }

    /** `unmarshal`: consumes one value, or reports an error exactly where `Decode` does. */
    method Unmarshal(s: Schema) returns (v: Option<Value>)
      modifies this
      ensures v.Some? <==> Decode(s, old(inp)).Some?
      ensures v.Some? ==> Decode(s, old(inp)) == Some((v.value, inp))
      decreases s, 1, 0
    {
      match s
      case General =>
        var n := DecodeUint();
        if n.None? { return None; }
        return Some(Num(n.value));
      case Fixed(w, l) =>
        var data := ReadBytes(l);
        if data.None? { return None; }
        var n := DeserializeTrivialNatural(data.value, 8 * w);
        return Some(Num(n));
      case Blob =>
        var n := DecodeUint();
        if n.None? || n.value >= TWO_32 { return None; }
        var data := ReadBytes(n.value);
        if data.None? { return None; }
        return Some(Octets(data.value));
      case Raw(n) =>
        if |inp| < n { return None; }
        v := Some(Octets(inp[..n]));
        inp := inp[n..];
      case Boolean => v := UnmarshalTagged(s);
      case Optional(_) => v := UnmarshalTagged(s);
      case Enum(_) => v := UnmarshalTagged(s);
      case Slice(e) =>
        var n := DecodeUint();
        if n.None? { return None; }
        var vs := UnmarshalItems(e, n.value);
        if vs.None? { return None; }
        return Some(List(vs.value));
      case Array(n, e) =>
        var vs := UnmarshalItems(e, n);
        if vs.None? { return None; }
        return Some(List(vs.value));
      case Struct(fs) =>
        var vs := UnmarshalFields(s);
        if vs.None? { return None; }
        return Some(List(vs.value));
      case Map(_, _) => v := UnmarshalMap(s);
    }

    /** The kinds whose first octet says how to go on. */
    method UnmarshalTagged(s: Schema) returns (v: Option<Value>)
      requires s.Boolean? || s.Optional? || s.Enum?
      modifies this
      ensures v.Some? <==> Decode(s, old(inp)).Some?
      ensures v.Some? ==> Decode(s, old(inp)) == Some((v.value, inp))
      decreases s, 0, 0
    {
      if inp == [] { return None; }
      var b := inp[0];
      inp := inp[1..];
      match s
      case Boolean => return if b <= 1 then Some(Bool(b == 1)) else None;
      case Optional(e) =>
        if b == 0 { return Some(Nil); }
        if b != 1 { return None; }
        var t := Unmarshal(e);
        return if t.None? then None else Some(Ptr(t.value));
      case Enum(cases) =>
        if b !in cases { return None; }
        if cases[b].None? { return Some(Variant(b, None)); }
        var t := Unmarshal(cases[b].value);
        return if t.None? then None else Some(Variant(b, Some(t.value)));
    }

    method UnmarshalItems(e: Schema, n: nat) returns (vs: Option<seq<Value>>)
      modifies this
      ensures vs.Some? <==> DecodeItems(e, n, old(inp)).Some?
      ensures vs.Some? ==> DecodeItems(e, n, old(inp)) == Some((vs.value, inp))
      decreases e, 2, n
    {
      hide Decode;
      var acc := [];
      PrependNothing(DecodeItems(e, n, inp));
      for i := 0 to n
        invariant DecodeItems(e, n, old(inp)) == Prepend(acc, DecodeItems(e, n - i, inp))
      {
        DecodeItemsUnfold(e, n - i, inp);
        var v := Unmarshal(e);
        if v.None? { return None; }
        PrependSnoc(acc, v.value, DecodeItems(e, n - i - 1, inp));
        acc := acc + [v.value];
      }
      assert acc + [] == acc;
      vs := Some(acc);
    }

    method UnmarshalFields(s: Schema) returns (vs: Option<seq<Value>>)
      requires s.Struct?
      modifies this
      ensures vs.Some? <==> DecodeFields(s.fields, old(inp)).Some?
      ensures vs.Some? ==> DecodeFields(s.fields, old(inp)) == Some((vs.value, inp))
      decreases s, 0, 0
    {
      hide Decode;
      var fs, acc := s.fields, [];
      PrependNothing(DecodeFields(fs, inp));
      assert fs[0..] == fs;
      for i := 0 to |fs|
        invariant DecodeFields(fs, old(inp)) == Prepend(acc, DecodeFields(fs[i..], inp))
      {
        DecodeFieldsUnfold(fs, i, inp);
        var v := Unmarshal(fs[i]);
        if v.None? { return None; }
        PrependSnoc(acc, v.value, DecodeFields(fs[i + 1..], inp));
        acc := acc + [v.value];
      }
      assert acc + [] == acc;
      vs := Some(acc);
    }

    method UnmarshalMap(s: Schema) returns (v: Option<Value>)
      requires s.Map?
      modifies this
      ensures v.Some? <==> Decode(s, old(inp)).Some?
      ensures v.Some? ==> Decode(s, old(inp)) == Some((v.value, inp))
      decreases s, 0, 1
    {
      var n := DecodeUint();
      if n.None? { return None; }
      var m := UnmarshalEntries(s, n.value);
      if m.None? { return None; }
      v := Some(Dict(m.value));
    }

    method UnmarshalEntries(s: Schema, n: nat) returns (m: Option<map<Value, Value>>)
      requires s.Map?
      modifies this
      ensures m.Some? <==> DecodeEntries(s, n, map[], old(inp)).Some?
      ensures m.Some? ==> DecodeEntries(s, n, map[], old(inp)) == Some((m.value, inp))
      decreases s, 0, 0
    {
      hide Decode;
      var temp := map[];
      for i := 0 to n
        invariant DecodeEntries(s, n, map[], old(inp)) == DecodeEntries(s, n - i, temp, inp)
      {
        DecodeEntriesUnfold(s, n - i, temp, inp);
        var k := Unmarshal(s.key);
        if k.None? { return None; }
        var e := Unmarshal(s.val);
        if e.None? { return None; }
        temp := temp[k.value := e.value];
      }
      m := Some(temp);
    }

    /** `Decode` and `Unmarshal`: follow the pointers of the destination, then read. */
    method DecodeTo(s: Schema) returns (v: Option<Value>)
      modifies this
      ensures v.Some? <==> DecodeInto(s, old(inp)).Some?
      ensures v.Some? ==> DecodeInto(s, old(inp)) == Some((v.value, inp))
    {
      hide Decode;
      var inner, pointers := s, 0;
      while inner.Optional?
        invariant Pointee(s) == Pointee(inner)
        invariant forall x :: Wrapped(s, x) == Pointing(pointers, Wrapped(inner, x))
        invariant inp == old(inp)
        decreases inner
      {
        forall x ensures Pointing(pointers, Wrapped(inner, x)) == Pointing(pointers + 1, Wrapped(inner.elem, x)) {
          OnePointerMore(pointers, Wrapped(inner.elem, x));
        }
        inner, pointers := inner.elem, pointers + 1;
      }
      v := Unmarshal(inner);
      if v.None? { return; }
      ghost var read := v.value;
      for n := 0 to pointers
        invariant v == Some(Pointing(n, read))
      {
        v := Some(Ptr(v.value));
      }
    }
  }

  /** Only the octet 255 announces eight more, so the nine-octet error cannot arise here. */
  lemma NinthOctet(b: byte)
    ensures LeadingOnes(b) == 8 ==> b == 255
  {
    LeadingOnesInterval(b);
  }

  /** What a chain of `n` pointers to `v` holds. */
  function Pointing(n: nat, v: Value): Value {
    if n == 0 then v else Ptr(Pointing(n - 1, v))
  }

  lemma {:induction false} OnePointerMore(n: nat, v: Value)
    ensures Pointing(n, Ptr(v)) == Pointing(n + 1, v)
  {
    if n > 0 { OnePointerMore(n - 1, v); }
  }

  /** A value written to a buffer and decoded into a destination of its type comes back, with whatever
      follows left in place, exactly when the type is not a pointer. */
  method WriteThenRead(s: Schema, v: Value, rest: seq<byte>) returns (r: Option<Value>, left: seq<byte>)
    requires WellTyped(s, v)
    ensures r == Some(v) && left == rest <==> !s.Optional?
  {
    hide WellTyped, Encode, Decode, DecodeInto;
    var w := new ByteWriter();
    w.Marshal(s, v);
    assert [] + Encode(s, v) == Encode(s, v);
    var reader := new ByteReader(w.buffer + rest);
    ComesBackExactlyWhen(s, v, rest);
    r := reader.DecodeTo(s);
    left := reader.inp;
  }
}

/** The encoder and decoder loops, with their running offsets and buffers, computing the specified functions. */
module AbiLoops {
  import opened Words
  import opened AbiType
  import opened AbiEncode
  import opened AbiDecode
  import opened AbiRoundTrip
  import opened AbiLaws

  ghost function Expected(v: Value, t: Type): Result<seq<byte>>
  {
    if Accepts(v, t) then Ok(Encoding(v, t)) else Err
  }

  method EncodeValue(v: Value, t: Type) returns (r: Result<seq<byte>>)
    ensures r == Expected(v, t)
    decreases Depth(t), 1
  {
    match t
    case Slice(_) => r := EncodeSliceAndArray(v, t);
    case Array(_, _) => r := EncodeSliceAndArray(v, t);
    case Tuple(_) => r := EncodeTuple(v, t);
    case _ => if Accepts(v, t) { r := Ok(Encoding(v, t)); } else { r := Err; }
  }

  /** After `i` components: the buffers plus the layout of the rest make the whole layout. */
  ghost predicate Encoded(vs: seq<Value>, ts: seq<Type>, i: nat, start: seq<byte>, ret: seq<byte>, tail: seq<byte>,
                          offset: nat)
    requires |vs| == |ts| && i <= |ts|
  {
    && (AcceptsAll(vs, ts) <==> AcceptsAll(vs[i..], ts[i..]))
    && (AcceptsAll(vs, ts) ==>
          var ps, qs := Parts(vs, ts), Parts(vs[i..], ts[i..]);
          && ret + Heads(qs, offset) == start + Heads(ps, HeadsSize(ps))
          && tail + Tails(qs) == Tails(ps))
  }

  method EncodeSliceAndArray(v: Value, t: Type) returns (r: Result<seq<byte>>)
    requires t.Slice? || t.Array?
    ensures r == Expected(v, t)
    decreases Depth(t), 0
  {
    hide Encoding, Word, Encoded, Items, ItemTypes, AcceptsAll, TypeSize, IsDynamic;
    if !(v.VSlice? || v.VArray?) || (v.VArray? && !t.Array?) || (v.VSlice? && !t.Slice?) { return Err; }
    if t.Array? && t.len != |v.vs| { return Err; }
    if t.Slice? && |v.vs| >= TWO_63 { return Err; }  // no Go slice is that long
    ghost var vs, ts := Items(v, t), ItemTypes(v, t);
    ListItems(v, t);

    var ret, tail: seq<byte> := [], [];
    if t.Slice? { ret := ret + Word(|v.vs|); }
    ghost var start := ret;
    var offset: nat := 0;
    var isDynamic := IsDynamic(t.elem);
    if isDynamic { offset := TypeSize(t.elem) * |v.vs|; }
    StartList(v, t, start, offset);
    var i := 0;
    while i < |v.vs|
      invariant 0 <= i <= |v.vs|
      invariant Encoded(vs, ts, i, start, ret, tail, offset)
    {
      var val := EncodeValue(v.vs[i], t.elem);
      EncodeStep(vs, ts, i, start, ret, tail, offset);
      if val.Err? { return Err; }
      if !isDynamic {
        ret := ret + val.value;
      } else {
        ret := ret + Word(offset);
        offset := offset + |val.value|;
        tail := tail + val.value;
      }
      i := i + 1;
    }
    Finish(v, t, start, ret, tail, offset);
    return Ok(ret + tail);
  }

  method EncodeTuple(v: Value, t: Type) returns (r: Result<seq<byte>>)
    requires t.Tuple?
    ensures r == Expected(v, t)
    decreases Depth(t), 0
  {
    hide Encoding, Word, TupleEncoded, TypeSize, FieldsSize, IsDynamic, Accepts, ShapeOk, Pick, Depth, Items, ItemTypes, AcceptsAll;
    AcceptedShape(v, t);
    TupleShape(v, t);
    if !(v.VSlice? || v.VArray? || v.VTuple?) { return Err; }
    if (if v.VTuple? then |v.m| else |v.vs|) < |t.fields| { return Err; }
    var offset: nat := HeadSpace(t.fields);

    var ret, tail: seq<byte> := [], [];
    TupleStart(v, t, offset);
    FieldDepths(t);
    var i := 0;
    while i < |t.fields|
      invariant 0 <= i <= |t.fields|
      invariant forall k :: 0 <= k < i ==> Pick(v, t.fields, k).Ok?
      invariant TupleEncoded(v, t, i, ret, tail, offset)
    {
      var aux := Pick(v, t.fields, i);
      if aux.Err? { return Err; }
      var val := EncodeValue(aux.value, t.fields[i].typ);
      TupleStep(v, t, i, ret, tail, offset);
      if val.Err? { return Err; }
      if IsDynamic(t.fields[i].typ) {
        ret := ret + Word(offset);
        tail := tail + val.value;
        offset := offset + |val.value|;
      } else {
        ret := ret + val.value;
      }
      i := i + 1;
    }
    TupleFinish(v, t, ret, tail, offset);
    return Ok(ret + tail);
  }

  /** The buffers after `i` components of a tuple of the right shape. */
  ghost predicate TupleEncoded(v: Value, t: Type, i: nat, ret: seq<byte>, tail: seq<byte>, offset: nat)
    requires t.Tuple? && i <= |t.fields|
  {
    ShapeOk(v, t) ==> Encoded(Items(v, t), ItemTypes(v, t), i, [], ret, tail, offset)
  }

  lemma TupleStart(v: Value, t: Type, offset: nat)
    requires t.Tuple? && offset == FieldsSize(t.fields)
    ensures TupleEncoded(v, t, 0, [], [], offset)
  {
    hide Encoded, Items, FieldsSize, ShapeOk;
    if ShapeOk(v, t) { StartTuple(v, t, offset); }
  }

  lemma TupleStep(v: Value, t: Type, i: nat, ret: seq<byte>, tail: seq<byte>, offset: nat)
    requires t.Tuple? && i < |t.fields| && (v.VTuple? || ((v.VSlice? || v.VArray?) && |t.fields| <= |v.vs|))
    requires TupleEncoded(v, t, i, ret, tail, offset) && Pick(v, t.fields, i).Ok?
    ensures var x, typ := Pick(v, t.fields, i).value, t.fields[i].typ;
            if !Accepts(x, typ) then !Accepts(v, t)
            else
              var e := Encoding(x, typ);
              if IsDynamic(typ) then TupleEncoded(v, t, i + 1, ret + Word(offset), tail + e, offset + |e|)
              else TupleEncoded(v, t, i + 1, ret + e, tail, offset)
  {
    hide Encoding, Word, Encoded, Items, ItemTypes, AcceptsAll, IsDynamic, Accepts, ShapeOk, Pick;
    AcceptedShape(v, t);
    if ShapeOk(v, t) {
      TupleItem(v, t, i);
      EncodeStep(Items(v, t), ItemTypes(v, t), i, [], ret, tail, offset);
    }
  }

  lemma TupleFinish(v: Value, t: Type, ret: seq<byte>, tail: seq<byte>, offset: nat)
    requires t.Tuple? && ShapeOk(v, t) && TupleEncoded(v, t, |t.fields|, ret, tail, offset)
    ensures Accepts(v, t) && Encoding(v, t) == ret + tail
  {
    hide Encoding, Encoded, Items, ShapeOk, Accepts;
    Finish(v, t, [], ret, tail, offset);
  }

  /** The component a tuple value offers for field `i`: by position, or by key. */
  function Pick(v: Value, fs: seq<Field>, i: nat): Result<Value>
    requires i < |fs| && (v.VTuple? || ((v.VSlice? || v.VArray?) && |fs| <= |v.vs|))
  {
    if !v.VTuple? then Ok(v.vs[i])
    else if EffectiveName(fs, i) in v.m then Ok(v.m[EffectiveName(fs, i)])
    else Err
  }

  lemma TupleShape(v: Value, t: Type)
    requires t.Tuple?
    ensures var fs := t.fields;
            ShapeOk(v, t) <==>
              && (v.VTuple? || v.VSlice? || v.VArray?)
              && (if v.VTuple? then |v.m| else |v.vs|) >= |fs|
              && forall i :: 0 <= i < |fs| ==> Pick(v, fs, i).Ok?
  {
    var ns := Names(t.fields);
    if v.VTuple? {
      forall i | 0 <= i < |ns| ensures Pick(v, t.fields, i).Ok? <==> ns[i] in v.m {}
      if forall i :: 0 <= i < |ns| ==> Pick(v, t.fields, i).Ok? {
        forall i | 0 <= i < |ns| ensures ns[i] in v.m { assert Pick(v, t.fields, i).Ok?; }
      }
    }
  }

  lemma TupleItem(v: Value, t: Type, i: nat)
    requires t.Tuple? && ShapeOk(v, t) && i < |t.fields|
    ensures ItemTypes(v, t) == FieldTypes(t.fields) && Pick(v, t.fields, i) == Ok(Items(v, t)[i])
  {
    assert v.VTuple? ==> Names(t.fields)[i] in v.m;
  }

  /** The first loop of the tuple encoder: where the tails start. */
  method HeadSpace(fs: seq<Field>) returns (offset: nat)
    ensures offset == FieldsSize(fs)
  {
    offset := 0;
    var j := 0;
    while j < |fs|
      invariant 0 <= j <= |fs| && offset + FieldsSize(fs[j..]) == FieldsSize(fs)
    {
      assert fs[j..][1..] == fs[j + 1..];
      offset := offset + TypeSize(fs[j].typ);
      j := j + 1;
    }
  }

  lemma AcceptedShape(v: Value, t: Type)
    ensures Accepts(v, t) ==> ShapeOk(v, t)
    ensures ShapeOk(v, t) ==> (Accepts(v, t) <==> AcceptsAll(Items(v, t), ItemTypes(v, t)))
  {
  }

  lemma ListItems(v: Value, t: Type)
    requires ShapeOk(v, t) && (t.Slice? || t.Array?)
    ensures Items(v, t) == v.vs && ItemTypes(v, t) == Repeat(t.elem, |v.vs|)
  {
  }

  lemma FieldDepths(t: Type)
    requires t.Tuple?
    ensures forall i :: 0 <= i < |t.fields| ==> Depth(t.fields[i].typ) < Depth(t)
  {
    var ts := FieldTypes(t.fields);
    assert forall i :: 0 <= i < |ts| ==> Depth(ts[i]) <= DepthAll(ts);
  }

  lemma StartList(v: Value, t: Type, start: seq<byte>, offset: nat)
    requires (t.Slice? || t.Array?) && ShapeOk(v, t)
    requires offset == if IsDynamic(t.elem) then TypeSize(t.elem) * |v.vs| else 0
    ensures Encoded(Items(v, t), ItemTypes(v, t), 0, start, start, [], offset)
  {
    var vs, ts := Items(v, t), ItemTypes(v, t);
    hide Heads, TypeSize, SumSizes, Parts, HeadsSize, Tails, AcceptsAll;
    SumOfRepeat(t.elem, |v.vs|);
    assert ts == Repeat(t.elem, |v.vs|);
    Start(vs, ts, start, offset);
  }

  lemma StartTuple(v: Value, t: Type, offset: nat)
    requires t.Tuple? && ShapeOk(v, t) && offset == FieldsSize(t.fields)
    ensures Encoded(Items(v, t), ItemTypes(v, t), 0, [], [], [], offset)
  {
    hide Heads, TypeSize, SumSizes, Parts, HeadsSize, Tails, AcceptsAll;
    SumOfFields(t.fields);
    Start(Items(v, t), ItemTypes(v, t), [], offset);
  }

  lemma Start(vs: seq<Value>, ts: seq<Type>, start: seq<byte>, offset: nat)
    requires |vs| == |ts|
    requires offset == SumSizes(ts) || forall i :: 0 <= i < |ts| ==> !IsDynamic(ts[i])
    ensures Encoded(vs, ts, 0, start, start, [], offset)
  {
    hide Heads, TypeSize, SumSizes, Parts, HeadsSize, Tails, AcceptsAll, IsDynamic;
    assert vs[0..] == vs && ts[0..] == ts;
    if AcceptsAll(vs, ts) {
      PartsSize(vs, ts);
      if offset != SumSizes(ts) { StaticHeads(vs, ts, offset, HeadsSize(Parts(vs, ts))); }
      assert [] + Tails(Parts(vs, ts)) == Tails(Parts(vs, ts));
    }
  }

  /** Heads of static components do not depend on where the tails start. */
  lemma {:induction false} StaticHeads(vs: seq<Value>, ts: seq<Type>, a: nat, b: nat)
    requires |vs| == |ts| && AcceptsAll(vs, ts) && forall i :: 0 <= i < |ts| ==> !IsDynamic(ts[i])
    ensures Heads(Parts(vs, ts), a) == Heads(Parts(vs, ts), b)
    decreases |ts|
  {
    hide Encoding, IsDynamic, Word, Accepts;
    if ts != [] {
      PartsCons(vs, ts);
      StaticHeads(vs[1..], ts[1..], a, b);
    }
  }

  lemma EncodeStep(vs: seq<Value>, ts: seq<Type>, i: nat, start: seq<byte>, ret: seq<byte>, tail: seq<byte>, offset: nat)
    requires |vs| == |ts| && i < |ts| && Encoded(vs, ts, i, start, ret, tail, offset)
    ensures !Accepts(vs[i], ts[i]) ==> !AcceptsAll(vs, ts)
    ensures Accepts(vs[i], ts[i]) ==>
              var e := Encoding(vs[i], ts[i]);
              if IsDynamic(ts[i]) then Encoded(vs, ts, i + 1, start, ret + Word(offset), tail + e, offset + |e|)
              else Encoded(vs, ts, i + 1, start, ret + e, tail, offset)
  {
    hide Encoding, IsDynamic, Word, Accepts, Heads, Parts, HeadsSize, Tails;
    var us, qs := vs[i..], ts[i..];
    assert us[1..] == vs[i + 1..] && qs[1..] == ts[i + 1..];
    if AcceptsAll(vs, ts) {
      PartsCons(us, qs);
      HeadsCons(Parts(us, qs), offset);
    }
  }

  lemma Finish(v: Value, t: Type, start: seq<byte>, ret: seq<byte>, tail: seq<byte>, offset: nat)
    requires ShapeOk(v, t) && (t.Slice? || t.Array? || t.Tuple?)
    requires start == if t.Slice? then Word(|v.vs|) else []
    requires Encoded(Items(v, t), ItemTypes(v, t), |ItemTypes(v, t)|, start, ret, tail, offset)
    ensures Accepts(v, t) && Encoding(v, t) == ret + tail
  {
    hide Word, HeadsSize, Items, ItemTypes, Encoding, Accepts, ShapeOk, AcceptsAll;
    var vs, ts := Items(v, t), ItemTypes(v, t);
    var n := |ts|;
    AcceptedShape(v, t);
    NothingLeft(vs[n..], ts[n..]);
    assert vs[n..] == [] && ts[n..] == [];
    PartsNil(vs[n..], ts[n..]);
    ContainerEncoding(v, t);
    var ps := Parts(vs, ts);
    assert ret == start + Heads(ps, HeadsSize(ps)) && tail == Tails(ps);
    assert ret + tail == start + Layout(ps);
  }

  lemma NothingLeft(vs: seq<Value>, ts: seq<Type>)
    requires |vs| == |ts| == 0
    ensures AcceptsAll(vs, ts)
  {
  }

  lemma ContainerEncoding(v: Value, t: Type)
    requires Accepts(v, t) && (t.Slice? || t.Array? || t.Tuple?)
    ensures ShapeOk(v, t) && AcceptsAll(Items(v, t), ItemTypes(v, t)) && (t.Slice? ==> v.VSlice?)
    ensures Encoding(v, t)
         == (if t.Slice? then Word(|v.vs|) else []) + Layout(Parts(Items(v, t), ItemTypes(v, t)))
  {
    hide Word, Layout, Parts, Items, ItemTypes, AcceptsAll;
    var body := Layout(Parts(Items(v, t), ItemTypes(v, t)));
    assert [] + body == body;
  }

  // ---------------------------------------------------------------- decoding

  method DecodeValue(t: Type, input: seq<byte>) returns (r: Result<(Value, seq<byte>)>)
    requires WellSized(t)
    ensures r == Decode(t, input)
    decreases Depth(t), 1
  {
    hide Decode, DecodeAll, DecodeWord, ReadLength, WellSized, Repeat, FieldTypes, Names, Distinct, Zip, IsDynamic, Depth;
    DecodeUnfolds(t, input);
    if |input| < 32 { return Err; }
    var length := 0;
    if t.Slice? || t.Bytes? || t.String? {
      var n := ReadLength(input);
      if n.Err? { return Err; }
      length := n.value;
    }
    match t
    case Tuple(_) => r := DecodeTuple(t, input);
    case Slice(_) => r := DecodeArraySlice(t, input[32..], length);
    case Array(_, n) => r := DecodeArraySlice(t, input, n);
    case String => r := Ok((VString(input[32..32 + length]), input[32..]));
    case Bytes => r := Ok((VBytes(input[32..32 + length]), input[32..]));
    case _ =>
      var v := DecodeWord(t, input[..32]);
      r := if v.Err? then Err else Ok((v.value, input[32..]));
  }

  /** The decoder by cases on the type, short input and bad lengths first. */
  lemma DecodeUnfolds(t: Type, x: seq<byte>)
    requires WellSized(t)
    ensures |x| < 32 ==> Decode(t, x).Err?
    ensures |x| >= 32 && (t.Slice? || t.Bytes? || t.String?) && ReadLength(x).Err? ==> Decode(t, x).Err?
    ensures |x| >= 32 && (t.Bytes? || t.String?) && ReadLength(x).Ok? ==>
      var s := x[32..32 + ReadLength(x).value]; Decode(t, x) == Ok((if t.String? then VString(s) else VBytes(s), x[32..]))
    ensures |x| >= 32 && t.Slice? && ReadLength(x).Ok? ==> Decode(t, x) == ListOf(t, x[32..], ReadLength(x).value)
    ensures |x| >= 32 && t.Array? ==> Decode(t, x) == ListOf(t, x, t.len)
    ensures |x| >= 32 && IsWord(t) ==>
      Decode(t, x) == match DecodeWord(t, x[..32]) case Err => Err case Ok(v) => Ok((v, x[32..]))
  {
    hide DecodeAll, DecodeWord, ReadLength, WellSized, Repeat, FieldTypes, Names, Distinct, Zip, IsDynamic;
  }

  ghost function ListOf(t: Type, data: seq<byte>, size: nat): Result<(Value, seq<byte>)>
    requires (t.Slice? || t.Array?) && WellSized(t)
  {
    if 32 * size > |data| then Err
    else match DecodeAll(Repeat(t.elem, size), data, data)
      case Err => Err
      case Ok((vs, rest)) => Ok((if t.Slice? then VSlice(vs) else VArray(vs), rest))
  }

  /** The whole loop gives `acc` followed by what is still to be decoded. */
  ghost predicate Decoding(ts: seq<Type>, orig: seq<byte>, i: nat, acc: seq<Value>, data: seq<byte>)
    requires AllWellSized(ts) && i <= |ts|
  {
    && |acc| == i
    && DecodeAll(ts, orig, orig)
    == match DecodeAll(ts[i..], orig, data) case Err => Err case Ok((vs, end)) => Ok((acc + vs, end))
  }

  lemma DecodingStep(ts: seq<Type>, orig: seq<byte>, i: nat, acc: seq<Value>, data: seq<byte>)
    requires AllWellSized(ts) && i < |ts| && Decoding(ts, orig, i, acc, data)
    ensures var next := DecodeNext(ts[i], orig, data);
            if next.Err? then DecodeAll(ts, orig, orig).Err?
            else Decoding(ts, orig, i + 1, acc + [next.value.0], next.value.1)
  {
    hide DecodeNext, WellSized;
    assert ts[i..][1..] == ts[i + 1..];
    var next := DecodeNext(ts[i], orig, data);
    if next.Ok? && DecodeAll(ts[i + 1..], orig, next.value.1).Ok? {
      var vs := DecodeAll(ts[i + 1..], orig, next.value.1).value.0;
      assert acc + ([next.value.0] + vs) == acc + [next.value.0] + vs;
    }
  }

  lemma DecodingStart(ts: seq<Type>, orig: seq<byte>)
    requires AllWellSized(ts)
    ensures Decoding(ts, orig, 0, [], orig)
  {
    hide DecodeAll, WellSized;
    assert ts[0..] == ts;
    if DecodeAll(ts, orig, orig).Ok? {
      var vs := DecodeAll(ts, orig, orig).value.0;
      assert [] + vs == vs;
    }
  }

  lemma DecodingEnd(ts: seq<Type>, orig: seq<byte>, acc: seq<Value>, data: seq<byte>)
    requires AllWellSized(ts) && Decoding(ts, orig, |ts|, acc, data)
    ensures DecodeAll(ts, orig, orig) == Ok((acc, data))
  {
    assert ts[|ts|..] == [] && acc + [] == acc;
  }

  /** One iteration of either loop: a static component in place, a dynamic one at its offset into `orig`. */
  method DecodeComponent(typ: Type, orig: seq<byte>, data: seq<byte>) returns (r: Result<(Value, seq<byte>)>)
    requires WellSized(typ)
    ensures r == DecodeNext(typ, orig, data)
    decreases Depth(typ), 2
  {
    hide Decode, IsDynamic, WellSized, FromBytes;
    if |data| < 32 { return Err; }
    var entry := data;
    if IsDynamic(typ) {
      var offset := ReadOffset(data, |orig|);
      if offset.Err? { return Err; }
      entry := orig[offset.value..];
    }
    var val := DecodeValue(typ, entry);
    if val.Err? { return Err; }
    return Ok((val.value.0, if IsDynamic(typ) then data[32..] else val.value.1));
  }

  method DecodeTuple(t: Type, input: seq<byte>) returns (r: Result<(Value, seq<byte>)>)
    requires t.Tuple? && WellSized(t) && |input| >= 32
    ensures r == Decode(t, input)
    decreases Depth(t), 0
  {
    hide Decode, DecodeAll, DecodeNext, FromBytes, Decoding, Zip, Distinct, Depth, WellSized, FieldTypes, Names;
    FieldsWellSized(t);
    var res: map<string, Value> := map[];
    var orig, data := input, input;
    ghost var ts, acc: seq<Value> := FieldTypes(t.fields), [];
    var names := Names(t.fields);
    DecodeOfTuple(t, input);
    DecodingStart(ts, orig);
    ZipNil();
    FieldDepths(t);
    var i := 0;
    while i < |t.fields|
      invariant 0 <= i <= |t.fields|
      invariant Decoding(ts, orig, i, acc, data)
      invariant |acc| == i && Distinct(names[..i]) && res == Zip(names[..i], acc)
    {
      DecodingStep(ts, orig, i, acc, data);
      var val := DecodeComponent(t.fields[i].typ, orig, data);
      if val.Err? { return Err; }
      data := val.value.1;
      ZipSnoc(names, acc, i, val.value.0);
      if names[i] in res { return Err; }
      res := res[names[i] := val.value.0];
      acc := acc + [val.value.0];
      i := i + 1;
    }
    DecodingEnd(ts, orig, acc, data);
    assert names[..i] == names;
    return Ok((VTuple(res), data));
  }

  lemma FieldsWellSized(t: Type)
    requires t.Tuple? && WellSized(t)
    ensures AllWellSized(FieldTypes(t.fields)) && forall i :: 0 <= i < |t.fields| ==> WellSized(t.fields[i].typ)
  {
  }

  lemma ZipNil()
    ensures Zip([], []) == map[] && Distinct([])
  {
  }

  lemma ZipSnoc(ns: seq<string>, acc: seq<Value>, i: nat, v: Value)
    requires i < |ns| && |acc| == i && Distinct(ns[..i])
    ensures ns[i] in Zip(ns[..i], acc) ==> !Distinct(ns)
    ensures ns[i] !in Zip(ns[..i], acc) ==> Distinct(ns[..i + 1])
    ensures Zip(ns[..i + 1], acc + [v]) == Zip(ns[..i], acc)[ns[i] := v]
  {
    hide Zip;
    ZipKeys(ns[..i], acc, ns[i]);
    assert ns[..i + 1][..i] == ns[..i] && (acc + [v])[..i] == acc;
    ZipLast(ns[..i + 1], acc + [v]);
  }

  lemma ZipLast(ns: seq<string>, vs: seq<Value>)
    requires |ns| == |vs| > 0
    ensures var n := |ns| - 1; Zip(ns, vs) == Zip(ns[..n], vs[..n])[ns[n] := vs[n]]
  {
  }

  method DecodeArraySlice(t: Type, data: seq<byte>, size: nat) returns (r: Result<(Value, seq<byte>)>)
    requires (t.Slice? || t.Array?) && WellSized(t)
    ensures r == ListOf(t, data, size)
    decreases Depth(t), 0
  {
    hide Decode, DecodeAll, DecodeNext, FromBytes, Decoding;
    if 32 * size > |data| { return Err; }
    var res: seq<Value> := [];
    var orig, rest := data, data;
    ghost var ts := Repeat(t.elem, size);
    DecodingStart(ts, orig);
    var i := 0;
    while i < size
      invariant 0 <= i <= size
      invariant |res| == i && Decoding(ts, orig, i, res, rest)
    {
      DecodingStep(ts, orig, i, res, rest);
      var val := DecodeComponent(t.elem, orig, rest);
      if val.Err? { return Err; }
      rest := val.value.1;
      res := res + [val.value.0];
      i := i + 1;
    }
    DecodingEnd(ts, orig, res, rest);
    return Ok((if t.Slice? then VSlice(res) else VArray(res), rest));
  }
}

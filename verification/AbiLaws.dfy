/** Laws of the ABI codec: sizes, the clean round trip, what decoding can produce, and extension. */
module AbiLaws {
  import opened Words
  import opened AbiType
  import opened AbiEncode
  import opened AbiDecode
  import opened AbiRoundTrip

  // ---------------------------------------------------------------- sizes

  function SumSizes(ts: seq<Type>): nat
  {
    if ts == [] then 0 else TypeSize(ts[0]) + SumSizes(ts[1..])
  }

  lemma {:induction false} SumOfFields(fs: seq<Field>)
    ensures SumSizes(FieldTypes(fs)) == FieldsSize(fs)
  {
    if fs != [] { SumOfFields(fs[1..]); }
  }

  lemma {:induction false} SumOfRepeat(e: Type, n: nat)
    ensures SumSizes(Repeat(e, n)) == n * TypeSize(e)
  {
    if n > 0 {
      SumOfRepeat(e, n - 1);
      assert Repeat(e, n)[1..] == Repeat(e, n - 1);
      assert n * TypeSize(e) == TypeSize(e) + (n - 1) * TypeSize(e);
    }
  }

  /** Every encoding is a whole number of words; a static one has exactly the size getTypeSize predicts. */
  lemma {:induction false} EncodingSize(v: Value, t: Type)
    requires Accepts(v, t)
    ensures |Encoding(v, t)| % 32 == 0
    ensures !IsDynamic(t) ==> |Encoding(v, t)| == TypeSize(t)
    decreases Depth(t), 1
  {
    if t.Slice? || t.Array? || t.Tuple? {
      hide Encoding, Parts, HeadsSize, Tails, SumSizes, TypeSize, IsDynamic, Items, ItemTypes;
      PartsSize(Items(v, t), ItemTypes(v, t));
      ContainerSize(v, t);
    } else {
      ScalarSize(v, t);
    }
  }

  lemma ScalarSize(v: Value, t: Type)
    requires Accepts(v, t) && !(t.Slice? || t.Array? || t.Tuple?)
    ensures |Encoding(v, t)| % 32 == 0
    ensures !IsDynamic(t) ==> |Encoding(v, t)| == TypeSize(t)
  {
    hide Word, MinBytes, Items, ItemTypes, AcceptsAll;
  }

  lemma {:induction false} PartsSize(vs: seq<Value>, ts: seq<Type>)
    requires |vs| == |ts| && AcceptsAll(vs, ts)
    ensures HeadsSize(Parts(vs, ts)) == SumSizes(ts)
    ensures HeadsSize(Parts(vs, ts)) % 32 == 0 && |Tails(Parts(vs, ts))| % 32 == 0
    decreases DepthAll(ts), 2 * |ts|
  {
    hide Encoding, IsDynamic, Accepts, TypeSize, Parts, HeadsSize, Tails;
    if ts == [] {
      PartsNil(vs, ts);
    } else {
      EncodingSize(vs[0], ts[0]);
      DynamicHead(ts[0]);
      PartsSize(vs[1..], ts[1..]);
      PartsCons(vs, ts);
    }
  }

  lemma DynamicHead(t: Type)
    ensures IsDynamic(t) ==> TypeSize(t) == 32
  {
  }

  lemma ContainerSize(v: Value, t: Type)
    requires Accepts(v, t) && (t.Slice? || t.Array? || t.Tuple?)
    requires var ps := Parts(Items(v, t), ItemTypes(v, t));
             HeadsSize(ps) == SumSizes(ItemTypes(v, t)) && HeadsSize(ps) % 32 == 0 && |Tails(ps)| % 32 == 0
    ensures |Encoding(v, t)| % 32 == 0
    ensures !IsDynamic(t) ==> |Encoding(v, t)| == TypeSize(t)
  {
    hide Parts, Word, Tails, Heads, HeadsSize, SumSizes, AcceptsAll, TypeSize, FieldsSize, Repeat, FieldTypes, Encoding,
      IsDynamic;
    EncodingPrefix(v, t);
    if !IsDynamic(t) { StaticTails(v, t); }
    if t.Slice? {
      SliceIsDynamic(t);
    } else if t.Array? {
      SumOfRepeat(t.elem, t.len);
      if !IsDynamic(t) { StaticArraySize(t); }
    } else {
      SumOfFields(t.fields);
      StaticTupleSize(t);
    }
  }

  lemma SliceIsDynamic(t: Type)
    requires t.Slice?
    ensures IsDynamic(t)
  {
  }

  lemma StaticTupleSize(t: Type)
    requires t.Tuple?
    ensures !IsDynamic(t) ==> TypeSize(t) == FieldsSize(t.fields)
  {
  }

  lemma StaticArraySize(t: Type)
    requires t.Array? && !IsDynamic(t)
    ensures TypeSize(t) == t.len * TypeSize(t.elem)
  {
  }

  // ---------------------------------------------------------------- extension

  /** More input never changes what a successful decode returned; it only lengthens the rest. */
  lemma {:induction false} DecodeExtends(t: Type, x: seq<byte>, s: seq<byte>)
    requires WellSized(t) && Decode(t, x).Ok?
    ensures Decode(t, x + s) == Ok((Decode(t, x).value.0, Decode(t, x).value.1 + s))
    decreases Depth(t), 1
  {
    hide DecodeAll, DecodeWord, FromBytes, Decode;
    ShortInput(t, x);
    var y := x + s;
    assert y[..32] == x[..32] && y[32..] == x[32..] + s;
    if t.Tuple? {
      DecodeOfTuple(t, x);
      DecodeOfTuple(t, y);
      DecodeAllExtends(FieldTypes(t.fields), x, x, s);
    } else if t.Array? {
      DecodeOfArray(t, x);
      DecodeOfArray(t, y);
      DecodeAllExtends(Repeat(t.elem, t.len), x, x, s);
    } else if t.Slice? {
      SliceLength(t, x);
      var n := FromBytes(x[..32]);
      DecodeOfSlice(t, x, n);
      DecodeOfSlice(t, y, n);
      DecodeAllExtends(Repeat(t.elem, n), x[32..], x[32..], s);
    } else if t.String? || t.Bytes? {
      BytesExtend(t, x, s);
    } else {
      DecodeOfWord(t, x[..32], x[32..]);
      DecodeOfWord(t, x[..32], x[32..] + s);
      assert x == x[..32] + x[32..] && y == x[..32] + (x[32..] + s);
    }
  }

  lemma BytesExtend(t: Type, x: seq<byte>, s: seq<byte>)
    requires (t.String? || t.Bytes?) && WellSized(t) && Decode(t, x).Ok? && |x| >= 32
    ensures Decode(t, x + s) == Ok((Decode(t, x).value.0, Decode(t, x).value.1 + s))
  {
    hide FromBytes, Decode;
    var y := x + s;
    assert y[..32] == x[..32] && y[32..] == x[32..] + s;
    DecodeOfBytes(t, x);
    DecodeOfBytes(t, y);
    assert ReadLength(y) == ReadLength(x) && ReadLength(x).Ok?;
    var n := ReadLength(x).value;
    assert y[32..32 + n] == x[32..32 + n];
  }

  lemma ShortInput(t: Type, x: seq<byte>)
    requires WellSized(t)
    ensures Decode(t, x).Ok? ==> |x| >= 32
  {
  }

  lemma SliceLength(t: Type, x: seq<byte>)
    requires WellSized(t) && t.Slice? && Decode(t, x).Ok?
    ensures |x| >= 32 && FromBytes(x[..32]) < TWO_63
  {
    hide DecodeAll, FromBytes;
  }

  lemma DecodeOfBytes(t: Type, x: seq<byte>)
    requires WellSized(t) && (t.String? || t.Bytes?) && |x| >= 32
    ensures Decode(t, x)
         == match ReadLength(x)
            case Err => Err
            case Ok(n) => var b := x[32..32 + n]; Ok((if t.String? then VString(b) else VBytes(b), x[32..]))
  {
    hide FromBytes;
  }

  lemma {:induction false} DecodeAllExtends(ts: seq<Type>, orig: seq<byte>, data: seq<byte>, s: seq<byte>)
    requires AllWellSized(ts) && DecodeAll(ts, orig, data).Ok?
    ensures DecodeAll(ts, orig + s, data + s)
         == Ok((DecodeAll(ts, orig, data).value.0, DecodeAll(ts, orig, data).value.1 + s))
    decreases DepthAll(ts), 3 * |ts|
  {
    hide DecodeNext, Decode, WellSized;
    if ts != [] {
      DecodeNextExtends(ts[0], orig, data, s);
      DecodeAllExtends(ts[1..], orig, DecodeNext(ts[0], orig, data).value.1, s);
    }
  }

  lemma {:induction false} DecodeNextExtends(t: Type, orig: seq<byte>, data: seq<byte>, s: seq<byte>)
    requires WellSized(t) && DecodeNext(t, orig, data).Ok?
    ensures DecodeNext(t, orig + s, data + s)
         == Ok((DecodeNext(t, orig, data).value.0, DecodeNext(t, orig, data).value.1 + s))
    decreases Depth(t), 2
  {
    hide Decode, WellSized, IsDynamic, FromBytes;
    if IsDynamic(t) {
      var n := FromBytes(data[..32]);
      DecodeExtends(t, orig[n..], s);
      assert (orig + s)[n..] == orig[n..] + s;
      assert (data + s)[..32] == data[..32] && (data + s)[32..] == data[32..] + s;
    } else {
      DecodeExtends(t, data, s);
    }
  }

  // ---------------------------------------------------------------- well-typed values

  /** The values a type really denotes: integers in their Go range, byte strings of their size, tuples as
      maps with exactly the keys of the type. */
  predicate WellTyped(v: Value, t: Type)
  {
    Accepts(v, t) && InRange(v, t)
  }

  predicate InRange(v: Value, t: Type)
    requires Accepts(v, t)
    decreases Depth(t), 1
  {
    match t
    case UInt(bits) => 0 <= v.i < Pow256(ByteWidth(bits))
    case Int(bits) => var p: int := Pow256(ByteWidth(bits)); -p <= 2 * v.i < p
    case FixedBytes(n) => |v.s| == n
    case Function => |v.s| == 24
    case Address => |v.s| == 20
    case Slice(_) | Array(_, _) => InRangeAll(Items(v, t), ItemTypes(v, t))
    case Tuple(fs) =>
      && v.VTuple? && Distinct(Names(fs)) && (forall k :: k in v.m ==> k in Names(fs))
      && InRangeAll(Items(v, t), ItemTypes(v, t))
    case _ => true
  }

  predicate InRangeAll(vs: seq<Value>, ts: seq<Type>)
    requires |vs| == |ts| && AcceptsAll(vs, ts)
    decreases DepthAll(ts), 2 * |ts|
  {
    ts != [] ==> InRange(vs[0], ts[0]) && InRangeAll(vs[1..], ts[1..])
  }

  /** Exactly the well-typed values are their own normal form, so exactly they survive a round trip. */
  lemma {:induction false} NormalIffWellTyped(v: Value, t: Type)
    requires Accepts(v, t) && WellSized(t)
    ensures Normal(v, t) == v <==> WellTyped(v, t)
    decreases Depth(t), 1
  {
    if t.Slice? || t.Array? || t.Tuple? {
      hide Items, ItemTypes, WellSized, AllWellSized, NormalAll, InRangeAll, AcceptsAll, Normal, InRange;
      ItemTypesWellSized(v, t);
      NormalAllIff(Items(v, t), ItemTypes(v, t));
      NormalContainer(v, t);
    } else {
      NormalScalar(v, t);
    }
  }

  lemma NormalScalar(v: Value, t: Type)
    requires Accepts(v, t) && WellSized(t) && !(t.Slice? || t.Array? || t.Tuple?)
    ensures Normal(v, t) == v <==> InRange(v, t)
  {
    hide Items, ItemTypes, AcceptsAll, Pow256;
    match t
    case UInt(bits) => ResidueIff(v.i, Pow256(ByteWidth(bits)));
    case Int(bits) => SignedIff(v.i, ByteWidth(bits));
    case _ =>
  }

  lemma ResidueIff(i: int, p: nat)
    requires p >= 1
    ensures i % p == i <==> 0 <= i < p
  {
    if 0 <= i < p { ModUnique(i, p, 0, i); }
  }

  lemma SignedIff(i: int, k: nat)
    requires k >= 1
    ensures Signed(i, k) == i <==> var p: int := Pow256(k); -p <= 2 * i < p
  {
    hide Pow256;
    SignedResidue(i, Pow256(k));
  }

  lemma SignedResidue(i: int, p: int)
    requires p >= 1
    ensures (if 2 * (i % p) >= p then i % p - p else i % p) == i <==> -p <= 2 * i < p
  {
    if 0 <= i < p { ModUnique(i, p, 0, i); }
    if -p <= i < 0 { ModUnique(i, p, -1, i + p); }
  }

  lemma {:induction false} NormalAllIff(vs: seq<Value>, ts: seq<Type>)
    requires |vs| == |ts| && AcceptsAll(vs, ts) && AllWellSized(ts)
    ensures NormalAll(vs, ts) == vs <==> InRangeAll(vs, ts)
    decreases DepthAll(ts), 2 * |ts|
  {
    hide Normal, InRange, Accepts, WellSized;
    if ts != [] {
      NormalIffWellTyped(vs[0], ts[0]);
      NormalAllIff(vs[1..], ts[1..]);
      assert vs == [vs[0]] + vs[1..];
      assert NormalAll(vs, ts)[1..] == NormalAll(vs[1..], ts[1..]);
    }
  }

  lemma NormalContainer(v: Value, t: Type)
    requires Accepts(v, t) && WellSized(t) && (t.Slice? || t.Array? || t.Tuple?) && AllWellSized(ItemTypes(v, t))
    requires NormalAll(Items(v, t), ItemTypes(v, t)) == Items(v, t) <==> InRangeAll(Items(v, t), ItemTypes(v, t))
    ensures Normal(v, t) == v <==> InRange(v, t)
  {
    hide NormalAll, InRangeAll, AcceptsAll, WellSized, Zip, Names, Distinct;
    if t.Tuple? && v.VTuple? {
      var ns, vs := Names(t.fields), NormalAll(Items(v, t), ItemTypes(v, t));
      ZipIsMap(ns, vs, v.m);
      assert Items(v, t) == Lookup(v.m, ns);
    }
  }

  /** A zipped map equals `m` exactly when the keys are distinct and `m` has these keys and values. */
  lemma ZipIsMap(ns: seq<string>, vs: seq<Value>, m: map<string, Value>)
    requires |ns| == |vs| && |m| >= |ns| && forall i :: 0 <= i < |ns| ==> ns[i] in m
    ensures Zip(ns, vs) == m
       <==> Distinct(ns) && (forall k :: k in m ==> k in ns) && vs == Lookup(m, ns)
  {
    hide Zip;
    if Zip(ns, vs) == m {
      ZipDistinct(ns, vs);
      forall k | k in m ensures k in ns { ZipKeys(ns, vs, k); }
      forall i | 0 <= i < |ns| ensures vs[i] == m[ns[i]] { ZipAt(ns, vs, i); }
    }
    if Distinct(ns) && (forall k :: k in m ==> k in ns) && vs == Lookup(m, ns) {
      forall k ensures k in Zip(ns, vs) <==> k in m { ZipKeys(ns, vs, k); }
      forall k | k in m ensures k in Zip(ns, vs) && Zip(ns, vs)[k] == m[k] {
        var i :| 0 <= i < |ns| && ns[i] == k;
        ZipAt(ns, vs, i);
      }
    }
  }

  lemma {:induction false} ZipDistinct(ns: seq<string>, vs: seq<Value>)
    requires |ns| == |vs|
    ensures |Zip(ns, vs)| <= |ns|
    ensures |Zip(ns, vs)| == |ns| ==> Distinct(ns)
  {
    if ns != [] {
      var n := |ns| - 1;
      ZipDistinct(ns[..n], vs[..n]);
      ZipKeys(ns[..n], vs[..n], ns[n]);
    }
  }

  /** Whatever bytes the decoder accepts, the value it returns is well-typed. */
  lemma {:induction false} DecodedWellTyped(t: Type, x: seq<byte>)
    requires WellSized(t) && Decode(t, x).Ok?
    ensures WellTyped(Decode(t, x).value.0, t)
    decreases Depth(t), 1
  {
    hide DecodeAll, DecodeWord, FromBytes, Decode, WellTyped, AcceptsAll, InRangeAll;
    ShortInput(t, x);
    if t.Tuple? {
      DecodeOfTuple(t, x);
      var ns, vs := Names(t.fields), DecodeAll(FieldTypes(t.fields), x, x).value.0;
      DecodedAllWellTyped(FieldTypes(t.fields), x, x);
      TupleWellTyped(t, vs);
    } else if t.Array? {
      DecodeOfArray(t, x);
      DecodedAllWellTyped(Repeat(t.elem, t.len), x, x);
      ListWellTyped(t, DecodeAll(Repeat(t.elem, t.len), x, x).value.0);
    } else if t.Slice? {
      SliceLength(t, x);
      var n := FromBytes(x[..32]);
      DecodeOfSlice(t, x, n);
      DecodedAllWellTyped(Repeat(t.elem, n), x[32..], x[32..]);
      ListWellTyped(t, DecodeAll(Repeat(t.elem, n), x[32..], x[32..]).value.0);
    } else if t.String? || t.Bytes? {
      DecodeOfBytes(t, x);
      ScalarWellTyped(t, Decode(t, x).value.0);
    } else {
      DecodeOfWord(t, x[..32], x[32..]);
      assert x == x[..32] + x[32..];
      WordWellTyped(t, x[..32]);
    }
  }

  lemma ScalarWellTyped(t: Type, v: Value)
    requires (t.String? && v.VString?) || (t.Bytes? && v.VBytes?)
    ensures WellTyped(v, t)
  {
  }

  lemma WordWellTyped(t: Type, w: seq<byte>)
    requires WellSized(t) && IsWord(t) && |w| == 32 && DecodeWord(t, w).Ok?
    ensures WellTyped(DecodeWord(t, w).value, t)
  {
    hide FromBytes, Pow256;
    var v := DecodeWord(t, w).value;
    assert Accepts(v, t);
    if t.UInt? || t.Int? { IntegerWellTyped(t.bits, t.Int?, w); }
  }

  lemma IntegerWellTyped(bits: nat, signed: bool, w: seq<byte>)
    requires |w| == 32
    ensures var p: int, i := Pow256(ByteWidth(bits)), ReadInteger(bits, signed, w);
            if signed then -p <= 2 * i < p else 0 <= i < p
  {
    hide Pow256;
  }

  lemma ListWellTyped(t: Type, vs: seq<Value>)
    requires (t.Array? && |vs| == t.len) || (t.Slice? && |vs| < TWO_63)
    requires AcceptsAll(vs, Repeat(t.elem, |vs|)) && InRangeAll(vs, Repeat(t.elem, |vs|))
    ensures WellTyped(if t.Array? then VArray(vs) else VSlice(vs), t)
  {
    hide AcceptsAll, InRangeAll, Repeat;
  }

  lemma TupleWellTyped(t: Type, vs: seq<Value>)
    requires t.Tuple? && |vs| == |t.fields| && Distinct(Names(t.fields))
    requires AcceptsAll(vs, FieldTypes(t.fields)) && InRangeAll(vs, FieldTypes(t.fields))
    ensures WellTyped(VTuple(Zip(Names(t.fields), vs)), t)
  {
    hide AcceptsAll, InRangeAll, Zip, FieldTypes, EffectiveName;
    var ns := Names(t.fields);
    var m := Zip(ns, vs);
    ZipSize(ns, vs);
    forall i | 0 <= i < |ns| ensures ns[i] in m && m[ns[i]] == vs[i] { ZipAt(ns, vs, i); }
    forall k | k in m ensures k in ns { ZipKeys(ns, vs, k); }
    assert Lookup(m, ns) == vs;
  }

  lemma {:induction false} DecodedAllWellTyped(ts: seq<Type>, orig: seq<byte>, data: seq<byte>)
    requires AllWellSized(ts) && DecodeAll(ts, orig, data).Ok?
    ensures var vs := DecodeAll(ts, orig, data).value.0; AcceptsAll(vs, ts) && InRangeAll(vs, ts)
    decreases DepthAll(ts), 3 * |ts|
  {
    hide Decode, WellSized, Accepts, InRange;
    if ts != [] {
      var n := FromBytes(data[..32]);
      DecodedWellTyped(ts[0], if IsDynamic(ts[0]) then orig[n..] else data);
      DecodedAllWellTyped(ts[1..], orig, DecodeNext(ts[0], orig, data).value.1);
      assert DecodeAll(ts, orig, data).value.0[1..] == DecodeAll(ts[1..], orig, DecodeNext(ts[0], orig, data).value.1).value.0;
    }
  }

  // ---------------------------------------------------------------- regular types

  /** In a type without zero-size parts and repeated keys, the encoding alone is always long enough. */
  lemma {:induction false} RegularFits(v: Value, t: Type, len: int)
    requires WellTyped(v, t) && Regular(t) && len >= |Encoding(v, t)|
    ensures |Encoding(v, t)| >= 32 && Fits(v, t, len)
    decreases Depth(t), 1
  {
    if t.Slice? || t.Array? || t.Tuple? {
      hide Encoding, Fits, Parts, HeadsSize, Tails, Regular, InRange, Items, ItemTypes, AcceptsAll, InRangeAll;
      var vs, ts := Items(v, t), ItemTypes(v, t);
      ItemTypesRegular(v, t);
      LayoutBound(v, t);
      var size := if t.Slice? then len - 32 else len;
      EncodingPrefix(v, t);
      RegularFitsAll(vs, ts, size, size - HeadsSize(Parts(vs, ts)));
      FitsContainer(v, t, len);
    } else {
      hide Encoding, Fits, Items, ItemTypes, AcceptsAll, Accepts, InRange;
      ScalarFits(v, t, len);
    }
  }

  lemma ScalarFits(v: Value, t: Type, len: int)
    requires WellTyped(v, t) && !(t.Slice? || t.Array? || t.Tuple?) && len >= |Encoding(v, t)|
    ensures |Encoding(v, t)| >= 32 && Fits(v, t, len)
  {
    hide Word, MinBytes, Items, ItemTypes, AcceptsAll;
  }

  lemma ItemTypesRegular(v: Value, t: Type)
    requires WellTyped(v, t) && Regular(t) && (t.Slice? || t.Array? || t.Tuple?)
    ensures var vs, ts := Items(v, t), ItemTypes(v, t);
            InRangeAll(vs, ts) && (forall i :: 0 <= i < |ts| ==> Regular(ts[i])) && (!t.Slice? ==> ts != [])
  {
    hide AcceptsAll, InRangeAll;
  }

  lemma EncodingPrefix(v: Value, t: Type)
    requires Accepts(v, t) && (t.Slice? || t.Array? || t.Tuple?)
    ensures var ps := Parts(Items(v, t), ItemTypes(v, t));
            |Encoding(v, t)| == (if t.Slice? then 32 else 0) + HeadsSize(ps) + |Tails(ps)|
  {
    hide Heads, Tails, HeadsSize, Parts, Word;
  }

  lemma FitsContainer(v: Value, t: Type, len: int)
    requires WellTyped(v, t) && (t.Slice? || t.Array? || t.Tuple?) && len >= 32
    requires var vs, ts := Items(v, t), ItemTypes(v, t);
             var size := if t.Slice? then len - 32 else len;
             FitsAll(vs, ts, size, size - HeadsSize(Parts(vs, ts))) && size >= 32 * |vs|
    ensures Fits(v, t, len)
  {
    hide FitsAll, HeadsSize, Parts, AcceptsAll, InRangeAll, Names, Distinct, Items, ItemTypes, FieldTypes, Repeat;
    ContainerItems(v, t);
    var vs, ts := Items(v, t), ItemTypes(v, t);
    var size := if t.Slice? then len - 32 else len;
    assert FitsLayout(vs, ts, size);
  }

  lemma ContainerItems(v: Value, t: Type)
    requires WellTyped(v, t) && (t.Slice? || t.Array? || t.Tuple?)
    ensures t.Slice? ==> v.VSlice? && |v.vs| == |Items(v, t)|
    ensures t.Array? ==> v.VArray? && t.len == |Items(v, t)|
    ensures t.Tuple? ==> Distinct(Names(t.fields))
  {
    hide AcceptsAll, InRangeAll, Names, Distinct;
  }

  lemma {:induction false} RegularFitsAll(vs: seq<Value>, ts: seq<Type>, data: int, tail: int)
    requires |vs| == |ts| && AcceptsAll(vs, ts) && InRangeAll(vs, ts)
    requires forall i :: 0 <= i < |ts| ==> Regular(ts[i])
    requires data >= HeadsSize(Parts(vs, ts)) && tail >= |Tails(Parts(vs, ts))|
    ensures FitsAll(vs, ts, data, tail) && HeadsSize(Parts(vs, ts)) >= 32 * |ts|
    decreases DepthAll(ts), 2 * |ts|
  {
    hide Encoding, IsDynamic, Accepts, InRange, Fits, Regular, Parts, HeadsSize, Tails;
    if ts == [] {
      PartsNil(vs, ts);
    } else {
      PartsCons(vs, ts);
      RegularFits(vs[0], ts[0], if IsDynamic(ts[0]) then tail else data);
      var size := |Encoding(vs[0], ts[0])|;
      if IsDynamic(ts[0]) {
        RegularFitsAll(vs[1..], ts[1..], data - 32, tail - size);
      } else {
        RegularFitsAll(vs[1..], ts[1..], data - size, tail);
      }
    }
  }

  // ---------------------------------------------------------------- the theorems

  /** The round trip the codec is for: any well-typed value of a regular type, before any suffix. */
  lemma CleanRoundTrip(v: Value, t: Type, s: seq<byte>)
    requires WellTyped(v, t) && WellSized(t) && Regular(t) && |Encoding(v, t)| < TWO_63
    ensures var r := Decode(t, Encoding(v, t) + s);
            r.Ok? && r.value.0 == v && (!IsDynamic(t) ==> r.value.1 == s)
  {
    hide Encoding, Decode, Fits, Normal, IsDynamic, WellSized, Accepts, InRange, Regular;
    RoundTrip(v, t, s);
    RegularFits(v, t, |Encoding(v, t)| + |s|);
    NormalIffWellTyped(v, t);
  }

  /** Decode, encode, decode: any accepted input, however its offsets overlap, stands for a value that its
      canonical encoding gives back, exactly when that encoding fits. */
  lemma Canonicalisation(t: Type, x: seq<byte>)
    requires WellSized(t) && Decode(t, x).Ok?
    ensures var v := Decode(t, x).value.0;
            && WellTyped(v, t)
            && (|Encoding(v, t)| < TWO_63 ==>
                var r := Decode(t, Encoding(v, t));
                && (r.Ok? <==> Fits(v, t, |Encoding(v, t)|))
                && (r.Ok? ==> r.value.0 == v)
                && (Regular(t) ==> r.Ok?))
  {
    hide Encoding, Decode, Fits, Normal, IsDynamic, WellSized, Accepts, InRange, Regular;
    DecodedWellTyped(t, x);
    var v := Decode(t, x).value.0;
    if |Encoding(v, t)| < TWO_63 {
      RoundTrip(v, t, []);
      assert Encoding(v, t) + [] == Encoding(v, t);
      NormalIffWellTyped(v, t);
      if Regular(t) { RegularFits(v, t, |Encoding(v, t)|); }
    }
  }

  /** Without regularity the law fails: a component of size zero in last place, as in `tuple(uint8,tuple())`,
      asks for 32 bytes that its encoding does not have. */
  lemma ZeroSizeCounterexample(a: Value, b: Value, fs: seq<Field>)
    requires a.VInt? && b == VTuple(map[]) && |fs| == 2 && fs[0].typ == UInt(8) && fs[1].typ == Tuple([])
    ensures var v, t := VSlice([a, b]), Tuple(fs);
            Accepts(v, t) && WellSized(t) && |Encoding(v, t)| == 32 && Decode(t, Encoding(v, t)).Err?
  {
    hide Encoding, Decode, Fits, Normal, Accepts, WellSized;
    var v, t := VSlice([a, b]), Tuple(fs);
    EmptyLast(a, b, v, t);
    RoundTrip(v, t, []);
    assert Encoding(v, t) + [] == Encoding(v, t);
  }

  lemma EmptyLast(a: Value, b: Value, v: Value, t: Type)
    requires a.VInt? && b == VTuple(map[]) && v == VSlice([a, b])
    requires t.Tuple? && |t.fields| == 2 && t.fields[0].typ == UInt(8) && t.fields[1].typ == Tuple([])
    ensures Accepts(v, t) && WellSized(t) && |Encoding(v, t)| == 32 && !Fits(v, t, 32)
  {
    hide Encoding, Fits, FitsAll, HeadsSize, Parts, Accepts, AcceptsAll, Items, ItemTypes;
    var ts := FieldTypes(t.fields);
    EmptyAccepted(a, b, v, t, ts);
    EmptySize(t);
    EncodingSize(v, t);
    EncodingSize(a, ts[0]);
    EmptyDoesNotFit(a, b, ts, 32 - HeadsSize(Parts([a, b], ts)));
    TupleFits(v, t, [a, b], ts, 32);
  }

  lemma EmptySize(t: Type)
    requires t.Tuple? && |t.fields| == 2 && t.fields[0].typ == UInt(8) && t.fields[1].typ == Tuple([])
    ensures !IsDynamic(t) && TypeSize(t) == 32
  {
    var fs := t.fields;
    TwoFields(fs);
    assert forall f | f in fs :: f == fs[0] || f == fs[1];
    assert !IsDynamic(UInt(8)) && !IsDynamic(Tuple([]));
  }

  lemma TwoFields(fs: seq<Field>)
    requires |fs| == 2 && fs[0].typ == UInt(8) && fs[1].typ == Tuple([])
    ensures FieldsSize(fs) == 32
  {
    var rest := fs[1..];
    assert |rest| == 1 && rest[0] == fs[1] && FieldsSize(rest[1..]) == 0;
    assert TypeSize(rest[0].typ) == 0;
    assert FieldsSize(rest) == 0;
  }

  lemma EmptyAccepted(a: Value, b: Value, v: Value, t: Type, ts: seq<Type>)
    requires a.VInt? && b == VTuple(map[]) && v == VSlice([a, b]) && t.Tuple? && ts == FieldTypes(t.fields)
    requires |t.fields| == 2 && t.fields[0].typ == UInt(8) && t.fields[1].typ == Tuple([])
    ensures AcceptsAll([a, b], ts) && Accepts(a, ts[0])
    ensures Accepts(v, t) && Items(v, t) == [a, b] && ItemTypes(v, t) == ts
  {
    assert v.vs[..2] == [a, b];
    assert Accepts(a, ts[0]) && Accepts(b, ts[1]);
    assert [a, b][1..] == [b] && [b][1..] == [];
    assert AcceptsAll([b], ts[1..]);
    assert AcceptsAll([a, b], ts);
  }

  lemma TupleFits(v: Value, t: Type, vs: seq<Value>, ts: seq<Type>, len: int)
    requires t.Tuple? && Accepts(v, t) && Items(v, t) == vs && ItemTypes(v, t) == ts && AcceptsAll(vs, ts)
    ensures Fits(v, t, len) ==> FitsAll(vs, ts, len, len - HeadsSize(Parts(vs, ts)))
  {
    hide Parts, HeadsSize, Encoding, FitsAll;
    assert Fits(v, t, len) ==> FitsLayout(vs, ts, len);
  }

  lemma EmptyDoesNotFit(a: Value, b: Value, ts: seq<Type>, tail: int)
    requires |ts| == 2 && ts[0] == UInt(8) && ts[1] == Tuple([])
    requires AcceptsAll([a, b], ts) && Accepts(a, ts[0]) && |Encoding(a, ts[0])| == 32
    ensures !FitsAll([a, b], ts, 32, tail)
  {
    hide Encoding, Fits, Accepts;
    assert [a, b][1..] == [b] && !IsDynamic(ts[0]);
    assert AcceptsAll([b], ts[1..]);
    assert !FitsAll([b], ts[1..], 0, tail);
  }
}

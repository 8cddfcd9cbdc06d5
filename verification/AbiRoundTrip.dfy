/** What decoding an encoding gives back, for every type, every accepted value and every suffix. */
module AbiRoundTrip {
  import opened Words
  import opened AbiType
  import opened AbiEncode
  import opened AbiDecode

  /** Two's complement reading of the k low-order bytes of an integer. */
  function Signed(i: int, k: nat): int
  {
    var m := i % Pow256(k);
    if 2 * m >= Pow256(k) then m - Pow256(k) else m
  }

  /** The value an encoding stands for: integers wrapped to their Go width, byte strings cut or filled to
      size, and every tuple in map form. */
  function Normal(v: Value, t: Type): (r: Value)
    requires Accepts(v, t) && WellSized(t)
    decreases Depth(t), 1
  {
    match t
    case Bool | String | Bytes => v
    case UInt(bits) => VInt(v.i % Pow256(ByteWidth(bits)))
    case Int(bits) => VInt(Signed(v.i, ByteWidth(bits)))
    case FixedBytes(n) => VBytes(PadBytes(v.s, 32, false)[..n])
    case Function => VBytes(PadBytes(v.s, 32, false)[..24])
    case Address => VBytes(PadBytes(v.s, 32, true)[12..])
    case Slice(_) => VSlice(NormalAll(Items(v, t), ItemTypes(v, t)))
    case Array(_, _) => VArray(NormalAll(Items(v, t), ItemTypes(v, t)))
    case Tuple(fs) => VTuple(Zip(Names(fs), NormalAll(Items(v, t), ItemTypes(v, t))))
  }

  function NormalAll(vs: seq<Value>, ts: seq<Type>): (r: seq<Value>)
    requires |vs| == |ts| && AcceptsAll(vs, ts) && AllWellSized(ts)
    ensures |r| == |vs|
    decreases DepthAll(ts), 2 * |ts|
  {
    if ts == [] then [] else [Normal(vs[0], ts[0])] + NormalAll(vs[1..], ts[1..])
  }

  /** Whether `len` bytes from the start of the encoding satisfy every length check of the decoder. Only
      zero-size parts, repeated tuple keys and over-long function values can make this false. */
  predicate Fits(v: Value, t: Type, len: int)
    requires Accepts(v, t)
    decreases Depth(t), 1
  {
    && len >= 32
    && match t
       case Function => PadBytes(v.s, 32, false)[24..] == Zeros(8)
       case Slice(_) => 32 * |v.vs| <= len - 32 && FitsLayout(Items(v, t), ItemTypes(v, t), len - 32)
       case Array(_, n) => 32 * n <= len && FitsLayout(Items(v, t), ItemTypes(v, t), len)
       case Tuple(fs) => Distinct(Names(fs)) && FitsLayout(Items(v, t), ItemTypes(v, t), len)
       case _ => true
  }

  predicate FitsLayout(vs: seq<Value>, ts: seq<Type>, len: int)
    requires |vs| == |ts| && AcceptsAll(vs, ts)
    decreases DepthAll(ts), 2 * |ts| + 1
  {
    FitsAll(vs, ts, len, len - HeadsSize(Parts(vs, ts)))
  }

  /** `data` bytes are left from the current head on, `tail` bytes from the current tail on. */
  predicate FitsAll(vs: seq<Value>, ts: seq<Type>, data: int, tail: int)
    requires |vs| == |ts| && AcceptsAll(vs, ts)
    decreases DepthAll(ts), 2 * |ts|
  {
    ts != [] ==>
      var size := |Encoding(vs[0], ts[0])|;
      && data >= 32
      && (if IsDynamic(ts[0])
          then Fits(vs[0], ts[0], tail) && FitsAll(vs[1..], ts[1..], data - 32, tail - size)
          else Fits(vs[0], ts[0], data) && FitsAll(vs[1..], ts[1..], data - size, tail))
  }

  // ---------------------------------------------------------------- one word

  lemma WordSuffix(i: int, k: nat)
    requires k <= 32
    ensures FromBytes(Word(i)[32 - k..]) == i % Pow256(k)
  {
    hide *;
    var n := 32;
    WordIsLowBytes(i, n);
    LowBytesSuffix(i, n, k);
    LowBytesValue(i, k);
  }

  lemma SmallWord(n: nat)
    requires n < TWO_256
    ensures FromBytes(Word(n)) == n
  {
    WordValue(n);
  }

  predicate IsWord(t: Type)
  {
    !(t.String? || t.Bytes? || t.Slice? || t.Array? || t.Tuple?)
  }

  lemma BoolWord(b: bool)
    ensures PadBytes(MinBytes(if b then 1 else 0), 32, true)[31] == if b then 1 else 0
  {
    assert MinBytes(0) == [];
    assert MinBytes(1) == [1];
  }

  lemma WordRoundTrip(v: Value, t: Type)
    requires Accepts(v, t) && WellSized(t) && IsWord(t)
    ensures |Encoding(v, t)| == 32 && !IsDynamic(t)
    ensures DecodeWord(t, Encoding(v, t)) == if Fits(v, t, 32) then Ok(Normal(v, t)) else Err
  {
    hide Word, FromBytes, Pow256, MinBytes, Items, AcceptsAll, ItemTypes;
    match t
    case Bool => BoolWord(v.b);
    case UInt(bits) => WordSuffix(v.i, ByteWidth(bits));
    case Int(bits) => WordSuffix(v.i, ByteWidth(bits));
    case _ =>
  }

  // ---------------------------------------------------------------- every type

  /** `r` is what decoding should give when `fits` holds: the normal value and, if static, the suffix. */
  ghost predicate Recovers(r: Result<(Value, seq<byte>)>, fits: bool, v: Value, whole: bool, rest: seq<byte>)
  {
    && (r.Ok? <==> fits)
    && (r.Ok? ==> r.value.0 == v && (whole ==> r.value.1 == rest))
  }

  /** Decoding an encoding followed by any bytes: it succeeds exactly when the lengths fit, and then gives
      the normal form of the value, with the suffix untouched for static types. */
  lemma {:induction false} RoundTrip(v: Value, t: Type, s: seq<byte>)
    requires Accepts(v, t) && WellSized(t) && |Encoding(v, t)| < TWO_63
    ensures Recovers(Decode(t, Encoding(v, t) + s), Fits(v, t, |Encoding(v, t)| + |s|), Normal(v, t), !IsDynamic(t), s)
    decreases Depth(t), 1
  {
    hide Encoding, Decode, Fits, Normal, Recovers, IsDynamic, WellSized, Accepts;
    if IsWord(t) {
      WordInput(v, t, s);
    } else if t.String? || t.Bytes? {
      BytesInput(v, t, s);
    } else {
      LayoutInput(v, t, s);
    }
  }

  lemma WordInput(v: Value, t: Type, s: seq<byte>)
    requires Accepts(v, t) && WellSized(t) && IsWord(t)
    ensures Recovers(Decode(t, Encoding(v, t) + s), Fits(v, t, |Encoding(v, t)| + |s|), Normal(v, t), !IsDynamic(t), s)
  {
    hide Decode, DecodeWord, Encoding, Normal, Fits, IsDynamic, Accepts, WellSized;
    WordRoundTrip(v, t);
    FitsWord(v, t, 32 + |s|);
    DecodeOfWord(t, Encoding(v, t), s);
  }

  lemma FitsWord(v: Value, t: Type, len: int)
    requires Accepts(v, t) && IsWord(t) && len >= 32
    ensures Fits(v, t, len) == Fits(v, t, 32)
  {
  }

  lemma DecodeOfWord(t: Type, w: seq<byte>, s: seq<byte>)
    requires WellSized(t) && IsWord(t) && |w| == 32
    ensures Decode(t, w + s) == match DecodeWord(t, w) case Err => Err case Ok(v) => Ok((v, s))
  {
    assert (w + s)[..32] == w && (w + s)[32..] == s;
  }

  lemma BytesInput(v: Value, t: Type, s: seq<byte>)
    requires Accepts(v, t) && WellSized(t) && (t.String? || t.Bytes?) && |Encoding(v, t)| < TWO_63
    ensures Recovers(Decode(t, Encoding(v, t) + s), Fits(v, t, |Encoding(v, t)| + |s|), Normal(v, t), !IsDynamic(t), s)
  {
    var x := PackBytes(v.s) + s;
    PackedLength(v.s, s);
  }

  lemma PackedLength(b: seq<byte>, s: seq<byte>)
    requires |b| < TWO_63
    ensures var x := PackBytes(b) + s;
            |x| >= 32 && ReadLength(x) == Ok(|b|) && x[32..32 + |b|] == b
  {
    var x := PackBytes(b) + s;
    SmallWord(|b|);
    hide Word;
    assert x[..32] == PackBytes(b)[..32] == Word(|b|);
    assert x[32..32 + |b|] == PackBytes(b)[32..32 + |b|];
  }

  lemma {:induction false} LayoutInput(v: Value, t: Type, s: seq<byte>)
    requires Accepts(v, t) && WellSized(t) && (t.Slice? || t.Array? || t.Tuple?) && |Encoding(v, t)| < TWO_63
    ensures Recovers(Decode(t, Encoding(v, t) + s), Fits(v, t, |Encoding(v, t)| + |s|), Normal(v, t), !IsDynamic(t), s)
    decreases Depth(t), 0
  {
    hide Encoding, Decode, DecodeAll, Fits, FitsAll, Parts, Heads, Tails, HeadsSize, Layout, Word, Normal, NormalAll,
      Items, ItemTypes, ShapeOk, Recovers, IsDynamic, WellSized, AcceptsAll;
    LayoutBound(v, t);
    var vs, ts := Items(v, t), ItemTypes(v, t);
    var ps := Parts(vs, ts);
    var base := Layout(ps) + s;
    ItemTypesWellSized(v, t);
    LayoutSplit(ps, s);
    RoundTripAll(vs, ts, base, base, HeadsSize(ps), Tails(ps) + s, s);
    if !IsDynamic(t) {
      StaticTails(v, t);
    }
    Container(v, t, s);
  }

  lemma LayoutBound(v: Value, t: Type)
    requires Accepts(v, t) && (t.Slice? || t.Array? || t.Tuple?)
    ensures var ps := Parts(Items(v, t), ItemTypes(v, t)); HeadsSize(ps) + |Tails(ps)| <= |Encoding(v, t)|
  {
    hide Heads, Tails, HeadsSize, Parts, Word;
  }

  lemma ItemTypesWellSized(v: Value, t: Type)
    requires ShapeOk(v, t) && WellSized(t)
    ensures AllWellSized(ItemTypes(v, t))
  {
  }

  lemma LayoutSplit(ps: seq<Part>, s: seq<byte>)
    ensures var base := Layout(ps) + s;
            && base == Heads(ps, HeadsSize(ps)) + (Tails(ps) + s)
            && base[HeadsSize(ps)..] == Tails(ps) + s
  {
    hide Heads, Tails, HeadsSize;
  }

  lemma StaticTails(v: Value, t: Type)
    requires Accepts(v, t) && !IsDynamic(t)
    ensures Tails(Parts(Items(v, t), ItemTypes(v, t))) == []
  {
    NoTails(Items(v, t), ItemTypes(v, t));
  }

  lemma {:induction false} NoTails(vs: seq<Value>, ts: seq<Type>)
    requires |vs| == |ts| && AcceptsAll(vs, ts)
    requires forall i :: 0 <= i < |ts| ==> !IsDynamic(ts[i])
    ensures Tails(Parts(vs, ts)) == []
    decreases |ts|
  {
    if ts != [] { NoTails(vs[1..], ts[1..]); }
  }

  /** Decoding the components from the layout gives their normal forms, exactly when they fit. */
  ghost predicate ItemsRecover(v: Value, t: Type, s: seq<byte>)
    requires Accepts(v, t) && WellSized(t) && AllWellSized(ItemTypes(v, t))
  {
    var vs, ts := Items(v, t), ItemTypes(v, t);
    var base := Layout(Parts(vs, ts)) + s;
    var r := DecodeAll(ts, base, base);
    && (r.Ok? <==> FitsLayout(vs, ts, |base|))
    && (r.Ok? ==> r.value == (NormalAll(vs, ts), Tails(Parts(vs, ts)) + s))
  }

  /** From the components to the container. */
  lemma Container(v: Value, t: Type, s: seq<byte>)
    requires Accepts(v, t) && WellSized(t) && (t.Slice? || t.Array? || t.Tuple?) && AllWellSized(ItemTypes(v, t))
    requires ItemsRecover(v, t, s)
    requires !IsDynamic(t) ==> Tails(Parts(Items(v, t), ItemTypes(v, t))) == []
    ensures Recovers(Decode(t, Encoding(v, t) + s), Fits(v, t, |Encoding(v, t)| + |s|), Normal(v, t), !IsDynamic(t), s)
  {
    hide DecodeAll, FitsLayout, NormalAll, Parts, Layout, Tails, Word, IsDynamic, FromBytes, AcceptsAll, WellSized, Zip,
      Repeat, FieldTypes, Names, Distinct, AllWellSized, Decode;
    if t.Slice? {
      SliceContainer(v, t, s);
    } else if t.Array? {
      DecodeOfArray(t, Encoding(v, t) + s);
    } else {
      DecodeOfTuple(t, Encoding(v, t) + s);
    }
  }

  lemma SliceContainer(v: Value, t: Type, s: seq<byte>)
    requires Accepts(v, t) && WellSized(t) && t.Slice? && AllWellSized(ItemTypes(v, t))
    requires ItemsRecover(v, t, s)
    ensures Recovers(Decode(t, Encoding(v, t) + s), Fits(v, t, |Encoding(v, t)| + |s|), Normal(v, t), !IsDynamic(t), s)
  {
    hide DecodeAll, FitsLayout, NormalAll, Parts, Layout, Tails, Word, FromBytes, AcceptsAll, WellSized, Zip,
      Repeat, FieldTypes, Names, Distinct, AllWellSized, Decode, Encoding, Fits, Normal, Accepts, Items, ItemTypes,
      IsDynamic, ShapeOk;
    SliceUnfolds(v, t, |Encoding(v, t)| + |s|);
    SmallWord(|v.vs|);
    var x, layout := Encoding(v, t) + s, Layout(Parts(Items(v, t), ItemTypes(v, t)));
    AfterPrefix(Word(|v.vs|), layout, s);
    DecodeOfSlice(t, x, |v.vs|);
  }

  lemma AfterPrefix(w: seq<byte>, layout: seq<byte>, s: seq<byte>)
    ensures (w + layout + s)[..|w|] == w && (w + layout + s)[|w|..] == layout + s
  {
  }

  lemma SliceUnfolds(v: Value, t: Type, len: int)
    requires Accepts(v, t) && WellSized(t) && t.Slice? && AllWellSized(ItemTypes(v, t))
    ensures ShapeOk(v, t) && AcceptsAll(Items(v, t), ItemTypes(v, t))
    ensures v.VSlice? && |v.vs| < TWO_63 && IsDynamic(t) && ItemTypes(v, t) == Repeat(t.elem, |v.vs|)
    ensures var vs, ts := Items(v, t), ItemTypes(v, t);
      && Encoding(v, t) == Word(|v.vs|) + Layout(Parts(vs, ts))
      && Normal(v, t) == VSlice(NormalAll(vs, ts))
      && Fits(v, t, len) == (len >= 32 && 32 * |v.vs| <= len - 32 && FitsLayout(vs, ts, len - 32))
  {
    hide Parts, Layout, Word, NormalAll, FitsLayout, AcceptsAll, WellSized;
  }

  lemma DecodeOfSlice(t: Type, x: seq<byte>, n: nat)
    requires t.Slice? && WellSized(t) && |x| >= 32 && FromBytes(x[..32]) == n < TWO_63
    ensures Decode(t, x)
         == if 32 * n > |x| - 32 then Err
            else match DecodeAll(Repeat(t.elem, n), x[32..], x[32..])
              case Err => Err
              case Ok((vs, rest)) => Ok((VSlice(vs), rest))
  {
    hide DecodeAll, FromBytes;
  }

  lemma DecodeOfArray(t: Type, x: seq<byte>)
    requires t.Array? && WellSized(t)
    ensures Decode(t, x)
         == if |x| < 32 || 32 * t.len > |x| then Err
            else match DecodeAll(Repeat(t.elem, t.len), x, x)
              case Err => Err
              case Ok((vs, rest)) => Ok((VArray(vs), rest))
  {
    hide DecodeAll;
  }

  lemma DecodeOfTuple(t: Type, x: seq<byte>)
    requires t.Tuple? && WellSized(t)
    ensures Decode(t, x)
         == if |x| < 32 then Err
            else match DecodeAll(FieldTypes(t.fields), x, x)
              case Err => Err
              case Ok((vs, rest)) =>
                var ns := Names(t.fields);
                if Distinct(ns) then Ok((VTuple(Zip(ns, vs)), rest)) else Err
  {
    hide DecodeAll;
  }

  lemma {:induction false} RoundTripAll(vs: seq<Value>, ts: seq<Type>, orig: seq<byte>, data: seq<byte>, off: nat,
                                        rest: seq<byte>, s: seq<byte>)
    requires |vs| == |ts| && AcceptsAll(vs, ts) && AllWellSized(ts)
    requires data == Heads(Parts(vs, ts), off) + rest
    requires off <= |orig| && orig[off..] == Tails(Parts(vs, ts)) + s
    requires HeadsSize(Parts(vs, ts)) < TWO_63 && off + |Tails(Parts(vs, ts))| < TWO_63
    ensures var r := DecodeAll(ts, orig, data);
            && (r.Ok? <==> FitsAll(vs, ts, |data|, |orig| - off))
            && (r.Ok? ==> r.value == (NormalAll(vs, ts), rest))
    decreases DepthAll(ts), 3 * |ts|
  {
    hide Encoding, Decode, DecodeNext, Fits, Parts, Tails, HeadsSize, HeadSize, TailOf, HeadOf, Word, Normal,
      IsDynamic, WellSized, Accepts;
    if ts == [] {
      PartsNil(vs, ts);
      assert data == rest;
    } else {
      var ps := Parts(vs, ts);
      var off' := off + |TailOf(ps[0])|;
      var data' := Heads(ps[1..], off') + rest;
      Peel(vs, ts, orig, off, rest, s);
      RoundTripNext(vs[0], ts[0], orig, data, off, data', Tails(ps[1..]) + s);
      RoundTripAll(vs[1..], ts[1..], orig, data', off', rest, s);
      Step(vs, ts, orig, data, data', off);
    }
  }

  /** Splitting the first component off a layout. */
  lemma Peel(vs: seq<Value>, ts: seq<Type>, orig: seq<byte>, off: nat, rest: seq<byte>, s: seq<byte>)
    requires |vs| == |ts| && AcceptsAll(vs, ts) && ts != []
    requires off <= |orig| && orig[off..] == Tails(Parts(vs, ts)) + s
    ensures Parts(vs, ts)[0] == Part(IsDynamic(ts[0]), Encoding(vs[0], ts[0]))
    ensures Parts(vs, ts)[1..] == Parts(vs[1..], ts[1..])
    ensures var ps := Parts(vs, ts);
            var off' := off + |TailOf(ps[0])|;
            && Heads(ps, off) + rest == HeadOf(ps[0], off) + (Heads(ps[1..], off') + rest)
            && orig[off..] == TailOf(ps[0]) + (Tails(ps[1..]) + s)
            && off' <= |orig| && orig[off'..] == Tails(ps[1..]) + s
            && HeadsSize(ps) == HeadSize(ps[0]) + HeadsSize(ps[1..])
            && |Tails(ps)| == |TailOf(ps[0])| + |Tails(ps[1..])|
            && (if IsDynamic(ts[0]) then TailOf(ps[0]) == Encoding(vs[0], ts[0])
                else |TailOf(ps[0])| == 0 && HeadSize(ps[0]) == |Encoding(vs[0], ts[0])|)
  {
    hide Heads, Encoding, Word, IsDynamic, Accepts;
    var ps := Parts(vs, ts);
    PeelParts(ps, orig, off, rest, s);
  }

  lemma TailsCons(ps: seq<Part>)
    requires ps != []
    ensures Tails(ps) == TailOf(ps[0]) + Tails(ps[1..])
  {
  }

  lemma PeelParts(ps: seq<Part>, orig: seq<byte>, off: nat, rest: seq<byte>, s: seq<byte>)
    requires ps != [] && off <= |orig| && orig[off..] == Tails(ps) + s
    ensures var off' := off + |TailOf(ps[0])|;
            && Heads(ps, off) + rest == HeadOf(ps[0], off) + (Heads(ps[1..], off') + rest)
            && orig[off..] == TailOf(ps[0]) + (Tails(ps[1..]) + s)
            && off' <= |orig| && orig[off'..] == Tails(ps[1..]) + s
  {
    hide *;
    HeadsCons(ps, off);
    TailsCons(ps);
    var a, b := TailOf(ps[0]), Tails(ps[1..]) + s;
    assert Tails(ps) + s == a + b;
    assert |orig[off..]| == |orig| - off == |a| + |b|;
    assert orig[off + |a|..] == orig[off..][|a|..];
  }

  lemma Step(vs: seq<Value>, ts: seq<Type>, orig: seq<byte>, data: seq<byte>, data': seq<byte>, off: nat)
    requires |vs| == |ts| && AcceptsAll(vs, ts) && AllWellSized(ts) && ts != [] && off <= |orig|
    requires |data| == HeadSize(Part(IsDynamic(ts[0]), Encoding(vs[0], ts[0]))) + |data'|
    requires var r := DecodeNext(ts[0], orig, data);
             && (r.Ok? <==> |data| >= 32 && Fits(vs[0], ts[0], if IsDynamic(ts[0]) then |orig| - off else |data|))
             && (r.Ok? ==> r.value == (Normal(vs[0], ts[0]), data'))
    requires var size := if IsDynamic(ts[0]) then |Encoding(vs[0], ts[0])| else 0;
             DecodeAll(ts[1..], orig, data').Ok? <==> FitsAll(vs[1..], ts[1..], |data'|, |orig| - off - size)
    ensures var r := DecodeAll(ts, orig, data);
            && (r.Ok? <==> FitsAll(vs, ts, |data|, |orig| - off))
            && (r.Ok? ==> var rest := DecodeAll(ts[1..], orig, data').value;
                          r.value == ([Normal(vs[0], ts[0])] + rest.0, rest.1))
  {
    hide DecodeNext, Fits, Encoding, Normal, IsDynamic, Accepts;
  }

  /** One loop iteration reads one head, following its offset if it is dynamic. */
  lemma {:induction false} RoundTripNext(v: Value, t: Type, orig: seq<byte>, data: seq<byte>, off: nat,
                                         rest: seq<byte>, s: seq<byte>)
    requires Accepts(v, t) && WellSized(t) && |Encoding(v, t)| < TWO_63
    requires data == HeadOf(Part(IsDynamic(t), Encoding(v, t)), off) + rest
    requires off <= |orig| && off < TWO_63
    requires IsDynamic(t) ==> orig[off..] == Encoding(v, t) + s
    ensures var r := DecodeNext(t, orig, data);
            && (r.Ok? <==> |data| >= 32 && Fits(v, t, if IsDynamic(t) then |orig| - off else |data|))
            && (r.Ok? ==> r.value == (Normal(v, t), rest))
    decreases Depth(t), 2
  {
    hide *;
    RoundTrip(v, t, if IsDynamic(t) then s else rest);
    NextStep(v, t, orig, data, off, rest, s);
  }

  lemma NextStep(v: Value, t: Type, orig: seq<byte>, data: seq<byte>, off: nat, rest: seq<byte>, s: seq<byte>)
    requires Accepts(v, t) && WellSized(t)
    requires data == HeadOf(Part(IsDynamic(t), Encoding(v, t)), off) + rest
    requires off <= |orig| && off < TWO_63
    requires IsDynamic(t) ==> orig[off..] == Encoding(v, t) + s
    requires var suffix := if IsDynamic(t) then s else rest;
             Recovers(Decode(t, Encoding(v, t) + suffix), Fits(v, t, |Encoding(v, t)| + |suffix|), Normal(v, t),
                      !IsDynamic(t), suffix)
    ensures var r := DecodeNext(t, orig, data);
            && (r.Ok? <==> |data| >= 32 && Fits(v, t, if IsDynamic(t) then |orig| - off else |data|))
            && (r.Ok? ==> r.value == (Normal(v, t), rest))
  {
    hide Decode, Encoding, Normal, Fits, Word, IsDynamic, Accepts, WellSized, FromBytes;
    if IsDynamic(t) {
      SmallWord(off);
      assert data[..32] == Word(off) && data[32..] == rest;
      assert |orig[off..]| == |orig| - off;
    }
  }
}

/** Which types round-trip for every value: a condition on the type and the number of bytes that follow it. */
module AbiSlack {
  import opened Words
  import opened AbiType
  import opened AbiEncode
  import opened AbiDecode
  import opened AbiRoundTrip
  import opened AbiLaws

  /** No tuple in the type has two components under one key; one that has leaves a part without well-typed values. */
  predicate KeysDistinct(t: Type)
  {
    match t
    case Array(e, _) => KeysDistinct(e)
    case Slice(e) => KeysDistinct(e)
    case Tuple(fs) => Distinct(Names(fs)) && forall f | f in fs :: KeysDistinct(f.typ)
    case _ => true
  }

  predicate Inhabited(t: Type) { WellSized(t) && KeysDistinct(t) }

  predicate AllInhabited(ts: seq<Type>) { forall i :: 0 <= i < |ts| ==> Inhabited(ts[i]) }

  // ---------------------------------------------------------------- the condition

  /** The length of the shortest encoding of the type. */
  function MinSize(t: Type): (n: nat)
    decreases Depth(t), 1
  {
    match t
    case Array(e, n) => MinLayout(Repeat(e, n))
    case Tuple(fs) => MinLayout(FieldTypes(fs))
    case _ => 32
  }

  function MinLayout(ts: seq<Type>): (n: nat)
    decreases DepthAll(ts), 2 * |ts| + 1
  {
    SumSizes(ts) + MinTails(ts)
  }

  function MinTails(ts: seq<Type>): (n: nat)
    decreases DepthAll(ts), 2 * |ts|
  {
    if ts == [] then 0 else (if IsDynamic(ts[0]) then MinSize(ts[0]) else 0) + MinTails(ts[1..])
  }

  /** Every value of the type decodes from its encoding with `s` bytes behind it. A slice of zero-size elements can
      have more of them than any 32-byte check allows. */
  predicate Fine(t: Type, s: nat)
    decreases Depth(t), 1
  {
    match t
    case Slice(e) => Fine(e, s) && (IsDynamic(e) || TypeSize(e) > 0 || 32 * (TWO_63 - 1) <= s)
    case Array(e, n) =>
      var ts := Repeat(e, n);
      32 <= MinLayout(ts) + s && 32 * n <= MinLayout(ts) + s && FineAll(ts, MinTails(ts) + s, s)
    case Tuple(fs) =>
      var ts := FieldTypes(fs);
      32 <= MinLayout(ts) + s && FineAll(ts, MinTails(ts) + s, s)
    case _ => true
  }

  /** The components, with at least `d` bytes behind the heads and `s` bytes behind the tails. */
  predicate FineAll(ts: seq<Type>, d: nat, s: nat)
    decreases DepthAll(ts), 2 * |ts|
  {
    ts != [] ==> Fine(ts[0], Behind(ts, d, s)) && FineAll(ts[1..], d, s)
  }

  /** What is sure to follow the first component. */
  function Behind(ts: seq<Type>, d: nat, s: nat): nat
    requires ts != []
    decreases DepthAll(ts), 2 * |ts| - 1
  {
    if IsDynamic(ts[0]) then MinTails(ts[1..]) + s else SumSizes(ts[1..]) + d
  }

  // ---------------------------------------------------------------- containers

  predicate IsContainer(t: Type) { t.Slice? || t.Array? || t.Tuple? }

  lemma ScalarOrContainer(t: Type)
    ensures IsContainer(t) <==> t.Slice? || t.Array? || t.Tuple?
  {
  }

  /** The component types of an array or a tuple. */
  function Components(t: Type): (ts: seq<Type>)
    requires t.Array? || t.Tuple?
    ensures DepthAll(ts) < Depth(t)
  {
    if t.Array? then Repeat(t.elem, t.len) else FieldTypes(t.fields)
  }

  /** The condition by cases on the type. */
  lemma FineIs(t: Type, s: nat)
    ensures !IsContainer(t) ==> Fine(t, s)
    ensures t.Slice? ==>
      (Fine(t, s) <==> Fine(t.elem, s) && (IsDynamic(t.elem) || TypeSize(t.elem) > 0 || 32 * (TWO_63 - 1) <= s))
    ensures t.Array? || t.Tuple? ==>
      var ts := Components(t);
      var n := SumSizes(ts) + MinTails(ts) + s;
      Fine(t, s) <==> 32 <= n && (t.Array? ==> 32 * |ts| <= n) && FineAll(ts, MinTails(ts) + s, s)
  {
    hide FineAll, MinTails, SumSizes, Repeat, FieldTypes, IsDynamic, TypeSize;
  }

  lemma Measured(v: Value, t: Type)
    requires Accepts(v, t) && IsContainer(t)
    ensures var vs, ts := Items(v, t), ItemTypes(v, t);
            AcceptsAll(vs, ts)
            && |Encoding(v, t)| == (if t.Slice? then 32 else 0) + SumSizes(ts) + |Tails(Parts(vs, ts))|
  {
    hide Encoding, Parts, Tails, SumSizes, HeadsSize, Items, ItemTypes, AcceptsAll;
    EncodingPrefix(v, t);
    PartsSize(Items(v, t), ItemTypes(v, t));
  }

  /** The length checks of a container, one by one. */
  lemma FitsIs(v: Value, t: Type, len: int)
    requires WellTyped(v, t) && IsContainer(t)
    ensures var vs, ts := Items(v, t), ItemTypes(v, t);
            var size := if t.Slice? then len - 32 else len;
            && AcceptsAll(vs, ts) && InRangeAll(vs, ts)
            && (Fits(v, t, len) <==>
                && len >= 32 && (!t.Tuple? ==> 32 * |ts| <= size)
                && FitsAll(vs, ts, size, size - SumSizes(ts)))
  {
    hide Encoding, Parts, Tails, SumSizes, HeadsSize, AcceptsAll, InRangeAll, FitsAll, Names, Distinct, Lookup;
    var vs, ts := Items(v, t), ItemTypes(v, t);
    var size := if t.Slice? then len - 32 else len;
    PartsSize(vs, ts);
    ContainerItems(v, t);
    assert FitsLayout(vs, ts, size) <==> FitsAll(vs, ts, size, size - SumSizes(ts));
  }

  /** A container value with the given components. */
  lemma Wrap(t: Type, vs: seq<Value>, ts: seq<Type>) returns (v: Value)
    requires IsContainer(t) && |vs| == |ts| && AcceptsAll(vs, ts) && InRangeAll(vs, ts)
    requires t.Slice? ==> ts == Repeat(t.elem, |ts|) && |ts| < TWO_63
    requires t.Array? ==> ts == Repeat(t.elem, t.len)
    requires t.Tuple? ==> ts == FieldTypes(t.fields) && Distinct(Names(t.fields))
    ensures WellTyped(v, t) && Items(v, t) == vs && ItemTypes(v, t) == ts
  {
    hide AcceptsAll, InRangeAll, Repeat, FieldTypes, Zip, Names, Distinct;
    if t.Tuple? {
      v := VTuple(Zip(Names(t.fields), vs));
      TupleWellTyped(t, vs);
      ZippedItems(t, vs);
    } else {
      v := if t.Array? then VArray(vs) else VSlice(vs);
      ListWellTyped(t, vs);
    }
  }

  lemma ZippedItems(t: Type, vs: seq<Value>)
    requires t.Tuple? && |vs| == |t.fields| && Distinct(Names(t.fields))
    requires ShapeOk(VTuple(Zip(Names(t.fields), vs)), t)
    ensures Items(VTuple(Zip(Names(t.fields), vs)), t) == vs
  {
    hide Zip, Names;
    var ns := Names(t.fields);
    var m := Zip(ns, vs);
    forall i | 0 <= i < |ns| ensures ns[i] in m && m[ns[i]] == vs[i] { ZipAt(ns, vs, i); }
    assert Lookup(m, ns) == vs;
  }

  lemma Cons(v: Value, t: Type, vs: seq<Value>, ts: seq<Type>)
    requires WellTyped(v, t) && |vs| == |ts| && AcceptsAll(vs, ts) && InRangeAll(vs, ts)
    ensures AcceptsAll([v] + vs, [t] + ts) && InRangeAll([v] + vs, [t] + ts)
    ensures |Tails(Parts([v] + vs, [t] + ts))| == (if IsDynamic(t) then |Encoding(v, t)| else 0) + |Tails(Parts(vs, ts))|
    ensures SumSizes([t] + ts) == TypeSize(t) + SumSizes(ts)
    ensures MinTails([t] + ts) == (if IsDynamic(t) then MinSize(t) else 0) + MinTails(ts)
  {
    hide Encoding, Accepts, InRange, Parts, Tails, IsDynamic, MinSize, TypeSize;
    assert ([v] + vs)[1..] == vs && ([t] + ts)[1..] == ts;
    assert AcceptsAll([v] + vs, [t] + ts);
    PartsCons([v] + vs, [t] + ts);
  }

  lemma InhabitedParts(t: Type)
    requires Inhabited(t)
    ensures t.Slice? || t.Array? ==> Inhabited(t.elem)
    ensures t.Array? ==> AllInhabited(Repeat(t.elem, t.len))
    ensures t.Tuple? ==> AllInhabited(FieldTypes(t.fields)) && Distinct(Names(t.fields))
  {
    hide Names, Distinct;
    if t.Tuple? {
      var ts := FieldTypes(t.fields);
      forall i | 0 <= i < |ts| ensures Inhabited(ts[i]) { assert t.fields[i] in t.fields; }
    }
  }

  // ---------------------------------------------------------------- the shortest encoding

  lemma {:induction false} MinBound(v: Value, t: Type)
    requires Accepts(v, t)
    ensures |Encoding(v, t)| >= MinSize(t)
    decreases Depth(t), 1
  {
    if IsContainer(t) {
      hide Encoding, Items, ItemTypes, Parts, Tails, SumSizes, AcceptsAll, MinTails, MinSize;
      Measured(v, t);
      MinBoundAll(Items(v, t), ItemTypes(v, t));
      MinSizeIs(v, t);
    } else {
      hide Word, MinBytes;
    }
  }

  lemma MinSizeIs(v: Value, t: Type)
    requires Accepts(v, t) && IsContainer(t)
    ensures MinSize(t) == if t.Slice? then 32 else SumSizes(ItemTypes(v, t)) + MinTails(ItemTypes(v, t))
  {
    hide MinTails, SumSizes, AcceptsAll;
  }

  lemma {:induction false} MinBoundAll(vs: seq<Value>, ts: seq<Type>)
    requires |vs| == |ts| && AcceptsAll(vs, ts)
    ensures |Tails(Parts(vs, ts))| >= MinTails(ts)
    decreases DepthAll(ts), 2 * |ts|
  {
    hide Encoding, Accepts, Parts, Tails, MinSize, IsDynamic;
    if ts == [] {
      PartsNil(vs, ts);
    } else {
      MinBound(vs[0], ts[0]);
      MinBoundAll(vs[1..], ts[1..]);
      PartsCons(vs, ts);
    }
  }

  /** A well-typed value with the shortest encoding. */
  lemma {:induction false} MinimalValue(t: Type) returns (v: Value)
    requires Inhabited(t)
    ensures WellTyped(v, t) && |Encoding(v, t)| == MinSize(t)
    decreases Depth(t), 1
  {
    if IsContainer(t) {
      hide Encoding, Items, ItemTypes, Parts, Tails, SumSizes, AcceptsAll, InRangeAll, MinTails, MinSize, Inhabited, Accepts, InRange,
        Names, Distinct, Repeat, FieldTypes;
      InhabitedParts(t);
      var ts := if t.Slice? then Repeat(t.elem, 0) else if t.Array? then Repeat(t.elem, t.len) else FieldTypes(t.fields);
      NothingRepeated(t, ts);
      var vs := MinimalList(ts);
      v := Wrap(t, vs, ts);
      Measured(v, t);
      MinSizeIs(v, t);
    } else {
      v := MinimalScalar(t);
    }
  }

  lemma NothingRepeated(t: Type, ts: seq<Type>)
    requires t.Slice? ==> ts == Repeat(t.elem, 0)
    requires t.Array? ==> ts == Repeat(t.elem, t.len)
    requires t.Tuple? ==> ts == FieldTypes(t.fields)
    requires IsContainer(t)
    ensures t.Slice? ==> ts == [] && SumSizes(ts) == 0 && MinTails(ts) == 0
    ensures DepthAll(ts) < Depth(t)
  {
  }

  lemma MinimalScalar(t: Type) returns (v: Value)
    requires WellSized(t) && !IsContainer(t)
    ensures WellTyped(v, t) && |Encoding(v, t)| == 32
  {
    hide Word, MinBytes;
    v := if t.Bool? then VBool(false)
         else if t.UInt? || t.Int? then VInt(0)
         else if t.String? then VString([])
         else if t.Bytes? then VBytes([])
         else VBytes(Zeros(if t.FixedBytes? then t.size else if t.Address? then 20 else 24));
    assert ShapeOk(v, t) && Items(v, t) == [] && ItemTypes(v, t) == [];
    assert AcceptsAll([], []);
    assert Accepts(v, t);
    assert InRange(v, t);
  }

  lemma {:induction false} MinimalList(ts: seq<Type>) returns (vs: seq<Value>)
    requires AllInhabited(ts)
    ensures |vs| == |ts| && AcceptsAll(vs, ts) && InRangeAll(vs, ts) && |Tails(Parts(vs, ts))| == MinTails(ts)
    decreases DepthAll(ts), 2 * |ts|
  {
    hide Encoding, Accepts, InRange, Parts, Tails, IsDynamic, MinSize, Inhabited;
    if ts == [] {
      vs := [];
      PartsNil(vs, ts);
    } else {
      var v := MinimalValue(ts[0]);
      var rest := MinimalList(ts[1..]);
      vs := [v] + rest;
      Cons(v, ts[0], rest, ts[1..]);
      assert [ts[0]] + ts[1..] == ts;
    }
  }

  // ---------------------------------------------------------------- more bytes never hurt

  lemma {:induction false} FineMore(t: Type, s: nat, s': nat)
    requires Fine(t, s) && s <= s'
    ensures Fine(t, s')
    decreases Depth(t), 1
  {
    hide *;
    ScalarOrContainer(t);
    FineIs(t, s);
    FineIs(t, s');
    if t.Slice? {
      ElementDepth(t);
      FineMore(t.elem, s, s');
    } else if IsContainer(t) {
      var ts := Components(t);
      FineAllMore(ts, MinTails(ts) + s, s, MinTails(ts) + s', s');
    }
  }

  lemma ElementDepth(t: Type)
    requires t.Slice? || t.Array?
    ensures Depth(t.elem) < Depth(t)
  {
  }

  lemma {:induction false} FineAllMore(ts: seq<Type>, d: nat, s: nat, d': nat, s': nat)
    requires FineAll(ts, d, s) && d <= d' && s <= s'
    ensures FineAll(ts, d', s')
    decreases DepthAll(ts), 2 * |ts|
  {
    hide Fine, MinTails, IsDynamic, SumSizes;
    if ts != [] {
      FineMore(ts[0], Behind(ts, d, s), Behind(ts, d', s'));
      FineAllMore(ts[1..], d, s, d', s');
    }
  }

  // ---------------------------------------------------------------- fine types fit

  lemma {:induction false} FineFits(v: Value, t: Type, s: nat, len: int)
    requires WellTyped(v, t) && WellSized(t) && Fine(t, s) && len >= |Encoding(v, t)| + s
    ensures Fits(v, t, len)
    decreases Depth(t), 1
  {
    hide *;
    if IsContainer(t) {
      FitsIs(v, t, len);
      LongEnough(v, t, s, len);
      DepthOfItems(v, t);
      var vs, ts := Items(v, t), ItemTypes(v, t);
      var size := if t.Slice? then len - 32 else len;
      FineFitsAll(vs, ts, MinTails(ts) + s, s, size, size - SumSizes(ts));
    } else {
      ScalarOrContainer(t);
      ScalarFits(v, t, len);
    }
  }

  lemma DepthOfItems(v: Value, t: Type)
    requires WellTyped(v, t) && IsContainer(t)
    ensures ShapeOk(v, t) && DepthAll(ItemTypes(v, t)) < Depth(t)
  {
    hide AcceptsAll, InRangeAll;
  }

  lemma LongEnough(v: Value, t: Type, s: nat, len: int)
    requires WellTyped(v, t) && WellSized(t) && IsContainer(t) && Fine(t, s) && len >= |Encoding(v, t)| + s
    ensures var vs, ts := Items(v, t), ItemTypes(v, t);
            var size := if t.Slice? then len - 32 else len;
            && AcceptsAll(vs, ts) && AllWellSized(ts) && FineAll(ts, MinTails(ts) + s, s)
            && len >= 32 && (!t.Tuple? ==> 32 * |ts| <= size)
            && size >= SumSizes(ts) + MinTails(ts) + s && size - SumSizes(ts) >= |Tails(Parts(vs, ts))| + s
  {
    hide Encoding, Items, ItemTypes, Parts, Tails, SumSizes, AcceptsAll, InRangeAll, MinTails, MinSize, WellSized, InRange,
      Fine, FineAll, ShapeOk;
    Measured(v, t);
    MinBoundAll(Items(v, t), ItemTypes(v, t));
    FineParts(v, t, s);
  }

  /** What being fine says about the components of a value. */
  lemma FineParts(v: Value, t: Type, s: nat)
    requires WellTyped(v, t) && WellSized(t) && IsContainer(t) && Fine(t, s)
    ensures var ts := ItemTypes(v, t);
            && AllWellSized(ts) && FineAll(ts, MinTails(ts) + s, s)
            && (!t.Slice? ==> 32 <= MinLayout(ts) + s)
            && (!t.Tuple? ==> 32 * |ts| <= SumSizes(ts) + MinTails(ts) + s)
  {
    hide MinTails, SumSizes, AcceptsAll, InRangeAll, FineAll, WellSized, Repeat, FieldTypes, IsDynamic, TypeSize;
    ItemTypesWellSized(v, t);
    if t.Slice? {
      var ts := Repeat(t.elem, |v.vs|);
      RepeatFine(t.elem, |v.vs|, MinTails(ts) + s, s);
      EnoughForHeads(t, |v.vs|, s);
    }
  }

  lemma {:induction false} RepeatFine(e: Type, k: nat, d: nat, s: nat)
    requires Fine(e, s) && d >= s
    ensures FineAll(Repeat(e, k), d, s)
    decreases k
  {
    hide Fine, MinTails, SumSizes, IsDynamic;
    if k > 0 {
      var ts := Repeat(e, k);
      assert ts[1..] == Repeat(e, k - 1);
      RepeatFine(e, k - 1, d, s);
      FineMore(e, s, Behind(ts, d, s));
    }
  }

  lemma EnoughForHeads(t: Type, k: nat, s: nat)
    requires t.Slice? && k < TWO_63 && Fine(t, s)
    ensures 32 * k <= SumSizes(Repeat(t.elem, k)) + s
  {
    hide SumSizes, Repeat, TypeSize, IsDynamic;
    SumOfRepeat(t.elem, k);
    DynamicHead(t.elem);
    WholeWords(t.elem);
    Widen(k, TypeSize(t.elem));
  }

  lemma Widen(k: nat, n: nat)
    requires n == 0 || n >= 32
    ensures n == 0 ==> k * n == 0
    ensures n > 0 ==> 32 * k <= k * n
  {
  }

  lemma {:induction false} WholeWords(t: Type)
    ensures TypeSize(t) == 0 || TypeSize(t) >= 32
    ensures TypeSize(t) % 32 == 0
    decreases t, 0
  {
    hide IsDynamic;
    match t
    case Array(e, n) =>
      WholeWords(e);
      MultipleOf32(n, TypeSize(e));
    case Tuple(fs) => WholeWordsAll(fs);
    case _ =>
  }

  lemma MultipleOf32(n: nat, m: nat)
    requires m % 32 == 0
    ensures n * m % 32 == 0
  {
    ModUnique(n * m, 32, n * (m / 32), 0);
  }

  lemma {:induction false} WholeWordsAll(fs: seq<Field>)
    ensures FieldsSize(fs) % 32 == 0
    decreases fs, 0
  {
    hide TypeSize;
    if fs != [] {
      WholeWords(fs[0].typ);
      WholeWordsAll(fs[1..]);
    }
  }

  lemma {:induction false} FineFitsAll(vs: seq<Value>, ts: seq<Type>, d: nat, s: nat, data: int, tail: int)
    requires |vs| == |ts| && AcceptsAll(vs, ts) && InRangeAll(vs, ts) && AllWellSized(ts) && FineAll(ts, d, s)
    requires data >= SumSizes(ts) + d && tail >= |Tails(Parts(vs, ts))| + s
    ensures FitsAll(vs, ts, data, tail)
    decreases DepthAll(ts), 2 * |ts|
  {
    hide Encoding, IsDynamic, Accepts, InRange, Fits, Fine, Parts, Tails, MinTails, WellSized, TypeSize;
    if ts != [] {
      PartsCons(vs, ts);
      EncodingSize(vs[0], ts[0]);
      DynamicHead(ts[0]);
      MinBoundAll(vs[1..], ts[1..]);
      var size := |Encoding(vs[0], ts[0])|;
      FineFits(vs[0], ts[0], Behind(ts, d, s), if IsDynamic(ts[0]) then tail else data);
      FitsLong(vs[0], ts[0], if IsDynamic(ts[0]) then tail else data);
      if IsDynamic(ts[0]) {
        FineFitsAll(vs[1..], ts[1..], d, s, data - 32, tail - size);
      } else {
        FineFitsAll(vs[1..], ts[1..], d, s, data - size, tail);
      }
    }
  }

  lemma FitsLong(v: Value, t: Type, len: int)
    requires Accepts(v, t) && Fits(v, t, len)
    ensures len >= 32
  {
  }

  // ---------------------------------------------------------------- other types have a value that does not

  /** A value that does not fit, with `s` bytes behind it. */
  lemma {:induction false} FailingValue(t: Type, s: nat) returns (v: Value)
    requires Inhabited(t) && !Fine(t, s)
    ensures WellTyped(v, t) && !Fits(v, t, |Encoding(v, t)| + s)
    decreases Depth(t), 1
  {
    hide *;
    InhabitedParts(t);
    ScalarOrContainer(t);
    FineIs(t, s);
    if t.Slice? {
      if Fine(t.elem, s) {
        v := TooMany(t, s);
      } else {
        ElementDepth(t);
        var w := FailingValue(t.elem, s);
        v := Singleton(t, w, s);
      }
    } else {
      var ts := Components(t);
      ComponentsInhabited(t);
      var vs;
      if FineAll(ts, MinTails(ts) + s, s) {
        vs := MinimalList(ts);
      } else {
        var i;
        vs, i := FailingList(ts, MinTails(ts) + s, s);
        DoesNotFit(vs, ts, i, s);
      }
      v := Assembled(t, vs, ts, s);
    }
  }

  lemma ComponentsInhabited(t: Type)
    requires (t.Array? || t.Tuple?) && Inhabited(t)
    ensures AllInhabited(Components(t)) && (t.Tuple? ==> Distinct(Names(t.fields)))
  {
    hide Inhabited, AllInhabited, Names, Distinct;
    InhabitedParts(t);
  }

  /** An array or tuple with components that are too short, or do not fit themselves. */
  lemma Assembled(t: Type, vs: seq<Value>, ts: seq<Type>, s: nat) returns (v: Value)
    requires (t.Array? || t.Tuple?) && ts == Components(t) && (t.Tuple? ==> Distinct(Names(t.fields)))
    requires |vs| == |ts| && AcceptsAll(vs, ts) && InRangeAll(vs, ts)
    requires var tails := |Tails(Parts(vs, ts))|;
             var n := SumSizes(ts) + tails + s;
             n < 32 || (t.Array? && 32 * |ts| > n) || !FitsAll(vs, ts, n, tails + s)
    ensures WellTyped(v, t) && !Fits(v, t, |Encoding(v, t)| + s)
  {
    hide Encoding, Items, ItemTypes, Parts, Tails, SumSizes, AcceptsAll, InRangeAll, Accepts, InRange, Fits, FitsAll, Names, Distinct,
      Repeat, FieldTypes;
    v := Wrap(t, vs, ts);
    Measured(v, t);
    FitsIs(v, t, |Encoding(v, t)| + s);
  }

  /** More zero-size elements than 32-byte pieces of what follows. */
  lemma TooMany(t: Type, s: nat) returns (v: Value)
    requires t.Slice? && Inhabited(t.elem) && !IsDynamic(t.elem) && TypeSize(t.elem) == 0 && s < 32 * (TWO_63 - 1)
    ensures WellTyped(v, t) && !Fits(v, t, |Encoding(v, t)| + s)
  {
    hide Encoding, Items, ItemTypes, Parts, Tails, SumSizes, AcceptsAll, InRangeAll, MinTails, MinSize, Inhabited, Accepts, InRange,
      Fits, FitsAll, Repeat, IsDynamic, TypeSize;
    var k := s / 32 + 1;
    var ts := Repeat(t.elem, k);
    var vs := MinimalList(ts);
    v := Wrap(t, vs, ts);
    Measured(v, t);
    SumOfRepeat(t.elem, k);
    NoMinTails(ts);
    FitsIs(v, t, |Encoding(v, t)| + s);
  }

  lemma {:induction false} NoMinTails(ts: seq<Type>)
    requires forall i :: 0 <= i < |ts| ==> !IsDynamic(ts[i])
    ensures MinTails(ts) == 0
  {
    hide IsDynamic, MinSize;
    if ts != [] { NoMinTails(ts[1..]); }
  }

  lemma Singleton(t: Type, w: Value, s: nat) returns (v: Value)
    requires t.Slice? && WellTyped(w, t.elem) && !Fits(w, t.elem, |Encoding(w, t.elem)| + s)
    ensures WellTyped(v, t) && !Fits(v, t, |Encoding(v, t)| + s)
  {
    hide Encoding, Items, ItemTypes, Parts, Tails, AcceptsAll, InRangeAll, MinTails, MinSize, Accepts, InRange,
      Fits, FitsAll, IsDynamic, TypeSize;
    var ts := [t.elem];
    assert Repeat(t.elem, 1) == ts by { assert Repeat(t.elem, 0) == []; }
    NothingAccepted();
    PartsNil([], []);
    Cons(w, t.elem, [], []);
    assert [w] + [] == [w] && [t.elem] + [] == ts;
    v := Wrap(t, [w], ts);
    Measured(v, t);
    FitsIs(v, t, |Encoding(v, t)| + s);
    EncodingSize(w, t.elem);
    var size := |Encoding(v, t)| + s - 32;
    if FitsAll([w], ts, size, size - SumSizes(ts)) { FitsAllAt([w], ts, size, size - SumSizes(ts), 0); }
  }

  lemma NothingAccepted()
    ensures AcceptsAll([], []) && InRangeAll([], []) && SumSizes([]) == 0
  {
  }

  /** Component `i` sees what is left from it on. */
  lemma {:induction false} FitsAllAt(vs: seq<Value>, ts: seq<Type>, data: int, tail: int, i: nat)
    requires |vs| == |ts| && AcceptsAll(vs, ts) && FitsAll(vs, ts, data, tail) && i < |ts|
    ensures AcceptsAll(vs[i..], ts[i..]) && Accepts(vs[i], ts[i])
    ensures Fits(vs[i], ts[i], if IsDynamic(ts[i]) then tail - |Tails(Parts(vs, ts))| + |Tails(Parts(vs[i..], ts[i..]))|
                               else data - SumSizes(ts) + SumSizes(ts[i..]))
    decreases i
  {
    hide Encoding, IsDynamic, Accepts, Fits, Parts, Tails, TypeSize;
    if i == 0 {
      assert vs[0..] == vs && ts[0..] == ts;
    } else {
      PartsCons(vs, ts);
      EncodingSize(vs[0], ts[0]);
      DynamicHead(ts[0]);
      var size := |Encoding(vs[0], ts[0])|;
      assert vs[1..][i - 1..] == vs[i..] && ts[1..][i - 1..] == ts[i..];
      if IsDynamic(ts[0]) {
        FitsAllAt(vs[1..], ts[1..], data - 32, tail - size, i - 1);
      } else {
        FitsAllAt(vs[1..], ts[1..], data - size, tail, i - 1);
      }
    }
  }

  /** Components of which number `i` does not fit: its own worst value among shortest ones. */
  ghost predicate FailsAt(vs: seq<Value>, ts: seq<Type>, i: nat, d: nat, s: nat)
    requires |vs| == |ts| && i < |ts| && AcceptsAll(vs, ts)
  {
    && AcceptsAll(vs[i..], ts[i..]) && Accepts(vs[i], ts[i])
    && (if IsDynamic(ts[i]) then !Fits(vs[i], ts[i], |Tails(Parts(vs[i..], ts[i..]))| + s)
        else |Tails(Parts(vs, ts))| == MinTails(ts) && !Fits(vs[i], ts[i], SumSizes(ts[i..]) + d))
  }

  lemma DoesNotFit(vs: seq<Value>, ts: seq<Type>, i: nat, s: nat)
    requires |vs| == |ts| && i < |ts| && AcceptsAll(vs, ts) && FailsAt(vs, ts, i, MinTails(ts) + s, s)
    ensures var t := |Tails(Parts(vs, ts))|; !FitsAll(vs, ts, SumSizes(ts) + t + s, t + s)
  {
    hide Encoding, IsDynamic, Accepts, Fits, Parts, Tails, AcceptsAll, FitsAll, MinTails, SumSizes;
    var t := |Tails(Parts(vs, ts))|;
    if FitsAll(vs, ts, SumSizes(ts) + t + s, t + s) { FitsAllAt(vs, ts, SumSizes(ts) + t + s, t + s, i); }
  }

  lemma {:induction false} FailingList(ts: seq<Type>, d: nat, s: nat) returns (vs: seq<Value>, i: nat)
    requires AllInhabited(ts) && !FineAll(ts, d, s)
    ensures |vs| == |ts| && i < |ts| && AcceptsAll(vs, ts) && InRangeAll(vs, ts) && FailsAt(vs, ts, i, d, s)
    decreases DepthAll(ts), 2 * |ts|
  {
    hide Encoding, IsDynamic, Accepts, InRange, Fits, Fine, Parts, Tails, MinSize, Inhabited, TypeSize, FailsAt;
    var t, us := ts[0], ts[1..];
    assert [t] + us == ts;
    if Fine(t, Behind(ts, d, s)) {
      var v := MinimalValue(t);
      var rest, j := FailingList(us, d, s);
      vs, i := [v] + rest, j + 1;
      Cons(v, t, rest, us);
      FailsLater(v, t, rest, us, j, d, s);
    } else {
      var v := FailingValue(t, Behind(ts, d, s));
      var rest := MinimalList(us);
      vs, i := [v] + rest, 0;
      Cons(v, t, rest, us);
      FailsFirst(v, t, rest, us, d, s);
    }
  }

  lemma FailsFirst(v: Value, t: Type, vs: seq<Value>, ts: seq<Type>, d: nat, s: nat)
    requires |vs| == |ts| && AcceptsAll(vs, ts) && InRangeAll(vs, ts) && |Tails(Parts(vs, ts))| == MinTails(ts)
    requires WellTyped(v, t) && !Fits(v, t, |Encoding(v, t)| + Behind([t] + ts, d, s))
    requires AcceptsAll([v] + vs, [t] + ts)
    ensures FailsAt([v] + vs, [t] + ts, 0, d, s)
  {
    hide Encoding, IsDynamic, Accepts, InRange, Fits, Parts, Tails, MinTails, SumSizes, AcceptsAll, InRangeAll, TypeSize;
    var us, ws := [v] + vs, [t] + ts;
    Cons(v, t, vs, ts);
    EncodingSize(v, t);
    assert us[0..] == us && ws[0..] == ws && ws[1..] == ts;
  }

  lemma FailsLater(v: Value, t: Type, vs: seq<Value>, ts: seq<Type>, j: nat, d: nat, s: nat)
    requires |vs| == |ts| && j < |ts| && AcceptsAll(vs, ts) && InRangeAll(vs, ts) && FailsAt(vs, ts, j, d, s)
    requires WellTyped(v, t) && |Encoding(v, t)| == MinSize(t) && AcceptsAll([v] + vs, [t] + ts)
    ensures FailsAt([v] + vs, [t] + ts, j + 1, d, s)
  {
    hide Encoding, IsDynamic, Accepts, InRange, Fits, Parts, Tails, MinTails, SumSizes, AcceptsAll, InRangeAll, TypeSize, MinSize;
    var us, ws := [v] + vs, [t] + ts;
    Cons(v, t, vs, ts);
    assert us[j + 1..] == vs[j..] && ws[j + 1..] == ts[j..];
  }

  // ---------------------------------------------------------------- the law

  /** All values of a type fit with `s` bytes behind their encoding if and only if the type is fine with `s`. */
  lemma AlwaysFitsIff(t: Type, s: nat)
    requires Inhabited(t)
    ensures (forall v | WellTyped(v, t) :: Fits(v, t, |Encoding(v, t)| + s)) <==> Fine(t, s)
  {
    hide Encoding, Fits, Accepts, InRange, Fine, KeysDistinct, WellSized;
    if Fine(t, s) {
      forall v | WellTyped(v, t) ensures Fits(v, t, |Encoding(v, t)| + s) { FineFits(v, t, s, |Encoding(v, t)| + s); }
    } else {
      var v := FailingValue(t, s);
    }
  }

  /** Every well-typed value of a fine type comes back. */
  lemma FineRoundTrip(v: Value, t: Type, s: seq<byte>)
    requires WellTyped(v, t) && WellSized(t) && Fine(t, |s|) && |Encoding(v, t)| < TWO_63
    ensures var r := Decode(t, Encoding(v, t) + s);
            r.Ok? && r.value.0 == v && (!IsDynamic(t) ==> r.value.1 == s)
  {
    hide Encoding, Decode, Fits, Normal, IsDynamic, WellSized, Accepts, InRange, Fine;
    RoundTrip(v, t, s);
    FineFits(v, t, |s|, |Encoding(v, t)| + |s|);
    NormalIffWellTyped(v, t);
  }

  /** Any other type has a well-typed value that does not. */
  lemma NotFineFails(t: Type, s: seq<byte>) returns (v: Value)
    requires Inhabited(t) && !Fine(t, |s|)
    ensures WellTyped(v, t) && (|Encoding(v, t)| < TWO_63 ==> Decode(t, Encoding(v, t) + s).Err?)
  {
    hide Encoding, Decode, Fits, Normal, IsDynamic, Accepts, InRange, Fine, KeysDistinct, WellSized;
    v := FailingValue(t, |s|);
    if |Encoding(v, t)| < TWO_63 { RoundTrip(v, t, s); }
  }

  /** Arrays, without unfolding them: an empty one needs a word behind it; a longer one is as its last element, but
      zero-size elements need a word each. */
  lemma FineArrayIs(e: Type, n: nat, s: nat)
    ensures Fine(Array(e, n), s) <==>
              if n == 0 then s >= 32 else Fine(e, s) && (IsDynamic(e) || TypeSize(e) > 0 || 32 * n <= s)
  {
    hide Fine, MinTails, SumSizes, FineAll, IsDynamic, TypeSize, Repeat, MinLayout;
    var ts := Repeat(e, n);
    FineIs(Array(e, n), s);
    NoElements(e, s);
    SumOfRepeat(e, n);
    DynamicHead(e);
    WholeWords(e);
    Widen(n, TypeSize(e));
    if n > 0 && FineAll(ts, MinTails(ts) + s, s) { LastFine(e, n, MinTails(ts) + s, s); }
    if n > 0 && Fine(e, s) { RepeatFine(e, n, MinTails(ts) + s, s); }
    if !IsDynamic(e) { NoMinTails(ts); }
  }

  lemma NoElements(e: Type, s: nat)
    ensures MinTails(Repeat(e, 0)) == 0 && FineAll(Repeat(e, 0), s, s)
  {
  }

  lemma {:induction false} LastFine(e: Type, n: nat, d: nat, s: nat)
    requires n > 0 && FineAll(Repeat(e, n), d, s)
    ensures Fine(e, if IsDynamic(e) then s else d)
  {
    hide Fine, IsDynamic, TypeSize, MinSize;
    var ts := Repeat(e, n);
    assert ts[1..] == Repeat(e, n - 1);
    if n > 1 { LastFine(e, n - 1, d, s); }
  }

  /** The order of the components decides: an empty tuple in front of an integer is fine, behind it it is not. */
  lemma EmptyTupleFirstOrLast(fs: seq<Field>)
    requires |fs| == 2
    ensures fs[0].typ == Tuple([]) && fs[1].typ == UInt(8) ==> Fine(Tuple(fs), 0)
    ensures fs[0].typ == UInt(8) && fs[1].typ == Tuple([]) ==> !Fine(Tuple(fs), 0) && Fine(Tuple(fs), 32)
  {
    hide Fine, SumSizes, MinTails, TypeSize, FineAll, IsDynamic;
    var ts := FieldTypes(fs);
    EmptyTupleFacts();
    FineIs(Tuple(fs), 0);
    FineIs(Tuple(fs), 32);
    assert ts == [ts[0], ts[1]];
    if !IsDynamic(ts[0]) && !IsDynamic(ts[1]) {
      PairFine(ts[0], ts[1], 0);
      PairFine(ts[0], ts[1], 32);
    }
  }

  lemma EmptyTupleFacts()
    ensures !IsDynamic(Tuple([])) && TypeSize(Tuple([])) == 0 && !IsDynamic(UInt(8)) && TypeSize(UInt(8)) == 32
    ensures forall s: nat :: Fine(UInt(8), s) && (Fine(Tuple([]), s) <==> s >= 32)
  {
  }

  lemma PairFine(a: Type, b: Type, s: nat)
    requires !IsDynamic(a) && !IsDynamic(b)
    ensures var ts := [a, b];
            && SumSizes(ts) == TypeSize(a) + TypeSize(b) && MinTails(ts) == 0
            && (FineAll(ts, s, s) <==> Fine(a, TypeSize(b) + s) && Fine(b, s))
  {
    hide Fine, IsDynamic, TypeSize, MinSize;
    assert [a, b][1..] == [b] && [b][1..] == [];
    assert SumSizes([]) == 0 && MinTails([]) == 0 && FineAll([], s, s);
    assert SumSizes([b]) == TypeSize(b) && MinTails([b]) == 0;
  }

  /** Types without zero-size parts are fine with nothing behind them. */
  lemma RegularIsFine(t: Type)
    requires Inhabited(t) && Regular(t)
    ensures Fine(t, 0)
  {
    hide Encoding, Fits, Accepts, InRange, Fine, Regular, KeysDistinct, WellSized;
    forall v | WellTyped(v, t) ensures Fits(v, t, |Encoding(v, t)| + 0) { RegularFits(v, t, |Encoding(v, t)|); }
    AlwaysFitsIff(t, 0);
  }
}

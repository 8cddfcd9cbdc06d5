/** The ABI encoder: head/tail layout and the encoding as a function. */
module AbiEncode {
  import opened Words
  import opened AbiType

  /** Run-time values; Go slices and arrays stay apart because the encoder refuses one for the other. */
  datatype Value =
    | VBool(b: bool)
    | VInt(i: int)
    | VString(s: seq<byte>)
    | VBytes(s: seq<byte>)
    | VSlice(vs: seq<Value>)
    | VArray(vs: seq<Value>)
    | VTuple(m: map<string, Value>)

  const TWO_256: int := 0x1_0000000000000000_0000000000000000_0000000000000000_0000000000000000

  /** toU256: reduce modulo 2^256 when negative or too wide, then left-pad the shortest form. */
  function Word(n: int): (w: seq<byte>)
    ensures |w| == 32
  {
    PadBytes(MinBytes(Reduced(n)), 32, true)
  }

  function Reduced(n: int): (r: nat)
    ensures r == n % TWO_256
  {
    if n < 0 || n >= TWO_256 then n % TWO_256 else n
  }

  lemma Pow256Of32()
    ensures Pow256(32) == TWO_256
  {
    assert Pow256(8) == 0x1_0000000000000000;
    assert Pow256(16) == 0x1_0000000000000000_0000000000000000;
    assert Pow256(24) == 0x1_0000000000000000_0000000000000000_0000000000000000;
  }

  /** Words are two's complement: the 32 low-order bytes of any integer. */
  lemma WordIsLowBytes(n: int, k: nat)
    requires k == 32
    ensures Word(n) == LowBytes(n, k)
  {
    Pow256Of32();
    PaddedResidue(n, k);
  }

  lemma PaddedResidue(n: int, k: nat)
    ensures PadBytes(MinBytes(n % Pow256(k)), k, true) == LowBytes(n, k)
  {
    PadMinBytes(n % Pow256(k), k);
    LowBytesMod(n, k);
  }

  /** A word reads back as the integer modulo 2^256. */
  lemma WordValue(n: int)
    ensures FromBytes(Word(n)) == n % TWO_256
  {
    var b := MinBytes(Reduced(n));
    Pow256Of32();
    MinBytesLength(Reduced(n), 32);
    if |b| < 32 { LeftZeros(32 - |b|, b); }
  }

  /** packBytesSlice: the length word and the bytes, zero-filled to a whole number of words. */
  function PackBytes(s: seq<byte>): (r: seq<byte>)
    ensures |r| == 32 + (|s| + 31) / 32 * 32
    ensures r[..32] == Word(|s|) && r[32..32 + |s|] == s
  {
    Word(|s|) + PadBytes(s, (|s| + 31) / 32 * 32, false)
  }

  // ---------------------------------------------------------------- layout

  /** One encoded component: static ones go into the head, dynamic ones into the tail. */
  datatype Part = Part(dynamic: bool, bytes: seq<byte>)

  function HeadSize(p: Part): nat { if p.dynamic then 32 else |p.bytes| }

  function TailOf(p: Part): seq<byte> { if p.dynamic then p.bytes else [] }

  function HeadOf(p: Part, offset: nat): (r: seq<byte>)
    ensures |r| == HeadSize(p)
  {
    if p.dynamic then Word(offset) else p.bytes
  }

  function HeadsSize(ps: seq<Part>): nat
  {
    if ps == [] then 0 else HeadSize(ps[0]) + HeadsSize(ps[1..])
  }

  /** The heads when the first tail starts at `offset`. */
  function Heads(ps: seq<Part>, offset: nat): (r: seq<byte>)
    ensures |r| == HeadsSize(ps)
  {
    if ps == [] then []
    else HeadOf(ps[0], offset) + Heads(ps[1..], offset + |TailOf(ps[0])|)
  }

  function Tails(ps: seq<Part>): seq<byte>
  {
    if ps == [] then [] else TailOf(ps[0]) + Tails(ps[1..])
  }

  function Layout(ps: seq<Part>): seq<byte>
  {
    Heads(ps, HeadsSize(ps)) + Tails(ps)
  }

  /** The ABI specification's head(X_i): a dynamic component's head is the length of all heads and of
      the tails before it. */
  function SpecHead(ps: seq<Part>, i: nat): seq<byte>
    requires i < |ps|
  {
    HeadOf(ps[i], HeadsSize(ps) + |Tails(ps[..i])|)
  }

  function SpecHeads(ps: seq<Part>, i: nat): seq<byte>
    requires i <= |ps|
    decreases |ps| - i
  {
    if i == |ps| then [] else SpecHead(ps, i) + SpecHeads(ps, i + 1)
  }

  /** The running-offset layout is head(X_1)..head(X_k) tail(X_1)..tail(X_k) of the specification. */
  lemma LayoutMeetsSpecification(ps: seq<Part>)
    ensures Layout(ps) == SpecHeads(ps, 0) + Tails(ps)
  {
    hide Word;
    assert ps[0..] == ps && Tails(ps[..0]) == [];
    HeadsMeetSpecification(ps, 0);
  }

  lemma {:induction false} HeadsMeetSpecification(ps: seq<Part>, i: nat)
    requires i <= |ps|
    ensures Heads(ps[i..], HeadsSize(ps) + |Tails(ps[..i])|) == SpecHeads(ps, i)
    decreases |ps| - i
  {
    hide *;
    if i < |ps| {
      HeadsMeetSpecification(ps, i + 1);
      HeadsMeetStep(ps, i);
    } else {
      NoHeadsLeft(ps, HeadsSize(ps) + |Tails(ps[..i])|);
    }
  }

  lemma NoHeadsLeft(ps: seq<Part>, offset: nat)
    ensures Heads(ps[|ps|..], offset) == [] && SpecHeads(ps, |ps|) == []
  {
  }

  lemma HeadsMeetStep(ps: seq<Part>, i: nat)
    requires i < |ps|
    requires Heads(ps[i + 1..], HeadsSize(ps) + |Tails(ps[..i + 1])|) == SpecHeads(ps, i + 1)
    ensures Heads(ps[i..], HeadsSize(ps) + |Tails(ps[..i])|) == SpecHeads(ps, i)
  {
    hide *;
    SpecHeadsCons(ps, i);
    HeadsCons(ps[i..], HeadsSize(ps) + |Tails(ps[..i])|);
    assert ps[i..][1..] == ps[i + 1..];
    TailsSnoc(ps, i);
  }

  lemma SpecHeadsCons(ps: seq<Part>, i: nat)
    requires i < |ps|
    ensures SpecHeads(ps, i) == HeadOf(ps[i], HeadsSize(ps) + |Tails(ps[..i])|) + SpecHeads(ps, i + 1)
  {
  }

  lemma HeadsCons(ps: seq<Part>, offset: nat)
    requires ps != []
    ensures Heads(ps, offset) == HeadOf(ps[0], offset) + Heads(ps[1..], offset + |TailOf(ps[0])|)
  {
  }

  lemma {:induction false} TailsSnoc(ps: seq<Part>, i: nat)
    requires i < |ps|
    ensures Tails(ps[..i + 1]) == Tails(ps[..i]) + TailOf(ps[i])
  {
    if i > 0 {
      TailsSnoc(ps[1..], i - 1);
      assert ps[..i + 1][1..] == ps[1..][..i] && ps[..i][1..] == ps[1..][..i - 1];
    } else {
      assert ps[..1][1..] == [];
    }
  }

  // ---------------------------------------------------------------- encoding

  /** The components of a container value, in the order of its type; a tuple may come as a list or a map. */
  function Items(v: Value, t: Type): (vs: seq<Value>)
    requires ShapeOk(v, t)
    ensures |vs| == |ItemTypes(v, t)|
  {
    match t
    case Tuple(fs) => if v.VTuple? then Lookup(v.m, Names(fs)) else v.vs[..|fs|]
    case Slice(_) => v.vs
    case Array(_, _) => v.vs
    case _ => []
  }

  function Lookup(m: map<string, Value>, ns: seq<string>): (vs: seq<Value>)
    requires forall i :: 0 <= i < |ns| ==> ns[i] in m
    ensures |vs| == |ns|
    ensures forall i :: 0 <= i < |ns| ==> vs[i] == m[ns[i]]
  {
    seq(|ns|, i requires 0 <= i < |ns| => m[ns[i]])
  }

  function ItemTypes(v: Value, t: Type): (ts: seq<Type>)
    requires ShapeOk(v, t)
    ensures ts != [] ==> DepthAll(ts) < Depth(t)
  {
    match t
    case Slice(e) => Repeat(e, |v.vs|)
    case Array(e, n) => Repeat(e, n)
    case Tuple(fs) => FieldTypes(fs)
    case _ => []
  }

  /** The outermost kind checks of the encoder. */
  predicate ShapeOk(v: Value, t: Type)
  {
    match t
    case Bool => v.VBool?
    case UInt(_) | Int(_) => v.VInt?
    case String => v.VString?
    case Bytes | FixedBytes(_) | Address | Function => v.VBytes?
    case Slice(_) => v.VSlice? && |v.vs| < TWO_63  // a Go length
    case Array(_, n) => v.VArray? && |v.vs| == n
    case Tuple(fs) =>
      || ((v.VSlice? || v.VArray?) && |v.vs| >= |fs|)
      || (v.VTuple? && |v.m| >= |fs| && var ns := Names(fs); forall i :: 0 <= i < |ns| ==> ns[i] in v.m)
  }

  /** Exactly the values the encoder does not reject. */
  predicate Accepts(v: Value, t: Type)
    decreases Depth(t), 1
  {
    ShapeOk(v, t) && AcceptsAll(Items(v, t), ItemTypes(v, t))
  }

  predicate AcceptsAll(vs: seq<Value>, ts: seq<Type>)
    requires |vs| == |ts|
    decreases DepthAll(ts), 2 * |ts|
  {
    ts != [] ==> Accepts(vs[0], ts[0]) && AcceptsAll(vs[1..], ts[1..])
  }

  /** The ABI encoding of an accepted value. */
  function Encoding(v: Value, t: Type): (r: seq<byte>)
    requires Accepts(v, t)
    decreases Depth(t), 1
  {
    match t
    case Bool => PadBytes(MinBytes(if v.b then 1 else 0), 32, true)
    case UInt(_) | Int(_) => Word(v.i)
    case String | Bytes => PackBytes(v.s)
    case FixedBytes(_) | Function => PadBytes(v.s, 32, false)
    case Address => PadBytes(v.s, 32, true)
    case Slice(_) => Word(|v.vs|) + Layout(Parts(Items(v, t), ItemTypes(v, t)))
    case Array(_, _) | Tuple(_) => Layout(Parts(Items(v, t), ItemTypes(v, t)))
  }

  function Parts(vs: seq<Value>, ts: seq<Type>): (ps: seq<Part>)
    requires |vs| == |ts| && AcceptsAll(vs, ts)
    ensures |ps| == |ts|
    decreases DepthAll(ts), 2 * |ts|
  {
    if ts == [] then []
    else [Part(IsDynamic(ts[0]), Encoding(vs[0], ts[0]))] + Parts(vs[1..], ts[1..])
  }

  lemma PartsNil(vs: seq<Value>, ts: seq<Type>)
    requires vs == [] && ts == []
    ensures Parts(vs, ts) == [] && HeadsSize(Parts(vs, ts)) == 0 && Tails(Parts(vs, ts)) == []
  {
  }

  /** Splitting the first component off. */
  lemma PartsCons(vs: seq<Value>, ts: seq<Type>)
    requires |vs| == |ts| && AcceptsAll(vs, ts) && ts != []
    ensures Parts(vs, ts)[0] == Part(IsDynamic(ts[0]), Encoding(vs[0], ts[0]))
    ensures Parts(vs, ts)[1..] == Parts(vs[1..], ts[1..])
    ensures HeadsSize(Parts(vs, ts))
         == (if IsDynamic(ts[0]) then 32 else |Encoding(vs[0], ts[0])|) + HeadsSize(Parts(vs[1..], ts[1..]))
    ensures Tails(Parts(vs, ts))
         == (if IsDynamic(ts[0]) then Encoding(vs[0], ts[0]) else []) + Tails(Parts(vs[1..], ts[1..]))
  {
    hide Encoding, IsDynamic, Accepts;
  }
}

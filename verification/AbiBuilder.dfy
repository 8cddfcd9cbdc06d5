/** The second encoder, ContractFunctionParameters: arguments laid out in one preallocated buffer. The ABI
    decoder reads the buffer back, and so do the index-based readers of a contract call result. */
module AbiBuilder {
  import opened Words
  import opened AbiType
  import opened AbiEncode
  import opened AbiDecode
  import opened AbiRoundTrip
  import opened AbiLaws

  datatype Argument = Argument(value: seq<byte>, dynamic: bool)

  /** The Add* calls. Array builders put one scalar word per item. */
  datatype Param =
    | PBool(b: bool)
    | PUint(bits: nat, n: nat)        // AddUint8 .. AddUint64
    | PInt(bits: nat, i: int)         // AddInt8 .. AddInt64
    | PWord(typ: Type, w: seq<byte>)  // AddUint72 .. AddUint256, AddInt72 .. AddInt256, AddBytes32
    | PAddress(a: seq<byte>)
    | PString(s: seq<byte>)
    | PBytes(s: seq<byte>)
    | PStrings(ss: seq<seq<byte>>)
    | PBytesArray(ss: seq<seq<byte>>)
    | PArray(elem: Type, items: seq<Param>)  // AddUint32Array, AddUint64Array, AddUint256Array, AddAddressArray
    | PBytes32s(ws: seq<seq<byte>>)          // AddBytes32Array

  predicate IsScalar(p: Param) { p.PBool? || p.PUint? || p.PInt? || p.PWord? || p.PAddress? }

  /** Bytes of the Go integer parameter: uint8, uint16, uint32 or uint64. */
  function GoWidth(bits: nat): (k: nat)
    ensures 1 <= k <= 8
  {
    if bits <= 8 then 1 else if bits <= 16 then 2 else if bits <= 32 then 4 else 8
  }

  /** What the Go parameter types allow; AddBytes32Array panics on items of more than 32 bytes. */
  predicate Valid(p: Param)
  {
    match p
    case PUint(bits, n) => bits in {8, 16, 24, 32, 40, 48, 56, 64} && n < Pow256(GoWidth(bits))
    case PInt(bits, i) =>
      bits in {8, 16, 24, 32, 40, 48, 56, 64} && var h: int := Pow256(GoWidth(bits)); -h <= 2 * i < h
    case PWord(t, w) => (t == FixedBytes(32) && |w| == 32) || ((t.UInt? || t.Int?) && 64 < t.bits <= 256)
    case PAddress(a) => |a| == 20
    case PArray(e, items) =>
      && e in {UInt(32), UInt(64), UInt(256), Address, FixedBytes(32)}
      && forall q | q in items :: IsScalar(q) && ParamType(q) == e && Valid(q) && (q.PWord? ==> |q.w| == 32)
    case PBytes32s(ws) => forall i :: 0 <= i < |ws| ==> |ws[i]| <= 32
    case _ => true
  }

  function ParamType(p: Param): Type
  {
    match p
    case PBool(_) => Bool
    case PUint(bits, _) => UInt(bits)
    case PInt(bits, _) => Int(bits)
    case PWord(t, _) => t
    case PAddress(_) => Address
    case PString(_) => String
    case PBytes(_) => Bytes
    case PStrings(_) => Slice(String)
    case PBytesArray(_) => Slice(Bytes)
    case PArray(e, _) => Slice(e)
    case PBytes32s(_) => Slice(FixedBytes(32))
  }

  // ---------------------------------------------------------------- arguments

  /** binary.BigEndian.PutUint64 into the last eight bytes of a zeroed word. */
  function LenWord(n: nat): (w: seq<byte>)
    ensures |w| == 32
  {
    Zeros(24) + LowBytes(n, 8)
  }

  /** _NewIntArgument: only strictly positive values start from a zeroed word, all others from 0xff bytes. */
  function Fill(i: int, n: nat): (b: seq<byte>)
    ensures |b| == n
  {
    if i > 0 then Zeros(n) else seq(n, _ => 255)
  }

  function ScalarWord(p: Param): (w: seq<byte>)
    requires IsScalar(p) && Valid(p)
    ensures |w| == 32
  {
    match p
    case PBool(b) => Zeros(31) + [if b then 1 else 0]
    case PUint(bits, n) => Zeros(32 - GoWidth(bits)) + LowBytes(n, GoWidth(bits))
    case PInt(bits, i) => Fill(i, 32 - GoWidth(bits)) + LowBytes(i, GoWidth(bits))
    case PWord(_, w) => Slot(w)
    case PAddress(a) => Zeros(12) + a
  }

  /** Length word, content, and one to thirty-two zero bytes up to the next word boundary. */
  function PackLong(s: seq<byte>): (r: seq<byte>)
    ensures |r| == 32 + (|s| / 32 + 1) * 32
  {
    LenWord(|s|) + s + Zeros((|s| / 32 + 1) * 32 - |s|)
  }

  function LongParts(ss: seq<seq<byte>>): (ps: seq<Part>)
    ensures |ps| == |ss|
    ensures forall i :: 0 <= i < |ss| ==> ps[i] == Part(true, PackLong(ss[i]))
  {
    seq(|ss|, i requires 0 <= i < |ss| => Part(true, PackLong(ss[i])))
  }

  function WordParts(items: seq<Param>): (ps: seq<Part>)
    requires forall q | q in items :: IsScalar(q) && Valid(q)
    ensures |ps| == |items|
    ensures forall i :: 0 <= i < |items| ==> ps[i] == Part(false, ScalarWord(items[i]))
  {
    seq(|items|, i requires 0 <= i < |items| => Part(false, ScalarWord(items[i])))
  }

  /** Items of AddBytes32Array are filled up on the left. */
  function LeftFilled(w: seq<byte>): (r: seq<byte>)
    requires |w| <= 32
    ensures |r| == 32
  {
    Zeros(32 - |w|) + w
  }

  function Items32(ws: seq<seq<byte>>): (items: seq<Param>)
    requires Valid(PBytes32s(ws))
    ensures |items| == |ws| && forall i :: 0 <= i < |ws| ==> items[i] == PWord(FixedBytes(32), LeftFilled(ws[i]))
    ensures Valid(PArray(FixedBytes(32), items))
  {
    seq(|ws|, i requires 0 <= i < |ws| => PWord(FixedBytes(32), LeftFilled(ws[i])))
  }

  /** The adders of wide integers keep the caller's bytes, however many. */
  function ArgumentOf(p: Param): (a: Argument)
    requires Valid(p)
  {
    match p
    case PString(s) => Argument(PackLong(s), true)
    case PBytes(s) => Argument(PackLong(s), true)
    case PStrings(ss) => Argument(LenWord(|ss|) + Layout(LongParts(ss)), true)
    case PBytesArray(ss) => Argument(LenWord(|ss|) + Layout(LongParts(ss)), true)
    case PArray(_, items) => Argument(LenWord(|items|) + Layout(WordParts(items)), true)
    case PBytes32s(ws) => Argument(LenWord(|ws|) + Layout(WordParts(Items32(ws))), true)
    case PWord(_, w) => Argument(w, false)
    case _ => Argument(ScalarWord(p), false)
  }

  /** What `copy` leaves of a static value in its zeroed 32-byte slot. */
  function Slot(v: seq<byte>): (r: seq<byte>)
    ensures |r| == 32
    ensures |v| == 32 ==> r == v
  {
    if |v| >= 32 then v[..32] else v + Zeros(32 - |v|)
  }

  /** An argument where _Build puts it. */
  function Placed(a: Argument): (p: Part) { Part(a.dynamic, if a.dynamic then a.value else Slot(a.value)) }

  function ArgumentParts(args: seq<Argument>): (ps: seq<Part>)
    ensures |ps| == |args|
    ensures forall i :: 0 <= i < |args| ==> ps[i] == Placed(args[i])
  {
    seq(|args|, i requires 0 <= i < |args| => Placed(args[i]))
  }

  // ---------------------------------------------------------------- words

  lemma ZeroExtended(i: nat, k: nat)
    requires k <= 32 && i < Pow256(k)
    ensures Zeros(32 - k) + LowBytes(i, k) == Word(i)
  {
    hide *;
    var n := 32;
    var w := Zeros(n - k) + LowBytes(i, k);
    LeftZeros(n - k, LowBytes(i, k));
    LowBytesValue(i, k);
    ModUnique(i, Pow256(k), 0, i);
    LowBytesOfValue(w);
    WordIsLowBytes(i, n);
  }

  lemma LenWordIsWord(n: nat)
    requires n < TWO_63
    ensures LenWord(n) == Word(n)
  {
    assert Pow256(8) == 2 * TWO_63;
    ZeroExtended(n, 8);
  }

  lemma {:induction false} SignExtended(i: int, k: nat, n: nat)
    requires k <= n && var h: int := Pow256(k); -h <= i < 0
    ensures seq(n - k, _ => 255) + LowBytes(i, k) == LowBytes(i, n)
    decreases n
  {
    if k > 0 {
      SignExtended(i / 256, k - 1, n - 1);
      assert seq(n - k, _ => 255) + LowBytes(i, k) == seq(n - k, _ => 255) + LowBytes(i / 256, k - 1) + [i % 256];
    } else if n > 0 {
      SignExtended(i / 256, 0, n - 1);
      assert i == -1 && i / 256 == -1 && i % 256 == 255;
      assert seq(n, _ => 255) == seq(n - 1, _ => 255) + [255];
    }
  }

  lemma Pow256Grows(a: nat, b: nat)
    requires a <= b
    ensures Pow256(a) <= Pow256(b)
  {
  }

  /** The integer whose word AddIntN writes: zero is written with 0xff in the leading bytes. */
  function Written(i: int, k: nat): int
  {
    if i == 0 then -(Pow256(k) as int) else i
  }

  lemma IntWord(i: int, k: nat)
    requires 1 <= k <= 8 && var h: int := Pow256(k); -h <= 2 * i < h
    ensures Fill(i, 32 - k) + LowBytes(i, k) == Word(Written(i, k))
  {
    var n, j := 32, Written(i, k);
    hide Word;
    if i > 0 {
      ZeroExtended(i, k);
    } else {
      SignExtended(j, k, n);
      WordIsLowBytes(j, n);
      if i == 0 {
        ModUnique(j, Pow256(k), -1, 0);
        ModUnique(0, Pow256(k), 0, 0);
        LowBytesMod(j, k);
        LowBytesMod(0, k);
      }
    }
  }

  /** The value the caller meant: byte strings of any length are big-endian numbers, in two's complement if signed. */
  function GivenValue(p: Param): Value
    requires Valid(p)
  {
    match p
    case PBool(b) => VBool(b)
    case PUint(_, n) => VInt(n)
    case PInt(_, i) => VInt(i)
    case PWord(t, w) => WideValue(t, w)
    case PAddress(a) => VBytes(a)
    case PString(s) => VString(s)
    case PBytes(s) => VBytes(s)
    case PStrings(ss) => VSlice(seq(|ss|, j requires 0 <= j < |ss| => VString(ss[j])))
    case PBytesArray(ss) => VSlice(seq(|ss|, j requires 0 <= j < |ss| => VBytes(ss[j])))
    case PArray(_, items) => VSlice(seq(|items|, j requires 0 <= j < |items| => GivenValue(items[j])))
    case PBytes32s(ws) => VSlice(seq(|ws|, j requires 0 <= j < |ws| => VBytes(ws[j])))
  }

  function WideValue(t: Type, w: seq<byte>): Value
  {
    if t.UInt? then VInt(FromBytes(w)) else if t.Int? then VInt(Signed(FromBytes(w), |w|)) else VBytes(w)
  }

  /** The value the decoder finds. */
  function FoundValue(p: Param): Value
    requires Valid(p)
  {
    match p
    case PInt(bits, i) => VInt(if i == 0 && bits !in {8, 16, 32, 64} then Written(0, GoWidth(bits)) else i)
    case PWord(t, w) => WideValue(t, Slot(w))
    case PArray(_, items) => VSlice(seq(|items|, j requires 0 <= j < |items| => FoundValue(items[j])))
    case PBytes32s(ws) => VSlice(seq(|ws|, j requires 0 <= j < |ws| => VBytes(LeftFilled(ws[j]))))
    case _ => GivenValue(p)
  }

  lemma UintDecodes(bits: nat, n: nat)
    requires Valid(PUint(bits, n))
    ensures ReadInteger(bits, false, Word(n)) == n
  {
    hide Word, FromBytes, Pow256;
    var k := ByteWidth(bits);
    WordSuffix(n, k);
    Pow256Grows(GoWidth(bits), k);
    ModUnique(n, Pow256(k), 0, n);
  }

  lemma IntDecodes(bits: nat, i: int)
    requires Valid(PInt(bits, i))
    ensures ReadInteger(bits, true, Word(Written(i, GoWidth(bits)))) == FoundValue(PInt(bits, i)).i
  {
    hide Word, FromBytes, Pow256;
    var k, g := ByteWidth(bits), GoWidth(bits);
    var j := Written(i, g);
    WordSuffix(j, k);
    Pow256Grows(g, k);
    if i != 0 {
      SignedIff(i, k);
    } else if k == g {
      ModUnique(j, Pow256(k), -1, 0);
    } else {
      WidePow(g);
      SignedIff(j, k);
    }
  }

  lemma WidePow(g: nat)
    requires g <= 8
    ensures 2 * Pow256(g) <= Pow256(32)
  {
    Pow256Grows(g, 31);
  }

  lemma ScalarDecodes(p: Param)
    requires Valid(p) && IsScalar(p)
    ensures WellSized(ParamType(p)) && IsWord(ParamType(p))
    ensures DecodeWord(ParamType(p), ScalarWord(p)) == Ok(FoundValue(p))
  {
    hide Word, FromBytes, Pow256, DecodeWord, Valid, ScalarWord, FoundValue;
    match p {
      case PBool(b) => BoolDecodes(p);
      case PUint(bits, n) => UintScalar(p);
      case PInt(bits, i) => IntScalar(p);
      case PWord(t, w) => WordDecodes(t, w);
      case PAddress(a) => AddressDecodes(p);
    }
  }

  lemma BoolDecodes(p: Param)
    requires p.PBool? && Valid(p)
    ensures DecodeWord(Bool, ScalarWord(p)) == Ok(FoundValue(p))
  {
    hide Word, FromBytes, Pow256;
  }

  lemma AddressDecodes(p: Param)
    requires p.PAddress? && Valid(p)
    ensures DecodeWord(Address, ScalarWord(p)) == Ok(FoundValue(p))
  {
    hide Word, FromBytes, Pow256;
  }

  lemma UintScalar(p: Param)
    requires p.PUint? && Valid(p)
    ensures WellSized(ParamType(p)) && DecodeWord(ParamType(p), ScalarWord(p)) == Ok(FoundValue(p))
  {
    hide Word, FromBytes, Pow256, ReadInteger;
    ZeroExtended(p.n, GoWidth(p.bits));
    UintDecodes(p.bits, p.n);
  }

  lemma IntScalar(p: Param)
    requires p.PInt? && Valid(p)
    ensures WellSized(ParamType(p)) && DecodeWord(ParamType(p), ScalarWord(p)) == Ok(FoundValue(p))
  {
    hide Word, FromBytes, Pow256, ReadInteger, Fill, Written;
    IntWord(p.i, GoWidth(p.bits));
    IntDecodes(p.bits, p.i);
  }

  lemma WordDecodes(t: Type, w: seq<byte>)
    requires Valid(PWord(t, w))
    ensures WellSized(t) && IsWord(t) && DecodeWord(t, Slot(w)) == Ok(FoundValue(PWord(t, w)))
    ensures ScalarWord(PWord(t, w)) == Slot(w)
  {
    hide FromBytes, Pow256, Slot;
    var x := Slot(w);
    assert x[0..] == x && x[..32] == x;
    assert FromBytes(x) < Pow256(|x|);
    ModUnique(FromBytes(x), Pow256(|x|), 0, FromBytes(x));
  }

  // ---------------------------------------------------------------- any decodable parts make a decodable layout

  /** On its own, the part decodes to `v`, and to nothing more if it is static. */
  ghost predicate PartReads(t: Type, p: Part, v: Value)
  {
    && WellSized(t) && p.dynamic == IsDynamic(t)
    && Decode(t, p.bytes).Ok? && Decode(t, p.bytes).value.0 == v
    && (!p.dynamic ==> Decode(t, p.bytes).value.1 == [])
  }

  ghost predicate PartsRead(ts: seq<Type>, ps: seq<Part>, vs: seq<Value>)
  {
    |ts| == |ps| == |vs| && forall i :: 0 <= i < |ts| ==> PartReads(ts[i], ps[i], vs[i])
  }

  /** A layout of parts decodes to their values, whatever encoder wrote the parts. */
  lemma LayoutDecodes(ts: seq<Type>, ps: seq<Part>, vs: seq<Value>, s: seq<byte>)
    requires PartsRead(ts, ps, vs) && |Layout(ps)| < TWO_63
    ensures var base := Layout(ps) + s;
            AllWellSized(ts) && DecodeAll(ts, base, base) == Ok((vs, Tails(ps) + s)) && |Layout(ps)| >= 32 * |ts|
  {
    hide Heads, Tails, HeadsSize, Decode, IsDynamic, WellSized, DecodeAll;
    LayoutSplit(ps, s);
    var base := Layout(ps) + s;
    HeadsRead(ts, ps, vs, base, base, HeadsSize(ps), Tails(ps) + s, s);
  }

  lemma {:induction false} HeadsRead(ts: seq<Type>, ps: seq<Part>, vs: seq<Value>, orig: seq<byte>, data: seq<byte>, off: nat,
                                     rest: seq<byte>, s: seq<byte>)
    requires PartsRead(ts, ps, vs)
    requires data == Heads(ps, off) + rest
    requires off <= |orig| && orig[off..] == Tails(ps) + s && off + |Tails(ps)| < TWO_63
    ensures AllWellSized(ts) && DecodeAll(ts, orig, data) == Ok((vs, rest)) && HeadsSize(ps) >= 32 * |ts|
    decreases |ts|
  {
    hide Decode, IsDynamic, WellSized, Word, DecodeNext, PartReads, Tails, HeadOf, TailOf;
    if ts == [] {
      assert data == rest;
    } else {
      PeelParts(ps, orig, off, rest, s);
      TailsCons(ps);
      var off' := off + |TailOf(ps[0])|;
      var data' := Heads(ps[1..], off') + rest;
      HeadReads(ts[0], ps[0], vs[0], orig, data, off, data', Tails(ps[1..]) + s);
      HeadsRead(ts[1..], ps[1..], vs[1..], orig, data', off', rest, s);
      assert vs == [vs[0]] + vs[1..];
    }
  }

  lemma HeadReads(t: Type, p: Part, v: Value, orig: seq<byte>, data: seq<byte>, off: nat, rest: seq<byte>, s: seq<byte>)
    requires PartReads(t, p, v) && data == HeadOf(p, off) + rest
    requires off <= |orig| && off < TWO_63 && orig[off..] == TailOf(p) + s
    ensures WellSized(t) && HeadSize(p) >= 32 && DecodeNext(t, orig, data) == Ok((v, rest))
  {
    hide Decode, IsDynamic, WellSized, Word, FromBytes;
    ShortInput(t, p.bytes);
    if p.dynamic {
      DecodeExtends(t, p.bytes, s);
      SmallWord(off);
      assert data[..32] == Word(off) && data[32..] == rest;
    } else {
      DecodeExtends(t, p.bytes, rest);
      assert [] + rest == rest;
    }
  }

  // ---------------------------------------------------------------- every argument decodes

  lemma LongDecodes(t: Type, b: seq<byte>)
    requires (t.String? || t.Bytes?) && |b| < TWO_63
    ensures PartReads(t, Part(true, PackLong(b)), if t.String? then VString(b) else VBytes(b))
  {
    hide Word, FromBytes, Decode;
    var x := PackLong(b);
    LenWordIsWord(|b|);
    SmallWord(|b|);
    assert x[..32] == LenWord(|b|);
    assert x[32..32 + |b|] == b;
    DecodeOfBytes(t, x);
  }

  lemma ScalarReads(p: Param)
    requires Valid(p) && IsScalar(p)
    ensures PartReads(ParamType(p), Part(false, ScalarWord(p)), FoundValue(p))
  {
    hide Decode, DecodeWord, FoundValue, ScalarWord;
    ScalarDecodes(p);
    DecodeOfWord(ParamType(p), ScalarWord(p), []);
    assert ScalarWord(p) + [] == ScalarWord(p);
  }

  /** A length word followed by a layout is what the decoder expects of a slice. */
  lemma SliceReads(t: Type, ps: seq<Part>, vs: seq<Value>)
    requires t.Slice? && WellSized(t) && PartsRead(Repeat(t.elem, |ps|), ps, vs) && |ps| < TWO_63 && |Layout(ps)| < TWO_63
    ensures PartReads(t, Part(true, LenWord(|ps|) + Layout(ps)), VSlice(vs))
  {
    hide Word, FromBytes, Decode, Layout, LenWord, DecodeAll, Tails, PartsRead;
    var x := LenWord(|ps|) + Layout(ps);
    LenWordIsWord(|ps|);
    SmallWord(|ps|);
    assert x[..32] == LenWord(|ps|) && x[32..] == Layout(ps);
    LayoutDecodes(Repeat(t.elem, |ps|), ps, vs, []);
    assert Layout(ps) + [] == Layout(ps);
    DecodeOfSlice(t, x, |ps|);
  }

  lemma ArgumentReads(p: Param)
    requires Valid(p) && |Placed(ArgumentOf(p)).bytes| < TWO_63
    ensures PartReads(ParamType(p), Placed(ArgumentOf(p)), FoundValue(p))
  {
    hide PartReads, Layout, LenWord, ScalarWord, Decode, Slot;
    match p
    case PString(s) => LongDecodes(String, s);
    case PBytes(s) => LongDecodes(Bytes, s);
    case PStrings(ss) => LongsRead(String, ss, GivenValue(p).vs);
    case PBytesArray(ss) => LongsRead(Bytes, ss, GivenValue(p).vs);
    case PArray(e, items) => WordsRead(p);
    case PBytes32s(ws) =>
      var q := PArray(FixedBytes(32), Items32(ws));
      WordsRead(q);
      FilledItems(ws);
    case _ =>
      ScalarReads(p);
      ScalarPlaced(p);
  }

  lemma FilledItems(ws: seq<seq<byte>>)
    requires Valid(PBytes32s(ws))
    ensures FoundValue(PArray(FixedBytes(32), Items32(ws))) == FoundValue(PBytes32s(ws))
  {
    var items := Items32(ws);
    forall i | 0 <= i < |ws| ensures FoundValue(items[i]) == VBytes(LeftFilled(ws[i])) {}
    assert FoundValue(PArray(FixedBytes(32), items)).vs == FoundValue(PBytes32s(ws)).vs;
  }

  lemma ScalarPlaced(p: Param)
    requires Valid(p) && IsScalar(p)
    ensures Placed(ArgumentOf(p)) == Part(false, ScalarWord(p))
  {
  }

  lemma LongsRead(t: Type, ss: seq<seq<byte>>, vs: seq<Value>)
    requires t.String? || t.Bytes?
    requires |vs| == |ss| && forall i :: 0 <= i < |ss| ==> vs[i] == if t.String? then VString(ss[i]) else VBytes(ss[i])
    requires |Layout(LongParts(ss))| < TWO_63
    ensures PartReads(Slice(t), Part(true, LenWord(|ss|) + Layout(LongParts(ss))), VSlice(vs))
  {
    hide PartReads, LenWord, Decode, PackLong, Layout;
    var ps, ts := LongParts(ss), Repeat(t, |ss|);
    LongSizes(ss);
    forall i | 0 <= i < |ss| ensures PartReads(ts[i], ps[i], vs[i]) { LongDecodes(t, ss[i]); }
    SliceReads(Slice(t), ps, vs);
  }

  lemma {:induction false} LongSizes(ss: seq<seq<byte>>)
    ensures |Layout(LongParts(ss))| >= |ss|
    ensures forall i :: 0 <= i < |ss| ==> |ss[i]| <= |Layout(LongParts(ss))|
  {
    hide LenWord, Word, Heads;
    if ss != [] {
      LongSizes(ss[1..]);
      assert LongParts(ss)[1..] == LongParts(ss[1..]);
      assert forall i :: 0 < i < |ss| ==> ss[i] == ss[1..][i - 1];
    }
  }

  lemma WordsRead(p: Param)
    requires Valid(p) && p.PArray? && |ArgumentOf(p).value| < TWO_63
    ensures PartReads(Slice(p.elem), Part(true, ArgumentOf(p).value), FoundValue(p))
  {
    var ps, ts, vs := WordParts(p.items), Repeat(p.elem, |p.items|), FoundValue(p).vs;
    hide PartReads, LenWord, Decode, Heads, Tails, HeadsSize, Layout, ScalarWord;
    WordSizes(ps);
    forall i | 0 <= i < |ps| ensures PartReads(ts[i], ps[i], vs[i]) { ScalarReads(p.items[i]); }
    assert WellSized(p.elem);
    SliceReads(Slice(p.elem), ps, vs);
  }

  lemma {:induction false} WordSizes(ps: seq<Part>)
    requires forall i :: 0 <= i < |ps| ==> !ps[i].dynamic && |ps[i].bytes| == 32
    ensures |Layout(ps)| >= |ps|
  {
    hide Word, Heads;
    if ps != [] { WordSizes(ps[1..]); }
  }

  // ---------------------------------------------------------------- the buffer

  ghost predicate OneWordHeads(ps: seq<Part>)
  {
    forall i :: 0 <= i < |ps| ==> HeadSize(ps[i]) == 32
  }

  lemma {:induction false} OneWordSize(ps: seq<Part>)
    requires OneWordHeads(ps)
    ensures HeadsSize(ps) == 32 * |ps|
  {
    if ps != [] { OneWordSize(ps[1..]); }
  }

  function Splice(b: seq<byte>, at: nat, src: seq<byte>): (r: seq<byte>)
    requires at + |src| <= |b|
    ensures |r| == |b|
  {
    b[..at] + src + b[at + |src|..]
  }

  method CopyInto(buf: array<byte>, at: nat, src: seq<byte>)
    requires at + |src| <= buf.Length
    modifies buf
    ensures buf[..] == Splice(old(buf[..]), at, src)
  {
    forall k | 0 <= k < |src| { buf[at + k] := src[k]; }
  }

  /** The first loop of the builders: the space they allocate. */
  method Space(ps: seq<Part>) returns (length: nat)
    requires OneWordHeads(ps)
    ensures length == |Layout(ps)|
  {
    hide Heads, Word;
    length := 0;
    var i := 0;
    OneWordSize(ps);
    assert ps[0..] == ps;
    while i < |ps|
      invariant 0 <= i <= |ps| && length + 32 * (|ps| - i) + |Tails(ps[i..])| == |Layout(ps)|
    {
      assert ps[i..][1..] == ps[i + 1..];
      length := length + 32;
      if ps[i].dynamic { length := length + |ps[i].bytes|; }
      i := i + 1;
    }
  }

  /** The buffer from `base` on when `i` parts are written and the next tail goes to `offset`. */
  ghost predicate Progress(body: seq<byte>, ps: seq<Part>, i: nat, offset: nat)
    requires i <= |ps|
  {
    && 32 * |ps| <= offset && offset + |Tails(ps[i..])| == |body|
    && body[..32 * i] + Heads(ps[i..], offset) == Heads(ps, 32 * |ps|)
    && body[32 * i..32 * |ps|] == Zeros(32 * (|ps| - i))
    && body[32 * |ps|..offset] + Tails(ps[i..]) == Tails(ps)
  }

  lemma ProgressStart(ps: seq<Part>, body: seq<byte>)
    requires OneWordHeads(ps) && body == Zeros(|Layout(ps)|)
    ensures Progress(body, ps, 0, 32 * |ps|)
  {
    hide Heads, Tails, HeadsSize;
    OneWordSize(ps);
    assert ps[0..] == ps && body[..0] == [];
    assert [] + Heads(ps, 32 * |ps|) == Heads(ps, 32 * |ps|);
    assert body[32 * |ps|..32 * |ps|] == [];
    assert [] + Tails(ps) == Tails(ps);
  }

  lemma ProgressEnd(ps: seq<Part>, body: seq<byte>, offset: nat)
    requires OneWordHeads(ps) && Progress(body, ps, |ps|, offset)
    ensures body == Layout(ps)
  {
    hide Word, HeadsSize;
    OneWordSize(ps);
    var n := 32 * |ps|;
    assert ps[|ps|..] == [];
    assert body[..n] == Heads(ps, n) && body[n..] == Tails(ps);
    assert body == body[..n] + body[n..];
  }

  /** Writing one head into its zeroed slot and one tail at the running offset. */
  lemma ProgressStep(ps: seq<Part>, body: seq<byte>, i: nat, offset: nat, body': seq<byte>)
    requires OneWordHeads(ps) && i < |ps| && Progress(body, ps, i, offset)
    requires var head, tail := HeadOf(ps[i], offset), TailOf(ps[i]);
             && offset + |tail| <= |body|
             && body' == body[..32 * i] + head + body[32 * i + 32..offset] + tail + body[offset + |tail|..]
    ensures Progress(body', ps, i + 1, offset + |TailOf(ps[i])|)
  {
    hide *;
    var n, off' := 32 * |ps|, offset + |TailOf(ps[i])|;
    assert ps[i..][1..] == ps[i + 1..] && ps[i..][0] == ps[i];
    HeadsCons(ps[i..], offset);
    TailsCons(ps[i..]);
    ProgressFacts(ps, body, i, offset);
    Patched(body, HeadOf(ps[i], offset), TailOf(ps[i]), 32 * i, n, offset, body');
    AppendAssoc(body[..32 * i], HeadOf(ps[i], offset), Heads(ps[i + 1..], off'));
    AppendAssoc(body[n..offset], TailOf(ps[i]), Tails(ps[i + 1..]));
    ProgressFrom(ps, body', i + 1, off');
  }

  lemma AppendAssoc(a: seq<byte>, b: seq<byte>, c: seq<byte>)
    ensures a + (b + c) == a + b + c
  {
  }

  lemma Patched(body: seq<byte>, head: seq<byte>, tail: seq<byte>, slot: nat, n: nat, offset: nat, body': seq<byte>)
    requires |head| == 32 && slot + 32 <= n <= offset && offset + |tail| <= |body|
    requires body' == body[..slot] + head + body[slot + 32..offset] + tail + body[offset + |tail|..]
    ensures |body'| == |body| && body'[..slot + 32] == body[..slot] + head
    ensures body'[slot + 32..n] == body[slot..n][32..]
    ensures body'[n..offset + |tail|] == body[n..offset] + tail
  {
    var front, mid, rest := body[..slot] + head, body[slot + 32..offset], body[offset + |tail|..];
    assert body' == front + mid + tail + rest;
    Four(front, mid, tail, rest, n - |front|);
    assert mid[..n - |front|] == body[slot..n][32..];
    assert mid[n - |front|..] == body[n..offset];
  }

  lemma Four(a: seq<byte>, b: seq<byte>, c: seq<byte>, d: seq<byte>, m: nat)
    requires m <= |b|
    ensures var s := a + b + c + d;
      s[..|a|] == a && s[|a|..|a| + m] == b[..m] && s[|a| + m..|a| + |b| + |c|] == b[m..] + c
  {
  }

  lemma ProgressFacts(ps: seq<Part>, body: seq<byte>, i: nat, offset: nat)
    requires i < |ps| && OneWordHeads(ps) && Progress(body, ps, i, offset)
    ensures |HeadOf(ps[i], offset)| == 32
    ensures 32 * |ps| <= offset && offset + |Tails(ps[i..])| == |body|
    ensures body[..32 * i] + Heads(ps[i..], offset) == Heads(ps, 32 * |ps|)
    ensures body[32 * i..32 * |ps|][32..] == Zeros(32 * (|ps| - (i + 1)))
    ensures body[32 * |ps|..offset] + Tails(ps[i..]) == Tails(ps)
  {
    hide Heads, Tails;
  }

  lemma ProgressFrom(ps: seq<Part>, body: seq<byte>, i: nat, offset: nat)
    requires i <= |ps|
    requires 32 * |ps| <= offset && offset + |Tails(ps[i..])| == |body|
    requires body[..32 * i] + Heads(ps[i..], offset) == Heads(ps, 32 * |ps|)
    requires body[32 * i..32 * |ps|] == Zeros(32 * (|ps| - i))
    requires body[32 * |ps|..offset] + Tails(ps[i..]) == Tails(ps)
    ensures Progress(body, ps, i, offset)
  {
  }

  /** One iteration: a static value into its slot, or a uint64 offset there and the value at that offset. */
  method WritePart(buf: array<byte>, base: nat, p: Part, slot: nat, offset: nat)
    requires HeadSize(p) == 32 && slot + 32 <= offset < TWO_63 && base + offset + |TailOf(p)| <= buf.Length
    requires buf[..][base + slot..base + slot + 24] == Zeros(24)
    modifies buf
    ensures buf[..] == Splice(Splice(old(buf[..]), base + slot, HeadOf(p, offset)), base + offset, TailOf(p))
  {
    hide Word, Splice;
    ghost var b := buf[..];
    if p.dynamic {
      CopyInto(buf, base + slot + 24, LowBytes(offset, 8));
      OffsetWord(b, base + slot, offset);
      CopyInto(buf, base + offset, p.bytes);
    } else {
      CopyInto(buf, base + slot, p.bytes);
      EmptySplice(buf[..], base + offset);
    }
  }

  lemma OffsetWord(b: seq<byte>, at: nat, offset: nat)
    requires at + 32 <= |b| && b[at..at + 24] == Zeros(24) && offset < TWO_63
    ensures Splice(b, at + 24, LowBytes(offset, 8)) == Splice(b, at, Word(offset))
  {
    hide Word, LowBytes;
    LenWordIsWord(offset);
    assert b[..at + 24] == b[..at] + Zeros(24);
  }

  lemma EmptySplice(b: seq<byte>, at: nat)
    requires at <= |b|
    ensures Splice(b, at, []) == b
  {
  }

  /** The writing loop shared by _Build and bytesArray. */
  method WriteLayout(buf: array<byte>, base: nat, ps: seq<Part>)
    requires OneWordHeads(ps) && |Layout(ps)| < TWO_63
    requires base + |Layout(ps)| == buf.Length && buf[base..] == Zeros(|Layout(ps)|)
    modifies buf
    ensures buf[..] == old(buf[..base]) + Layout(ps)
  {
    hide *;
    var offset: nat := 32 * |ps|;
    ghost var before := buf[..base];
    assert buf[..][base..] == buf[base..] && buf[..][..base] == before;
    ProgressStart(ps, buf[..][base..]);
    var i := 0;
    while i < |ps|
      invariant 0 <= i <= |ps| && buf[..][..base] == before
      invariant |buf[..][base..]| < TWO_63 && Progress(buf[..][base..], ps, i, offset)
    {
      ghost var whole := buf[..];
      Ready(ps, whole, base, i, offset);
      WritePart(buf, base, ps[i], 32 * i, offset);
      Rewritten(ps, whole, base, i, offset, buf[..]);
      offset := offset + |TailOf(ps[i])|;
      i := i + 1;
    }
    ProgressEnd(ps, buf[..][base..], offset);
    assert buf[..] == buf[..][..base] + buf[..][base..];
  }

  lemma Rewritten(ps: seq<Part>, whole: seq<byte>, base: nat, i: nat, offset: nat, whole': seq<byte>)
    requires i < |ps| && OneWordHeads(ps) && base <= |whole| && Progress(whole[base..], ps, i, offset)
    requires 32 * i + 32 <= offset && base + offset + |TailOf(ps[i])| <= |whole| && |HeadOf(ps[i], offset)| == 32
    requires whole' == Splice(Splice(whole, base + 32 * i, HeadOf(ps[i], offset)), base + offset, TailOf(ps[i]))
    ensures |whole'| == |whole| && whole'[..base] == whole[..base]
    ensures Progress(whole'[base..], ps, i + 1, offset + |TailOf(ps[i])|)
  {
    hide *;
    Rebase(whole, base, 32 * i, offset, HeadOf(ps[i], offset), TailOf(ps[i]));
    ProgressStep(ps, whole[base..], i, offset, whole'[base..]);
  }

  lemma Rebase(a: seq<byte>, base: nat, slot: nat, offset: nat, head: seq<byte>, tail: seq<byte>)
    requires |head| == 32 && slot + 32 <= offset && base + offset + |tail| <= |a|
    ensures var b := Splice(Splice(a, base + slot, head), base + offset, tail);
            && |b| == |a| && b[..base] == a[..base]
            && b[base..] == a[base..][..slot] + head + a[base..][slot + 32..offset] + tail + a[base..][offset + |tail|..]
  {
    hide Splice;
    SpliceFrom(a, base, slot, head);
    SpliceFrom(Splice(a, base + slot, head), base, offset, tail);
    TwoSplices(a[base..], slot, head, offset, tail);
  }

  lemma SpliceFrom(a: seq<byte>, base: nat, at: nat, src: seq<byte>)
    requires base + at + |src| <= |a|
    ensures Splice(a, base + at, src)[..base] == a[..base]
    ensures Splice(a, base + at, src)[base..] == Splice(a[base..], at, src)
  {
    assert a[..base + at] == a[..base] + a[base..][..at];
    assert a[base..][at + |src|..] == a[base + at + |src|..];
  }

  lemma TwoSplices(b: seq<byte>, slot: nat, head: seq<byte>, offset: nat, tail: seq<byte>)
    requires slot + |head| <= offset && offset + |tail| <= |b|
    ensures Splice(Splice(b, slot, head), offset, tail)
         == b[..slot] + head + b[slot + |head|..offset] + tail + b[offset + |tail|..]
  {
    var once := Splice(b, slot, head);
    assert once[..offset] == b[..slot] + head + b[slot + |head|..offset];
    assert once[offset + |tail|..] == b[offset + |tail|..];
  }

  lemma Ready(ps: seq<Part>, whole: seq<byte>, base: nat, i: nat, offset: nat)
    requires i < |ps| && OneWordHeads(ps) && base <= |whole| && Progress(whole[base..], ps, i, offset)
    ensures 32 * i + 32 <= offset && base + offset + |TailOf(ps[i])| <= |whole|
    ensures |HeadOf(ps[i], offset)| == 32 == HeadSize(ps[i]) && offset <= |whole| - base
    ensures whole[base + 32 * i..base + 32 * i + 24] == Zeros(24)
  {
    hide Heads, Tails, Zeros;
    var body := whole[base..];
    ProgressFacts(ps, body, i, offset);
    TailsCons(ps[i..]);
    ZeroSlot(body, 32 * i, 32 * |ps|);
    assert whole[base + 32 * i..base + 32 * i + 24] == body[32 * i..32 * i + 24];
  }

  lemma ZeroSlot(body: seq<byte>, at: nat, end: nat)
    requires at + 32 <= end <= |body| && body[at..end] == Zeros(end - at)
    ensures body[at..at + 24] == Zeros(24)
  {
    assert body[at..at + 24] == body[at..end][..24];
  }

  lemma LengthWritten(b: seq<byte>, n: nat)
    requires |b| >= 32 && forall i :: 0 <= i < |b| ==> b[i] == 0
    ensures var r := Splice(b, 24, LowBytes(n, 8)); r[..32] == LenWord(n) && r[32..] == b[32..]
  {
    hide LowBytes;
    assert b[..24] == Zeros(24);
  }

  /** bytesArray: the length word, then the layout of the packed items. */
  method BytesArray(ss: seq<seq<byte>>) returns (r: seq<byte>)
    requires |Layout(LongParts(ss))| < TWO_63
    ensures r == LenWord(|ss|) + Layout(LongParts(ss))
  {
    hide Layout, LenWord, Splice, LowBytes;
    var ps := LongParts(ss);
    var length := Space(ps);
    var buf := new byte[length + 32](_ => 0);
    LengthWritten(buf[..], |ss|);
    assert buf[..][32..] == Zeros(length);
    CopyInto(buf, 24, LowBytes(|ss|, 8));
    WriteLayout(buf, 32, ps);
    r := buf[..];
  }

  /** The array builders for one-word items. */
  method WordArray(items: seq<Param>) returns (r: seq<byte>)
    requires forall q | q in items :: IsScalar(q) && Valid(q)
    ensures r == LenWord(|items|) + Layout(WordParts(items))
  {
    hide Word, ScalarWord, Layout, Heads, LenWord, Splice, LowBytes, Valid;
    var ps := WordParts(items);
    var buf := new byte[|items| * 32 + 32](_ => 0);
    LengthWritten(buf[..], |items|);
    CopyInto(buf, 24, LowBytes(|items|, 8));
    ghost var start := LenWord(|items|);
    StaticLayout(ps);
    var i := 0;
    assert ps[0..] == ps;
    while i < |items|
      invariant 0 <= i <= |items|
      invariant buf[..][..32 * i + 32] + Heads(ps[i..], 0) == start + Heads(ps, 0)
    {
      WordStep(ps, buf[..], i, start);
      CopyInto(buf, 32 * i + 32, ScalarWord(items[i]));
      i := i + 1;
    }
    assert Heads(ps[|items|..], 0) == [] by { NoHeads(ps[|items|..]); }
    assert buf[..][..32 * |items| + 32] == buf[..];
    r := buf[..];
  }

  lemma NoHeads(ps: seq<Part>)
    requires ps == []
    ensures Heads(ps, 0) == []
  {
  }

  lemma WordStep(ps: seq<Part>, b: seq<byte>, i: nat, start: seq<byte>)
    requires i < |ps| && !ps[i].dynamic && |ps[i].bytes| == 32 && 32 * i + 64 <= |b|
    requires b[..32 * i + 32] + Heads(ps[i..], 0) == start + Heads(ps, 0)
    ensures Splice(b, 32 * i + 32, ps[i].bytes)[..32 * (i + 1) + 32] + Heads(ps[i + 1..], 0) == start + Heads(ps, 0)
  {
    hide Heads;
    HeadsCons(ps[i..], 0);
    assert ps[i..][1..] == ps[i + 1..];
    assert Splice(b, 32 * i + 32, ps[i].bytes)[..32 * (i + 1) + 32] == b[..32 * i + 32] + ps[i].bytes;
  }

  lemma {:induction false} StaticLayout(ps: seq<Part>)
    requires forall i :: 0 <= i < |ps| ==> !ps[i].dynamic
    ensures Layout(ps) == Heads(ps, 0)
  {
    NoDynamic(ps, 0, HeadsSize(ps));
  }

  lemma {:induction false} NoDynamic(ps: seq<Part>, a: nat, b: nat)
    requires forall i :: 0 <= i < |ps| ==> !ps[i].dynamic
    ensures Heads(ps, a) == Heads(ps, b) && Tails(ps) == []
  {
    if ps != [] { NoDynamic(ps[1..], a, b); }
  }

  class ContractFunctionParameters {
    var arguments: seq<Argument>
    ghost var added: seq<Param>

    /** The arguments are those of the parameters added so far. */
    ghost predicate Consistent()
      reads this
    {
      AllValid(added) && arguments == Arguments(added)
    }

    constructor ()
      ensures Consistent() && added == [] && arguments == []
    {
      arguments, added := [], [];
    }

    method Add(p: Param)
      requires Consistent() && Valid(p) && |ArgumentOf(p).value| < TWO_63
      modifies this
      ensures Consistent() && added == old(added) + [p]
      ensures arguments == old(arguments) + [ArgumentOf(p)]
    {
      hide Layout, LenWord, PackLong, ScalarWord, Slot;
      var value;
      match p {
        case PStrings(ss) => value := BytesArray(ss);
        case PBytesArray(ss) => value := BytesArray(ss);
        case PArray(_, items) => value := WordArray(items);
        case PBytes32s(ws) => value := WordArray(Items32(ws));
        case PWord(_, w) => value := w;
        case PString(b) => value := PackLong(b);
        case PBytes(b) => value := PackLong(b);
        case _ => value := ScalarWord(p);
      }
      arguments := arguments + [Argument(value, !IsScalar(p))];
      added := added + [p];
    }

    /** `selector` is empty, or the four bytes in front of a function call. */
    method Build(selector: seq<byte>) returns (result: array<byte>)
      requires Consistent() && |Built(added)| < TWO_63
      ensures fresh(result) && result[..] == selector + Built(added)
    {
      hide Layout, Splice, Slot;
      var ps := ArgumentParts(arguments);
      assert OneWordHeads(ps);
      var length := Space(ps);
      result := new byte[length + |selector|](_ => 0);
      Selected(result[..], selector);
      CopyInto(result, 0, selector);
      WriteLayout(result, |selector|, ps);
    }
  }

  lemma Selected(b: seq<byte>, selector: seq<byte>)
    requires |selector| <= |b| && forall i :: 0 <= i < |b| ==> b[i] == 0
    ensures var r := Splice(b, 0, selector);
            r[..|selector|] == selector && r[|selector|..] == Zeros(|b| - |selector|)
  {
  }

  // ---------------------------------------------------------------- two encoders, one decoder

  ghost predicate AllValid(ps: seq<Param>) { forall i :: 0 <= i < |ps| ==> Valid(ps[i]) }

  function Arguments(ps: seq<Param>): (args: seq<Argument>)
    requires AllValid(ps)
    ensures |args| == |ps| && forall i :: 0 <= i < |ps| ==> args[i] == ArgumentOf(ps[i])
  {
    seq(|ps|, i requires 0 <= i < |ps| => ArgumentOf(ps[i]))
  }

  /** What _Build(nil) returns after adding these parameters. */
  function Built(ps: seq<Param>): seq<byte>
    requires AllValid(ps)
  {
    Layout(ArgumentParts(Arguments(ps)))
  }

  function FoundValues(ps: seq<Param>): (vs: seq<Value>)
    requires AllValid(ps)
    ensures |vs| == |ps| && forall i :: 0 <= i < |ps| ==> vs[i] == FoundValue(ps[i])
  {
    seq(|ps|, i requires 0 <= i < |ps| => FoundValue(ps[i]))
  }

  /** Decoding the built buffer, with any suffix, as a tuple of the parameter types finds every parameter. */
  lemma BuildDecodes(ps: seq<Param>, fs: seq<Field>, s: seq<byte>)
    requires AllValid(ps) && |Built(ps)| < TWO_63
    requires |fs| == |ps| && (forall i :: 0 <= i < |ps| ==> fs[i].typ == ParamType(ps[i])) && Distinct(Names(fs))
    ensures WellSized(Tuple(fs))
    ensures var r := Decode(Tuple(fs), Built(ps) + s);
            && (r.Ok? <==> ps != [] || |s| >= 32)
            && (r.Ok? ==> r.value.0 == VTuple(Zip(Names(fs), FoundValues(ps))))
  {
    hide Layout, Decode, PartReads, ArgumentOf, FoundValue, DecodeAll, Names, Distinct, Zip, Valid;
    var parts, ts, vs := ArgumentParts(Arguments(ps)), FieldTypes(fs), FoundValues(ps);
    forall i | 0 <= i < |ps| ensures PartReads(ts[i], parts[i], vs[i]) {
      PartBound(parts, i);
      ArgumentReads(ps[i]);
    }
    LayoutDecodes(ts, parts, vs, s);
    assert WellSized(Tuple(fs)) by { TupleWellSized(fs); }
    DecodeOfTuple(Tuple(fs), Built(ps) + s);
    if ps == [] { EmptyLayout(parts); }
  }

  lemma TupleWellSized(fs: seq<Field>)
    requires AllWellSized(FieldTypes(fs))
    ensures WellSized(Tuple(fs))
  {
  }

  lemma EmptyLayout(ps: seq<Part>)
    requires ps == []
    ensures Layout(ps) == []
  {
  }

  lemma {:induction false} PartBound(ps: seq<Part>, i: nat)
    requires i < |ps|
    ensures |ps[i].bytes| <= |Layout(ps)|
  {
    hide Heads;
    if i > 0 { PartBound(ps[1..], i - 1); }
  }

  // ---------------------------------------------------------------- index-based readers

  function GetUint64(x: seq<byte>, index: nat): nat
    requires 32 * index + 32 <= |x|
  {
    FromBytes(x[32 * index + 24..32 * index + 32])
  }

  /** GetInt8 .. GetInt64: the low-order bytes of the slot that the Go integer holds. */
  function GetInt(x: seq<byte>, index: nat, bits: nat): int
    requires 32 * index + 32 <= |x|
  {
    var k := GoWidth(bits);
    Signed(FromBytes(x[32 * index + (32 - k)..32 * index + 32]), k)
  }

  function GetAddress(x: seq<byte>, index: nat): seq<byte>
    requires 32 * index + 32 <= |x|
  {
    x[32 * index + 12..32 * index + 32]
  }

  function GetBytes(x: seq<byte>, index: nat): Result<seq<byte>>
    requires 32 * index + 32 <= |x|
  {
    var offset := GetUint64(x, index);
    if offset + 32 > |x| then Err  // the source panics
    else
      var length := FromBytes(x[offset + 24..offset + 32]);
      if offset + 32 + length > |x| then Err else Ok(x[offset + 32..offset + 32 + length])
  }

  /** Where part `i` of a layout with one-word heads lies. */
  lemma {:induction false} HeadSlot(ps: seq<Part>, off: nat, i: nat)
    requires OneWordHeads(ps) && i < |ps|
    ensures |Heads(ps, off)| == 32 * |ps|
    ensures Heads(ps, off)[32 * i..32 * i + 32] == HeadOf(ps[i], off + |Tails(ps[..i])|)
    decreases i
  {
    hide Word, HeadOf, Heads, HeadSize, TailOf, Tails;
    OneWordSize(ps);
    HeadsCons(ps, off);
    TailsUpTo(ps, i);
    FirstHead(ps, off);
    if i > 0 {
      var off' := off + |TailOf(ps[0])|;
      HeadSlot(ps[1..], off', i - 1);
      SliceAfter(HeadOf(ps[0], off), Heads(ps[1..], off'), 32 * (i - 1));
    }
  }

  lemma FirstHead(ps: seq<Part>, off: nat)
    requires OneWordHeads(ps) && ps != []
    ensures |HeadOf(ps[0], off)| == 32
  {
    assert HeadSize(ps[0]) == 32;
  }

  lemma SliceAfter(a: seq<byte>, b: seq<byte>, i: nat)
    requires i + 32 <= |b|
    ensures (a + b)[|a| + i..|a| + i + 32] == b[i..i + 32]
  {
  }

  lemma TailsUpTo(ps: seq<Part>, i: nat)
    requires i < |ps|
    ensures |Tails(ps[..i])| == if i == 0 then 0 else |TailOf(ps[0])| + |Tails(ps[1..][..i - 1])|
  {
    if i > 0 { assert ps[..i][1..] == ps[1..][..i - 1]; }
  }

  lemma {:induction false} TailSlot(ps: seq<Part>, i: nat)
    requires i < |ps|
    ensures |Tails(ps[..i])| + |TailOf(ps[i])| <= |Tails(ps)|
    ensures Tails(ps)[|Tails(ps[..i])|..|Tails(ps[..i])| + |TailOf(ps[i])|] == TailOf(ps[i])
    decreases i
  {
    if i == 0 {
      assert ps[..0] == [];
    } else {
      TailSlot(ps[1..], i - 1);
      assert ps[..i][1..] == ps[1..][..i - 1];
    }
  }

  lemma SlotsOfLayout(ps: seq<Part>, i: nat, s: seq<byte>)
    requires OneWordHeads(ps) && i < |ps|
    ensures var x, off := Layout(ps) + s, 32 * |ps| + |Tails(ps[..i])|;
            && 32 * i + 32 <= |x| && x[32 * i..32 * i + 32] == HeadOf(ps[i], off)
            && off + |TailOf(ps[i])| <= |Layout(ps)| && x[off..off + |TailOf(ps[i])|] == TailOf(ps[i])
  {
    hide Heads, Tails, HeadOf, TailOf;
    OneWordSize(ps);
    var n := 32 * |ps|;
    HeadSlot(ps, n, i);
    TailSlot(ps, i);
    var x, off := Layout(ps) + s, n + |Tails(ps[..i])|;
    assert x[32 * i..32 * i + 32] == Heads(ps, n)[32 * i..32 * i + 32];
    assert x[off..off + |TailOf(ps[i])|] == Tails(ps)[off - n..off - n + |TailOf(ps[i])|];
  }

  /** The readers of a contract call result find in the built buffer, at each index, what was added there. */
  lemma ReadersAgree(ps: seq<Param>, i: nat, s: seq<byte>)
    requires AllValid(ps) && i < |ps| && |Built(ps)| < TWO_63
    ensures var x := Built(ps) + s;
            && 32 * i + 32 <= |x|
            && (ps[i].PUint? ==> GetUint64(x, i) == ps[i].n)
            && (ps[i].PInt? ==> GetInt(x, i, ps[i].bits) == ps[i].i)
            && (ps[i].PBool? ==> GetUint64(x, i) == if ps[i].b then 1 else 0)
            && (ps[i].PAddress? ==> GetAddress(x, i) == ps[i].a)
            && (ps[i].PString? || ps[i].PBytes? ==> GetBytes(x, i) == Ok(ps[i].s))
  {
    hide Layout, HeadOf, TailOf, Tails, Word, ScalarWord, PackLong, FromBytes, Valid, ArgumentOf;
    var parts, x, p := ArgumentParts(Arguments(ps)), Built(ps) + s, ps[i];
    assert OneWordHeads(parts);
    SlotsOfLayout(parts, i, s);
    var w := x[32 * i..32 * i + 32];
    assert x[32 * i + 24..32 * i + 32] == w[24..] && x[32 * i + 12..32 * i + 32] == w[12..];
    PartOf(p, parts[i]);
    if p.PString? || p.PBytes? {
      LongRead(x, i, 32 * |parts| + |Tails(parts[..i])|, p.s);
    } else if p.PUint? || p.PBool? || p.PAddress? {
      WordRead(p, w);
    } else if p.PInt? {
      var k := GoWidth(p.bits);
      SubSlice(x, 32 * i, 32, 32 - k, 32);
      IntRead(p, w);
    }
  }

  /** The low-order bytes of a signed parameter are right, even those of a zero. */
  lemma IntRead(p: Param, w: seq<byte>)
    requires Valid(p) && p.PInt? && w == ScalarWord(p)
    ensures var k := GoWidth(p.bits); Signed(FromBytes(w[32 - k..32]), k) == p.i
  {
    hide Pow256, LowBytes, FromBytes;
    var k := GoWidth(p.bits);
    assert w[32 - k..32] == LowBytes(p.i, k);
    LowBytesValue(p.i, k);
    SignedTwice(p.i, k);
    SignedIff(p.i, k);
  }

  lemma SignedTwice(i: int, k: nat)
    ensures Signed(i % Pow256(k), k) == Signed(i, k)
  {
    hide Pow256;
    ModUnique(i % Pow256(k), Pow256(k), 0, i % Pow256(k));
  }

  lemma PartOf(p: Param, part: Part)
    requires Valid(p) && part == Placed(ArgumentOf(p))
    ensures IsScalar(p) ==> forall off: nat :: HeadOf(part, off) == ScalarWord(p)
    ensures p.PString? || p.PBytes? ==>
              TailOf(part) == PackLong(p.s) && forall off: nat :: HeadOf(part, off) == Word(off)
  {
    hide Word, PackLong, ScalarWord;
    if IsScalar(p) { ScalarPlaced(p); }
  }

  lemma WordRead(p: Param, w: seq<byte>)
    requires Valid(p) && IsScalar(p) && w == ScalarWord(p)
    ensures p.PUint? ==> FromBytes(w[24..]) == p.n
    ensures p.PBool? ==> FromBytes(w[24..]) == if p.b then 1 else 0
    ensures p.PAddress? ==> w[12..] == p.a
  {
    hide Pow256, LowBytes;
    if p.PUint? {
      var k := GoWidth(p.bits);
      assert w[24..] == Zeros(8 - k) + LowBytes(p.n, k);
      LeftZeros(8 - k, LowBytes(p.n, k));
      LowBytesValue(p.n, k);
      ModUnique(p.n, Pow256(k), 0, p.n);
    } else if p.PBool? {
      var last := [if p.b then 1 else 0];
      assert w[24..] == Zeros(7) + last;
      LeftZeros(7, last);
      assert last[..0] == [];
    }
  }

  lemma LongRead(x: seq<byte>, i: nat, off: nat, b: seq<byte>)
    requires 32 * i + 32 <= |x| && x[32 * i..32 * i + 32] == Word(off) && off < TWO_63
    requires off + |PackLong(b)| <= |x| && x[off..off + |PackLong(b)|] == PackLong(b) && |b| < TWO_63
    ensures GetBytes(x, i) == Ok(b)
  {
    hide Word, FromBytes, LowBytes;
    var q := PackLong(b);
    LowHalf(off);
    assert x[32 * i + 24..32 * i + 32] == Word(off)[24..];
    LenWordIsWord(|b|);
    LowHalf(|b|);
    assert q[24..32] == LenWord(|b|)[24..] && q[32..32 + |b|] == b;
    SubSlice(x, off, |q|, 24, 32);
    SubSlice(x, off, |q|, 32, 32 + |b|);
  }

  lemma SubSlice(x: seq<byte>, off: nat, len: nat, i: nat, j: nat)
    requires off + len <= |x| && i <= j <= len
    ensures x[off..off + len][i..j] == x[off + i..off + j]
  {
    var a, b := x[off..off + len][i..j], x[off + i..off + j];
    assert forall k :: 0 <= k < j - i ==> a[k] == b[k];
  }

  lemma LowHalf(n: nat)
    requires n < TWO_63
    ensures FromBytes(Word(n)[24..]) == n
  {
    hide Word, FromBytes;
    WordSuffix(n, 8);
    assert Pow256(8) == 2 * TWO_63;
  }
}

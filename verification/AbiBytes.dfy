/** The bytes themselves: what the two encoders write, and what the decoder makes of bytes neither of them wrote. */
module AbiBytes {
  import opened Words
  import opened AbiType
  import opened AbiEncode
  import opened AbiDecode
  import opened AbiRoundTrip
  import opened AbiLaws
  import opened AbiBuilder
  import opened AbiSurvival
  import Decimal

  // ---------------------------------------------------------------- what the encoder writes

  /** One-word scalars: big-endian, zeros in front of booleans and addresses, zeros behind fixed bytes and functions. */
  lemma ScalarBytes(v: Value, t: Type, k: nat)
    requires Accepts(v, t) && k == 32
    ensures t.Bool? ==> Encoding(v, t) == Zeros(31) + [if v.b then 1 else 0]
    ensures t.UInt? || t.Int? ==> Encoding(v, t) == LowBytes(v.i, k)
    ensures t.Address? && |v.s| <= 32 ==> Encoding(v, t) == Zeros(32 - |v.s|) + v.s
    ensures (t.FixedBytes? || t.Function?) && |v.s| <= 32 ==> Encoding(v, t) == v.s + Zeros(32 - |v.s|)
    ensures (t.Address? || t.FixedBytes? || t.Function?) && |v.s| > 32 ==> Encoding(v, t) == v.s[|v.s| - 32..]
  {
    hide Word, LowBytes, MinBytes, Items, ItemTypes, AcceptsAll;
    if t.UInt? || t.Int? {
      WordIsLowBytes(v.i, k);
    } else if t.Bool? {
      MinOfBit(v.b);
    } else if !IsContainerType(t) && !t.String? && !t.Bytes? && |v.s| == 32 {
      assert Zeros(0) + v.s == v.s && v.s + Zeros(0) == v.s;
    }
  }

  predicate IsContainerType(t: Type) { t.Slice? || t.Array? || t.Tuple? }

  lemma MinOfBit(b: bool)
    ensures MinBytes(if b then 1 else 0) == if b then [1] else []
    ensures Zeros(32) == Zeros(31) + [0]
  {
  }

  /** Strings and bytes: the length as a word, the bytes, and zeros up to the next whole word. */
  lemma LongBytes(v: Value, t: Type, k: nat)
    requires Accepts(v, t) && (t.String? || t.Bytes?) && k == 32
    ensures var pad := |Encoding(v, t)| - 32 - |v.s|;
            0 <= pad < 32 && (|v.s| + pad) % 32 == 0 && Encoding(v, t) == LowBytes(|v.s|, k) + v.s + Zeros(pad)
  {
    hide Word, LowBytes, PackBytes, Items, ItemTypes, AcceptsAll;
    LenIsWord(|v.s|, k);
    Filled(v.s);
  }

  lemma Filled(s: seq<byte>)
    ensures var pad := |PackBytes(s)| - 32 - |s|;
            0 <= pad < 32 && (|s| + pad) % 32 == 0 && PackBytes(s) == Word(|s|) + s + Zeros(pad)
  {
    hide Word;
    var n := (|s| + 31) / 32 * 32;
    if |s| == n { assert s + Zeros(0) == s; }
    assert PackBytes(s) == Word(|s|) + (s + Zeros(n - |s|));
    assert Word(|s|) + (s + Zeros(n - |s|)) == Word(|s|) + s + Zeros(n - |s|);
  }

  /** Lists: the length as a word in front of a slice, nothing in front of an array or a tuple, and then the layout of the
      specification. */
  lemma ListBytes(v: Value, t: Type, k: nat)
    requires Accepts(v, t) && IsContainerType(t) && k == 32
    ensures ShapeOk(v, t) && AcceptsAll(Items(v, t), ItemTypes(v, t)) && (t.Slice? ==> v.VSlice?)
    ensures var ps := Parts(Items(v, t), ItemTypes(v, t));
            Encoding(v, t) == (if t.Slice? then LowBytes(|v.vs|, k) else []) + SpecHeads(ps, 0) + Tails(ps)
  {
    hide Word, LowBytes, Parts, SpecHeads, Tails, Heads, HeadsSize, AcceptsAll, Items, ItemTypes, Layout;
    var ps := Parts(Items(v, t), ItemTypes(v, t));
    LayoutMeetsSpecification(ps);
    AppendAssoc(if t.Slice? then LowBytes(|v.vs|, k) else [], SpecHeads(ps, 0), Tails(ps));
    if t.Slice? {
      LenIsWord(|v.vs|, k);
    } else {
      assert [] + (SpecHeads(ps, 0) + Tails(ps)) == SpecHeads(ps, 0) + Tails(ps);
    }
  }

  /** The head of a dynamic component is its offset as a word, that of a static one the component itself. */
  lemma HeadBytes(off: nat, b: seq<byte>, k: nat)
    requires k == 32
    ensures HeadOf(Part(true, b), off) == LowBytes(off, k) && HeadOf(Part(false, b), off) == b
  {
    hide Word, LowBytes;
    LenIsWord(off, k);
  }

  /** A list offered for a tuple may be longer; only as many items as there are components count. */
  lemma ListForTuple(vs: seq<Value>, fs: seq<Field>)
    ensures var t := Tuple(fs);
            && (Accepts(VSlice(vs), t) <==> |vs| >= |fs| && AcceptsAll(vs[..|fs|], FieldTypes(fs)))
            && (Accepts(VSlice(vs), t) ==> Encoding(VSlice(vs), t) == Layout(Parts(vs[..|fs|], FieldTypes(fs))))
  {
    hide AcceptsAll, Parts, Layout;
  }

  // ---------------------------------------------------------------- what the builder writes

  /** Scalars of the builder, byte by byte. */
  lemma BuilderScalars(p: Param)
    requires Valid(p) && IsScalar(p)
    ensures p.PBool? ==> ScalarWord(p) == Zeros(31) + [if p.b then 1 else 0]
    ensures p.PAddress? ==> ScalarWord(p) == Zeros(12) + p.a
    ensures p.PUint? ==> var k := GoWidth(p.bits); ScalarWord(p) == Zeros(32 - k) + LowBytes(p.n, k)
    ensures p.PInt? && p.i > 0 ==> var k := GoWidth(p.bits); ScalarWord(p) == Zeros(32 - k) + LowBytes(p.i, k)
    ensures p.PInt? && p.i <= 0 ==>
      var k := GoWidth(p.bits); ScalarWord(p)[32 - k..] == LowBytes(p.i, k) && forall j :: 0 <= j < 32 - k ==> ScalarWord(p)[j] == 255
    ensures p.PUint? || p.PInt? ==>
      GoWidth(p.bits) == if p.bits == 8 then 1 else if p.bits == 16 then 2 else if p.bits == 24 || p.bits == 32 then 4 else 8
    ensures p.PWord? && |p.w| <= 32 ==> ScalarWord(p) == p.w + Zeros(32 - |p.w|)
    ensures p.PWord? && |p.w| > 32 ==> ScalarWord(p) == p.w[..32]
  {
    hide LowBytes, Pow256;
    if p.PWord? && |p.w| == 32 { assert p.w + Zeros(0) == p.w && p.w[..32] == p.w; }
  }

  /** Strings and bytes of the builder: one to thirty-two zeros behind the content. */
  lemma BuilderLong(s: seq<byte>, k: nat)
    requires |s| < TWO_63 && k == 32
    ensures PackLong(s) == LowBytes(|s|, k) + s + Zeros(32 - |s| % 32)
  {
    hide LowBytes, Word;
    LenWordIsWord(|s|);
    WordIsLowBytes(|s|, k);
  }

  /** The two encoders write the same word for a scalar, except for the zeros of the signed adders. */
  lemma ScalarEncodersAgreeIff(p: Param)
    requires Valid(p) && IsScalar(p) && (p.PWord? ==> |p.w| == 32)
    ensures WellTyped(GivenValue(p), ParamType(p))
    ensures ScalarWord(p) == Encoding(GivenValue(p), ParamType(p)) <==> !(p.PInt? && p.i == 0)
  {
    hide Word, LowBytes, Pow256, FromBytes, Encoding, Signed, GivenValue, ScalarWord, Valid;
    GivenWellTyped(p);
    if p.PUint? || p.PInt? { NumbersAgreeIff(p, 32); } else { OthersAgree(p, 32); }
  }

  lemma NumbersAgreeIff(p: Param, k: nat)
    requires Valid(p) && (p.PUint? || p.PInt?) && k == 32 && Accepts(GivenValue(p), ParamType(p))
    ensures ScalarWord(p) == Encoding(GivenValue(p), ParamType(p)) <==> !(p.PInt? && p.i == 0)
  {
    hide Word, LowBytes, Pow256, Encoding, Fill, Written;
    ScalarBytes(GivenValue(p), ParamType(p), k);
    if p.PUint? {
      ZeroExtended(p.n, GoWidth(p.bits));
      LenIsWord(p.n, k);
    } else {
      IntWord(p.i, GoWidth(p.bits));
      WordIsLowBytes(p.i, k);
      NotWritten(p.i, GoWidth(p.bits));
      if p.i == 0 { ZeroDiffers(p); }
    }
  }

  lemma NotWritten(i: int, k: nat)
    ensures i != 0 ==> Written(i, k) == i
  {
  }

  lemma OthersAgree(p: Param, k: nat)
    requires Valid(p) && (p.PBool? || p.PWord? || p.PAddress?) && (p.PWord? ==> |p.w| == 32) && k == 32
    requires Accepts(GivenValue(p), ParamType(p))
    ensures ScalarWord(p) == Encoding(GivenValue(p), ParamType(p))
  {
    hide Word, LowBytes, Pow256, FromBytes, Encoding, Signed, ScalarWord, GivenValue, Valid;
    if p.PBool? {
      BoolAgrees(p, k);
    } else if p.PAddress? {
      AddressAgrees(p, k);
    } else {
      WideAgrees(p, k);
    }
  }

  lemma BoolAgrees(p: Param, k: nat)
    requires Valid(p) && p.PBool? && k == 32 && Accepts(GivenValue(p), Bool)
    ensures ScalarWord(p) == Encoding(GivenValue(p), Bool)
  {
    hide Word, LowBytes, Encoding;
    ScalarBytes(GivenValue(p), Bool, k);
  }

  lemma AddressAgrees(p: Param, k: nat)
    requires Valid(p) && p.PAddress? && k == 32 && Accepts(GivenValue(p), Address)
    ensures ScalarWord(p) == Encoding(GivenValue(p), Address)
  {
    hide Word, LowBytes, Encoding;
    ScalarBytes(GivenValue(p), Address, k);
  }

  lemma WideAgrees(p: Param, k: nat)
    requires Valid(p) && p.PWord? && |p.w| == 32 == k && Accepts(GivenValue(p), p.typ)
    ensures ScalarWord(p) == Encoding(GivenValue(p), p.typ)
  {
    hide *;
    WideFacts(p);
    WideBytes(p, k);
    var v := GivenValue(p);
    WideEncoding(v, p.typ, p.w, k);
  }

  lemma WideFacts(p: Param)
    requires Valid(p) && p.PWord? && |p.w| == 32
    ensures ScalarWord(p) == p.w && (p.typ.UInt? || p.typ.Int? || p.typ == FixedBytes(32))
    ensures p.typ.UInt? ==> GivenValue(p) == VInt(FromBytes(p.w))
    ensures p.typ.Int? ==> GivenValue(p) == VInt(Signed(FromBytes(p.w), 32))
    ensures p.typ.FixedBytes? ==> GivenValue(p) == VBytes(p.w)
  {
    hide FromBytes, Signed;
  }

  lemma WideEncoding(v: Value, t: Type, w: seq<byte>, k: nat)
    requires Accepts(v, t) && |w| == 32 == k && (t.UInt? || t.Int? || t == FixedBytes(32))
    requires t.UInt? || t.Int? ==> v.VInt? && LowBytes(v.i, k) == w
    requires t.FixedBytes? ==> v == VBytes(w)
    ensures Encoding(v, t) == w
  {
    hide LowBytes, Encoding, Accepts, Zeros;
    ScalarBytes(v, t, k);
    if t.FixedBytes? { assert w + Zeros(0) == w; }
  }

  lemma ZeroDiffers(p: Param)
    requires Valid(p) && p.PInt? && p.i == 0
    ensures ScalarWord(p) != Word(0)
  {
    var w := ScalarWord(p);
    assert w[0] == 255;
    assert Word(0)[0] == 0;
  }

  lemma WideBytes(p: Param, k: nat)
    requires Valid(p) && p.PWord? && |p.w| == 32 == k
    ensures p.typ.UInt? ==> LowBytes(FromBytes(p.w), k) == p.w
    ensures p.typ.Int? ==> LowBytes(Signed(FromBytes(p.w), k), k) == p.w
  {
    hide LowBytes, FromBytes, Pow256;
    LowBytesOfValue(p.w);
    var n: int, q: int := FromBytes(p.w), Pow256(k);
    ModUnique(n, q, 0, n);
    if p.typ.Int? {
      LowBytesMod(Signed(n, k), k);
      LowBytesMod(n, k);
      if 2 * n >= q { ModUnique(n - q, q, -1, n); }
    }
  }

  lemma GivenWellTyped(p: Param)
    requires Valid(p) && IsScalar(p) && (p.PWord? ==> |p.w| == 32)
    ensures WellTyped(GivenValue(p), ParamType(p))
  {
    hide Pow256, FromBytes, Signed, AcceptsAll;
    ScalarAccepted(GivenValue(p), ParamType(p));
    if p.PUint? || p.PInt? {
      Pow256Grows(GoWidth(p.bits), ByteWidth(p.bits));
    } else if p.PWord? {
      WideInRange(p);
    }
  }

  lemma ScalarAccepted(v: Value, t: Type)
    requires !IsContainerType(t) && ShapeOk(v, t)
    ensures Accepts(v, t)
  {
  }

  lemma WideInRange(p: Param)
    requires Valid(p) && p.PWord? && |p.w| == 32
    ensures p.typ.UInt? || p.typ.Int? ==>
      var n, q: int := FromBytes(p.w), Pow256(ByteWidth(p.typ.bits));
      n < q && ByteWidth(p.typ.bits) == 32 && -q <= 2 * Signed(n, 32) < q
  {
    hide Pow256, FromBytes;
    SignedIsWrapped(p.w);
  }

  /** Their strings agree unless the length is a multiple of 32, where the builder adds a word of zeros. */
  lemma LongEncodersAgreeIff(s: seq<byte>)
    requires |s| < TWO_63
    ensures PackLong(s) == PackBytes(s) <==> |s| % 32 != 0
    ensures |s| % 32 == 0 ==> PackLong(s) == PackBytes(s) + Zeros(32)
  {
    hide Word, PackLong, PackBytes, LowBytes;
    BuilderLong(s, 32);
    Filled(s);
    LenIsWord(|s|, 32);
    var pad := |PackBytes(s)| - 32 - |s|;
    if |s| % 32 == 0 {
      assert pad == 0 && Word(|s|) + s + Zeros(0) + Zeros(32) == Word(|s|) + s + Zeros(32);
    } else {
      assert pad == 32 - |s| % 32;
    }
  }

  lemma LenIsWord(n: nat, k: nat)
    requires k == 32
    ensures LowBytes(n, k) == Word(n)
  {
    WordIsLowBytes(n, k);
  }

  // ---------------------------------------------------------------- what the decoder makes of any bytes

  /** A word of any content: machine integers are its low-order bytes, wider ones the whole word; a boolean looks at
      the last byte only; an address ignores the first twelve bytes, fixed bytes the last ones; only a function has to
      end in zeros. What follows is left over. */
  lemma AnyWord(w: seq<byte>, s: seq<byte>, n: nat)
    requires |w| == 32 && 1 <= n <= 32
    ensures Decode(Bool, w + s) == (if w[31] == 0 then Ok((VBool(false), s)) else if w[31] == 1 then Ok((VBool(true), s)) else Err)
    ensures Decode(Address, w + s) == Ok((VBytes(w[12..]), s))
    ensures Decode(FixedBytes(n), w + s) == Ok((VBytes(w[..n]), s))
    ensures Decode(Function, w + s) == if forall i :: 24 <= i < 32 ==> w[i] == 0 then Ok((VBytes(w[..24]), s)) else Err
  {
    hide Decode;
    DecodeOfWord(Bool, w, s);
    DecodeOfWord(Address, w, s);
    DecodeOfWord(FixedBytes(n), w, s);
    DecodeOfWord(Function, w, s);
    if forall i :: 24 <= i < 32 ==> w[i] == 0 {
      assert w[24..] == Zeros(8);
    } else {
      var i :| 24 <= i < 32 && w[i] != 0;
      assert w[24..][i - 24] != 0;
    }
  }

  lemma AnyInteger(w: seq<byte>, s: seq<byte>, bits: nat)
    requires |w| == 32
    ensures var k := if bits in {8, 16, 32, 64} then bits / 8 else 32;
            && Decode(UInt(bits), w + s) == Ok((VInt(FromBytes(w) % Pow256(k)), s))
            && Decode(Int(bits), w + s) == Ok((VInt(Signed(FromBytes(w), k)), s))
  {
    hide Decode, DecodeWord, ReadInteger, Pow256, FromBytes, Signed;
    var k := ByteWidth(bits);
    DecodeOfWord(UInt(bits), w, s);
    DecodeOfWord(Int(bits), w, s);
    IntegerWord(w, bits);
    IntegerRead(w, bits, k);
  }

  lemma IntegerWord(w: seq<byte>, bits: nat)
    requires |w| == 32
    ensures DecodeWord(UInt(bits), w) == Ok(VInt(ReadInteger(bits, false, w))) && DecodeWord(Int(bits), w) == Ok(VInt(ReadInteger(bits, true, w)))
  {
    hide ReadInteger;
  }

  lemma IntegerRead(w: seq<byte>, bits: nat, k: nat)
    requires |w| == 32 && k == ByteWidth(bits)
    ensures ReadInteger(bits, false, w) == FromBytes(w) % Pow256(k) && ReadInteger(bits, true, w) == Signed(FromBytes(w), k)
  {
    hide Pow256, FromBytes;
    LowOrder(w, k);
  }

  lemma LowOrder(w: seq<byte>, k: nat)
    requires k <= |w|
    ensures FromBytes(w[|w| - k..]) == FromBytes(w) % Pow256(k)
  {
    hide FromBytes, Pow256;
    var a, b := w[..|w| - k], w[|w| - k..];
    assert w == a + b;
    FromBytesConcat(a, b);
    LastPart(FromBytes(w), FromBytes(a), Pow256(k), FromBytes(b));
  }

  lemma LastPart(n: nat, q: nat, p: nat, r: nat)
    requires r < p && n == q * p + r
    ensures n % p == r
  {
    ModUnique(n, p, q, r);
  }

  /** A string of any bytes: accepted exactly if the announced length is there, whatever fills the last word. */
  lemma AnyString(x: seq<byte>)
    ensures Decode(String, x).Ok? <==> |x| >= 32 && FromBytes(x[..32]) < 0x8000_0000_0000_0000 && FromBytes(x[..32]) <= |x| - 32
    ensures Decode(String, x).Ok? ==> Decode(String, x).value == (VString(x[32..32 + FromBytes(x[..32])]), x[32..])
  {
    hide FromBytes, Decode;
    if |x| >= 32 { DecodeOfBytes(String, x); } else { TooShort(x); }
  }

  lemma TooShort(x: seq<byte>)
    requires |x| < 32
    ensures Decode(String, x).Err?
  {
  }

  /** A dynamic component lies wherever its offset points inside the container, be it back into the heads. */
  lemma AnyOffset(f: Field, x: seq<byte>)
    requires f.typ == String
    ensures var t := Tuple([f]);
            var off := if |x| >= 32 then FromBytes(x[..32]) else 0;
            && (Decode(t, x).Ok? <==> |x| >= 32 && off < 0x8000_0000_0000_0000 && off <= |x| && Decode(String, x[off..]).Ok?)
            && (Decode(t, x).Ok? ==>
                Decode(t, x).value == (VTuple(map[if f.name == "" then "0" else f.name := Decode(String, x[off..]).value.0]), x[32..]))
  {
    hide FromBytes, Decode;
    var fs := [f];
    DecodeOfTuple(Tuple(fs), x);
    OneName(f);
    OneDynamic(x);
    assert FieldTypes(fs) == [String];
    if DecodeAll([String], x, x).Ok? {
      var vs := DecodeAll([String], x, x).value.0;
      OneZip(Names(fs)[0], vs[0]);
      assert vs == [vs[0]] && Names(fs) == [Names(fs)[0]];
    }
  }

  lemma OneName(f: Field)
    ensures Names([f]) == [if f.name == "" then "0" else f.name] && Distinct(Names([f])) && WellSized(String)
  {
    assert Decimal.Text(0) == "0";
  }

  lemma OneZip(n: string, v: Value)
    ensures Zip([n], [v]) == map[n := v]
  {
    assert [n][..0] == [] && [v][..0] == [];
    assert Zip([], []) == map[];
  }

  lemma OneDynamic(x: seq<byte>)
    ensures DecodeAll([String], x, x)
         == if |x| < 32 || FromBytes(x[..32]) >= TWO_63 || FromBytes(x[..32]) > |x| then Err
            else match Decode(String, x[FromBytes(x[..32])..]) case Err => Err case Ok((v, _)) => Ok(([v], x[32..]))
  {
    hide FromBytes, Decode, DecodeNext, DecodeAll;
    OneComponent(String, x, x);
    NextString(x);
  }

  lemma OneComponent(t: Type, orig: seq<byte>, data: seq<byte>)
    requires WellSized(t)
    ensures DecodeAll([t], orig, data) == match DecodeNext(t, orig, data) case Err => Err case Ok((v, rest)) => Ok(([v], rest))
  {
    hide DecodeNext, WellSized;
    assert [t][1..] == [];
    if DecodeNext(t, orig, data).Ok? {
      var (v, rest) := DecodeNext(t, orig, data).value;
      NothingToDecode(orig, rest);
      assert [v] + [] == [v];
    }
  }

  lemma NextString(x: seq<byte>)
    ensures DecodeNext(String, x, x)
         == if |x| < 32 || FromBytes(x[..32]) >= TWO_63 || FromBytes(x[..32]) > |x| then Err
            else match Decode(String, x[FromBytes(x[..32])..]) case Err => Err case Ok((v, _)) => Ok((v, x[32..]))
  {
    hide FromBytes, Decode;
  }

  lemma NothingToDecode(orig: seq<byte>, data: seq<byte>)
    ensures DecodeAll([], orig, data) == Ok(([], data))
  {
  }

  /** A decoded tuple has one entry per component, the i-th under its name, or under its position if it has none. */
  lemma DecodedKeys(fs: seq<Field>, x: seq<byte>)
    requires WellSized(Tuple(fs)) && Decode(Tuple(fs), x).Ok?
    ensures AllWellSized(FieldTypes(fs)) && DecodeAll(FieldTypes(fs), x, x).Ok?
    ensures var v, vs := Decode(Tuple(fs), x).value.0, DecodeAll(FieldTypes(fs), x, x).value.0;
            && v.VTuple? && |v.m| == |fs|
            && forall i :: 0 <= i < |fs| ==>
                 var key := if fs[i].name == "" then Decimal.Text(i) else fs[i].name;
                 key in v.m && v.m[key] == vs[i]
  {
    hide Decode, DecodeAll, Zip, Distinct, WellSized, Decimal.Text;
    FieldTypesWellSized(fs);
    DecodeOfTuple(Tuple(fs), x);
    var ns, vs := Names(fs), DecodeAll(FieldTypes(fs), x, x).value.0;
    ZipSize(ns, vs);
    forall i | 0 <= i < |fs|
      ensures var key := if fs[i].name == "" then Decimal.Text(i) else fs[i].name; key in Zip(ns, vs) && Zip(ns, vs)[key] == vs[i]
    {
      ZipAt(ns, vs, i);
      assert ns[i] == EffectiveName(fs, i);
    }
  }

  lemma FieldTypesWellSized(fs: seq<Field>)
    requires WellSized(Tuple(fs))
    ensures AllWellSized(FieldTypes(fs))
  {
    forall i | 0 <= i < |fs| ensures WellSized(FieldTypes(fs)[i]) { assert fs[i] in fs; }
  }

  /** The index-based readers on a slot of any content: the low-order bytes that the Go type holds. */
  lemma AnySlot(x: seq<byte>, i: nat, bits: nat)
    requires 32 * i + 32 <= |x|
    ensures var w := x[32 * i..32 * i + 32];
            && GetUint64(x, i) == FromBytes(w) % Pow256(8)
            && GetInt(x, i, bits) == Signed(FromBytes(w), GoWidth(bits))
            && GetAddress(x, i) == w[12..]
  {
    hide FromBytes, Pow256, Signed;
    var w, k := x[32 * i..32 * i + 32], GoWidth(bits);
    SubSlice(x, 32 * i, 32, 24, 32);
    SubSlice(x, 32 * i, 32, 12, 32);
    SubSlice(x, 32 * i, 32, 32 - k, 32);
    assert w[24..32] == w[24..] && w[12..32] == w[12..] && w[32 - k..32] == w[32 - k..];
    LowOrder(w, 8);
    LowOrder(w, k);
    SignedTwice(FromBytes(w), k);
  }
}

/** Which parameters of a contract call the decoder gives back as the caller meant them. */
module AbiSurvival {
  import opened Words
  import opened AbiType
  import opened AbiEncode
  import opened AbiDecode
  import opened AbiRoundTrip
  import opened AbiBuilder

  predicate AllAre(w: seq<byte>, x: byte) { forall i :: 0 <= i < |w| ==> w[i] == x }

  /** A word that `copy` cuts or fills up on the right still reads as the same number. */
  predicate Kept(t: Type, w: seq<byte>)
  {
    |w| == 32 || AllAre(w, 0) || (t.Int? && |w| > 32 && AllAre(w, 255))
  }

  /** The decoder will not find the value the caller meant. */
  predicate Garbled(p: Param)
  {
    match p
    case PInt(bits, i) => i == 0 && bits !in {8, 16, 32, 64}
    case PWord(t, w) => !Kept(t, w)
    case PBytes32s(ws) => exists i :: 0 <= i < |ws| && |ws[i]| < 32
    case _ => false
  }

  /** The word of a scalar decodes to the value the caller meant, if and only if it is not garbled. */
  lemma ScalarSurvivesIff(p: Param)
    requires Valid(p) && IsScalar(p)
    ensures WellSized(ParamType(p))
    ensures DecodeWord(ParamType(p), ScalarWord(p)) == Ok(GivenValue(p)) <==> !Garbled(p)
  {
    hide DecodeWord, ScalarWord, GivenValue, FoundValue, Garbled, Valid;
    ScalarDecodes(p);
    FoundIff(p);
  }

  /** The readers GetInt8 to GetInt64 give back every signed parameter; so they agree with the decoder on the same
      slot of the buffer if and only if the parameter is not garbled. */
  lemma SignedReadersIff(ps: seq<Param>, i: nat, s: seq<byte>)
    requires AllValid(ps) && i < |ps| && |Built(ps)| < TWO_63 && ps[i].PInt?
    ensures var x, p := Built(ps) + s, ps[i];
            && 32 * i + 32 <= |x| && GetInt(x, i, p.bits) == p.i
            && (DecodeWord(Int(p.bits), x[32 * i..32 * i + 32]) == Ok(VInt(GetInt(x, i, p.bits))) <==> !Garbled(p))
  {
    hide DecodeWord, ScalarWord, Garbled, Valid, GetInt, Layout, HeadOf, Tails, TailOf, ArgumentOf;
    ReadersAgree(ps, i, s);
    SlotHolds(ps, i, s);
    ScalarSurvivesIff(ps[i]);
  }

  lemma SlotHolds(ps: seq<Param>, i: nat, s: seq<byte>)
    requires AllValid(ps) && i < |ps| && IsScalar(ps[i])
    ensures var x := Built(ps) + s; 32 * i + 32 <= |x| && x[32 * i..32 * i + 32] == ScalarWord(ps[i])
  {
    hide Layout, HeadOf, Tails, TailOf, ArgumentOf, ScalarWord, Valid;
    var parts := ArgumentParts(Arguments(ps));
    assert OneWordHeads(parts);
    SlotsOfLayout(parts, i, s);
    PartOf(ps[i], parts[i]);
  }

  lemma FoundIff(p: Param)
    requires Valid(p)
    ensures FoundValue(p) == GivenValue(p) <==> !Garbled(p)
  {
    hide Pow256, FromBytes, Slot, Kept, Signed;
    if p.PWord? {
      WideIff(p.typ, p.w);
    } else if p.PArray? {
      forall i | 0 <= i < |p.items| ensures FoundValue(p.items[i]) == GivenValue(p.items[i]) { ItemFound(p.items[i]); }
      assert FoundValue(p).vs == GivenValue(p).vs;
    } else if p.PBytes32s? {
      FilledIff(p.ws);
    }
  }

  lemma ItemFound(q: Param)
    requires IsScalar(q) && Valid(q) && !q.PInt? && (q.PWord? ==> |q.w| == 32)
    ensures FoundValue(q) == GivenValue(q)
  {
  }

  lemma FilledIff(ws: seq<seq<byte>>)
    requires Valid(PBytes32s(ws))
    ensures FoundValue(PBytes32s(ws)) == GivenValue(PBytes32s(ws)) <==> forall i :: 0 <= i < |ws| ==> |ws[i]| == 32
  {
    var p := PBytes32s(ws);
    var us, vs := FoundValue(p).vs, GivenValue(p).vs;
    assert forall i :: 0 <= i < |ws| ==> us[i] == VBytes(LeftFilled(ws[i])) && vs[i] == VBytes(ws[i]);
    if forall i :: 0 <= i < |ws| ==> |ws[i]| == 32 {
      forall i | 0 <= i < |ws| ensures LeftFilled(ws[i]) == ws[i] { assert Zeros(0) + ws[i] == ws[i]; }
      assert us == vs;
    }
    if us == vs {
      forall i | 0 <= i < |ws| ensures |ws[i]| == 32 { assert us[i] == vs[i]; }
    }
  }

  lemma WideIff(t: Type, w: seq<byte>)
    requires Valid(PWord(t, w))
    ensures WideValue(t, Slot(w)) == WideValue(t, w) <==> Kept(t, w)
  {
    hide Pow256, FromBytes, Signed, AllAre;
    if |w| != 32 {
      AllBytes(w);
      if |w| < 32 { ShortIff(w); } else { LongIff(w); }
    }
  }

  /** Filled up with zeros on the right, a number is multiplied. */
  lemma ShortIff(w: seq<byte>)
    requires |w| < 32
    ensures FromBytes(Slot(w)) == FromBytes(w) <==> FromBytes(w) == 0
    ensures Signed(FromBytes(Slot(w)), 32) == Signed(FromBytes(w), |w|) <==> FromBytes(w) == 0
  {
    hide Pow256, FromBytes, Signed, Wrapped, Zeros;
    var k, n := 32 - |w|, FromBytes(w);
    assert Slot(w) == w + Zeros(k);
    FromBytesConcat(w, Zeros(k));
    ZerosValue(k);
    Pow256Split(|w|, k);
    Pow256Even(k);
    SignedIsWrapped(w);
    SignedIsWrapped(Slot(w));
    Multiplied(n, FromBytes(Slot(w)), Pow256(|w|), Pow256(32), Pow256(k));
  }

  /** Cut after 32 bytes, a number is divided. */
  lemma LongIff(w: seq<byte>)
    requires |w| > 32
    ensures FromBytes(Slot(w)) == FromBytes(w) <==> FromBytes(w) == 0
    ensures Signed(FromBytes(Slot(w)), 32) == Signed(FromBytes(w), |w|) <==> FromBytes(w) == 0 || FromBytes(w) == Pow256(|w|) - 1
  {
    hide Pow256, FromBytes, Signed, Wrapped;
    var a, r := w[..32], w[32..];
    assert w == a + r;
    FromBytesConcat(a, r);
    Pow256Split(32, |r|);
    Pow256Even(|r|);
    Pow256Even(32);
    SignedIsWrapped(a);
    SignedIsWrapped(r);
    SignedIsWrapped(w);
    Divided(FromBytes(a), FromBytes(r), FromBytes(w), Pow256(32), Pow256(|w|), Pow256(|r|));
  }

  /** Two's complement below `m`. */
  function Wrapped(n: int, m: int): int { if 2 * n >= m then n - m else n }

  lemma SignedIsWrapped(w: seq<byte>)
    ensures var n, p := FromBytes(w), Pow256(|w|); n < p && Signed(n, |w|) == Wrapped(n, p)
  {
    hide Pow256, FromBytes;
    ModUnique(FromBytes(w), Pow256(|w|), 0, FromBytes(w));
  }

  lemma Pow256Even(k: nat)
    requires k > 0
    ensures Pow256(k) % 2 == 0 && Pow256(k) >= 256
  {
  }

  lemma Multiplied(n: nat, n': nat, m: nat, m': nat, p: nat)
    requires n < m && p >= 2 && n' == n * p && m' == m * p
    ensures n' == n <==> n == 0
    ensures Wrapped(n', m') == Wrapped(n, m) <==> n == 0
  {
    Stretch(n, p);
    Stretch(m - n, p);
    assert (m - n) * p == m' - n';
    if 2 * n < m {
      Stretch(m - 2 * n, p);
      assert (m - 2 * n) * p == m' - 2 * n';
    } else {
      Stretch(2 * n - m, p);
      assert (2 * n - m) * p == 2 * n' - m';
    }
  }

  lemma Stretch(n: nat, p: nat)
    requires p >= 2
    ensures n * p >= 2 * n
  {
  }

  lemma Divided(a: nat, r: nat, n: nat, m: nat, m': nat, p: nat)
    requires a < m && r < p && p >= 2 && m % 2 == 0 && n == a * p + r && m' == m * p
    ensures a == n <==> n == 0
    ensures Wrapped(a, m) == Wrapped(n, m') <==> n == 0 || n == m' - 1
  {
    hide Wrapped;
    Stretch(a, p);
    if 2 * a < m { LowerHalf(a, r, n, m, m', p); } else { UpperHalf(a, r, n, m, m', p); }
  }

  lemma LowerHalf(a: nat, r: nat, n: nat, m: nat, m': nat, p: nat)
    requires 2 * a < m && r < p && p >= 2 && m % 2 == 0 && n == a * p + r && m' == m * p
    ensures Wrapped(a, m) == a && Wrapped(n, m') == n && n < m' - 1
  {
    var h := m / 2 - (a + 1);
    assert m' == 2 * (a * p + p) + 2 * (h * p) by { Halves(a + 1, h, m, p); assert (a + 1) * p == a * p + p; }
    Stretch(h, p);
  }

  lemma UpperHalf(a: nat, r: nat, n: nat, m: nat, m': nat, p: nat)
    requires a < m <= 2 * a && r < p && p >= 2 && m % 2 == 0 && n == a * p + r && m' == m * p
    ensures n > 0 && (Wrapped(a, m) == Wrapped(n, m') <==> n == m' - 1)
  {
    var h, d := a - m / 2, m - a;
    Halves(a, -h, m, p);
    Stretch(h, p);
    Stretch(a, p);
    assert (-h) * p == -(h * p);
    assert 2 * n >= m';
    Stretch(d - 1, p);
    assert (d - 1) * p == m' - a * p - p;
  }

  lemma Halves(a: int, h: int, m: int, p: int)
    requires m == 2 * (a + h)
    ensures m * p == 2 * (a * p) + 2 * (h * p)
  {
  }

  lemma AllBytes(w: seq<byte>)
    ensures FromBytes(w) == 0 <==> AllAre(w, 0)
    ensures FromBytes(w) == Pow256(|w|) - 1 <==> AllAre(w, 255)
  {
    hide Pow256, FromBytes;
    OnesValue(w);
    ZeroBytes(w);
  }

  lemma {:induction false} OnesValue(w: seq<byte>)
    ensures FromBytes(w) == Pow256(|w|) - 1 <==> AllAre(w, 255)
  {
    if w != [] {
      var k := |w| - 1;
      OnesValue(w[..k]);
      assert AllAre(w, 255) <==> AllAre(w[..k], 255) && w[k] == 255;
    }
  }

  function GivenValues(ps: seq<Param>): (vs: seq<Value>)
    requires AllValid(ps)
    ensures |vs| == |ps| && forall i :: 0 <= i < |ps| ==> vs[i] == GivenValue(ps[i])
  {
    seq(|ps|, i requires 0 <= i < |ps| => GivenValue(ps[i]))
  }

  /** Decoding a nonempty built buffer, with any suffix, gives back exactly the values the caller meant, if and
      only if none of them is garbled. */
  lemma BuildSurvivesIff(ps: seq<Param>, fs: seq<Field>, s: seq<byte>)
    requires AllValid(ps) && |Built(ps)| < TWO_63 && ps != []
    requires |fs| == |ps| && (forall i :: 0 <= i < |ps| ==> fs[i].typ == ParamType(ps[i])) && Distinct(Names(fs))
    ensures WellSized(Tuple(fs))
    ensures var r := Decode(Tuple(fs), Built(ps) + s);
            && r.Ok?
            && (r.value.0 == VTuple(Zip(Names(fs), GivenValues(ps))) <==> forall i :: 0 <= i < |ps| ==> !Garbled(ps[i]))
  {
    hide Decode, FoundValue, GivenValue, Zip, Valid, Built, Garbled;
    BuildDecodes(ps, fs, s);
    ZipInjective(Names(fs), FoundValues(ps), GivenValues(ps));
    forall i | 0 <= i < |ps| ensures FoundValue(ps[i]) == GivenValue(ps[i]) <==> !Garbled(ps[i]) { FoundIff(ps[i]); }
  }

  lemma ZipInjective(ns: seq<string>, us: seq<Value>, vs: seq<Value>)
    requires |ns| == |us| == |vs| && Distinct(ns)
    ensures Zip(ns, us) == Zip(ns, vs) <==> forall i :: 0 <= i < |ns| ==> us[i] == vs[i]
  {
    hide Zip, Distinct;
    if Zip(ns, us) == Zip(ns, vs) {
      forall i | 0 <= i < |ns| ensures us[i] == vs[i] {
        ZipAt(ns, us, i);
        ZipAt(ns, vs, i);
      }
    }
    if forall i :: 0 <= i < |ns| ==> us[i] == vs[i] { assert us == vs; }
  }
}

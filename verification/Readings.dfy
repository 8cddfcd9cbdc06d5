/** Where the two readers of a mnemonic, which split its text differently, agree and where they do not. */
module Readings {
  import opened Words
  import opened Bip39
  import opened Mnemonic

  // ---------------------------------------------------------------- the exact condition

  /** For a sentence that EntropyFromMnemonic accepts, with the words `fs` between white space, and any words `ws`
      between blanks: MnemonicToByteArray returns the same entropy if and only if both spell the same number and
      `ws` is as long as `fs`, or by one or two words longer where the entropy is all zeros. */
  lemma ReadingsAgreeIff(ws: seq<string>, fs: seq<string>, list: seq<string>, hash: seq<byte> -> byte)
    requires IsWordList(list) && EntropyOf(fs, list, hash).Ok?
    ensures var e, m := EntropyOf(fs, list, hash).value, WordMap(list);
            && |e| % 4 == 0 && |fs| == 3 * (|e| / 4) && Indices(fs, m).Ok?
            && (SecondReading(ws, true, list, hash) == Ok(e) <==>
                && FromDigits(LooseIndices(ws, m)) == FromDigits(Indices(fs, m).value)
                && (|ws| == |fs| || (|fs| < |ws| <= |fs| + 2 && e == Zeros(|e|))))
  {
    hide FromDigits, MinBytes, PadLeft, Over, Pow2, WordMap, WithChecksum, Zeros, FromBytes, EntropyOf, SecondReading, LooseIndices;
    Accepted(fs, list, hash);
    var c, e, n := |fs| / 3, EntropyOf(fs, list, hash).value, FromDigits(Indices(fs, WordMap(list)).value);
    PaddedValue(Over(n, Pow2(c)), 4 * c);
    SecondReadingIs(ws, true, list, hash);
    Compare(|ws|, FromDigits(LooseIndices(ws, WordMap(list))), n, c, e, hash);
  }

  /** The same on text, as the two functions receive it. */
  lemma SentenceAgreesIff(m: string, list: seq<string>, hash: seq<byte> -> byte)
    requires IsWordList(list) && EntropyOf(Fields(m), list, hash).Ok?
    ensures var e, ws, fs, words := EntropyOf(Fields(m), list, hash).value, Split(m), Fields(m), WordMap(list);
            && Indices(fs, words).Ok?
            && (SecondReading(ws, true, list, hash) == Ok(e) <==>
                && FromDigits(LooseIndices(ws, words)) == FromDigits(Indices(fs, words).value)
                && (|ws| == |fs| || (|fs| < |ws| <= |fs| + 2 && e == Zeros(|e|))))
  {
    hide *;
    ReadingsAgreeIff(Split(m), Fields(m), list, hash);
  }

  /** The raw bytes read from a number spelt by `w` words. */
  ghost function RawBytes(w: nat, n: nat): seq<byte>
  {
    PadLeft(MinBytes(Over(n, Pow2(w * 11 % 32))), w * 11 / 32 * 4)
  }

  /** The second reading in terms of the number it finds: as many whole groups of 32 bits as there are, checked
      by appending the checksum to them again. */
  lemma SecondReadingIs(ws: seq<string>, raw: bool, list: seq<string>, hash: seq<byte> -> byte)
    requires |list| == 2048
    ensures var w, n := |ws|, FromDigits(LooseIndices(ws, WordMap(list)));
            var b := RawBytes(w, n);
            && |b| == w * 11 / 32 * 4 && FromBytes(b) == Over(n, Pow2(w * 11 % 32))
            && SecondReading(ws, raw, list, hash)
               == if n == WithChecksum(b, hash(b)) then Ok(if raw then b else PadLeft(MinBytes(n), |b| + 1)) else Err
  {
    hide FromDigits, MinBytes, PadLeft, Over, Pow2, WordMap, WithChecksum, FromBytes, Pow256, Pow2048, LooseIndices;
    var w, n := |ws|, FromDigits(LooseIndices(ws, WordMap(list)));
    var k, r := w * 11 / 32, w * 11 % 32;
    LooseBound(ws, list);
    GroupBound(n, w, k, r);
    var b := PadLeft(MinBytes(Over(n, Pow2(r))), 4 * k);
    PaddedLength(Over(n, Pow2(r)), 4 * k);
    PaddedValue(Over(n, Pow2(r)), 4 * k);
    var again := WithChecksum(b, hash(b));
    PaddedValue(n, 4 * k + 1);
    PaddedValue(again, 4 * k + 1);
    GroupSizes(w, k, r);
    assert b == RawBytes(w, n);
  }

  lemma LooseBound(ws: seq<string>, list: seq<string>)
    requires |list| == 2048
    ensures FromDigits(LooseIndices(ws, WordMap(list))) < Pow2048(|ws|)
  {
    hide FromDigits, WordMap, Pow2048;
    var ds := LooseIndices(ws, WordMap(list));
    forall i | 0 <= i < |ws| ensures ds[i] < 2048 { WordMapKeys(list, ws[i]); }
    ToFromDigits(ds);
  }

  lemma GroupSizes(w: nat, k: nat, r: nat)
    requires w * 11 == 32 * k + r && r < 32
    ensures (w * 11 - r) / 8 + 1 == 4 * k + 1 && (4 * k + 1) - (4 * k + 1) % 4 == 4 * k
  {
  }

  lemma GroupBound(n: nat, w: nat, k: nat, r: nat)
    requires n < Pow2048(w) && w * 11 == 32 * k + r
    ensures Over(n, Pow2(r)) < Pow256(4 * k)
  {
    hide Pow2, Pow256, Pow2048, Over;
    Pow2048Bits(w);
    Pow256Bits(4 * k);
    ProductPow2(r, 32 * k);
    OverBound(n, Pow2(r), Pow256(4 * k));
  }

  lemma {:induction false} Pow2048Bits(k: nat)
    ensures Pow2048(k) == Pow2(11 * k)
  {
    if k > 0 {
      Pow2048Bits(k - 1);
      Elevenfold();
      ProductPow2(11, 11 * (k - 1));
    }
  }

  lemma Elevenfold()
    ensures Pow2(11) == 2048 && Pow2(8) == 256
  {
    assert Pow2(4) == 16;
    assert Pow2(8) == 256;
  }

  lemma {:induction false} Pow256Bits(k: nat)
    ensures Pow256(k) == Pow2(8 * k)
  {
    if k > 0 {
      Pow256Bits(k - 1);
      Elevenfold();
      ProductPow2(8, 8 * (k - 1));
    }
  }

  /** The two numbers compared, once the words are gone. */
  lemma Compare(w: nat, n': nat, n: nat, c: nat, e: seq<byte>, hash: seq<byte> -> byte)
    requires 4 <= c <= 8 && |e| == 4 * c && FromBytes(e) == Over(n, Pow2(c)) && WithChecksum(e, hash(e)) == n
    requires |RawBytes(w, n')| == w * 11 / 32 * 4 && FromBytes(RawBytes(w, n')) == Over(n', Pow2(w * 11 % 32))
    ensures RawBytes(w, n') == e && n' == WithChecksum(e, hash(e))
            <==> n' == n && (w == 3 * c || (3 * c < w <= 3 * c + 2 && e == Zeros(|e|)))
  {
    hide MinBytes, PadLeft, Over, Pow2, WithChecksum, Zeros, FromBytes, RawBytes;
    var b := RawBytes(w, n');
    WholeGroups(w, c);
    SameBytes(b, e);
    ZeroBytes(e);
    if n' == n && 3 * c <= w <= 3 * c + 2 { FurtherQuotient(n, c, w - 3 * c); }
  }

  /** Between 3c and 3c + 2 words have c whole groups, and they only. */
  lemma WholeGroups(w: nat, c: nat)
    requires 4 <= c <= 8
    ensures w * 11 / 32 == c <==> 3 * c <= w <= 3 * c + 2
    ensures 3 * c <= w <= 3 * c + 2 ==> w * 11 % 32 == c + 11 * (w - 3 * c)
  {
  }

  lemma SameBytes(a: seq<byte>, b: seq<byte>)
    ensures |a| == |b| && FromBytes(a) == FromBytes(b) <==> a == b
  {
    hide FromBytes, LowBytes;
    LowBytesOfValue(a);
    LowBytesOfValue(b);
  }

  /** Dividing by 2048 once or twice more changes every quotient but zero. */
  lemma FurtherQuotient(n: nat, c: nat, d: nat)
    requires d <= 2
    ensures Over(n, Pow2(c + 11 * d)) == Over(n, Pow2(c)) <==> d == 0 || Over(n, Pow2(c)) == 0
  {
    hide Over, Pow2;
    ProductPow2(c, 11 * d);
    Grows(11 * d);
    if d > 0 { Shrinks(n, Pow2(c), Pow2(11 * d)); }
  }

  lemma {:induction false} Grows(k: nat)
    ensures Pow2(k) >= k + 1
  {
    if k > 0 { Grows(k - 1); }
  }

  lemma Shrinks(n: nat, p: nat, q: nat)
    requires p >= 1 && q >= 2
    ensures Over(n, p * q) == Over(n, p) <==> Over(n, p) == 0
  {
    var x, y := n / p, n / (p * q);
    assert n < p * (x + 1) && p * q * y <= n;
    if x == 0 {
      assert p * q >= p by { MulMono(1, q, p); }
    } else if y == x {
      Crowded(p, q, x, n);
    }
  }

  lemma Crowded(p: nat, q: nat, x: nat, n: nat)
    requires p >= 1 && q >= 2 && x >= 1 && n < p * (x + 1)
    ensures n < p * q * x
  {
    MulMono(x + 1, q * x, p) by { assert q * x >= 2 * x by { MulMono(2, q, x); } }
    assert p * (q * x) == p * q * x;
  }

  /** The numbers agree exactly when the longer list has the same digits after leading zeros. */
  lemma SameNumberIff(ds: seq<nat>, es: seq<nat>)
    requires AreDigits(ds) && AreDigits(es) && |ds| >= |es|
    ensures FromDigits(ds) == FromDigits(es) <==> ds == seq(|ds| - |es|, _ => 0) + es
  {
    hide FromDigits, ToDigits;
    var z := seq(|ds| - |es|, _ => 0);
    LeadingZeros(|ds| - |es|, es);
    ToFromDigits(ds);
    ToFromDigits(z + es);
  }

  lemma {:induction false} LeadingZeros(k: nat, ds: seq<nat>)
    ensures FromDigits(seq(k, _ => 0) + ds) == FromDigits(ds)
  {
    hide FromDigits;
    if k == 0 {
      assert seq(k, _ => 0) + ds == ds;
    } else {
      LeadingZeros(k - 1, ds);
      LeadingZero(seq(k - 1, _ => 0) + ds);
      assert seq(k, _ => 0) + ds == [0] + (seq(k - 1, _ => 0) + ds);
    }
  }

  // ---------------------------------------------------------------- sentences on which they differ

  /** The words of any entropy, joined by tabs: EntropyFromMnemonic returns the entropy, MnemonicToByteArray
      succeeds with no bytes at all. */
  lemma TabSentence(e: seq<byte>, list: seq<string>, hash: seq<byte> -> byte)
    requires IsSentenceList(list) && ValidEntropyBits(8 * |e|)
    ensures NewWords(e, list, hash).Ok?
    ensures var m := Join(NewWords(e, list, hash).value, '\t');
            EntropyOf(Fields(m), list, hash) == Ok(e) && SecondReading(Split(m), true, list, hash) == Ok([])
  {
    hide EntropyOf, Fields, Join, IsWord, NewWords, SecondReading, Split, FromBytes, IsSpace, Distinct;
    EntropyRoundTrip(e, list, hash);
    var ws := NewWords(e, list, hash).value;
    GeneratedWords(e, list, hash);
    TabIsSpace();
    FieldsOfJoin(ws, '\t');
    NoBlankInJoin(ws, '\t');
    NoBlankSentence(Join(ws, '\t'), list, hash);
  }

  lemma TabIsSpace()
    ensures IsSpace('\t')
  {
  }

  lemma GeneratedWords(e: seq<byte>, list: seq<string>, hash: seq<byte> -> byte)
    requires IsSentenceList(list) && NewWords(e, list, hash).Ok?
    ensures forall w | w in NewWords(e, list, hash).value :: IsWord(w)
  {
    hide IsWord, ToDigits, WithChecksum;
  }

  lemma {:induction false} NoBlankInJoin(ws: seq<string>, sep: char)
    requires sep != ' ' && forall w | w in ws :: IsWord(w)
    ensures ' ' !in Join(ws, sep)
  {
    if |ws| > 1 {
      NoBlankInJoin(ws[1..], sep);
      assert ws[0] in ws;
    } else if |ws| == 1 {
      assert ws[0] in ws;
    }
  }

  /** A sentence without blanks, whatever white space it has instead, is one unknown word. */
  lemma NoBlankSentence(m: string, list: seq<string>, hash: seq<byte> -> byte)
    requires IsSentenceList(list) && ' ' !in m && EntropyOf(Fields(m), list, hash).Ok?
    ensures Split(m) == [m] && SecondReading(Split(m), true, list, hash) == Ok([])
  {
    hide EntropyOf, Fields, SecondReading, WordMap, Split, IsWord;
    SplitOfWord(m, "");
    Accepted(Fields(m), list, hash);
    if m in WordMap(list) {
      WordMapKeys(list, m);
      FieldsOfWord(m, "");
      assert m + "" == m;
      NoFields();
    }
    UnknownWord(m, list, hash);
  }

  lemma NoFields()
    ensures Fields("") == []
  {
  }

  lemma UnknownWord(w: string, list: seq<string>, hash: seq<byte> -> byte)
    requires w !in WordMap(list)
    ensures SecondReading([w], true, list, hash) == Ok([])
  {
    hide WordMap, FromDigits, MinBytes, Over, Pow2, WithChecksum, Zeros;
    assert LooseIndices([w], WordMap(list)) == [0];
    NothingRead(hash([]));
    assert PadLeft([], 0) == [];
  }

  lemma NothingRead(h: byte)
    ensures FromDigits([0]) == 0 && Over(0, Pow2(11)) == 0 && MinBytes(0) == [] && WithChecksum([], h) == 0
  {
    hide Pow2;
    assert [0][..0] == [];
    StartBits(0, h);
  }

  /** A blank in front does not bother EntropyFromMnemonic, but MnemonicToByteArray counts an empty first word:
      it then accepts the sentence exactly when the entropy is all zeros. */
  lemma LeadingBlank(m: string, raw: bool, list: seq<string>, hash: seq<byte> -> byte)
    requires IsSentenceList(list) && Split(m) == Fields(m) && EntropyOf(Fields(m), list, hash).Ok?
    ensures var e := EntropyOf(Fields(m), list, hash).value;
            && EntropyOf(Fields(" " + m), list, hash) == Ok(e)
            && (SecondReading(Split(" " + m), raw, list, hash).Ok? <==> e == Zeros(|e|))
  {
    hide FromDigits, MinBytes, PadLeft, Over, Pow2, WordMap, WithChecksum, EntropyOf, Fields, Split, Zeros, IsWord, SecondReading,
      FromBytes, RawBytes;
    var ws := Split(m);
    BlankFirst(m);
    Accepted(ws, list, hash);
    var c, e, ds := |ws| / 3, EntropyOf(ws, list, hash).value, Indices(ws, WordMap(list)).value;
    NoEmptyWord(list);
    assert LooseIndices([""] + ws, WordMap(list)) == [0] + ds;
    LeadingZero(ds);
    var n := FromDigits(ds);
    PaddedValue(Over(n, Pow2(c)), 4 * c);
    SecondReadingIs([""] + ws, raw, list, hash);
    WholeGroups(3 * c + 1, c);
    OneWordLonger(n, c, e, RawBytes(3 * c + 1, n), hash);
  }

  lemma BlankFirst(m: string)
    ensures Fields(" " + m) == Fields(m) && Split(" " + m) == [""] + Split(m)
  {
    hide WordSpan;
    assert (" " + m)[1..] == m;
  }

  lemma NoEmptyWord(list: seq<string>)
    requires IsSentenceList(list)
    ensures "" !in WordMap(list)
  {
    WordMapKeys(list, "");
    assert forall i :: 0 <= i < |list| ==> IsWord(list[i]);
  }

  lemma {:induction false} LeadingZero(ds: seq<nat>)
    ensures FromDigits([0] + ds) == FromDigits(ds)
  {
    if ds == [] {
      assert [0] + ds == [0] && [0][..0] == [];
    } else {
      var k := |ds| - 1;
      LeadingZero(ds[..k]);
      assert ([0] + ds)[..k + 1] == [0] + ds[..k];
    }
  }

  lemma OneWordLonger(n: nat, c: nat, e: seq<byte>, b: seq<byte>, hash: seq<byte> -> byte)
    requires 4 <= c <= 8 && |e| == |b| == 4 * c && WithChecksum(e, hash(e)) == n
    requires FromBytes(e) == Over(n, Pow2(c)) && FromBytes(b) == Over(n, Pow2(c + 11))
    ensures n == WithChecksum(b, hash(b)) <==> e == Zeros(|e|)
  {
    hide Over, Pow2, WithChecksum, Zeros, FromBytes;
    FurtherQuotient(n, c, 1);
    ZeroBytes(e);
    SameBytes(b, e);
    SplitChecksum(b, hash(b));
  }

  lemma PaddedValue(n: nat, length: nat)
    ensures FromBytes(PadLeft(MinBytes(n), length)) == n
  {
    hide MinBytes;
    if |MinBytes(n)| < length { LeftZeros(length - |MinBytes(n)|, MinBytes(n)); }
  }

  lemma PaddedLength(n: nat, length: nat)
    requires n < Pow256(length)
    ensures |PadLeft(MinBytes(n), length)| == length
  {
    MinBytesLength(n, length);
  }
}

/** The mnemonic codec ("Generating the mnemonic" section of BIP-39), for any word list and any hash. */
module Bip39 {
  import opened Words

  // ---------------------------------------------------------------- big.Int bit operations

  function BitOr(a: nat, b: nat): nat
  {
    if a == 0 then b else if b == 0 then a
    else 2 * BitOr(a / 2, b / 2) + if a % 2 == 1 || b % 2 == 1 then 1 else 0
  }

  function BitAnd(a: nat, b: nat): nat
  {
    if a == 0 || b == 0 then 0 else 2 * BitAnd(a / 2, b / 2) + if a % 2 == 1 && b % 2 == 1 then 1 else 0
  }

  lemma {:induction false} OrAppends(a: nat, b: nat, k: nat)
    requires b < Pow2(k)
    ensures BitOr(a * Pow2(k), b) == a * Pow2(k) + b
    decreases k
  {
    if k > 0 && a > 0 && b > 0 {
      var x := a * Pow2(k - 1);
      assert a * Pow2(k) == 2 * x;
      OrAppends(a, b / 2, k - 1);
    } else if k == 0 {
      assert b == 0;
    }
  }

  lemma {:induction false} AndMasks(a: nat, k: nat)
    ensures BitAnd(a, Pow2(k) - 1) == a % Pow2(k)
    decreases k
  {
    hide BitAnd, Pow2;
    if k == 0 {
      AndNothing(a);
    } else {
      var p := Pow2(k - 1);
      Step2(k - 1);
      AndMasks(a / 2, k - 1);
      MaskStep(a, p);
    }
  }

  lemma MaskStep(a: nat, p: nat)
    requires p >= 1 && BitAnd(a / 2, p - 1) == a / 2 % p
    ensures BitAnd(a, 2 * p - 1) == a % (2 * p)
  {
    hide BitAnd;
    AndOdd(a, p);
    HalfMod(a, p);
  }

  lemma AndNothing(a: nat)
    ensures Pow2(0) == 1 && BitAnd(a, 0) == 0
  {
  }

  lemma AndOdd(a: nat, p: nat)
    requires p >= 1
    ensures BitAnd(a, 2 * p - 1) == 2 * BitAnd(a / 2, p - 1) + a % 2
  {
    assert (2 * p - 1) / 2 == p - 1 && (2 * p - 1) % 2 == 1;
  }

  lemma HalfMod(a: nat, p: nat)
    requires p >= 1
    ensures a % (2 * p) == 2 * (a / 2 % p) + a % 2
  {
    var q := a / 2;
    assert q == p * (q / p) + q % p;
    assert a == 2 * p * (q / p) + (2 * (q % p) + a % 2);
    ModUnique(a, 2 * p, q / p, 2 * (q % p) + a % 2);
  }

  lemma {:induction false} AndTests(a: nat, j: nat)
    ensures BitAnd(a, Pow2(j)) > 0 <==> a / Pow2(j) % 2 == 1
    decreases j
  {
    if j > 0 {
      AndTests(a / 2, j - 1);
      HalfDiv(a, Pow2(j - 1));
    } else {
      assert Pow2(0) == 1;
      assert BitAnd(a / 2, 0) == 0;
    }
  }

  lemma HalfDiv(a: nat, p: nat)
    requires p >= 1
    ensures a / 2 / p == a / (2 * p) == a / p / 2
  {
    var q := a / 2;
    assert a == 2 * p * (q / p) + (2 * (q % p) + a % 2) by { assert q == p * (q / p) + q % p; }
    ModUnique(a, 2 * p, q / p, 2 * (q % p) + a % 2);
    var r := a / p;
    assert a == 2 * p * (r / 2) + (p * (r % 2) + a % p) by { assert a == p * r + a % p; assert r == 2 * (r / 2) + r % 2; }
    assert 0 <= p * (r % 2) + a % p < 2 * p;
    ModUnique(a, 2 * p, r / 2, p * (r % 2) + a % p);
  }

  // ---------------------------------------------------------------- base 2048

  function Pow2048(k: nat): (p: nat)
    ensures p >= 1
  {
    if k == 0 then 1 else 2048 * Pow2048(k - 1)
  }

  predicate AreDigits(ds: seq<nat>) { forall i :: 0 <= i < |ds| ==> ds[i] < 2048 }

  function ToDigits(n: nat, k: nat): (ds: seq<nat>)
    ensures |ds| == k && AreDigits(ds)
    decreases k
  {
    if k == 0 then [] else ToDigits(n / 2048, k - 1) + [n % 2048]
  }

  function FromDigits(ds: seq<nat>): nat
  {
    if ds == [] then 0 else 2048 * FromDigits(ds[..|ds| - 1]) + ds[|ds| - 1]
  }

  lemma {:induction false} FromToDigits(n: nat, k: nat)
    requires n < Pow2048(k)
    ensures FromDigits(ToDigits(n, k)) == n
    decreases k
  {
    if k > 0 {
      FromToDigits(n / 2048, k - 1);
      assert ToDigits(n, k)[..k - 1] == ToDigits(n / 2048, k - 1);
    }
  }

  lemma {:induction false} ToFromDigits(ds: seq<nat>)
    requires AreDigits(ds)
    ensures FromDigits(ds) < Pow2048(|ds|) && ToDigits(FromDigits(ds), |ds|) == ds
  {
    hide FromDigits, ToDigits, Pow2048;
    LastOfDigits(ds);
    if ds != [] {
      var k := |ds| - 1;
      ToFromDigits(ds[..k]);
      assert ds == ds[..k] + [ds[k]];
      assert (FromDigits(ds[..k]) * 2048 + ds[k]) / 2048 == FromDigits(ds[..k]);
    }
  }

  lemma LastOfDigits(ds: seq<nat>)
    ensures ds == [] ==> FromDigits(ds) == 0 && Pow2048(0) == 1 && ToDigits(0, 0) == []
    ensures ds != [] ==>
      var k := |ds| - 1;
      && FromDigits(ds) == FromDigits(ds[..k]) * 2048 + ds[k] && Pow2048(k + 1) == 2048 * Pow2048(k)
      && forall n: nat :: ToDigits(n, k + 1) == ToDigits(n / 2048, k) + [n % 2048]
  {
  }

  /** 32c bits of entropy and c bits of checksum make 3c words. */
  lemma {:induction false} Capacity(c: nat)
    ensures Pow256(4 * c) * Pow2(c) == Pow2048(3 * c)
  {
    if c > 0 {
      hide *;
      Capacity(c - 1);
      Step256(4 * (c - 1));
      Step2048(3 * (c - 1));
      Step2(c - 1);
      Product(Pow256(4 * (c - 1)), Pow2(c - 1), Pow2048(3 * (c - 1)));
    }
  }

  lemma Step256(d: nat)
    ensures Pow256(d + 4) == 4294967296 * Pow256(d)
  {
    assert Pow256(d + 4) == 256 * Pow256(d + 3);
    assert Pow256(d + 2) == 256 * Pow256(d + 1);
  }

  lemma Step2048(e: nat)
    ensures Pow2048(e + 3) == 8589934592 * Pow2048(e)
  {
    assert Pow2048(e + 3) == 2048 * Pow2048(e + 2);
  }

  lemma Step2(k: nat)
    ensures Pow2(k + 1) == 2 * Pow2(k)
  {
  }

  lemma Product(x: nat, y: nat, z: nat)
    requires x * y == z
    ensures (4294967296 * x) * (2 * y) == 8589934592 * z
  {
    assert (4294967296 * x) * (2 * y) == 4294967296 * 2 * (x * y);
  }

  // ---------------------------------------------------------------- the codec on word sequences

  /** What setWordList leaves in wordMap: the last index of each word. */
  function WordMap(list: seq<string>): map<string, nat>
  {
    if list == [] then map[] else WordMap(list[..|list| - 1])[list[|list| - 1] := |list| - 1]
  }

  /** A word list fit for the codec. */
  predicate IsWordList(list: seq<string>) { |list| == 2048 && Distinct(list) }

  lemma {:induction false} WordMapKeys(list: seq<string>, w: string)
    ensures w in WordMap(list) <==> w in list
    ensures w in WordMap(list) ==> WordMap(list)[w] < |list| && list[WordMap(list)[w]] == w
  {
    if list != [] {
      WordMapKeys(list[..|list| - 1], w);
      assert list == list[..|list| - 1] + [list[|list| - 1]];
    }
  }

  lemma WordMapInverse(list: seq<string>, i: nat)
    requires Distinct(list) && i < |list|
    ensures list[i] in WordMap(list) && WordMap(list)[list[i]] == i
  {
    WordMapKeys(list, list[i]);
  }

  predicate ValidEntropyBits(bits: nat) { bits % 32 == 0 && 128 <= bits <= 256 }

  /** Entropy followed by the first |e|/4 bits of its hash, as one number. */
  function WithChecksum(e: seq<byte>, hash: byte): nat
  {
    AppendBits(FromBytes(e), hash, |e| / 4)
  }

  /** `x` followed by the first `c` bits of the hash byte, which zeros follow. */
  function AppendBits(x: nat, hash: byte, c: nat): nat
  {
    if c <= 8 then Times(x, Pow2(c)) + Over(hash, Pow2(8 - c))
    else Times(Times(x, 256) + hash, Pow2(c - 8))
  }

  function Times(a: nat, b: nat): nat { a * b }

  function Over(a: nat, b: nat): nat
    requires b >= 1
  {
    a / b
  }

  function Pick(list: seq<string>, ds: seq<nat>): (ws: seq<string>)
    requires AreDigits(ds) && |list| == 2048
    ensures |ws| == |ds| && forall i :: 0 <= i < |ds| ==> ws[i] == list[ds[i]]
  {
    seq(|ds|, i requires 0 <= i < |ds| => list[ds[i]])
  }

  /** NewMnemonicBip, before the words are joined. */
  function NewWords(e: seq<byte>, list: seq<string>, hash: seq<byte> -> byte): Result<seq<string>>
    requires |list| == 2048
  {
    if !ValidEntropyBits(8 * |e|) then Err
    else Ok(Pick(list, ToDigits(WithChecksum(e, hash(e)), (8 * |e| + 8 * |e| / 32) / 11)))
  }

  predicate ValidWordCount(n: nat) { n % 3 == 0 && 12 <= n <= 24 }

  /** The words' indices, or an error at the first unknown word. */
  function Indices(ws: seq<string>, m: map<string, nat>): Result<seq<nat>>
  {
    if forall i :: 0 <= i < |ws| ==> ws[i] in m then Ok(seq(|ws|, i requires 0 <= i < |ws| => m[ws[i]])) else Err
  }

  /** padByteSlice. */
  function PadLeft(b: seq<byte>, length: nat): seq<byte>
  {
    if |b| >= length then b else Zeros(length - |b|) + b
  }

  /** EntropyFromMnemonic, after the words are split. */
  function EntropyOf(ws: seq<string>, list: seq<string>, hash: seq<byte> -> byte): Result<seq<byte>>
  {
    if !ValidWordCount(|ws|) then Err
    else match Indices(ws, WordMap(list))
      case Err => Err
      case Ok(ds) =>
        var c, b := |ws| / 3, FromDigits(ds);
        var e := PadLeft(MinBytes(Over(b, Pow2(c))), 4 * c);
        if b % Pow2(c) == Over(hash(e), Pow2(8 - c)) then Ok(e) else Err
  }

  lemma ChecksumBits(hash: byte, c: nat)
    requires c <= 8
    ensures Over(hash, Pow2(8 - c)) < Pow2(c)
  {
    assert Pow2(8) == 256;
    ProductPow2(8 - c, c);
    OverBound(hash, Pow2(8 - c), Pow2(c));
  }

  lemma OverBound(x: nat, p: nat, q: nat)
    requires p >= 1 && x < p * q
    ensures Over(x, p) < q
  {
    assert p * (x / p) <= x;
    if x / p >= q { MulMono(q, x / p, p); }
  }

  lemma {:induction false} ProductPow2(a: nat, b: nat)
    ensures Pow2(a) * Pow2(b) == Pow2(a + b)
  {
    if b > 0 {
      ProductPow2(a, b - 1);
      DoubleRight(Pow2(a), Pow2(b - 1));
    }
  }

  lemma DoubleRight(x: nat, y: nat)
    ensures x * (2 * y) == 2 * (x * y)
  {
  }

  /** Splitting the number again gives back entropy and checksum. */
  lemma SplitChecksum(e: seq<byte>, hash: byte)
    requires |e| / 4 <= 8
    ensures var n, p := WithChecksum(e, hash), Pow2(|e| / 4); Over(n, p) == FromBytes(e) && n % p == Over(hash, Pow2(8 - |e| / 4))
  {
    hide Pow2, FromBytes;
    var c := |e| / 4;
    ChecksumBits(hash, c);
    ModUnique(WithChecksum(e, hash), Pow2(c), FromBytes(e), Over(hash, Pow2(8 - c)));
  }

  lemma WithChecksumBound(e: seq<byte>, hash: byte, c: nat)
    requires |e| == 4 * c && c <= 8
    ensures WithChecksum(e, hash) < Pow2048(3 * c)
  {
    hide Pow2, FromBytes, Pow256, Pow2048;
    Capacity(c);
    ChecksumBits(hash, c);
    BoundProduct(FromBytes(e), Pow256(4 * c), Pow2(c));
  }

  lemma BoundProduct(x: nat, a: nat, b: nat)
    requires x < a
    ensures x * b + b <= a * b
  {
    assert (x + 1) * b <= a * b;
  }

  lemma PadMin(e: seq<byte>)
    ensures PadLeft(MinBytes(FromBytes(e)), |e|) == e
  {
    var n := FromBytes(e);
    MinBytesLength(n, |e|);
    PadMinBytes(n, |e|);
    LowBytesOfValue(e);
  }

  lemma Shape(e: seq<byte>)
    requires ValidEntropyBits(8 * |e|)
    ensures var c := |e| / 4; 4 <= c <= 8 && |e| == 4 * c && (8 * |e| + 8 * |e| / 32) / 11 == 3 * c
  {
  }

  lemma IndicesAre(ws: seq<string>, m: map<string, nat>, ds: seq<nat>)
    requires |ws| == |ds| && forall i :: 0 <= i < |ds| ==> ws[i] in m && m[ws[i]] == ds[i]
    ensures Indices(ws, m) == Ok(ds)
  {
    assert seq(|ws|, i requires 0 <= i < |ws| => m[ws[i]]) == ds;
  }

  /** From entropy to words and back, leading zero bytes included. */
  lemma EntropyRoundTrip(e: seq<byte>, list: seq<string>, hash: seq<byte> -> byte)
    requires IsWordList(list) && ValidEntropyBits(8 * |e|)
    ensures NewWords(e, list, hash).Ok? && EntropyOf(NewWords(e, list, hash).value, list, hash) == Ok(e)
  {
    hide Pow2, Pow256, Pow2048, FromBytes, MinBytes, ToDigits, FromDigits, WithChecksum, WordMap, PadLeft, Over;
    Shape(e);
    var c := |e| / 4;
    var n := WithChecksum(e, hash(e));
    var ds := ToDigits(n, 3 * c);
    var ws := Pick(list, ds);
    forall i | 0 <= i < |ds| ensures ws[i] in WordMap(list) && WordMap(list)[ws[i]] == ds[i] { WordMapInverse(list, ds[i]); }
    IndicesAre(ws, WordMap(list), ds);
    WithChecksumBound(e, hash(e), c);
    FromToDigits(n, 3 * c);
    SplitChecksum(e, hash(e));
    PadMin(e);
  }

  /** From words to entropy and back: every accepted word sequence is the one its entropy generates. */
  lemma WordsRoundTrip(ws: seq<string>, list: seq<string>, hash: seq<byte> -> byte)
    requires IsWordList(list) && EntropyOf(ws, list, hash).Ok?
    ensures NewWords(EntropyOf(ws, list, hash).value, list, hash) == Ok(ws)
  {
    hide Pow2, Pow256, Pow2048, FromBytes, MinBytes, ToDigits, FromDigits, WordMap, PadLeft, Times, Over;
    var ds, e := Indices(ws, WordMap(list)).value, EntropyOf(ws, list, hash).value;
    var c, b := |ws| / 3, FromDigits(ds);
    forall i | 0 <= i < |ws| ensures ds[i] < 2048 && list[ds[i]] == ws[i] { WordMapKeys(list, ws[i]); }
    ToFromDigits(ds);
    EntropyLength(b, c);
    assert 8 * |e| == 32 * c && (8 * |e| + 8 * |e| / 32) / 11 == 3 * c;
    Rejoin(b, Pow2(c));
    assert Pick(list, ds) == ws;
  }

  lemma Rejoin(b: nat, p: nat)
    requires p >= 1
    ensures Times(Over(b, p), p) + b % p == b
  {
  }

  lemma EntropyLength(b: nat, c: nat)
    requires b < Pow2048(3 * c)
    ensures var e := PadLeft(MinBytes(Over(b, Pow2(c))), 4 * c); |e| == 4 * c && FromBytes(e) == Over(b, Pow2(c))
  {
    hide Pow2, Pow256, Pow2048, MinBytes, Over;
    var x := Over(b, Pow2(c));
    Capacity(c);
    OverBound(b, Pow2(c), Pow256(4 * c));
    MinBytesLength(x, 4 * c);
    if |MinBytes(x)| < 4 * c { LeftZeros(4 * c - |MinBytes(x)|, MinBytes(x)); }
  }

  lemma MulMono(x: nat, y: nat, b: nat)
    requires x <= y
    ensures x * b <= y * b
  {
  }

  // ---------------------------------------------------------------- the words themselves

  /** Generation accepts exactly the five sizes of BIP-39, and a word list is only accepted at the five lengths. */
  lemma ValidSizes(e: seq<byte>, ws: seq<string>, list: seq<string>, hash: seq<byte> -> byte)
    requires |list| == 2048
    ensures NewWords(e, list, hash).Ok? <==> |e| in {16, 20, 24, 28, 32}
    ensures EntropyOf(ws, list, hash).Ok? ==> |ws| in {12, 15, 18, 21, 24}
  {
    hide ToDigits, FromDigits, WithChecksum, WordMap, MinBytes, PadLeft, Over, Pow2;
  }

  /** Word i is the i-th group of eleven bits, from the most significant, of the entropy followed by the first bits of
      its hash byte, one for every four bytes. */
  lemma WordAt(e: seq<byte>, c: nat, list: seq<string>, hash: seq<byte> -> byte, i: nat)
    requires |list| == 2048 && 4 <= c <= 8 && |e| == 4 * c && i < 3 * c
    ensures var n := FromBytes(e) * Pow2(c) + hash(e) / Pow2(8 - c);
            var r := NewWords(e, list, hash);
            r.Ok? && |r.value| == 3 * c && r.value[i] == list[n / Pow2048(3 * c - 1 - i) % 2048]
  {
    hide ToDigits, FromBytes, Pow2, Pow2048, WithChecksum;
    Shape(e);
    BitsAppended(e, c, hash(e));
    DigitAt(WithChecksum(e, hash(e)), 3 * c, i);
  }

  lemma BitsAppended(e: seq<byte>, c: nat, h: byte)
    requires c <= 8 && |e| == 4 * c
    ensures WithChecksum(e, h) == FromBytes(e) * Pow2(c) + h / Pow2(8 - c)
  {
    hide FromBytes, Pow2;
  }

  lemma {:induction false} DigitAt(n: nat, k: nat, i: nat)
    requires i < k
    ensures ToDigits(n, k)[i] == n / Pow2048(k - 1 - i) % 2048
    decreases k
  {
    if i < k - 1 {
      DigitAt(n / 2048, k - 1, i);
      assert Pow2048(k - 1 - i) == 2048 * Pow2048(k - 2 - i);
      DivTwice(n, 2048, Pow2048(k - 2 - i));
    }
  }

  lemma DivTwice(n: nat, a: nat, b: nat)
    requires a >= 1 && b >= 1
    ensures a * b >= 1 && n / a / b == n / (a * b)
  {
    var x := n / a;
    var y, z := x / b, x % b;
    var r := a * z + n % a;
    assert n == a * x + n % a && x == b * y + z;
    assert a * x == a * b * y + a * z by { assert a * (b * y) == a * b * y; }
    MulMono(z + 1, b, a);
    assert 0 <= r < a * b;
    ModUnique(n, a * b, y, r);
  }

  /** The entropy of sixteen zero bytes: eleven times the first word, then the word of the hash's first four bits. */
  lemma ZeroEntropyWords(list: seq<string>, hash: seq<byte> -> byte)
    requires |list| == 2048
    ensures var r := NewWords(Zeros(16), list, hash);
            && r.Ok? && |r.value| == 12 && r.value[11] == list[hash(Zeros(16)) / 16]
            && forall i :: 0 <= i < 11 ==> r.value[i] == list[0]
  {
    hide *;
    var e := Zeros(16);
    ZeroEntropyWord(e, 4, list, hash, 11);
    forall i | 0 <= i < 12 ensures var r := NewWords(e, list, hash); r.Ok? && |r.value| == 12 && r.value[i] == list[if i < 11 then 0 else hash(e) / 16] {
      ZeroEntropyWord(e, 4, list, hash, i);
    }
  }

  lemma ZeroEntropyWord(e: seq<byte>, c: nat, list: seq<string>, hash: seq<byte> -> byte, i: nat)
    requires |list| == 2048 && c == 4 && e == Zeros(4 * c) && i < 12
    ensures var r := NewWords(e, list, hash); r.Ok? && |r.value| == 12 && r.value[i] == list[if i < 11 then 0 else hash(e) / 16]
  {
    hide NewWords, Zeros, FromBytes, Pow2048, Pow2;
    ZerosValue(4 * c);
    SixteenBits();
    WordAt(e, c, list, hash, i);
    SmallOver(hash(e) / 16, 11 - i);
  }

  lemma SixteenBits()
    ensures Pow2(4) == 16
  {
  }

  lemma SmallOver(h: nat, j: nat)
    requires h < 16
    ensures h / Pow2048(j) % 2048 == if j == 0 then h else 0
  {
    hide Pow2048;
    if j == 0 { LastOfDigits([]); } else { SmallQuotient(h, j); }
  }

  lemma SmallQuotient(h: nat, j: nat)
    requires h < 2048 && j > 0
    ensures h / Pow2048(j) == 0
  {
    hide Pow2048;
    LastOfDigits(seq(j, _ => 0));
    ModUnique(h, Pow2048(j), 0, h);
  }
}

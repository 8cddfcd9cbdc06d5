/** The checksum of entity identifiers (Specification section of HIP-15) and what it can tell apart. */
module Checksum {
  import opened Words

  newtype int64 = x: int | -0x8000_0000_0000_0000 <= x < 0x8000_0000_0000_0000

  const P3: int := 17576       // 26^3
  const P5: int := 11881376    // 26^5
  const M: int := 1000003
  const W: int := 31

  /** A dot counts as ten; a character that is not a digit counts as zero. */
  function Digit(c: char): (d: nat)
    ensures d <= 10
  {
    if c == '.' then 10 else if '0' <= c <= '9' then c as int - '0' as int else 0
  }

  function Digits(a: string): (ds: seq<nat>)
    ensures |ds| == |a| && forall i :: 0 <= i < |a| ==> ds[i] == Digit(a[i])
  {
    seq(|a|, i requires 0 <= i < |a| => Digit(a[i]))
  }

  /** The rolling sum with multiplier 31 modulo `m`. */
  function Rolling(ds: seq<nat>, m: int): (r: nat)
    requires m > 0
    ensures r < m
  {
    if ds == [] then 0 else (W * Rolling(ds[..|ds| - 1], m) + ds[|ds| - 1]) % m
  }

  /** The digits at positions of one parity, added up. */
  function Sum(ds: seq<nat>, parity: nat): nat
  {
    if ds == [] then 0
    else Sum(ds[..|ds| - 1], parity) + if (|ds| - 1) % 2 == parity then ds[|ds| - 1] else 0
  }

  /** The four address-dependent quantities packed into one number below 26^5. */
  function Key(a: string): (k: nat)
    ensures k < P5
  {
    var ds := Digits(a);
    (((|a| % 5) * 11 + Sum(ds, 0) % 11) * 11 + Sum(ds, 1) % 11) * P3 + Rolling(ds, P3)
  }

  function LedgerHash(ledger: seq<byte>): (h: nat)
    ensures h < P5
  {
    Rolling(Padded(ledger), P5)
  }

  function Padded(ledger: seq<byte>): (ds: seq<nat>)
    ensures |ds| == |ledger| + 6
    ensures forall i :: 0 <= i < |ds| ==> ds[i] == if i < |ledger| then ledger[i] else 0
  {
    seq(|ledger| + 6, i requires 0 <= i < |ledger| + 6 => if i < |ledger| then ledger[i] else 0)
  }

  function Letters(c: nat, k: nat): (s: string)
    ensures |s| == k
    decreases k
  {
    if k == 0 then "" else Letters(c / 26, k - 1) + ['a' + (c % 26) as char]
  }

  function Code(ledger: seq<byte>, a: string): (s: string)
    ensures |s| == 5
  {
    Letters((Key(a) + LedgerHash(ledger)) % P5 * M % P5, 5)
  }

  // ---------------------------------------------------------------- the source's loops, in 64-bit arithmetic

  method CheckChecksum(ledger: seq<byte>, a: string) returns (answer: string)
    requires |a| < 0x8000_0000_0000_0000
    ensures answer == Code(ledger, a)
  {
    var digits := DigitsOf(a);
    var s, s0, s1 := AddressSums(digits, a);
    var sh := LedgerSum(ledger);
    hide Rolling, Sum, Letters, Digits;
    var n := |a| as int64;
    var checksum: int64 := ((((n % 5) * 11 + s0) * 11 + s1) * 17576 + s + sh) % 11881376;
    checksum := (checksum * 1000003) % 11881376;
    answer := Spell(checksum);
  }

  method DigitsOf(a: string) returns (digits: seq<int64>)
    ensures |digits| == |a| && forall i :: 0 <= i < |a| ==> digits[i] as int == Digit(a[i])
  {
    digits := [];
    for j := 0 to |a|
      invariant |digits| == j && forall i :: 0 <= i < j ==> digits[i] as int == Digit(a[i])
    {
      digits := digits + [Digit(a[j]) as int64];
    }
  }

  method AddressSums(digits: seq<int64>, ghost a: string) returns (s: int64, s0: int64, s1: int64)
    requires |digits| == |a| && forall i :: 0 <= i < |a| ==> digits[i] as int == Digit(a[i])
    ensures s as int == Rolling(Digits(a), P3)
    ensures s0 as int == Sum(Digits(a), 0) % 11 && s1 as int == Sum(Digits(a), 1) % 11
  {
    hide Sum, Rolling;
    s, s0, s1 := 0, 0, 0;
    AddressStart();
    ghost var ds := Digits(a);
    for i := 0 to |digits|
      invariant 0 <= s < 17576 && 0 <= s0 < 11 && 0 <= s1 < 11
      invariant s as int == Rolling(ds[..i], P3)
      invariant s0 as int == Sum(ds[..i], 0) % 11 && s1 as int == Sum(ds[..i], 1) % 11
    {
      AddressStep(ds, i);
      s := (31 * s + digits[i]) % 17576;
      if i % 2 == 0 { s0 := (s0 + digits[i]) % 11; } else { s1 := (s1 + digits[i]) % 11; }
    }
    assert ds[..|a|] == ds;
  }

  lemma AddressStart()
    ensures Rolling([], P3) == 0 && Sum([], 0) == 0 && Sum([], 1) == 0
  {
  }

  lemma AddressStep(ds: seq<nat>, i: nat)
    requires i < |ds|
    ensures Rolling(ds[..i + 1], P3) == (31 * Rolling(ds[..i], P3) + ds[i]) % P3
    ensures Sum(ds[..i + 1], i % 2) % 11 == (Sum(ds[..i], i % 2) % 11 + ds[i]) % 11
    ensures Sum(ds[..i + 1], 1 - i % 2) == Sum(ds[..i], 1 - i % 2)
  {
    hide Sum;
    assert ds[..i + 1][..i] == ds[..i];
    SumStep(ds[..i + 1], 0);
    SumStep(ds[..i + 1], 1);
    ReducedFirst(Sum(ds[..i], i % 2), ds[i]);
  }

  lemma SumStep(ds: seq<nat>, parity: nat)
    requires ds != []
    ensures var k := |ds| - 1; Sum(ds, parity) == Sum(ds[..k], parity) + if k % 2 == parity then ds[k] else 0
  {
  }

  lemma ReducedFirst(x: nat, d: nat)
    ensures (x + d) % 11 == (x % 11 + d) % 11
  {
  }

  method LedgerSum(ledger: seq<byte>) returns (sh: int64)
    ensures sh as int == LedgerHash(ledger)
  {
    sh := 0;
    var h := Padded(ledger);
    for i := 0 to |h|
      invariant 0 <= sh < 11881376 && sh as int == Rolling(h[..i], P5)
    {
      assert h[..i + 1][..i] == h[..i];
      sh := (31 * sh + h[i] as int64) % 11881376;
    }
    assert h[..|h|] == h;
  }

  method Spell(c: int64) returns (answer: string)
    requires 0 <= c
    ensures answer == Letters(c as int, 5)
  {
    answer := "";
    var checksum := c;
    for i := 0 to 5
      invariant 0 <= checksum && Letters(c as int, 5) == Letters(checksum as int, 5 - i) + answer
    {
      answer := ['a' + (checksum % 26) as char] + answer;
      checksum := checksum / 26;
    }
  }

  // ---------------------------------------------------------------- what equal checksums mean

  function Pow26(k: nat): nat { if k == 0 then 1 else 26 * Pow26(k - 1) }

  lemma {:induction false} LettersInjective(c: nat, d: nat, k: nat)
    requires c < Pow26(k) && d < Pow26(k) && Letters(c, k) == Letters(d, k)
    ensures c == d
    decreases k
  {
    if k > 0 {
      var s, t := Letters(c, k), Letters(d, k);
      assert s[k - 1] == t[k - 1] && s[..k - 1] == t[..k - 1];
      assert s[..k - 1] == Letters(c / 26, k - 1) && t[..k - 1] == Letters(d / 26, k - 1);
      LettersInjective(c / 26, d / 26, k - 1);
    }
  }

  /** Multiplying by an invertible constant modulo 26^5 loses nothing. */
  lemma TimesM(x: nat, y: nat)
    requires x < P5 && y < P5 && x * M % P5 == y * M % P5
    ensures x == y
  {
    var q, r := x * M / P5, x * M % P5;
    var q' := y * M / P5;
    assert x * M == P5 * q + r && y * M == P5 * q' + r;
    assert M * 8610443 == 1 + P5 * 724703;
    assert (x - y) * M == P5 * (q - q');
    assert x - y == P5 * ((q - q') * 8610443 - (x - y) * 724703);
  }

  lemma Times31(x: nat, y: nat, c: nat)
    requires x < P5 && y < P5 && (W * x + c) % P5 == (W * y + c) % P5
    ensures x == y
  {
    var q, q' := (W * x + c) / P5, (W * y + c) / P5;
    assert (x - y) * W == P5 * (q - q');
    assert x - y == P5 * ((q - q') * 1916351 - (x - y) * 5);
  }

  /** Two checksums agree exactly when the packed keys plus ledger hashes agree modulo 26^5. */
  lemma SameCode(l1: seq<byte>, a: string, l2: seq<byte>, b: string)
    ensures Code(l1, a) == Code(l2, b) <==> (Key(a) + LedgerHash(l1)) % P5 == (Key(b) + LedgerHash(l2)) % P5
  {
    hide Key, LedgerHash, Letters;
    var x, y := (Key(a) + LedgerHash(l1)) % P5, (Key(b) + LedgerHash(l2)) % P5;
    if Code(l1, a) == Code(l2, b) {
      assert Pow26(5) == P5;
      LettersInjective(x * M % P5, y * M % P5, 5);
      TimesM(x, y);
    }
  }

  /** For one ledger the checksum determines, and is determined by, these four quantities of the address. */
  lemma SameCodeOneLedger(l: seq<byte>, a: string, b: string)
    ensures Code(l, a) == Code(l, b) <==>
              && |a| % 5 == |b| % 5
              && Sum(Digits(a), 0) % 11 == Sum(Digits(b), 0) % 11
              && Sum(Digits(a), 1) % 11 == Sum(Digits(b), 1) % 11
              && Rolling(Digits(a), P3) == Rolling(Digits(b), P3)
  {
    hide LedgerHash, Letters, Rolling, Sum, Code;
    SameCode(l, a, l, b);
    SameShift(Key(a), Key(b), LedgerHash(l));
  }

  lemma SameShift(x: nat, y: nat, h: nat)
    requires x < P5 && y < P5 && h < P5
    ensures (x + h) % P5 == (y + h) % P5 <==> x == y
  {
  }

  // ---------------------------------------------------------------- error detection

  /** Addresses are made of digits and dots. */
  predicate IsAddress(a: string) { forall i :: 0 <= i < |a| ==> a[i] == '.' || '0' <= a[i] <= '9' }

  lemma {:induction false} SumUpdate(ds: seq<nat>, i: nat, d: nat, parity: nat)
    requires i < |ds|
    ensures Sum(ds[i := d], parity) == Sum(ds, parity) + if i % 2 == parity then d - ds[i] else 0
  {
    var n := |ds| - 1;
    if i < n {
      SumUpdate(ds[..n], i, d, parity);
      assert ds[i := d][..n] == ds[..n][i := d];
    } else {
      assert ds[i := d][..n] == ds[..n];
    }
  }

  lemma Mod11(x: nat, d: int)
    requires -10 <= d <= 10 && d != 0 && x + d >= 0
    ensures (x + d) % 11 != x % 11
  {
  }

  /** One substituted character always changes the checksum. */
  lemma SubstitutionDetected(l: seq<byte>, a: string, i: nat, c: char)
    requires IsAddress(a) && i < |a| && (c == '.' || '0' <= c <= '9') && c != a[i]
    ensures Code(l, a) != Code(l, a[i := c])
  {
    hide Rolling, Sum, Code;
    var b, ds := a[i := c], Digits(a);
    assert Digits(b) == ds[i := Digit(c)];
    SumUpdate(ds, i, Digit(c), i % 2);
    assert Digit(c) != Digit(a[i]);
    Mod11(Sum(ds, i % 2), Digit(c) - ds[i]);
    SameCodeOneLedger(l, a, b);
  }

  /** Two different neighbouring characters swapped always change the checksum. */
  lemma TranspositionDetected(l: seq<byte>, a: string, i: nat)
    requires IsAddress(a) && i + 1 < |a| && a[i] != a[i + 1]
    ensures Code(l, a) != Code(l, a[i := a[i + 1]][i + 1 := a[i]])
  {
    hide Rolling, Sum, Code;
    var b, ds := a[i := a[i + 1]][i + 1 := a[i]], Digits(a);
    assert Digits(b) == ds[i := ds[i + 1]][i + 1 := ds[i]];
    SumUpdate(ds, i, ds[i + 1], i % 2);
    SumUpdate(ds[i := ds[i + 1]], i + 1, ds[i], i % 2);
    assert Digit(a[i]) != Digit(a[i + 1]);
    Mod11(Sum(ds, i % 2), ds[i + 1] as int - ds[i] as int);
    SameCodeOneLedger(l, a, b);
  }

  /** One to four characters more or fewer always change the checksum. */
  lemma LengthChangeDetected(l: seq<byte>, a: string, b: string)
    requires |a| < |b| <= |a| + 4
    ensures Code(l, a) != Code(l, b)
  {
    hide Rolling, Sum, Code, Digits;
    SameCodeOneLedger(l, a, b);
  }

  lemma {:induction false} RollingUpdate(ds: seq<nat>, i: nat, d: nat)
    requires i < |ds| && d != ds[i] && d < P5 && ds[i] < P5
    ensures Rolling(ds, P5) != Rolling(ds[i := d], P5)
  {
    var n := |ds| - 1;
    if i < n {
      RollingUpdate(ds[..n], i, d);
      assert ds[i := d][..n] == ds[..n][i := d];
      var x, y := Rolling(ds[..n], P5), Rolling(ds[..n][i := d], P5);
      if (W * x + ds[n]) % P5 == (W * y + ds[n]) % P5 { Times31(x, y, ds[n]); }
    } else {
      assert ds[i := d][..n] == ds[..n];
      SameResidue(W * Rolling(ds[..n], P5), ds[i], d);
    }
  }

  lemma SameResidue(w: nat, x: nat, y: nat)
    requires x < P5 && y < P5 && x != y
    ensures (w + x) % P5 != (w + y) % P5
  {
  }

  /** Ledgers that differ in one byte never give one address the same checksum. */
  lemma LedgersSeparated(l: seq<byte>, i: nat, d: byte, a: string)
    requires i < |l| && d != l[i]
    ensures Code(l, a) != Code(l[i := d], a)
  {
    hide Rolling, Sum, Code, Key;
    assert Padded(l[i := d]) == Padded(l)[i := d];
    RollingUpdate(Padded(l), i, d);
    SameCode(l, a, l[i := d], a);
    SameShift(LedgerHash(l), LedgerHash(l[i := d]), Key(a));
  }

  // ---------------------------------------------------------------- published identifiers

  /** Checksums of HIP-15: 0.0.123 on testnet and on mainnet, and an address of another length on mainnet. */
  lemma PublishedCodes()
    ensures Code([1], "0.0.123") == "esxsf"
    ensures Code([0], "0.0.123") == "vfmkw"
    ensures Code([0], "1.23.456") == "adpbr"
  {
    hide *;
    Key123();
    Key123456();
    LedgerHashes();
    Products();
    Spellings();
    CodeIs([1], "0.0.123", 5040502, 8281857, 2160293, "esxsf");
    CodeIs([0], "0.0.123", 5040502, 0, 9692770, "vfmkw");
    CodeIs([0], "1.23.456", 7766357, 0, 62911, "adpbr");
  }

  lemma Products()
    ensures (5040502 + 8281857) % 11881376 * 1000003 % 11881376 == 2160293
    ensures (5040502 + 0) % 11881376 * 1000003 % 11881376 == 9692770
    ensures (7766357 + 0) % 11881376 * 1000003 % 11881376 == 62911
  {
    ModUnique(5040502 + 8281857, 11881376, 1, 1440983);
    ModUnique(5040502, 11881376, 0, 5040502);
    ModUnique(7766357, 11881376, 0, 7766357);
    ModUnique(1440983 * 1000003, 11881376, 121281, 2160293);
    ModUnique(5040502 * 1000003, 11881376, 424236, 9692770);
    ModUnique(7766357 * 1000003, 11881376, 653660, 62911);
  }

  lemma CodeIs(ledger: seq<byte>, a: string, key: nat, h: nat, c: nat, text: string)
    requires Key(a) == key && LedgerHash(ledger) == h && (key + h) % 11881376 * 1000003 % 11881376 == c && Letters(c, 5) == text
    ensures Code(ledger, a) == text
  {
    hide Key, LedgerHash, Letters;
  }

  lemma Spellings()
    ensures Letters(2160293, 5) == "esxsf" && Letters(9692770, 5) == "vfmkw" && Letters(62911, 5) == "adpbr"
  {
    hide Letters;
    Spelt(2160293, "esxsf");
    Spelt(9692770, "vfmkw");
    Spelt(62911, "adpbr");
  }

  lemma Key123()
    ensures Key("0.0.123") == 5040502
  {
    hide Rolling, Sum;
    var ds := Digits("0.0.123");
    assert ds == [0, 10, 0, 10, 1, 2, 3];
    RollingIs(ds, [0, 10, 310, 9620, 17005, 17453, 13766], P3, 7);
    SumIs(ds, [0, 0, 0, 0, 1, 1, 4], 0, 7);
    SumIs(ds, [0, 10, 10, 20, 20, 22, 22], 1, 7);
  }

  lemma Key123456()
    ensures Key("1.23.456") == 7766357
  {
    hide Rolling, Sum;
    var ds := Digits("1.23.456");
    assert ds == [1, 10, 2, 3, 10, 4, 5, 6];
    RollingIs(ds, [1, 41, 1273, 4314, 10712, 15708, 12401, 15341], P3, 8);
    SumIs(ds, [1, 1, 3, 3, 13, 13, 18, 18], 0, 8);
    SumIs(ds, [0, 10, 10, 13, 13, 17, 17, 23], 1, 8);
  }

  /** Running values, checked one digit at a time. */
  lemma {:induction false} RollingIs(ds: seq<nat>, rs: seq<nat>, m: int, n: nat)
    requires m > 0 && n <= |ds| == |rs| && forall i :: 0 <= i < |ds| ==> Rolls(ds, rs, m, i)
    ensures n > 0 ==> Rolling(ds[..n], m) == rs[n - 1]
    ensures ds[..|ds|] == ds
    decreases n
  {
    hide Rolling;
    NoDigits(m);
    if n > 0 {
      RollingIs(ds, rs, m, n - 1);
      assert Rolls(ds, rs, m, n - 1);
      assert ds[..n][..n - 1] == ds[..n - 1];
      OneDigit(ds[..n], m);
      if n == 1 { assert ds[..0] == []; }
    }
  }

  lemma NoDigits(m: int)
    requires m > 0
    ensures Rolling([], m) == 0
  {
  }

  lemma OneDigit(ds: seq<nat>, m: int)
    requires m > 0 && ds != []
    ensures Rolling(ds, m) == (31 * Rolling(ds[..|ds| - 1], m) + ds[|ds| - 1]) % m
  {
  }

  predicate Rolls(ds: seq<nat>, rs: seq<nat>, m: int, i: nat)
    requires m > 0 && i < |ds| == |rs|
  {
    rs[i] == (31 * (if i == 0 then 0 else rs[i - 1]) + ds[i]) % m
  }

  lemma {:induction false} SumIs(ds: seq<nat>, ss: seq<nat>, parity: nat, n: nat)
    requires n <= |ds| == |ss| && forall i :: 0 <= i < |ds| ==> Adds(ds, ss, parity, i)
    ensures n > 0 ==> Sum(ds[..n], parity) == ss[n - 1]
    ensures ds[..|ds|] == ds
    decreases n
  {
    if n > 0 {
      SumIs(ds, ss, parity, n - 1);
      assert Adds(ds, ss, parity, n - 1);
      assert ds[..n][..n - 1] == ds[..n - 1];
    }
  }

  predicate Adds(ds: seq<nat>, ss: seq<nat>, parity: nat, i: nat)
    requires i < |ds| == |ss|
  {
    ss[i] == (if i == 0 then 0 else ss[i - 1]) + (if i % 2 == parity then ds[i] else 0)
  }

  lemma LedgerHashes()
    ensures LedgerHash([0]) == 0 && LedgerHash([1]) == 8281857
  {
    hide Rolling;
    RollingIs(Padded([0]), [0, 0, 0, 0, 0, 0, 0], P5, 7);
    RollingIs(Padded([1]), [1, 31, 961, 29791, 923521, 4866399, 8281857], P5, 7);
  }

  function Ordinal(c: char): int { c as int - 'a' as int }

  /** Five letters as digits, the first one most significant. */
  lemma Spelt(c: nat, t: string)
    requires |t| == 5 && (forall i :: 0 <= i < 5 ==> 'a' <= t[i] <= 'z')
    requires c == (((Ordinal(t[0]) * 26 + Ordinal(t[1])) * 26 + Ordinal(t[2])) * 26 + Ordinal(t[3])) * 26 + Ordinal(t[4])
    ensures Letters(c, 5) == t
  {
    hide Letters;
    NoLetters();
    var x := Ordinal(t[0]);
    OneLetter(0, x, 0);
    var y := x * 26 + Ordinal(t[1]);
    OneLetter(x, Ordinal(t[1]), 1);
    var z := y * 26 + Ordinal(t[2]);
    OneLetter(y, Ordinal(t[2]), 2);
    OneLetter(z, Ordinal(t[3]), 3);
    OneLetter(z * 26 + Ordinal(t[3]), Ordinal(t[4]), 4);
  }

  lemma NoLetters()
    ensures Letters(0, 0) == ""
  {
  }

  lemma OneLetter(c: nat, d: nat, k: nat)
    requires d < 26
    ensures Letters(c * 26 + d, k + 1) == Letters(c, k) + ['a' + d as char]
  {
    assert (c * 26 + d) / 26 == c && (c * 26 + d) % 26 == d;
  }
}

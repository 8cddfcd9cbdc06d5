/** Bytes, big-endian integers and the padding helpers that every codec of the SDK shares. */
module Words {

  type byte = x: int | 0 <= x < 256

  /** Errors carry no payload: the source distinguishes them only by message text. */
  datatype Result<+T> = Ok(value: T) | Err

  datatype Option<+T> = None | Some(value: T)

  const TWO_63: int := 0x8000_0000_0000_0000

  predicate Distinct(ns: seq<string>)
  {
    forall i, j :: 0 <= i < j < |ns| ==> ns[i] != ns[j]
  }

  /** strings.Join, with blanks unless another separator is given. */
  function Join(ws: seq<string>, sep: char := ' '): string
  {
    if ws == [] then "" else if |ws| == 1 then ws[0] else ws[0] + [sep] + Join(ws[1..], sep)
  }

  function Pow256(k: nat): (p: nat)
    ensures p >= 1
  {
    if k == 0 then 1 else 256 * Pow256(k - 1)
  }

  function Pow2(k: nat): (p: nat)
    ensures p >= 1
  {
    if k == 0 then 1 else 2 * Pow2(k - 1)
  }

  /** The number a big-endian byte string denotes (big.Int.SetBytes). */
  function FromBytes(b: seq<byte>): (n: nat)
    ensures n < Pow256(|b|)
  {
    if b == [] then 0 else FromBytes(b[..|b| - 1]) * 256 + b[|b| - 1]
  }

  /** The `k` low-order bytes of `i` in two's complement, big-endian. */
  function LowBytes(i: int, k: nat): (b: seq<byte>)
    ensures |b| == k
    decreases k
  {
    if k == 0 then [] else LowBytes(i / 256, k - 1) + [i % 256]
  }

  /** big.Int.Bytes: the shortest big-endian form; zero is the empty string. */
  function MinBytes(n: nat): (b: seq<byte>)
    ensures FromBytes(b) == n
  {
    if n == 0 then [] else
      var b := MinBytes(n / 256) + [n % 256];
      assert b[..|b| - 1] == MinBytes(n / 256);
      b
  }

  function Zeros(n: nat): (b: seq<byte>)
    ensures |b| == n
    ensures forall i :: 0 <= i < n ==> b[i] == 0
  {
    seq(n, _ => 0)
  }

  /** padBytes: too long keeps the last `size` bytes, too short is filled with zeros. */
  function PadBytes(b: seq<byte>, size: nat, left: bool): (r: seq<byte>)
    ensures |r| == size
  {
    if |b| == size then b
    else if |b| > size then b[|b| - size..]
    else if left then Zeros(size - |b|) + b
    else b + Zeros(size - |b|)
  }

  lemma {:induction false} LowBytesValue(i: int, k: nat)
    ensures FromBytes(LowBytes(i, k)) == i % Pow256(k)
    decreases k
  {
    if k > 0 {
      LowBytesValue(i / 256, k - 1);
      var b := LowBytes(i, k);
      assert b[..k - 1] == LowBytes(i / 256, k - 1);
      ModStep(i, Pow256(k - 1));
    }
  }

  lemma ModStep(i: int, p: nat)
    requires p >= 1
    ensures i % (256 * p) == (i / 256) % p * 256 + i % 256
  {
    var q, r := i / 256, i % 256;
    var q', r' := q / p, q % p;
    assert i == 256 * p * q' + (256 * r' + r) by { assert q == p * q' + r'; }
    ModUnique(i, 256 * p, q', 256 * r' + r);
  }

  lemma ModUnique(i: int, m: int, q: int, r: int)
    requires 0 <= r < m && i == m * q + r
    ensures i % m == r && i / m == q
  {
    var d := i / m - q;
    assert m * d == r - i % m by { assert i == m * (i / m) + i % m; }
    SmallMultiple(m, d);
  }

  lemma SmallMultiple(m: int, d: int)
    requires -m < m * d < m
    ensures d == 0
  {
  }

  /** Big-endian writing inverts big-endian reading. */
  lemma {:induction false} LowBytesOfValue(b: seq<byte>)
    ensures LowBytes(FromBytes(b), |b|) == b
  {
    hide LowBytes, FromBytes;
    NoBytes();
    if b != [] {
      var k := |b| - 1;
      LowBytesOfValue(b[..k]);
      LastByte(b);
      OneByteMore(FromBytes(b[..k]), b[k], k);
      assert b == b[..k] + [b[k]];
    }
  }

  lemma OneByteMore(n: nat, d: byte, k: nat)
    ensures LowBytes(n * 256 + d, k + 1) == LowBytes(n, k) + [d] && LowBytes(0, 0) == []
  {
    assert (n * 256 + d) / 256 == n && (n * 256 + d) % 256 == d;
  }

  /** Dropping leading bytes of a word keeps the low-order ones. */
  lemma {:induction false} LowBytesSuffix(i: int, k: nat, m: nat)
    requires m <= k
    ensures LowBytes(i, k)[k - m..] == LowBytes(i, m)
    decreases k
  {
    if m > 0 {
      LowBytesSuffix(i / 256, k - 1, m - 1);
      assert LowBytes(i, k)[k - m..] == LowBytes(i / 256, k - 1)[k - m..] + [i % 256];
    }
  }

  /** Only the residue modulo 256^k matters for the k low-order bytes. */
  lemma {:induction false} LowBytesMod(i: int, k: nat)
    ensures LowBytes(i % Pow256(k), k) == LowBytes(i, k)
  {
    LowBytesValue(i, k);
    LowBytesOfValue(LowBytes(i, k));
  }

  lemma {:induction false} ZerosValue(n: nat)
    ensures FromBytes(Zeros(n)) == 0
  {
    if n > 0 {
      assert Zeros(n)[..n - 1] == Zeros(n - 1);
      ZerosValue(n - 1);
    }
  }

  lemma {:induction false} LeftZeros(n: nat, b: seq<byte>)
    ensures FromBytes(Zeros(n) + b) == FromBytes(b)
  {
    if b == [] {
      ZerosValue(n);
      assert Zeros(n) + b == Zeros(n);
    } else {
      LeftZeros(n, b[..|b| - 1]);
      assert (Zeros(n) + b)[..n + |b| - 1] == Zeros(n) + b[..|b| - 1];
    }
  }

  lemma ZeroBytes(b: seq<byte>)
    ensures FromBytes(b) == 0 <==> b == Zeros(|b|)
  {
    hide LowBytes;
    ZerosValue(|b|);
    LowBytesOfValue(b);
    LowBytesOfValue(Zeros(|b|));
  }

  lemma {:induction false} FromBytesConcat(a: seq<byte>, b: seq<byte>)
    ensures FromBytes(a + b) == FromBytes(a) * Pow256(|b|) + FromBytes(b)
  {
    hide FromBytes, Pow256;
    if b == [] {
      assert a + b == a;
      NoBytes();
    } else {
      var k := |b| - 1;
      FromBytesConcat(a, b[..k]);
      assert (a + b)[..|a| + k] == a + b[..k];
      LastByte(a + b);
      LastByte(b);
      Regrouped(FromBytes(a), Pow256(k), FromBytes(b[..k]), b[k]);
    }
  }

  lemma NoBytes()
    ensures FromBytes([]) == 0 && Pow256(0) == 1
  {
  }

  lemma LastByte(b: seq<byte>)
    requires b != []
    ensures FromBytes(b) == FromBytes(b[..|b| - 1]) * 256 + b[|b| - 1] && Pow256(|b|) == 256 * Pow256(|b| - 1)
  {
  }

  lemma Regrouped(x: nat, p: nat, y: nat, d: nat)
    ensures (x * p + y) * 256 + d == x * (256 * p) + (y * 256 + d)
  {
  }

  lemma {:induction false} Pow256Split(a: nat, b: nat)
    ensures Pow256(a + b) == Pow256(a) * Pow256(b)
  {
    if b > 0 {
      Pow256Split(a, b - 1);
      assert Pow256(a) * (256 * Pow256(b - 1)) == 256 * (Pow256(a) * Pow256(b - 1));
    }
  }

  lemma {:induction false} MinBytesLength(n: nat, k: nat)
    requires n < Pow256(k)
    ensures |MinBytes(n)| <= k
  {
    if n > 0 { MinBytesLength(n / 256, k - 1); }
  }

  /** Left-padding the shortest form gives the fixed-width form. */
  lemma PadMinBytes(n: nat, k: nat)
    requires n < Pow256(k)
    ensures PadBytes(MinBytes(n), k, true) == LowBytes(n, k)
  {
    MinBytesLength(n, k);
    var p := PadBytes(MinBytes(n), k, true);
    if |MinBytes(n)| < k { LeftZeros(k - |MinBytes(n)|, MinBytes(n)); }
    LowBytesOfValue(p);
  }
}

/** Mnemonic sentences: the source's loops over big integers, and the codec on text. */
module Mnemonic {
  import opened Words
  import opened Bip39

  // ---------------------------------------------------------------- loops

  method SetWordList(list: seq<string>) returns (m: map<string, nat>)
    ensures m == WordMap(list)
  {
    m := map[];
    for i := 0 to |list|
      invariant m == WordMap(list[..i])
    {
      assert list[..i + 1][..i] == list[..i];
      m := m[list[i] := i];
    }
    assert list[..|list|] == list;
  }

  /** addChecksum: append the leading hash bits one by one; past the eighth the shifted mask is zero. */
  method AddChecksum(data: seq<byte>, hash: byte) returns (r: seq<byte>)
    ensures r == MinBytes(WithChecksum(data, hash))
  {
    hide MinBytes, FromBytes, BitOr, BitAnd, Pow2, AppendBits;
    var n := FromBytes(data);
    StartBits(n, hash);
    for i := 0 to |data| / 4
      invariant n == AppendBits(FromBytes(data), hash, i)
    {
      NextBit(FromBytes(data), hash, i);
      n := n * 2;
      if i < 8 && BitAnd(hash, Pow2(7 - i)) > 0 { n := BitOr(n, 1); }
    }
    r := MinBytes(n);
  }

  lemma StartBits(x: nat, hash: byte)
    ensures AppendBits(x, hash, 0) == x
  {
    assert Pow2(8) == 256;
  }

  lemma NextBit(x: nat, hash: byte, i: nat)
    ensures var n := AppendBits(x, hash, i);
            AppendBits(x, hash, i + 1) == if i < 8 && BitAnd(hash, Pow2(7 - i)) > 0 then BitOr(n * 2, 1) else n * 2
  {
    hide BitAnd, BitOr;
    if i < 8 {
      var n, p := Times(x, Pow2(i)) + Over(hash, Pow2(8 - i)), Pow2(7 - i);
      AndTests(hash, 7 - i);
      assert Pow2(1) == 2;
      OrAppends(n, 1, 1);
      HalfDiv(hash, p);
      DoubleTimes(x, Pow2(i));
    } else {
      assert Pow2(8) == 256 && Pow2(0) == 1;
      DoubleTimes(Times(x, 256) + hash, Pow2(i - 8));
    }
  }

  lemma DoubleTimes(x: nat, p: nat)
    ensures Times(x, 2 * p) == 2 * Times(x, p)
  {
  }

  /** NewMnemonicBip: the words are filled in from the last one. */
  method NewMnemonic(entropy: seq<byte>, list: seq<string>, hash: seq<byte> -> byte) returns (r: Result<string>)
    requires |list| == 2048
    ensures r == match NewWords(entropy, list, hash) case Err => Err case Ok(ws) => Ok(Join(ws))
  {
    hide ToDigits, MinBytes, FromBytes, WithChecksum, Join, BitAnd, Pow2;
    var bits := |entropy| * 8;
    var sentence := (bits + bits / 32) / 11;
    if !ValidEntropyBits(bits) { return Err; }
    var checked := AddChecksum(entropy, hash(entropy));
    var n := FromBytes(checked);
    ghost var ds := ToDigits(n, sentence);
    var words := new string[sentence](_ => "");
    var i := sentence;
    while i > 0
      invariant 0 <= i <= sentence && ToDigits(n, i) == ds[..i]
      invariant forall k :: i <= k < sentence ==> words[k] == list[ds[k]]
    {
      i := i - 1;
      LastDigit(n, i + 1);
      var word := BitAnd(n, 2047);
      n := n / 2048;
      words[i] := list[word];
    }
    assert words[..] == Pick(list, ds);
    return Ok(Join(words[..]));
  }

  lemma LastDigit(n: nat, k: nat)
    requires k > 0
    ensures BitAnd(n, 2047) == ToDigits(n, k)[k - 1] < 2048 && ToDigits(n / 2048, k - 1) == ToDigits(n, k)[..k - 1]
  {
    hide BitAnd;
    assert Pow2(4) == 16;
    assert Pow2(8) == 256;
    assert Pow2(11) == 2048;
    AndMasks(n, 11);
  }

  /** EntropyFromMnemonic. */
  method EntropyFromMnemonic(mnemonic: string, list: seq<string>, hash: seq<byte> -> byte) returns (r: Result<seq<byte>>)
    requires |list| == 2048
    ensures r == EntropyOf(Fields(mnemonic), list, hash)
  {
    hide Fields, FromDigits, MinBytes, PadLeft, Over, Pow2, BitOr, BitAnd, WordMap;
    var words := Fields(mnemonic);
    if !ValidWordCount(|words|) { return Err; }
    var wordMap := SetWordList(list);
    var b := 0;
    ghost var ds: seq<nat> := [];
    EmptyDigits();
    for i := 0 to |words|
      invariant |ds| == i && AreDigits(ds) && b == FromDigits(ds)
      invariant forall k :: 0 <= k < i ==> words[k] in wordMap && wordMap[words[k]] == ds[k]
    {
      if words[i] !in wordMap { return Err; }
      WordMapKeys(list, words[i]);
      AppendDigit(ds, wordMap[words[i]]);
      b := BitOr(b * 2048, wordMap[words[i]]);
      ds := ds + [wordMap[words[i]]];
    }
    IndicesAre(words, wordMap, ds);
    var c := |words| / 3;
    MaskOf(b, c);
    var checksum := BitAnd(b, ChecksumMask(|words|));
    b := Over(b, ChecksumMask(|words|) + 1);
    var entropy := PadLeft(MinBytes(b), c * 4);
    if checksum != Over(hash(entropy), Pow2(8 - c)) { return Err; }
    return Ok(entropy);
  }

  /** wordLengthChecksumMasksMapping. */
  function ChecksumMask(words: nat): nat
    requires ValidWordCount(words)
  {
    if words == 12 then 15 else if words == 15 then 31 else if words == 18 then 63 else if words == 21 then 127 else 255
  }

  lemma MaskOf(b: nat, c: nat)
    requires 4 <= c <= 8
    ensures ChecksumMask(3 * c) + 1 == Pow2(c) && BitAnd(b, ChecksumMask(3 * c)) == b % Pow2(c)
  {
    assert Pow2(4) == 16;
    assert Pow2(8) == 256;
    assert Pow2(c) == ChecksumMask(3 * c) + 1;
    AndMasks(b, c);
  }

  lemma EmptyDigits()
    ensures FromDigits([]) == 0
  {
  }

  lemma AppendDigit(ds: seq<nat>, d: nat)
    requires d < 2048
    ensures FromDigits(ds + [d]) == 2048 * FromDigits(ds) + d == BitOr(FromDigits(ds) * 2048, d)
  {
    hide BitOr;
    assert (ds + [d])[..|ds|] == ds;
    assert Pow2(4) == 16;
    assert Pow2(8) == 256;
    assert Pow2(11) == 2048;
    OrAppends(FromDigits(ds), d, 11);
  }

  // ---------------------------------------------------------------- text

  /** unicode.IsSpace. */
  predicate IsSpace(c: char)
  {
    || c == ' ' || '\t' <= c <= '\r' || c == '\U{85}' || c == '\U{A0}' || c == '\U{1680}'
    || '\U{2000}' <= c <= '\U{200A}' || c == '\U{2028}' || c == '\U{2029}' || c == '\U{202F}' || c == '\U{205F}' || c == '\U{3000}'
  }

  function WordSpan(s: string): (n: nat)
    ensures n <= |s|
  {
    if s != "" && !IsSpace(s[0]) then 1 + WordSpan(s[1..]) else 0
  }

  /** strings.Fields. */
  function Fields(s: string): seq<string>
    decreases |s|
  {
    if s == "" then []
    else if IsSpace(s[0]) then Fields(s[1..])
    else [s[..WordSpan(s)]] + Fields(s[WordSpan(s)..])
  }

  /** strings.Split at blanks. */
  function Split(s: string): (r: seq<string>)
    ensures r != []
  {
    if s == "" then [""]
    else
      var rest := Split(s[1..]);
      if s[0] == ' ' then [""] + rest else [[s[0]] + rest[0]] + rest[1..]
  }

  predicate IsWord(w: string) { w != "" && forall i :: 0 <= i < |w| ==> !IsSpace(w[i]) }

  lemma {:induction false} WordSpanOf(w: string, u: string)
    requires (forall i :: 0 <= i < |w| ==> !IsSpace(w[i])) && (u == "" || IsSpace(u[0]))
    ensures WordSpan(w + u) == |w|
  {
    if w == "" {
      assert w + u == u;
    } else {
      WordSpanOf(w[1..], u);
      assert (w + u)[1..] == w[1..] + u;
    }
  }

  lemma FieldsOfWord(w: string, u: string)
    requires IsWord(w) && (u == "" || IsSpace(u[0]))
    ensures Fields(w + u) == [w] + Fields(u)
  {
    WordSpanOf(w, u);
    assert (w + u)[..|w|] == w && (w + u)[|w|..] == u;
  }

  lemma {:induction false} FieldsOfJoin(ws: seq<string>, sep: char := ' ')
    requires IsSpace(sep) && forall i :: 0 <= i < |ws| ==> IsWord(ws[i])
    ensures Fields(Join(ws, sep)) == ws
  {
    hide IsWord, IsSpace;
    if |ws| == 1 {
      FieldsOfWord(ws[0], "");
      assert ws[0] + "" == ws[0];
    } else if |ws| > 1 {
      FieldsOfJoin(ws[1..], sep);
      var u := [sep] + Join(ws[1..], sep);
      FieldsOfWord(ws[0], u);
      assert u[1..] == Join(ws[1..], sep);
      assert Join(ws, sep) == ws[0] + u;
    }
  }

  lemma {:induction false} SplitOfWord(w: string, u: string)
    requires forall i :: 0 <= i < |w| ==> w[i] != ' '
    ensures Split(w + (" " + u)) == [w] + Split(u) && Split(w) == [w]
  {
    if w == "" {
      assert "" + (" " + u) == " " + u && (" " + u)[1..] == u;
    } else {
      SplitOfWord(w[1..], u);
      assert (w + (" " + u))[1..] == w[1..] + (" " + u);
      assert [w[0]] + w[1..] == w;
    }
  }

  lemma {:induction false} SplitOfJoin(ws: seq<string>)
    requires ws != [] && forall i :: 0 <= i < |ws| ==> IsWord(ws[i])
    ensures Split(Join(ws)) == ws
  {
    SplitOfWord(ws[0], if |ws| > 1 then Join(ws[1..]) else "");
    if |ws| > 1 {
      SplitOfJoin(ws[1..]);
      assert Join(ws) == ws[0] + (" " + Join(ws[1..]));
    }
  }

  /** The white space of Unicode, by code point. */
  lemma WhiteSpace(c: char)
    ensures IsSpace(c) <==>
      c as int in {0x09, 0x0A, 0x0B, 0x0C, 0x0D, 0x20, 0x85, 0xA0, 0x1680, 0x2000, 0x2001, 0x2002, 0x2003, 0x2004, 0x2005, 0x2006,
                   0x2007, 0x2008, 0x2009, 0x200A, 0x2028, 0x2029, 0x202F, 0x205F, 0x3000}
  {
  }

  /** White space around a sentence, such as a newline behind it, does not matter. */
  lemma {:induction false} SurroundingSpace(m: string, u: string)
    requires forall i :: 0 <= i < |u| ==> IsSpace(u[i])
    ensures Fields(m + u) == Fields(m) && Fields(u + m) == Fields(m)
    decreases |m| + |u|
  {
    hide IsSpace;
    SpaceBefore(m, u);
    SpaceBehind(m, u);
  }

  lemma {:induction false} SpaceBefore(m: string, u: string)
    requires forall i :: 0 <= i < |u| ==> IsSpace(u[i])
    ensures Fields(u + m) == Fields(m)
  {
    hide IsSpace;
    if u == "" {
      assert u + m == m;
    } else {
      SpaceBefore(m, u[1..]);
      assert (u + m)[1..] == u[1..] + m;
    }
  }

  lemma {:induction false} SpaceBehind(m: string, u: string)
    requires forall i :: 0 <= i < |u| ==> IsSpace(u[i])
    ensures Fields(m + u) == Fields(m)
    decreases |m|
  {
    hide IsSpace;
    if m == "" {
      SpaceBefore("", u);
      assert m + u == u + "";
    } else if IsSpace(m[0]) {
      SpaceBehind(m[1..], u);
      assert (m + u)[1..] == m[1..] + u;
    } else {
      var k := WordSpan(m);
      WordEnds(m);
      WordSpanOf(m[..k], m[k..] + u);
      assert m + u == m[..k] + (m[k..] + u);
      SpaceBehind(m[k..], u);
      assert (m + u)[..k] == m[..k] && (m + u)[k..] == m[k..] + u;
    }
  }

  lemma {:induction false} WordEnds(m: string)
    ensures var k := WordSpan(m); (forall i :: 0 <= i < k ==> !IsSpace(m[i])) && (k < |m| ==> IsSpace(m[k]))
    ensures m != "" && !IsSpace(m[0]) ==> WordSpan(m) > 0
  {
    hide IsSpace;
    if m != "" && !IsSpace(m[0]) { WordEnds(m[1..]); }
  }

  predicate IsSentenceList(list: seq<string>)
  {
    IsWordList(list) && forall i :: 0 <= i < |list| ==> IsWord(list[i])
  }

  /** On text: a generated sentence always yields the entropy it was made from. */
  lemma SentenceRoundTrip(e: seq<byte>, list: seq<string>, hash: seq<byte> -> byte)
    requires IsSentenceList(list) && ValidEntropyBits(8 * |e|)
    ensures NewWords(e, list, hash).Ok? && EntropyOf(Fields(Join(NewWords(e, list, hash).value)), list, hash) == Ok(e)
  {
    hide EntropyOf, Fields, Join, IsWord;
    EntropyRoundTrip(e, list, hash);
    FieldsOfJoin(NewWords(e, list, hash).value);
  }

  /** An accepted sentence is regenerated up to its spacing: exactly, if single blanks join its words. */
  lemma SentenceRegenerated(m: string, list: seq<string>, hash: seq<byte> -> byte)
    requires IsSentenceList(list) && EntropyOf(Fields(m), list, hash).Ok?
    ensures NewWords(EntropyOf(Fields(m), list, hash).value, list, hash) == Ok(Fields(m))
    ensures Split(m) == Fields(m) <==> Join(Fields(m)) == m
  {
    hide NewWords, EntropyOf, Fields, IsWord, IsWordList;
    WordsRoundTrip(Fields(m), list, hash);
    AcceptedWords(m, list, hash);
    SplitOfJoin(Fields(m));
    JoinOfSplit(m);
  }

  lemma AcceptedWords(m: string, list: seq<string>, hash: seq<byte> -> byte)
    requires IsSentenceList(list) && EntropyOf(Fields(m), list, hash).Ok?
    ensures Fields(m) != [] && forall i :: 0 <= i < |Fields(m)| ==> IsWord(Fields(m)[i])
  {
    hide FromDigits, MinBytes, PadLeft, Over, Pow2, WordMap, IsWord, Fields;
    var ws := Fields(m);
    forall i | 0 <= i < |ws| ensures IsWord(ws[i]) { WordMapKeys(list, ws[i]); }
  }

  lemma {:induction false} JoinOfSplit(s: string)
    ensures Join(Split(s)) == s
  {
    hide Join;
    JoinOne("");
    if s != "" {
      var rest := Split(s[1..]);
      JoinOfSplit(s[1..]);
      if s[0] == ' ' { JoinCons("", rest); } else { JoinGrow([s[0]], rest); }
      assert s == [s[0]] + s[1..];
    }
  }

  lemma JoinOne(w: string)
    ensures Join([w]) == w
  {
  }

  lemma JoinCons(w: string, ws: seq<string>)
    requires ws != []
    ensures Join([w] + ws) == w + " " + Join(ws)
  {
    assert ([w] + ws)[1..] == ws;
  }

  lemma JoinGrow(c: string, ws: seq<string>)
    requires ws != []
    ensures Join([c + ws[0]] + ws[1..]) == c + Join(ws)
  {
    hide Join;
    if |ws| == 1 {
      assert ws == [ws[0]] && [c + ws[0]] + ws[1..] == [c + ws[0]];
      JoinOne(ws[0]);
      JoinOne(c + ws[0]);
    } else {
      assert ws == [ws[0]] + ws[1..];
      JoinCons(ws[0], ws[1..]);
      JoinCons(c + ws[0], ws[1..]);
      Glue(c, ws[0], " ", Join(ws[1..]));
    }
  }

  lemma Glue(a: string, b: string, c: string, d: string)
    ensures a + b + c + d == a + (b + c + d)
  {
  }

  // ---------------------------------------------------------------- the second decoder

  /** A word that is not in the map, such as the empty one, reads as zero. */
  function LooseIndices(ws: seq<string>, m: map<string, nat>): (ds: seq<nat>)
    ensures |ds| == |ws| && forall i :: 0 <= i < |ws| ==> ds[i] == if ws[i] in m then m[ws[i]] else 0
  {
    seq(|ws|, i requires 0 <= i < |ws| => if ws[i] in m then m[ws[i]] else 0)
  }

  /** What MnemonicToByteArray makes of the words between blanks, once the sentence is known to be valid. */
  function SecondReading(ws: seq<string>, raw: bool, list: seq<string>, hash: seq<byte> -> byte): Result<seq<byte>>
  {
    var bits := |ws| * 11;
    var checksumBits := bits % 32;
    var fullSize := (bits - checksumBits) / 8 + 1;
    var n := FromDigits(LooseIndices(ws, WordMap(list)));
    var rawBytes := PadLeft(MinBytes(Over(n, Pow2(checksumBits))), fullSize - fullSize % 4);
    var checkedBytes := PadLeft(MinBytes(n), fullSize);
    if checkedBytes != PadLeft(MinBytes(WithChecksum(rawBytes, hash(rawBytes))), fullSize) then Err
    else Ok(if raw then rawBytes else checkedBytes)
  }

  method MnemonicToByteArray(mnemonic: string, raw: bool, list: seq<string>, hash: seq<byte> -> byte)
    returns (r: Result<seq<byte>>)
    requires |list| == 2048
    ensures r == if EntropyOf(Fields(mnemonic), list, hash).Err? then Err else SecondReading(Split(mnemonic), raw, list, hash)
  {
    hide FromDigits, MinBytes, PadLeft, Over, Pow2, WordMap, Split, Fields, WithChecksum, EntropyOf;
    var words := Split(mnemonic);
    var bits := |words| * 11;
    var checksumBits := bits % 32;
    var fullSize := (bits - checksumBits) / 8 + 1;
    var checksumSize := fullSize - fullSize % 4;

    var valid := EntropyFromMnemonic(mnemonic, list, hash);
    if valid.Err? { return Err; }
    var wordMap := SetWordList(list);
    var n := 0;
    ghost var ds := LooseIndices(words, wordMap);
    EmptyDigits();
    for i := 0 to |words|
      invariant n == FromDigits(ds[..i])
    {
      WordMapKeys(list, words[i]);
      AppendDigit(ds[..i], ds[i]);
      assert ds[..i + 1] == ds[..i] + [ds[i]];
      var index := if words[i] in wordMap then wordMap[words[i]] else 0;
      n := n * 2048 + index;
    }
    assert ds[..|words|] == ds;
    var rawBytes := PadLeft(MinBytes(Over(n, Pow2(checksumBits))), checksumSize);
    var checkedBytes := PadLeft(MinBytes(n), fullSize);
    var again := AddChecksum(rawBytes, hash(rawBytes));
    var newBytes := PadLeft(again, fullSize);
    if checkedBytes != newBytes { return Err; }
    return Ok(if raw then rawBytes else checkedBytes);
  }

  /** On accepted words the second reading never disagrees with the first: its own size arithmetic and its own
      comparison always succeed, and the raw form is the entropy. */
  lemma SecondReadingAgrees(ws: seq<string>, list: seq<string>, hash: seq<byte> -> byte)
    requires IsWordList(list) && EntropyOf(ws, list, hash).Ok?
    ensures var e := EntropyOf(ws, list, hash).value;
            && SecondReading(ws, true, list, hash) == Ok(e)
            && SecondReading(ws, false, list, hash) == Ok(PadLeft(MinBytes(WithChecksum(e, hash(e))), |e| + 1))
  {
    hide FromDigits, MinBytes, PadLeft, Over, Pow2, WordMap, WithChecksum, EntropyOf;
    Accepted(ws, list, hash);
    Sizes(|ws|, |ws| / 3);
    assert LooseIndices(ws, WordMap(list)) == Indices(ws, WordMap(list)).value;
  }

  lemma Sizes(n: nat, c: nat)
    requires n == 3 * c && c <= 8
    ensures 11 * n % 32 == c && (11 * n - c) / 8 + 1 == 4 * c + 1 && (4 * c + 1) - (4 * c + 1) % 4 == 4 * c
  {
  }

  /** What acceptance says about the words, the number they spell and the entropy in it. */
  lemma Accepted(ws: seq<string>, list: seq<string>, hash: seq<byte> -> byte)
    requires IsWordList(list) && EntropyOf(ws, list, hash).Ok?
    ensures var m, e, c := WordMap(list), EntropyOf(ws, list, hash).value, |ws| / 3;
            && |ws| == 3 * c && 4 <= c <= 8 && |e| == 4 * c
            && Indices(ws, m).Ok? && |Indices(ws, m).value| == |ws| && AreDigits(Indices(ws, m).value)
            && (forall i :: 0 <= i < |ws| ==> ws[i] in m && m[ws[i]] == Indices(ws, m).value[i])
            && var n := FromDigits(Indices(ws, m).value);
               e == PadLeft(MinBytes(Over(n, Pow2(c))), 4 * c) && WithChecksum(e, hash(e)) == n
  {
    hide Pow2, Pow256, Pow2048, FromBytes, MinBytes, ToDigits, FromDigits, WordMap, PadLeft, Times, Over;
    var ds, e := Indices(ws, WordMap(list)).value, EntropyOf(ws, list, hash).value;
    var c, n := |ws| / 3, FromDigits(ds);
    forall i | 0 <= i < |ws| ensures ds[i] < 2048 { WordMapKeys(list, ws[i]); }
    ToFromDigits(ds);
    EntropyLength(n, c);
    Rejoin(n, Pow2(c));
  }
}

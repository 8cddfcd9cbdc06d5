/** Entity identifiers as text: printing with a checksum, parsing, and validation against a ledger. */
module EntityId {
  import opened Words
  import opened Checksum
  import Decimal

  /** A file identifier; the three numbers are uint64 in the source. */
  datatype FileId = FileId(shard: nat, realm: nat, file: nat, checksum: Option<string>)

  /** fmt.Sprintf("%d.%d.%d"). */
  function Text(id: FileId): string
  {
    Decimal.Text(id.shard) + "." + (Decimal.Text(id.realm) + "." + Decimal.Text(id.file))
  }

  // ---------------------------------------------------------------- parsing

  /** strings.SplitN at the first occurrence of `c`. */
  function Cut(s: string, c: char): (r: Option<(string, string)>)
  {
    if s == "" then None
    else if s[0] == c then Some(("", s[1..]))
    else match Cut(s[1..], c) case None => None case Some((a, b)) => Some(([s[0]] + a, b))
  }

  /** strconv.Atoi, with the sign it admits. */
  function Atoi(s: string): Result<int>
  {
    if s != "" && (s[0] == '-' || s[0] == '+') then
      match Decimal.Parse(s[1..], if s[0] == '-' then TWO_63 + 1 else TWO_63)
      case Err => Err
      case Ok(n) => Ok(if s[0] == '-' then -(n as int) else n)
    else match Decimal.Parse(s, TWO_63) case Err => Err case Ok(n) => Ok(n)
  }

  /** _IdFromString and FileIDFromString: no `-` survives the first cut, so the numbers are not negative. */
  function FromString(s: string): Result<FileId>
  {
    var (body, checksum) := match Cut(s, '-') case None => (s, None) case Some((a, b)) => (a, Some(b));
    match Cut(body, '.')
    case None => Err
    case Some((a, rest)) =>
      match Cut(rest, '.')
      case None => Err
      case Some((b, c)) =>
        var x, y, z := Atoi(a), Atoi(b), Atoi(c);
        if x.Err? || y.Err? || z.Err? then Err
        else Ok(FileId(Unsigned(x.value), Unsigned(y.value), Unsigned(z.value), checksum))
  }

  /** uint64(int). */
  function Unsigned(i: int): nat { i % (2 * TWO_63) }

  // ---------------------------------------------------------------- the checksum pattern

  datatype Match = Match(a: string, b: string, c: string, checksum: string)

  function DigitRun(s: string): (n: nat)
    ensures n <= |s| && Decimal.AllDigits(s[..n])
  {
    if s != "" && Decimal.IsDigit(s[0]) then
      assert s[..1 + DigitRun(s[1..])] == [s[0]] + s[1..][..DigitRun(s[1..])];
      1 + DigitRun(s[1..])
    else 0
  }

  /** (0|[1-9]\d*) in front of a character that is not a digit: a single zero, or the whole run of digits. */
  function NumberSpan(s: string): (n: nat)
    ensures n <= |s|
  {
    if s != "" && s[0] == '0' then 1 else DigitRun(s)
  }

  /** The pattern `N\.N\.N(-[a-z]{5})?$` at the start of the text; none of its parts can match in two ways. */
  function MatchHere(s: string): Option<Match>
  {
    var i := NumberSpan(s);
    if i == 0 || i == |s| || s[i] != '.' then None else
      var t := s[i + 1..];
      var j := NumberSpan(t);
      if j == 0 || j == |t| || t[j] != '.' then None else
        var u := t[j + 1..];
        var k := NumberSpan(u);
        if k == 0 then None
        else if k == |u| then Some(Match(s[..i], t[..j], u, ""))
        else if |u| == k + 6 && u[k] == '-' && (forall x :: k < x < |u| ==> 'a' <= u[x] <= 'z')
          then Some(Match(s[..i], t[..j], u[..k], u[k + 1..]))
        else None
  }

  /** FindStringSubmatch: the leftmost match. */
  function Find(s: string): Option<Match>
  {
    if MatchHere(s).Some? then MatchHere(s) else if s == "" then None else Find(s[1..])
  }

  datatype Parsed = Parsed(status: nat, correct: string)

  /** _ChecksumParseAddress; a text without a match makes the source index a nil slice. */
  function ParseAddress(ledger: seq<byte>, s: string): Result<Parsed>
  {
    match Find(s)
    case None => Err
    case Some(m) =>
      if Atoi(m.a).Err? || Atoi(m.b).Err? || Atoi(m.c).Err? then Err
      else
        var code := Code(ledger, m.a + "." + m.b + "." + m.c);
        Ok(Parsed(if m.checksum == "" then 2 else if m.checksum == code then 3 else 1, code))
  }

  predicate StatusOk(status: nat) { status == 2 || status == 3 }

  function ToStringWithChecksum(id: FileId, ledger: seq<byte>): Result<string>
  {
    match ParseAddress(ledger, Text(id)) case Err => Err case Ok(p) => Ok(Text(id) + "-" + p.correct)
  }

  /** ValidateChecksum returns nil; the all-zero identifier is never checked. */
  predicate Validates(id: FileId, ledger: seq<byte>)
  {
    if id.shard == 0 && id.realm == 0 && id.file == 0 then true
    else match ParseAddress(ledger, Text(id))
      case Err => false
      case Ok(p) => StatusOk(p.status) && id.checksum == Some(p.correct)
  }

  // ---------------------------------------------------------------- proofs

  lemma {:induction false} CutAt(a: string, c: char, b: string)
    requires c !in a
    ensures Cut(a + [c] + b, c) == Some((a, b))
  {
    var s := a + [c] + b;
    if a == "" {
      assert s[0] == c && s[1..] == b;
    } else {
      CutAt(a[1..], c, b);
      assert s[1..] == a[1..] + [c] + b;
      assert [a[0]] + a[1..] == a;
    }
  }

  lemma NoMark(n: nat, c: char)
    requires !Decimal.IsDigit(c)
    ensures c !in Decimal.Text(n)
  {
    var d := Decimal.Text(n);
    forall i | 0 <= i < |d| ensures d[i] != c { assert Decimal.IsDigit(d[i]); }
  }

  lemma AtoiOfText(n: nat)
    requires n < TWO_63
    ensures Atoi(Decimal.Text(n)) == Ok(n)
  {
    Decimal.NumberOfText(n);
    assert Decimal.IsDigit(Decimal.Text(n)[0]);
  }

  lemma AtoiLimit(n: nat)
    ensures Atoi(Decimal.Text(n)).Ok? <==> n < TWO_63
  {
    Decimal.NumberOfText(n);
    assert Decimal.IsDigit(Decimal.Text(n)[0]);
  }

  predicate Small(id: FileId) { id.shard < TWO_63 && id.realm < TWO_63 && id.file < TWO_63 }

  lemma {:induction false} NoCut(s: string, c: char)
    requires c !in s
    ensures Cut(s, c) == None
  {
    if s != "" { NoCut(s[1..], c); }
  }

  /** A text with its marks: everything behind the first `-` is the checksum, and of what stands before it the first
      two dots separate the numbers. */
  function Marked(a: string, b: string, c: string, checksum: Option<string>): string
  {
    a + "." + (b + "." + c) + if checksum.Some? then "-" + checksum.value else ""
  }

  /** Parsing any text with two dots before the first `-`: the three parts go to Atoi, and a text without `-` has no
      checksum. */
  lemma FromStringIs(a: string, b: string, c: string, checksum: Option<string>)
    requires '.' !in a && '.' !in b && '-' !in a && '-' !in b && '-' !in c
    ensures FromString(Marked(a, b, c, checksum))
         == if Atoi(a).Ok? && Atoi(b).Ok? && Atoi(c).Ok?
            then Ok(FileId(Unsigned(Atoi(a).value), Unsigned(Atoi(b).value), Unsigned(Atoi(c).value), checksum)) else Err
  {
    hide Cut, Atoi;
    var body := a + "." + (b + "." + c);
    if checksum.Some? {
      CutAt(body, '-', checksum.value);
      assert Marked(a, b, c, checksum) == body + "-" + checksum.value;
    } else {
      NoCut(body, '-');
      assert Marked(a, b, c, checksum) == body;
    }
    CutAt(a, '.', b + "." + c);
    CutAt(b, '.', c);
  }

  /** Fewer than two dots are refused. */
  lemma TooFewDots(a: string, b: string)
    requires '.' !in a && '.' !in b && '-' !in a && '-' !in b
    ensures FromString(a).Err? && FromString(a + "." + b).Err?
  {
    hide Cut, Atoi;
    NoCut(a, '-');
    NoCut(a, '.');
    NoCut(b, '.');
    NoCut(a + "." + b, '-');
    CutAt(a, '.', b);
  }

  /** Atoi takes digits, leading zeros included, with an optional sign, in the range of int64; nothing else. */
  lemma AtoiIs(d: string)
    requires d != "" && Decimal.AllDigits(d)
    ensures var n := Decimal.Number(d);
            && Atoi(d) == (if n < 0x8000_0000_0000_0000 then Ok(n) else Err)
            && Atoi("+" + d) == (if n < 0x8000_0000_0000_0000 then Ok(n) else Err)
            && Atoi("-" + d) == (if n <= 0x8000_0000_0000_0000 then Ok(0 - n) else Err)
  {
    assert ("+" + d)[1..] == d && ("-" + d)[1..] == d;
    assert Decimal.IsDigit(d[0]);
  }

  lemma AtoiRefuses(s: string)
    requires Atoi(s).Ok?
    ensures var d := if s != "" && (s[0] == '+' || s[0] == '-') then s[1..] else s; d != "" && Decimal.AllDigits(d)
  {
  }

  /** Parsing inverts printing, without a checksum and with any. */
  lemma FromStringOfText(id: FileId, checksum: string)
    requires Small(id)
    ensures FromString(Text(id)) == Ok(id.(checksum := None))
    ensures FromString(Text(id) + "-" + checksum) == Ok(id.(checksum := Some(checksum)))
  {
    hide FromString, Atoi, Decimal.Text;
    var a, b, c := Decimal.Text(id.shard), Decimal.Text(id.realm), Decimal.Text(id.file);
    NoMark(id.shard, '-'); NoMark(id.realm, '-'); NoMark(id.file, '-');
    NoMark(id.shard, '.'); NoMark(id.realm, '.');
    AtoiOfText(id.shard); AtoiOfText(id.realm); AtoiOfText(id.file);
    FromStringIs(a, b, c, None);
    FromStringIs(a, b, c, Some(checksum));
    assert Marked(a, b, c, None) == Text(id) && Marked(a, b, c, Some(checksum)) == Text(id) + "-" + checksum;
  }

  lemma {:induction false} DigitRunOf(d: string, u: string)
    requires Decimal.AllDigits(d) && (u == "" || !Decimal.IsDigit(u[0]))
    ensures DigitRun(d + u) == |d|
  {
    if d == "" {
      assert d + u == u;
    } else {
      DigitRunOf(d[1..], u);
      assert (d + u)[1..] == d[1..] + u;
    }
  }

  lemma NumberSpanOf(n: nat, u: string)
    requires u == "" || !Decimal.IsDigit(u[0])
    ensures NumberSpan(Decimal.Text(n) + u) == |Decimal.Text(n)|
  {
    DigitRunOf(Decimal.Text(n), u);
    Decimal.NoLeadingZero(n);
  }

  lemma MatchOfText(id: FileId)
    ensures Find(Text(id))
         == Some(Match(Decimal.Text(id.shard), Decimal.Text(id.realm), Decimal.Text(id.file), ""))
  {
    hide NumberSpan, MatchHere, Decimal.Text;
    var a, b, c := Decimal.Text(id.shard), Decimal.Text(id.realm), Decimal.Text(id.file);
    var t := b + "." + c;
    NumberSpanOf(id.shard, "." + t);
    NumberSpanOf(id.realm, "." + c);
    NumberSpanOf(id.file, "");
    assert c + "" == c && Text(id) == a + ("." + t) && t == b + ("." + c);
    MatchParts(a, b, c);
  }

  lemma MatchParts(a: string, b: string, c: string)
    requires a != "" && b != "" && c != "" && NumberSpan(c) == |c|
    requires NumberSpan(b + ("." + c)) == |b| && NumberSpan(a + ("." + (b + ("." + c)))) == |a|
    ensures MatchHere(a + ("." + (b + ("." + c)))) == Some(Match(a, b, c, ""))
  {
    hide NumberSpan;
    var t := b + ("." + c);
    var s := a + ("." + t);
    assert s[|a|] == '.' && s[..|a|] == a && s[|a| + 1..] == t;
    assert t[|b|] == '.' && t[..|b|] == b && t[|b| + 1..] == c;
  }

  lemma ParseOfText(id: FileId, ledger: seq<byte>)
    requires Small(id)
    ensures ParseAddress(ledger, Text(id)) == Ok(Parsed(2, Code(ledger, Text(id))))
  {
    hide Find, Atoi, Decimal.Text, Code;
    MatchOfText(id);
    AtoiOfText(id.shard); AtoiOfText(id.realm); AtoiOfText(id.file);
    var a, b, c := Decimal.Text(id.shard), Decimal.Text(id.realm), Decimal.Text(id.file);
    assert a + "." + b + "." + c == Text(id);
  }

  /** With five letters behind it, the address pattern reports the right checksum, and whether these are it. */
  lemma ParseChecked(id: FileId, ledger: seq<byte>, letters: string)
    requires Small(id) && |letters| == 5 && forall i :: 0 <= i < 5 ==> 'a' <= letters[i] <= 'z'
    ensures var code := Code(ledger, Text(id));
            ParseAddress(ledger, Text(id) + "-" + letters) == Ok(Parsed(if letters == code then 3 else 1, code))
  {
    hide Find, Atoi, Decimal.Text, Code;
    var a, b, c := Decimal.Text(id.shard), Decimal.Text(id.realm), Decimal.Text(id.file);
    MatchChecked(id, letters);
    AtoiOfText(id.shard); AtoiOfText(id.realm); AtoiOfText(id.file);
    assert a + "." + b + "." + c == Text(id);
  }

  lemma MatchChecked(id: FileId, letters: string)
    requires |letters| == 5 && forall i :: 0 <= i < 5 ==> 'a' <= letters[i] <= 'z'
    ensures Find(Text(id) + "-" + letters)
         == Some(Match(Decimal.Text(id.shard), Decimal.Text(id.realm), Decimal.Text(id.file), letters))
  {
    hide NumberSpan, MatchHere, Decimal.Text;
    var a, b, c := Decimal.Text(id.shard), Decimal.Text(id.realm), Decimal.Text(id.file);
    var u := c + ("-" + letters);
    var t := b + ("." + u);
    NumberSpanOf(id.shard, "." + t);
    NumberSpanOf(id.realm, "." + u);
    NumberSpanOf(id.file, "-" + letters);
    assert Text(id) + "-" + letters == a + ("." + t);
    MatchWithChecksum(a, b, c, letters);
  }

  lemma MatchWithChecksum(a: string, b: string, c: string, letters: string)
    requires a != "" && b != "" && c != "" && |letters| == 5 && forall i :: 0 <= i < 5 ==> 'a' <= letters[i] <= 'z'
    requires var u := c + ("-" + letters); var t := b + ("." + u);
             NumberSpan(u) == |c| && NumberSpan(t) == |b| && NumberSpan(a + ("." + t)) == |a|
    ensures MatchHere(a + ("." + (b + ("." + (c + ("-" + letters)))))) == Some(Match(a, b, c, letters))
  {
    hide NumberSpan;
    var u := c + ("-" + letters);
    var t := b + ("." + u);
    Around(a, '.', t);
    Around(b, '.', u);
    Around(c, '-', letters);
    assert forall x :: |c| < x < |u| ==> u[x] == letters[x - |c| - 1];
  }

  lemma Around(a: string, c: char, b: string)
    ensures var s := a + ([c] + b); s[|a|] == c && s[..|a|] == a && s[|a| + 1..] == b
  {
  }

  /** A published identifier: 0.0.123 on testnet. */
  lemma PublishedIdentifier()
    ensures var id := FileId(0, 0, 123, None);
            && Text(id) == "0.0.123" && ToStringWithChecksum(id, [1]) == Ok("0.0.123-esxsf")
            && FromString("0.0.123") == Ok(id) && FromString("0.0.123-esxsf") == Ok(id.(checksum := Some("esxsf")))
            && Validates(id.(checksum := Some("esxsf")), [1]) && !Validates(id.(checksum := Some("esxsf")), [0])
  {
    hide FromString, ParseAddress, Code, Validates;
    var id := FileId(0, 0, 123, None);
    SmallTexts();
    assert Text(id) == "0.0.123";
    PublishedCodes();
    ParseOfText(id, [1]);
    FromStringOfText(id, "esxsf");
    assert Text(id) + "-" + "esxsf" == "0.0.123-esxsf";
    ValidatesIff(id.(checksum := Some("esxsf")), [1]);
    ValidatesIff(id.(checksum := Some("esxsf")), [0]);
  }

  lemma SmallTexts()
    ensures Decimal.Text(0) == "0" && Decimal.Text(123) == "123"
  {
    assert Decimal.Text(1) == "1";
    assert Decimal.Text(12) == "12";
  }

  /** Printing with a checksum succeeds exactly for numbers below 2^63. */
  lemma PrintsIffSmall(id: FileId, ledger: seq<byte>)
    ensures ToStringWithChecksum(id, ledger).Ok? <==> Small(id)
  {
    hide ParseAddress, Code;
    if Small(id) { ParseOfText(id, ledger); } else { LargeRefused(id, ledger); }
  }

  /** Printing with a checksum, parsing and validating on the same ledger: nothing is lost. */
  lemma ChecksummedRoundTrip(id: FileId, ledger: seq<byte>)
    requires Small(id)
    ensures var s := ToStringWithChecksum(id, ledger);
            && s.Ok?
            && FromString(s.value) == Ok(id.(checksum := Some(Code(ledger, Text(id)))))
            && Validates(FromString(s.value).value, ledger)
  {
    hide ParseAddress, FromString, Code;
    ParseOfText(id, ledger);
    FromStringOfText(id, Code(ledger, Text(id)));
    ParseOfText(id.(checksum := Some(Code(ledger, Text(id)))), ledger);
  }

  /** Validation accepts exactly the right checksum on numbers below 2^63; only 0.0.0 passes with any. */
  lemma ValidatesIff(id: FileId, ledger: seq<byte>)
    ensures Validates(id, ledger) <==>
              || (id.shard == 0 && id.realm == 0 && id.file == 0)
              || (Small(id) && id.checksum == Some(Code(ledger, Text(id))))
  {
    hide ParseAddress, Code;
    if Small(id) { ParseOfText(id, ledger); } else { LargeRefused(id, ledger); }
  }

  lemma LargeRefused(id: FileId, ledger: seq<byte>)
    requires !Small(id)
    ensures ParseAddress(ledger, Text(id)).Err?
  {
    hide Find, Atoi, Decimal.Text, Code;
    MatchOfText(id);
    AtoiLimit(id.shard); AtoiLimit(id.realm); AtoiLimit(id.file);
  }

  lemma TextIsAddress(id: FileId)
    ensures IsAddress(Text(id))
  {
    hide Decimal.Text;
    forall n: nat, i | 0 <= i < |Decimal.Text(n)| ensures '0' <= Decimal.Text(n)[i] <= '9' {
      assert Decimal.IsDigit(Decimal.Text(n)[i]);
    }
  }

  /** A checksum written for one identifier is refused for every other one that a single wrong or swapped
      character, or up to four missing or added ones, turn it into; except that 0.0.0 is accepted. */
  lemma MistypedIdRejected(id: FileId, typo: FileId, ledger: seq<byte>, i: nat)
    requires typo.checksum == Some(Code(ledger, Text(id)))
    requires var a, b := Text(id), Text(typo);
             || (i < |a| == |b| && b[i] != a[i] && b == a[i := b[i]])
             || (i + 1 < |a| && a[i] != a[i + 1] && b == a[i := a[i + 1]][i + 1 := a[i]])
             || (|a| < |b| <= |a| + 4) || (|b| < |a| <= |b| + 4)
    ensures Validates(typo, ledger) <==> typo.shard == 0 && typo.realm == 0 && typo.file == 0
  {
    hide Text, Code, Validates;
    var a, b := Text(id), Text(typo);
    TextIsAddress(id);
    TextIsAddress(typo);
    ValidatesIff(typo, ledger);
    if i < |a| == |b| && b[i] != a[i] && b == a[i := b[i]] {
      SubstitutionDetected(ledger, a, i, b[i]);
    } else if i + 1 < |a| && a[i] != a[i + 1] && b == a[i := a[i + 1]][i + 1 := a[i]] {
      TranspositionDetected(ledger, a, i);
    } else if |a| < |b| {
      LengthChangeDetected(ledger, a, b);
    } else {
      LengthChangeDetected(ledger, b, a);
    }
  }
}

/** The texts of types and signatures, and what the parser makes of texts nobody printed. */
module TypeLaws {
  import opened Words
  import opened AbiType
  import opened TypeText
  import opened TypeSignature
  import Decimal

  // ---------------------------------------------------------------- printed text

  /** Scalars, arrays and slices print as in the ABI, at every style. */
  lemma FormatIs(n: nat, e: Type, st: Style)
    ensures Format(UInt(n), st) == "uint" + Decimal.Text(n) && Format(Int(n), st) == "int" + Decimal.Text(n)
    ensures Format(FixedBytes(n), st) == "bytes" + Decimal.Text(n) && Format(Bytes, st) == "bytes"
    ensures Format(String, st) == "string" && Format(Bool, st) == "bool"
    ensures Format(Address, st) == "address" && Format(Function, st) == "function"
    ensures Format(Array(e, n), st) == Format(e, st) + "[" + Decimal.Text(n) + "]" && Format(Slice(e), st) == Format(e, st) + "[]"
  {
    hide Decimal.Text, FormatFields;
  }

  /** A component: its type, its flag, and its name where names are printed. */
  function ComponentText(f: Field, names: bool, word: bool): string
  {
    Format(f.typ, Style(names, word, false)) + (if f.indexed then " indexed" else "") + (if names && f.name != "" then " " + f.name else "")
  }

  function ComponentTexts(fs: seq<Field>, names: bool, word: bool): (r: seq<string>)
    ensures |r| == |fs| && forall i :: 0 <= i < |fs| ==> r[i] == ComponentText(fs[i], names, word)
  {
    seq(|fs|, i requires 0 <= i < |fs| => ComponentText(fs[i], names, word))
  }

  /** Tuples print their components with commas between them; signatures leave out the word in front. */
  lemma TupleText(fs: seq<Field>, names: bool, word: bool)
    ensures Format(Tuple(fs), Style(names, word, false))
         == (if word then "tuple(" else "(") + Join(ComponentTexts(fs, names, word), ',') + ")"
  {
    hide FormatFields, ComponentTexts, Join;
    FieldsJoined(fs, names, word);
  }

  lemma {:induction false} FieldsJoined(fs: seq<Field>, names: bool, word: bool)
    ensures FormatFields(fs, Style(names, word, false)) == Join(ComponentTexts(fs, names, word), ',')
  {
    hide Format, ComponentText;
    if fs != [] {
      FieldsJoined(fs[1..], names, word);
      assert ComponentTexts(fs, names, word)[1..] == ComponentTexts(fs[1..], names, word);
      ComponentIs(fs[0], names, word);
      if |fs| > 1 { AppendThree(ComponentText(fs[0], names, word), ",", FormatFields(fs[1..], Style(names, word, false))); }
    }
  }

  lemma ComponentIs(f: Field, names: bool, word: bool)
    ensures var st := Style(names, word, false); Format(f.typ, st) + NameText(f, st) == ComponentText(f, names, word)
  {
    hide Format;
    var st := Style(names, word, false);
    AppendThree(Format(f.typ, st), IndexedText(f), OwnText(f, st));
  }

  /** A signature is the name and, in parentheses, the bare texts of the inputs. */
  lemma SignatureText(name: string, fs: seq<Field>)
    ensures Signature(name, fs) == name + "(" + Join(BareTexts(fs), ',') + ")"
  {
    hide Signature, Join, Format;
    SignatureIsBare(name, fs);
    TupleText(Shown(fs), false, false);
    assert ComponentTexts(Shown(fs), false, false) == BareTexts(fs) by { ShownTexts(fs); }
    assert name + ("(" + Join(BareTexts(fs), ',') + ")") == name + "(" + Join(BareTexts(fs), ',') + ")";
  }

  function BareTexts(fs: seq<Field>): (r: seq<string>)
    ensures |r| == |fs| && forall i :: 0 <= i < |fs| ==> r[i] == Format(fs[i].typ, BARE)
  {
    seq(|fs|, i requires 0 <= i < |fs| => Format(fs[i].typ, BARE))
  }

  lemma ShownTexts(fs: seq<Field>)
    ensures ComponentTexts(Shown(fs), false, false) == BareTexts(fs)
  {
    hide Format;
    forall i | 0 <= i < |fs| ensures ComponentText(Shown(fs)[i], false, false) == Format(fs[i].typ, BARE) {
      var b := Format(fs[i].typ, BARE);
      assert b + "" + "" == b;
    }
  }

  // ---------------------------------------------------------------- real signatures and types

  lemma Numerals()
    ensures Decimal.Text(2) == "2" && Decimal.Text(256) == "256" && Decimal.Text(8) == "8"
  {
    assert Decimal.Text(25) == "25";
  }

  /** Two inputs, two components. */
  lemma TwoInputs(name: string, fs: seq<Field>, a: string, b: string)
    requires |fs| == 2 && Format(fs[0].typ, BARE) == a && Format(fs[1].typ, BARE) == b
    ensures Signature(name, fs) == name + "(" + (a + "," + b) + ")"
  {
    hide Signature, Format;
    SignatureText(name, fs);
    assert BareTexts(fs) == [a, b];
    JoinTwo(a, b);
  }

  lemma TwoComponents(fs: seq<Field>, names: bool, word: bool, a: string, b: string)
    requires |fs| == 2 && ComponentText(fs[0], names, word) == a && ComponentText(fs[1], names, word) == b
    ensures Format(Tuple(fs), Style(names, word, false)) == (if word then "tuple(" else "(") + (a + "," + b) + ")"
  {
    hide Format, ComponentText;
    TupleText(fs, names, word);
    assert ComponentTexts(fs, names, word) == [a, b];
    JoinTwo(a, b);
  }

  lemma JoinTwo(a: string, b: string)
    ensures Join([a, b], ',') == a + "," + b
  {
    assert [a, b][1..] == [b];
  }

  /** The transfer method of a token. */
  lemma TransferSignature(fs: seq<Field>)
    requires |fs| == 2 && fs[0].typ == Address && fs[1].typ == UInt(256)
    ensures Signature("transfer", fs) == "transfer(address,uint256)"
  {
    hide *;
    Uint256Text();
    TwoInputs("transfer", fs, "address", "uint256");
    assert "transfer" + "(" + ("address" + "," + "uint256") + ")" == "transfer(address,uint256)";
  }

  lemma Uint256Text()
    ensures Format(UInt(256), BARE) == Format(UInt(256), FULL) == "uint256"
    ensures Format(Address, BARE) == Format(Address, FULL) == "address"
    ensures Format(Bool, BARE) == "bool" && Format(Slice(String), BARE) == "string[]"
  {
    hide Format, Decimal.Text;
    FormatIs(256, String, BARE);
    FormatIs(256, String, FULL);
    Numerals();
    assert "uint" + "256" == "uint256" && "string" + "[]" == "string[]";
  }

  /** A nested tuple array and a slice, whatever the components are called. */
  lemma NestedSignature(fs: seq<Field>, gs: seq<Field>)
    requires |gs| == 2 && gs[0].typ == UInt(256) && gs[1].typ == Bool && !gs[0].indexed && !gs[1].indexed
    requires |fs| == 2 && fs[0].typ == Array(Tuple(gs), 2) && fs[1].typ == Slice(String)
    ensures Signature("f", fs) == "f((uint256,bool)[2],string[])"
  {
    hide *;
    Uint256Text();
    PairText(gs);
    TwoInputs("f", fs, "(uint256,bool)[2]", "string[]");
    NestedLiteral();
  }

  lemma NestedLiteral()
    ensures "f" + "(" + ("(uint256,bool)[2]" + "," + "string[]") + ")" == "f((uint256,bool)[2],string[])"
  {
    var s := "(uint256,bool)[2]" + ",";
    assert s == "(uint256,bool)[2],";
    var t := s + "string[]";
    assert t == "(uint256,bool)[2],string[]";
    assert "f" + "(" == "f(";
    var u := "f(" + t;
    assert u == "f((uint256,bool)[2],string[]";
    assert u + ")" == "f((uint256,bool)[2],string[])";
  }

  lemma PairText(gs: seq<Field>)
    requires |gs| == 2 && gs[0].typ == UInt(256) && gs[1].typ == Bool && !gs[0].indexed && !gs[1].indexed
    ensures Format(Array(Tuple(gs), 2), BARE) == "(uint256,bool)[2]"
  {
    hide Format, Decimal.Text;
    Uint256Text();
    assert "uint256" + "" + "" == "uint256" && "bool" + "" + "" == "bool";
    TwoComponents(gs, false, false, "uint256", "bool");
    FormatIs(2, Tuple(gs), BARE);
    Numerals();
    assert "(" + ("uint256" + "," + "bool") + ")" + "[" + "2" + "]" == "(uint256,bool)[2]";
  }

  /** Names and flags in the full text. */
  lemma NamedTuple(fs: seq<Field>)
    requires |fs| == 2 && fs[0] == Field("a", UInt(256), false) && fs[1] == Field("b", Address, true)
    ensures Format(Tuple(fs), FULL) == "tuple(uint256 a,address indexed b)"
  {
    hide Format, ComponentText;
    NamedComponents(fs[0], fs[1]);
    TwoComponents(fs, true, true, "uint256 a", "address indexed b");
    NamedLiteral();
  }

  lemma NamedLiteral()
    ensures "tuple(" + ("uint256 a" + "," + "address indexed b") + ")" == "tuple(uint256 a,address indexed b)"
  {
    var s := "uint256 a" + ",";
    assert s == "uint256 a,";
    var t := s + "address indexed b";
    assert t == "uint256 a,address indexed b";
    var u := "tuple(" + t;
    assert u == "tuple(uint256 a,address indexed b";
    assert u + ")" == "tuple(uint256 a,address indexed b)";
  }

  lemma NamedComponents(f: Field, g: Field)
    requires f == Field("a", UInt(256), false) && g == Field("b", Address, true)
    ensures ComponentText(f, true, true) == "uint256 a" && ComponentText(g, true, true) == "address indexed b"
  {
    hide Format;
    Uint256Text();
    assert "uint256" + "" + (" " + "a") == "uint256 a";
    assert "address" + " indexed" + (" " + "b") == "address indexed b";
  }

  // ---------------------------------------------------------------- the names the parser knows

  /** With a number behind them `uint`, `int` and `bytes` are sized; a width that is no multiple of 8 panics. */
  lemma SizedNames(n: nat)
    requires n < 0x8000_0000_0000_0000
    ensures SimpleType("uint" + Decimal.Text(n)) == if n % 8 == 0 then Known(UInt(n)) else BadWidth
    ensures SimpleType("int" + Decimal.Text(n)) == if n % 8 == 0 then Known(Int(n)) else BadWidth
    ensures SimpleType("bytes" + Decimal.Text(n)) == if n == 0 then Known(Bytes) else Known(FixedBytes(n))
  {
    hide AlphaSpan, Decimal.Text, Decimal.Parse, Decimal.Number;
    SizedName("uint", n);
    SizedName("int", n);
    SizedName("bytes", n);
  }

  /** Without one, integers have 256 bits, `bytes` is dynamic, and `byte` is one byte. */
  lemma PlainNames()
    ensures SimpleType("uint") == Known(UInt(256)) && SimpleType("int") == Known(Int(256))
    ensures SimpleType("bytes") == Known(Bytes) && SimpleType("byte") == Known(FixedBytes(1))
    ensures SimpleType("string") == Known(String) && SimpleType("bool") == Known(Bool)
    ensures SimpleType("address") == Known(Address) && SimpleType("function") == Known(Function)
  {
    hide SimpleType, SimpleOf;
    NumberNames();
    OtherNames();
    PlainIs("uint");
    PlainIs("int");
    PlainIs("bytes");
    PlainIs("byte");
    PlainIs("string");
    PlainIs("bool");
    PlainIs("address");
    PlainIs("function");
  }

  lemma PlainIs(w: string)
    requires forall i :: 0 <= i < |w| ==> IsLetter(w[i]) && w[i] != '_'
    ensures SimpleType(w) == SimpleOf(w, "")
  {
    hide AlphaSpan, SimpleOf;
    PlainName(w);
  }

  lemma NumberNames()
    ensures SimpleOf("uint", "") == Known(UInt(256)) && SimpleOf("int", "") == Known(Int(256))
    ensures SimpleOf("bytes", "") == Known(Bytes) && SimpleOf("byte", "") == Known(FixedBytes(1))
  {
  }

  lemma OtherNames()
    ensures SimpleOf("string", "") == Known(String) && SimpleOf("bool", "") == Known(Bool)
    ensures SimpleOf("address", "") == Known(Address) && SimpleOf("function", "") == Known(Function)
  {
  }

  /** Other names, and other names with a number, are unknown. */
  lemma UnknownNames(w: string, n: nat)
    requires n < 0x8000_0000_0000_0000 && (forall i :: 0 <= i < |w| ==> IsLetter(w[i]) && w[i] != '_')
    ensures w !in {"uint", "int", "bytes"} ==> SimpleType(w + Decimal.Text(n)) == Unknown
    ensures w !in {"uint", "int", "bytes", "byte", "string", "bool", "address", "function"} ==> SimpleType(w) == Unknown
  {
    hide AlphaSpan, Decimal.Text, Decimal.Parse, Decimal.Number;
    SizedName(w, n);
    PlainName(w);
  }

  /** Identifiers: letters and underscores, and digits behind the first character. */
  lemma Identifiers(c: char, w: string)
    ensures IsLetter(c) <==> ('a' <= c <= 'z') || ('A' <= c <= 'Z') || c == '_'
    ensures IsWord(w) <==>
      && w != "" && !('0' <= w[0] <= '9')
      && forall i :: 0 <= i < |w| ==> ('a' <= w[i] <= 'z') || ('A' <= w[i] <= 'Z') || w[i] == '_' || ('0' <= w[i] <= '9')
  {
  }

  /** Components of an argument whose type is no tuple are an error. */
  lemma ComponentsOfScalar(a: Arg, t: Type, rest: seq<Token>)
    requires !StartsWithTuple(a.typ) && a.components != [] && NewType(a.typ) == Parsed(t, rest) && !Base(t).Tuple?
    ensures TypeFromArgument(a).Err?
  {
    hide NewType;
  }

  // ---------------------------------------------------------------- texts nobody printed

  /** White space in front is skipped. */
  lemma {:induction false} LeadingSpace(u: string, s: string)
    requires forall i :: 0 <= i < |u| ==> u[i] == ' ' || u[i] == '\t' || u[i] == '\n' || u[i] == '\r'
    ensures NewType(u + s) == NewType(s)
  {
    hide ReadType, Lex;
    SpaceSkipped(u, s);
    LexBy(u + s);
    LexBy(s);
  }

  lemma LexBy(s: string)
    ensures var (t, rest) := LexOne(s); Lex(s) == if t.Eof? then [] else [t] + Lex(rest)
  {
  }

  lemma {:induction false} SpaceSkipped(u: string, s: string)
    requires forall i :: 0 <= i < |u| ==> u[i] == ' ' || u[i] == '\t' || u[i] == '\n' || u[i] == '\r'
    ensures LexOne(u + s) == LexOne(s)
  {
    if u == "" {
      assert u + s == s;
    } else {
      SpaceSkipped(u[1..], s);
      assert (u + s)[1..] == u[1..] + s;
    }
  }

  /** What follows a printed type is ignored, unless it goes on with a bracket. */
  lemma TrailingIgnored(t: Type, st: Style, u: string)
    requires Printable(t, st) && Boundary(u) && (Lex(u) == [] || !Lex(u)[0].LBracket?)
    ensures NewType(Format(t, st) + u) == Parsed(Printed(t, st), Lex(u))
  {
    hide Lex, Format, Toks, ReadType, Printed, Printable, Boundary;
    LexFormat(t, st, u);
    ReadPrinted(t, st, Lex(u));
  }

  /** Brackets behind a printed type make it an array or a slice. */
  lemma BracketsRead(t: Type, n: nat, u: string)
    requires Printable(t, FULL) && n < 0x1_0000_0000 && Addressable(t, n) && Boundary(u) && (Lex(u) == [] || !Lex(u)[0].LBracket?)
    ensures NewType(Format(t, FULL) + "[]" + u) == Parsed(Slice(t), Lex(u))
    ensures NewType(Format(t, FULL) + "[" + Decimal.Text(n) + "]" + u) == Parsed(Array(t, n), Lex(u))
  {
    hide Lex, Format, Printed, Printable, Boundary, NewType, Addressable;
    FormatIs(n, t, FULL);
    ArrayPrintable(t, n);
    TrailingIgnored(Slice(t), FULL, u);
    TrailingIgnored(Array(t, n), FULL, u);
    PrintedWithNames(Slice(t), FULL);
    PrintedWithNames(Array(t, n), FULL);
  }

  lemma ArrayPrintable(t: Type, n: nat)
    requires Printable(t, FULL) && n < 0x1_0000_0000 && Addressable(t, n)
    ensures Printable(Slice(t), FULL) && Printable(Array(t, n), FULL)
  {
  }

  /** A known name, with or without a number, parses to the type it stands for. */
  lemma NameRead(w: string, t: Type)
    requires IsWord(w) && WordToken(w) == Str(w) && SimpleType(w) == Known(t)
    ensures NewType(w) == Parsed(t, [])
  {
    hide Lex, SimpleType, ReadDims, ReadType;
    LexWord(w, "");
    assert w + "" == w;
    LexNothing();
    ReadScalar(w, t, []);
    NoDims(t);
    assert [Str(w)] + [] == [Str(w)];
  }

  lemma NoDims(t: Type)
    ensures ReadDims(t, []) == Parsed(t, [])
  {
  }

  /** So `uint` is read as uint256. */
  lemma UintRead()
    ensures NewType("uint") == Parsed(UInt(256), [])
  {
    hide NewType, SimpleType;
    PlainNames();
    NameRead("uint", UInt(256));
  }

  /** Go sizes, and an array too large for them: its text makes the parser panic. */
  lemma Oversized()
    ensures GoSize(Bool) == 1 && GoSize(UInt(8)) == 1 && GoSize(Int(16)) == 2 && GoSize(UInt(32)) == 4 && GoSize(Int(64)) == 8
    ensures GoSize(UInt(256)) == 8 && GoSize(String) == 16 && GoSize(Bytes) == 24 && GoSize(FixedBytes(32)) == 32
    ensures GoSize(Address) == 20 && GoSize(Function) == 24 && GoSize(Slice(Bool)) == 24 && GoSize(Tuple([])) == 8
    ensures !Addressable(Array(UInt(256), 0xFFFF_FFFF), 0xFFFF_FFFF) && Addressable(Array(Bool, 0xFFFF_FFFF), 0xFFFF_FFFF)
  {
  }

  lemma PanicsWhenTooLarge(t: Type, n: nat, u: string)
    requires Printable(t, FULL) && n < 0x1_0000_0000 && !Addressable(t, n) && Boundary(u)
    ensures NewType(Format(t, FULL) + ("[" + (Decimal.Text(n) + ("]" + u)))) == Panicked
  {
    hide Lex, Format, Toks, ReadType, Printed, Printable, Boundary, Addressable, Decimal.Text;
    OpenBracket(Decimal.Text(n) + ("]" + u));
    LexFormat(t, FULL, "[" + (Decimal.Text(n) + ("]" + u)));
    LexMark('[', Decimal.Text(n) + ("]" + u));
    OpenBracket(u);
    LexNumber(n, "]" + u);
    LexMark(']', u);
    var rest := [LBracket] + ([Num(Decimal.Text(n))] + ([RBracket] + Lex(u)));
    ReadPrinted(t, FULL, rest);
    PrintedWithNames(t, FULL);
    TooLargeRead(t, n, rest);
  }

  lemma OpenBracket(u: string)
    ensures Boundary("[" + u) && Boundary("]" + u)
  {
  }

  lemma TooLargeRead(t: Type, n: nat, ts: seq<Token>)
    requires n < 0x1_0000_0000 && !Addressable(t, n) && |ts| > 1 && ts[0] == LBracket && ts[1] == Num(Decimal.Text(n))
    ensures ReadDims(t, ts) == Panicked
  {
    Decimal.NumberOfText(n);
    hide Decimal.Text, Decimal.Number, Addressable;
  }
}

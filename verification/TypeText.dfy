/** The text of ABI types: tokens, the printer, the parser as a function of the token stream, and the proof
    that parsing inverts printing. */
module TypeText {
  import opened Words
  import opened AbiType
  import Decimal

  datatype Token =
    | Eof | Str(s: string) | Num(s: string) | TupleWord | Indexed
    | LParen | RParen | LBracket | RBracket | Comma | Invalid

  // ---------------------------------------------------------------- lexing

  predicate IsLetter(c: char) { 'a' <= c <= 'z' || 'A' <= c <= 'Z' || c == '_' }

  predicate IsWordChar(c: char) { IsLetter(c) || Decimal.IsDigit(c) }

  predicate IsSpace(c: char) { c == ' ' || c == '\t' || c == '\n' || c == '\r' }

  /** How far the word (or, for `digits`, the number) at the start of `s` reaches. */
  function Span(s: string, digits: bool): (n: nat)
    ensures n <= |s|
  {
    if s != [] && (if digits then Decimal.IsDigit(s[0]) else IsWordChar(s[0])) then 1 + Span(s[1..], digits) else 0
  }

  function WordToken(w: string): Token
  {
    if w == "tuple" then TupleWord else if w == "indexed" then Indexed else Str(w)
  }

  /** One token and the text after it; the end of input and a NUL byte both read as Eof. */
  function LexOne(s: string): (r: (Token, string))
    ensures |r.1| <= |s|
    ensures !r.0.Eof? ==> |r.1| < |s|
  {
    if s == [] then (Eof, [])
    else if IsSpace(s[0]) then LexOne(s[1..])
    else match s[0]
      case ',' => (Comma, s[1..])
      case '(' => (LParen, s[1..])
      case ')' => (RParen, s[1..])
      case '[' => (LBracket, s[1..])
      case ']' => (RBracket, s[1..])
      case c =>
        if c == '\0' then (Eof, s[1..])
        else if IsLetter(c) then (WordToken(s[..Span(s, false)]), s[Span(s, false)..])
        else if Decimal.IsDigit(c) then (Num(s[..Span(s, true)]), s[Span(s, true)..])
        else (Invalid, s[1..])
  }

  /** The tokens up to the first Eof; the parser never reads past it. */
  function Lex(s: string): (ts: seq<Token>)
    decreases |s|
  {
    var (t, rest) := LexOne(s);
    if t.Eof? then [] else [t] + Lex(rest)
  }

  // ---------------------------------------------------------------- parsing

  datatype Parse = Parsed(typ: Type, rest: seq<Token>) | Failed(current: Token, rest: seq<Token>) | Panicked

  datatype Simple = Known(typ: Type) | Unknown | BadWidth

  function AlphaSpan(s: string): (n: nat)
    ensures n <= |s|
  {
    if s != [] && IsLetter(s[0]) && s[0] != '_' then 1 + AlphaSpan(s[1..]) else 0
  }

  /** decodeSimpleType: letters, then optional digits; a width that is not a multiple of 8 panics. */
  function SimpleType(lit: string): Simple
  {
    var k := AlphaSpan(lit);
    SimpleOf(lit[..k], lit[k..])
  }

  function SimpleOf(name: string, digits: string): Simple
  {
    var size := Decimal.Parse(digits, TWO_63);
    if name == [] || !Decimal.AllDigits(digits) || (digits != [] && size.Err?) then Unknown
    else if name == "uint" || name == "int" then
      var bits := if digits == [] then 256 else size.value;
      if bits % 8 != 0 then BadWidth else Known(if name == "uint" then UInt(bits) else Int(bits))
    else if name == "bytes" then
      Known(if digits == [] || size.value == 0 then Bytes else FixedBytes(size.value))
    else if digits != [] then Unknown
    else if name == "byte" then Known(FixedBytes(1))
    else if name == "string" then Known(String)
    else if name == "bool" then Known(Bool)
    else if name == "address" then Known(Address)
    else if name == "function" then Known(Function)
    else Unknown
  }

  /** The token a failed expectation consumed: what `l.current` holds afterwards. */
  function Fail(ts: seq<Token>): (p: Parse)
    ensures p.Failed? && (!p.current.Eof? ==> |p.rest| < |ts|) && |p.rest| <= |ts|
  {
    if ts == [] then Failed(Eof, []) else Failed(ts[0], ts[1..])
  }

  /** What every parse keeps: success and a non-Eof failure have consumed input. */
  predicate Consumes(p: Parse, ts: seq<Token>)
  {
    match p
    case Parsed(_, rest) => |rest| < |ts|
    case Failed(c, rest) => |rest| <= |ts| && (!c.Eof? ==> |rest| < |ts|)
    case Panicked => true
  }

  function ReadType(ts: seq<Token>): (p: Parse)
    ensures Consumes(p, ts)
    decreases |ts|, 0
  {
    if ts == [] then Failed(Eof, [])
    else match ts[0]
      case TupleWord =>
        if |ts| > 1 && ts[1].LParen? then ReadFields(ts[2..], []) else Fail(ts[1..])
      case LParen => ReadFields(ts[1..], [])
      case Str(lit) =>
        (match SimpleType(lit)
         case Known(t) => ReadDims(t, ts[1..])
         case Unknown => Failed(ts[0], ts[1..])
         case BadWidth => Panicked)
      case _ => Failed(ts[0], ts[1..])
  }

  /** The component loop; a failure on `)` before the first component counts as the empty tuple. */
  function ReadFields(ts: seq<Token>, fs: seq<Field>): (p: Parse)
    ensures p.Parsed? ==> |p.rest| < |ts|
    ensures p.Failed? ==> |p.rest| <= |ts| && (!p.current.Eof? ==> |p.rest| < |ts|)
    decreases |ts|, 1
  {
    match ReadType(ts)
    case Panicked => Panicked
    case Failed(c, rest) => if c.RParen? && fs == [] then ReadDims(Tuple([]), rest) else Failed(c, rest)
    case Parsed(t, rest) =>
      var (name, indexed, after) := ReadName(rest);
      if after == [] then Failed(Eof, [])
      else if after[0].Comma? then ReadFields(after[1..], fs + [Field(name, t, indexed)])
      else if after[0].RParen? then ReadDims(Tuple(fs + [Field(name, t, indexed)]), after[1..])
      else Failed(after[0], after[1..])
  }

  /** The optional `indexed` and name after a component type. */
  function ReadName(ts: seq<Token>): (r: (string, bool, seq<Token>))
    ensures |r.2| <= |ts|
  {
    if ts != [] && ts[0].Str? then (ts[0].s, false, ts[1..])
    else if ts != [] && ts[0].Indexed? then
      if |ts| > 1 && ts[1].Str? then (ts[1].s, true, ts[2..]) else ("", true, ts[1..])
    else ("", false, ts)
  }

  /** Array suffixes. */
  function ReadDims(t: Type, ts: seq<Token>): (p: Parse)
    ensures p.Parsed? ==> |p.rest| <= |ts|
    ensures p.Failed? ==> |p.rest| <= |ts|
    decreases |ts|, 0
  {
    if ts == [] || !ts[0].LBracket? then Parsed(t, ts)
    else if |ts| > 1 && ts[1].RBracket? then ReadDims(Slice(t), ts[2..])
    else if |ts| > 1 && ts[1].Num? then
      match Decimal.Parse(ts[1].s, 0x1_0000_0000)
      case Err => Failed(ts[1], ts[2..])
      case Ok(n) =>
        if !Addressable(t, n) then Panicked
        else if |ts| > 2 && ts[2].RBracket? then ReadDims(Array(t, n), ts[3..]) else Fail(ts[2..])
    else Fail(ts[1..])
  }

  function NewType(s: string): Parse { ReadType(Lex(s)) }

  // ---------------------------------------------------------------- printing

  /** How a type is written: with component names, with the word `tuple`, with a blank before every name. */
  datatype Style = Style(names: bool, word: bool, spaced: bool)

  /** Type.Format(true) and Type.Format(false). */
  const FULL := Style(true, true, false)
  const TYPES := Style(false, true, false)

  /** Type.Format, and the two variations of it in signatures and JSON arguments. */
  function Format(t: Type, st: Style): (s: string)
    decreases t, 0
  {
    match t
    case Tuple(fs) => (if st.word then "tuple(" else "(") + FormatFields(fs, st) + ")"
    case Array(e, n) => Format(e, st) + "[" + Decimal.Text(n) + "]"
    case Slice(e) => Format(e, st) + "[]"
    case _ => ScalarText(t)
  }

  function ScalarText(t: Type): string
    requires !(t.Tuple? || t.Array? || t.Slice?)
  {
    match t
    case Bytes => "bytes"
    case FixedBytes(n) => "bytes" + Decimal.Text(n)
    case String => "string"
    case Bool => "bool"
    case Address => "address"
    case Function => "function"
    case UInt(n) => "uint" + Decimal.Text(n)
    case Int(n) => "int" + Decimal.Text(n)
  }

  function FormatFields(fs: seq<Field>, st: Style): (s: string)
    decreases fs, 0
  {
    if fs == [] then ""
    else
      Format(fs[0].typ, st) + NameText(fs[0], st)
      + (if |fs| == 1 then "" else "," + FormatFields(fs[1..], st))
  }

  function NameText(f: Field, st: Style): string
  {
    IndexedText(f) + OwnText(f, st)
  }

  function IndexedText(f: Field): string { if f.indexed then " indexed" else "" }

  function OwnText(f: Field, st: Style): string { if st.names && (st.spaced || f.name != "") then " " + f.name else "" }

  /** What the printed text keeps of a type. */
  function Printed(t: Type, st: Style): (r: Type)
    decreases t, 0
  {
    match t
    case Tuple(fs) => Tuple(PrintedFields(fs, st))
    case Array(e, n) => Array(Printed(e, st), n)
    case Slice(e) => Slice(Printed(e, st))
    case _ => t
  }

  function PrintedFields(fs: seq<Field>, st: Style): (r: seq<Field>)
    ensures |r| == |fs|
    decreases fs, 0
  {
    if fs == [] then []
    else [Field(if st.names then fs[0].name else "", Printed(fs[0].typ, st), fs[0].indexed)] + PrintedFields(fs[1..], st)
  }

  lemma {:induction false} PrintedWithNames(t: Type, st: Style)
    requires st.names
    ensures Printed(t, st) == t
    decreases t, 0
  {
    match t
    case Tuple(fs) => PrintedFieldsWithNames(fs, st);
    case Array(e, _) => PrintedWithNames(e, st);
    case Slice(e) => PrintedWithNames(e, st);
    case _ =>
  }

  lemma {:induction false} PrintedFieldsWithNames(fs: seq<Field>, st: Style)
    requires st.names
    ensures PrintedFields(fs, st) == fs
    decreases fs, 0
  {
    if fs != [] {
      PrintedWithNames(fs[0].typ, st);
      PrintedFieldsWithNames(fs[1..], st);
      assert fs == [fs[0]] + fs[1..];
    }
  }

  lemma {:induction false} PrintedSize(t: Type, st: Style)
    ensures GoSize(Printed(t, st)) == GoSize(t)
  {
    if t.Array? { PrintedSize(t.elem, st); }
  }

  predicate IsWord(w: string)
  {
    w != "" && IsLetter(w[0]) && forall i :: 0 <= i < |w| ==> IsWordChar(w[i])
  }

  /** Types the text can carry: identifiers as names, sizes the number parsers and reflection accept. */
  predicate Printable(t: Type, st: Style)
  {
    match t
    case Tuple(fs) => forall f | f in fs :: Printable(f.typ, st) && (st.names ==> GoodName(f.name))
    case Array(e, n) => n < 0x1_0000_0000 && Addressable(e, n) && Printable(e, st)
    case Slice(e) => Printable(e, st)
    case _ => GoodScalar(t)
  }

  predicate GoodScalar(t: Type)
  {
    (t.UInt? || t.Int? ==> t.bits % 8 == 0 && t.bits < TWO_63) && (t.FixedBytes? ==> 1 <= t.size < TWO_63)
  }

  predicate GoodName(n: string) { n == "" || (IsWord(n) && n != "tuple" && n != "indexed") }

  // ---------------------------------------------------------------- the tokens of a printed type

  function Toks(t: Type, st: Style): (ts: seq<Token>)
    decreases t, 0
  {
    match t
    case Tuple(fs) => (if st.word then [TupleWord, LParen] else [LParen]) + FieldToks(fs, st) + [RParen]
    case Array(e, n) => Toks(e, st) + [LBracket, Num(Decimal.Text(n)), RBracket]
    case Slice(e) => Toks(e, st) + [LBracket, RBracket]
    case _ => [Str(ScalarText(t))]
  }

  function FieldToks(fs: seq<Field>, st: Style): (ts: seq<Token>)
    decreases fs, 0
  {
    if fs == [] then []
    else Toks(fs[0].typ, st) + NameToks(fs[0], st) + (if |fs| == 1 then [] else [Comma] + FieldToks(fs[1..], st))
  }

  function NameToks(f: Field, st: Style): seq<Token>
  {
    IndexedToks(f) + OwnToks(f, st)
  }

  function IndexedToks(f: Field): seq<Token> { if f.indexed then [Indexed] else [] }

  function OwnToks(f: Field, st: Style): seq<Token> { if st.names && f.name != "" then [Str(f.name)] else [] }

  /** Text that cannot lengthen a word or number in front of it. */
  predicate Boundary(u: string) { u == "" || !IsWordChar(u[0]) }

  lemma {:induction false} SpanOf(w: string, u: string, digits: bool)
    requires forall i :: 0 <= i < |w| ==> if digits then Decimal.IsDigit(w[i]) else IsWordChar(w[i])
    requires Boundary(u)
    ensures Span(w + u, digits) == |w|
  {
    if w == [] {
      assert w + u == u;
    } else {
      SpanOf(w[1..], u, digits);
      assert (w + u)[1..] == w[1..] + u;
    }
  }

  lemma LexWord(w: string, u: string)
    requires IsWord(w) && Boundary(u)
    ensures Lex(w + u) == [WordToken(w)] + Lex(u)
  {
    SpanOf(w, u, false);
    assert (w + u)[..|w|] == w && (w + u)[|w|..] == u;
  }

  lemma LexNumber(n: nat, u: string)
    requires Boundary(u)
    ensures Lex(Decimal.Text(n) + u) == [Num(Decimal.Text(n))] + Lex(u)
  {
    var w := Decimal.Text(n);
    SpanOf(w, u, true);
    assert (w + u)[..|w|] == w && (w + u)[|w|..] == u;
  }

  lemma LexMark(c: char, u: string)
    ensures c == ',' ==> Lex([c] + u) == [Comma] + Lex(u)
    ensures c == '(' ==> Lex([c] + u) == [LParen] + Lex(u)
    ensures c == ')' ==> Lex([c] + u) == [RParen] + Lex(u)
    ensures c == '[' ==> Lex([c] + u) == [LBracket] + Lex(u)
    ensures c == ']' ==> Lex([c] + u) == [RBracket] + Lex(u)
    ensures c == ' ' ==> Lex([c] + u) == Lex(u)
  {
    assert ([c] + u)[1..] == u;
  }

  lemma WordWithDigits(w: string, n: nat)
    requires IsWord(w)
    ensures IsWord(w + Decimal.Text(n))
  {
    var d := Decimal.Text(n);
    forall i | 0 <= i < |d| ensures IsWordChar(d[i]) {}
  }

  lemma ScalarTextIsWord(t: Type)
    requires !(t.Tuple? || t.Array? || t.Slice?)
    ensures IsWord(ScalarText(t)) && WordToken(ScalarText(t)) == Str(ScalarText(t))
  {
    hide Decimal.Text, WordToken, IsWord;
    if t.UInt? {
      SizedWord("uint", t.bits);
    } else if t.Int? {
      SizedWord("int", t.bits);
    } else if t.FixedBytes? {
      SizedWord("bytes", t.size);
    } else {
      PlainWord(ScalarText(t));
    }
  }

  lemma SizedWord(w: string, n: nat)
    requires w == "uint" || w == "int" || w == "bytes"
    ensures IsWord(w + Decimal.Text(n)) && WordToken(w + Decimal.Text(n)) == Str(w + Decimal.Text(n))
  {
    hide Decimal.Text;
    WordWithDigits(w, n);
    var lit := w + Decimal.Text(n);
    assert lit[0] == w[0] && lit[2] == w[2];
  }

  lemma PlainWord(w: string)
    requires w == "bytes" || w == "string" || w == "bool" || w == "address" || w == "function"
    ensures IsWord(w) && WordToken(w) == Str(w)
  {
    assert w[0] != 't' && w[0] != 'i';
  }

  /** Lexing printed text gives the type's tokens, whatever follows. */
  lemma {:induction false} LexFormat(t: Type, st: Style, u: string)
    requires Printable(t, st) && Boundary(u)
    ensures Lex(Format(t, st) + u) == Toks(t, st) + Lex(u)
    decreases t, 0
  {
    hide Lex, ScalarText, FormatFields, FieldToks, GoodName;
    match t
    case Tuple(fs) =>
      LexFields(fs, st, ")" + u);
      LexTuple(FormatFields(fs, st), FieldToks(fs, st), st.word, u);
    case Array(e, n) =>
      LexFormat(e, st, "[" + (Decimal.Text(n) + ("]" + u)));
      LexDims(Format(e, st), Toks(e, st), n, u);
    case Slice(e) =>
      LexFormat(e, st, "[" + ("]" + u));
      LexMark('[', "]" + u);
      LexMark(']', u);
      assert Format(t, st) + u == Format(e, st) + ("[" + ("]" + u));
    case _ =>
      ScalarTextIsWord(t);
      LexWord(ScalarText(t), u);
  }

  lemma LexTuple(body: string, ts: seq<Token>, word: bool, u: string)
    requires Lex(body + (")" + u)) == ts + Lex(")" + u)
    ensures Lex((if word then "tuple(" else "(") + body + ")" + u)
         == (if word then [TupleWord, LParen] else [LParen]) + ts + [RParen] + Lex(u)
  {
    hide Lex;
    var b := body + (")" + u);
    LexMark(')', u);
    LexMark('(', b);
    LexWord("tuple", "(" + b);
    assert "tuple(" + body + ")" + u == "tuple" + ("(" + b);
    assert "(" + body + ")" + u == "(" + b;
  }

  lemma LexDims(e: string, ts: seq<Token>, n: nat, u: string)
    requires var d := "[" + (Decimal.Text(n) + ("]" + u)); Lex(e + d) == ts + Lex(d)
    ensures Lex(e + "[" + Decimal.Text(n) + "]" + u) == ts + [LBracket, Num(Decimal.Text(n)), RBracket] + Lex(u)
  {
    hide Lex;
    var d := Decimal.Text(n);
    LexMark('[', d + ("]" + u));
    LexNumber(n, "]" + u);
    LexMark(']', u);
    assert e + "[" + d + "]" + u == e + ("[" + (d + ("]" + u)));
  }

  lemma FieldPrintable(fs: seq<Field>, st: Style)
    requires Printable(Tuple(fs), st) && fs != []
    ensures Printable(fs[0].typ, st) && (st.names ==> GoodName(fs[0].name)) && Printable(Tuple(fs[1..]), st)
  {
    hide GoodName;
  }

  lemma {:induction false} LexFields(fs: seq<Field>, st: Style, u: string)
    requires Printable(Tuple(fs), st) && Boundary(u)
    ensures Lex(FormatFields(fs, st) + u) == FieldToks(fs, st) + Lex(u)
    decreases fs, 0
  {
    hide Lex, Format, Toks, NameText, NameToks, Printable, GoodName, FormatFields, FieldToks;
    if fs == [] {
      NoFields(fs, st);
      assert FormatFields(fs, st) + u == u;
    } else {
      FieldPrintable(fs, st);
      var f, rest := fs[0], FormatFields(fs[1..], st);
      var u' := if |fs| == 1 then u else "," + (rest + u);
      if |fs| > 1 {
        LexFields(fs[1..], st, u);
        LexMark(',', rest + u);
      }
      LexName(f, st, u');
      LexFormat(f.typ, st, NameText(f, st) + u');
      JoinField(fs, st, u);
    }
  }

  lemma NoFields(fs: seq<Field>, st: Style)
    requires fs == []
    ensures FormatFields(fs, st) == "" && FieldToks(fs, st) == []
  {
  }

  lemma JoinField(fs: seq<Field>, st: Style, u: string)
    requires fs != []
    ensures var u' := if |fs| == 1 then u else "," + (FormatFields(fs[1..], st) + u);
            FormatFields(fs, st) + u == Format(fs[0].typ, st) + (NameText(fs[0], st) + u')
    ensures FieldToks(fs, st)
         == Toks(fs[0].typ, st) + (NameToks(fs[0], st) + if |fs| == 1 then [] else [Comma] + FieldToks(fs[1..], st))
  {
    hide *;
    JoinText(fs, st, u);
    JoinToks(fs, st);
  }

  lemma JoinText(fs: seq<Field>, st: Style, u: string)
    requires fs != []
    ensures var u' := if |fs| == 1 then u else "," + (FormatFields(fs[1..], st) + u);
            FormatFields(fs, st) + u == Format(fs[0].typ, st) + (NameText(fs[0], st) + u')
  {
    hide *;
    FieldsText(fs, st);
    if |fs| == 1 {
      AppendThree(Format(fs[0].typ, st), NameText(fs[0], st), u);
    } else {
      JoinComma(Format(fs[0].typ, st), NameText(fs[0], st), ",", FormatFields(fs[1..], st), u);
    }
  }

  lemma FieldsText(fs: seq<Field>, st: Style)
    requires fs != []
    ensures |fs| == 1 ==> FormatFields(fs, st) == Format(fs[0].typ, st) + NameText(fs[0], st)
    ensures |fs| > 1 ==>
      FormatFields(fs, st) == Format(fs[0].typ, st) + NameText(fs[0], st) + ("," + FormatFields(fs[1..], st))
  {
    hide Format, NameText;
  }

  lemma AppendThree(a: string, b: string, c: string)
    ensures a + b + c == a + (b + c)
  {
  }

  lemma JoinComma(a: string, b: string, comma: string, c: string, d: string)
    ensures a + b + (comma + c) + d == a + (b + (comma + (c + d)))
  {
    AppendFour(a, b, comma + c, d);
    AppendThree(comma, c, d);
  }

  lemma JoinToks(fs: seq<Field>, st: Style)
    requires fs != []
    ensures FieldToks(fs, st)
         == Toks(fs[0].typ, st) + (NameToks(fs[0], st) + if |fs| == 1 then [] else [Comma] + FieldToks(fs[1..], st))
  {
    hide Toks, NameToks;
    AppendFour(Toks(fs[0].typ, st), NameToks(fs[0], st), if |fs| == 1 then [] else [Comma] + FieldToks(fs[1..], st), []);
  }

  lemma AppendFour<T>(a: seq<T>, b: seq<T>, c: seq<T>, d: seq<T>)
    ensures a + b + c + d == a + (b + (c + d)) && a + b + c == a + (b + c)
  {
  }

  lemma LexName(f: Field, st: Style, u: string)
    requires (st.names ==> GoodName(f.name)) && Boundary(u)
    ensures Boundary(NameText(f, st) + u)
    ensures Lex(NameText(f, st) + u) == NameToks(f, st) + Lex(u)
  {
    hide Lex, IndexedText, OwnText, IndexedToks, OwnToks, GoodName, Boundary;
    LexOwnName(f, st, u);
    LexIndexed(f, OwnText(f, st) + u);
    assert NameText(f, st) + u == IndexedText(f) + (OwnText(f, st) + u);
  }

  lemma LexOwnName(f: Field, st: Style, u: string)
    requires (st.names ==> GoodName(f.name)) && Boundary(u)
    ensures Boundary(OwnText(f, st) + u)
    ensures Lex(OwnText(f, st) + u) == OwnToks(f, st) + Lex(u)
  {
    hide Lex;
    if st.names && f.name != "" {
      LexWord(f.name, u);
      LexMark(' ', f.name + u);
      assert OwnText(f, st) + u == " " + (f.name + u);
    } else if st.names && st.spaced {
      LexMark(' ', u);
      assert OwnText(f, st) + u == " " + u;
    } else {
      assert OwnText(f, st) + u == u;
    }
  }

  lemma LexIndexed(f: Field, u: string)
    requires Boundary(u)
    ensures Boundary(IndexedText(f) + u)
    ensures Lex(IndexedText(f) + u) == IndexedToks(f) + Lex(u)
  {
    hide Lex;
    if f.indexed {
      LexWord("indexed", u);
      LexMark(' ', "indexed" + u);
      assert IndexedText(f) + u == " " + ("indexed" + u);
    } else {
      assert IndexedText(f) + u == u;
    }
  }

  // ---------------------------------------------------------------- parsing inverts printing

  lemma {:induction false} AlphaSpanOf(w: string, d: string)
    requires forall i :: 0 <= i < |w| ==> IsLetter(w[i]) && w[i] != '_'
    requires d == "" || !IsLetter(d[0])
    ensures AlphaSpan(w + d) == |w|
  {
    if w == [] {
      assert w + d == d;
    } else {
      AlphaSpanOf(w[1..], d);
      assert (w + d)[1..] == w[1..] + d;
    }
  }

  lemma SizedName(w: string, n: nat)
    requires forall i :: 0 <= i < |w| ==> IsLetter(w[i]) && w[i] != '_'
    requires n < TWO_63
    ensures var lit := w + Decimal.Text(n);
            && AlphaSpan(lit) == |w| && lit[..|w|] == w && lit[|w|..] == Decimal.Text(n)
            && Decimal.Parse(Decimal.Text(n), TWO_63) == Ok(n)
  {
    AlphaSpanOf(w, Decimal.Text(n));
    Decimal.NumberOfText(n);
    var lit := w + Decimal.Text(n);
    assert lit[..|w|] == w && lit[|w|..] == Decimal.Text(n);
  }

  lemma PlainName(w: string)
    requires forall i :: 0 <= i < |w| ==> IsLetter(w[i]) && w[i] != '_'
    ensures AlphaSpan(w) == |w| && w[..|w|] == w && w[|w|..] == ""
  {
    AlphaSpanOf(w, "");
    assert w + "" == w;
  }

  lemma SimpleInvertsText(t: Type)
    requires GoodScalar(t) && !(t.Tuple? || t.Array? || t.Slice?)
    ensures SimpleType(ScalarText(t)) == Known(t)
  {
    hide AlphaSpan, Decimal.Text, Decimal.Number, Decimal.Parse, SimpleOf;
    if t.UInt? {
      SizedName("uint", t.bits);
      SizedKnown(t);
    } else if t.Int? {
      SizedName("int", t.bits);
      SizedKnown(t);
    } else if t.FixedBytes? {
      SizedName("bytes", t.size);
      SizedKnown(t);
    } else {
      PlainName(ScalarText(t));
      PlainKnown(t);
    }
  }

  lemma SizedKnown(t: Type)
    requires GoodScalar(t)
    ensures t.UInt? ==> SimpleOf("uint", Decimal.Text(t.bits)) == Known(t)
    ensures t.Int? ==> SimpleOf("int", Decimal.Text(t.bits)) == Known(t)
    ensures t.FixedBytes? ==> SimpleOf("bytes", Decimal.Text(t.size)) == Known(t)
  {
    hide Decimal.Text, Decimal.Number;
    if t.UInt? || t.Int? { Decimal.NumberOfText(t.bits); }
    if t.FixedBytes? { Decimal.NumberOfText(t.size); }
  }

  lemma PlainKnown(t: Type)
    requires t.Bytes? || t.String? || t.Bool? || t.Address? || t.Function?
    ensures SimpleOf(ScalarText(t), "") == Known(t)
  {
    hide Decimal.Text, Decimal.Number;
  }

  lemma ReadTupleHead(ts: seq<Token>)
    ensures ReadType([TupleWord, LParen] + ts) == ReadFields(ts, [])
    ensures ReadType([LParen] + ts) == ReadFields(ts, [])
  {
    hide ReadFields;
    assert ([TupleWord, LParen] + ts)[2..] == ts && ([LParen] + ts)[1..] == ts;
  }

  lemma ReadScalar(lit: string, t: Type, ts: seq<Token>)
    requires SimpleType(lit) == Known(t)
    ensures ReadType([Str(lit)] + ts) == ReadDims(t, ts)
  {
    hide ReadDims, SimpleType;
    assert ([Str(lit)] + ts)[1..] == ts;
  }

  lemma ReadDim(t: Type, n: nat, ts: seq<Token>)
    ensures ReadDims(t, [LBracket, RBracket] + ts) == ReadDims(Slice(t), ts)
    ensures n < 0x1_0000_0000 && Addressable(t, n) ==>
              ReadDims(t, [LBracket, Num(Decimal.Text(n)), RBracket] + ts) == ReadDims(Array(t, n), ts)
  {
    Decimal.NumberOfText(n);
    hide Decimal.Text, Decimal.Number, Addressable;
    assert ([LBracket, RBracket] + ts)[2..] == ts && ([LBracket, Num(Decimal.Text(n)), RBracket] + ts)[3..] == ts;
  }

  lemma ReadField(ts: seq<Token>, t: Type, f: Field, st: Style, after: seq<Token>, done: seq<Field>)
    requires after != [] && (after[0].Comma? || after[0].RParen?)
    requires ReadType(ts) == ReadDims(t, NameToks(f, st) + after)
    ensures var g := Field(if st.names then f.name else "", t, f.indexed);
            ReadFields(ts, done)
            == if after[0].Comma? then ReadFields(after[1..], done + [g]) else ReadDims(Tuple(done + [g]), after[1..])
  {
    hide ReadType, NameToks;
    ReadPrintedName(f, st, after);
  }

  /** The parser, given a printed type and anything after it, is left with that type and the array suffixes. */
  lemma {:induction false} ReadPrinted(t: Type, st: Style, rest: seq<Token>)
    requires Printable(t, st)
    ensures ReadType(Toks(t, st) + rest) == ReadDims(Printed(t, st), rest)
    decreases t, 0
  {
    hide ReadType, ReadDims, ReadFields, FieldToks, PrintedFields, ScalarText, GoodName, Decimal.Text;
    match t
    case Tuple(fs) =>
      ReadPrintedFields(fs, st, [], rest);
      ReadTupleHead(FieldToks(fs, st) + ([RParen] + rest));
      assert [] + PrintedFields(fs, st) == PrintedFields(fs, st);
      assert Toks(t, st) + rest
          == (if st.word then [TupleWord, LParen] else [LParen]) + (FieldToks(fs, st) + ([RParen] + rest));
    case Array(e, n) =>
      var dims := [LBracket, Num(Decimal.Text(n)), RBracket];
      ReadPrinted(e, st, dims + rest);
      PrintedSize(e, st);
      ReadDim(Printed(e, st), n, rest);
      assert Toks(t, st) + rest == Toks(e, st) + (dims + rest);
    case Slice(e) =>
      ReadPrinted(e, st, [LBracket, RBracket] + rest);
      ReadDim(Printed(e, st), 0, rest);
      assert Toks(t, st) + rest == Toks(e, st) + ([LBracket, RBracket] + rest);
    case _ =>
      SimpleInvertsText(t);
      ReadScalar(ScalarText(t), t, rest);
  }

  lemma {:induction false} ReadPrintedFields(fs: seq<Field>, st: Style, done: seq<Field>, rest: seq<Token>)
    requires Printable(Tuple(fs), st) && (fs != [] || done == [])
    ensures ReadFields(FieldToks(fs, st) + ([RParen] + rest), done)
         == ReadDims(Tuple(done + PrintedFields(fs, st)), rest)
    decreases fs, 0
  {
    hide ReadType, ReadDims, ReadFields, FieldToks, Toks, NameToks, Printed, PrintedFields, Printable, GoodName;
    var close := [RParen] + rest;
    if fs == [] {
      NoFields(fs, st);
      ReadEmpty(rest);
      assert FieldToks(fs, st) + close == close;
      assert done + PrintedFields(fs, st) == [];
    } else {
      FieldPrintable(fs, st);
      var f := fs[0];
      var after := Following(fs, st, close);
      Regroup(fs, st, done, close);
      ReadPrinted(f.typ, st, NameToks(f, st) + after);
      ReadField(FieldToks(fs, st) + close, Printed(f.typ, st), f, st, after, done);
      if |fs| > 1 {
        ReadPrintedFields(fs[1..], st, done + [PrintedField(f, st)], rest);
      }
    }
  }

  function PrintedField(f: Field, st: Style): Field
  {
    Field(if st.names then f.name else "", Printed(f.typ, st), f.indexed)
  }

  /** The tokens after the first component, up to and including the closing ones. */
  function Following(fs: seq<Field>, st: Style, close: seq<Token>): seq<Token>
    requires fs != []
  {
    if |fs| == 1 then close else [Comma] + (FieldToks(fs[1..], st) + close)
  }

  lemma Regroup(fs: seq<Field>, st: Style, done: seq<Field>, close: seq<Token>)
    requires fs != []
    ensures FieldToks(fs, st) + close
         == Toks(fs[0].typ, st) + (NameToks(fs[0], st) + Following(fs, st, close))
    ensures |fs| > 1 ==> Following(fs, st, close)[1..] == FieldToks(fs[1..], st) + close
    ensures done + [PrintedField(fs[0], st)] + PrintedFields(fs[1..], st) == done + PrintedFields(fs, st)
    ensures |fs| == 1 ==> done + [PrintedField(fs[0], st)] == done + PrintedFields(fs, st)
  {
    hide Toks, NameToks, Printed, FieldToks, PrintedFields, PrintedField;
    RegroupText(fs, st, close);
    RegroupPrinted(fs, st);
    AppendFour(done, [PrintedField(fs[0], st)], PrintedFields(fs[1..], st), []);
  }

  lemma RegroupText(fs: seq<Field>, st: Style, close: seq<Token>)
    requires fs != []
    ensures FieldToks(fs, st) + close
         == Toks(fs[0].typ, st) + (NameToks(fs[0], st) + Following(fs, st, close))
  {
    hide Toks, NameToks, FieldToks;
    var a, b := Toks(fs[0].typ, st), NameToks(fs[0], st);
    JoinToks(fs, st);
    if |fs| == 1 {
      RegroupTokens(a, b, [], [], close);
    } else {
      RegroupTokens(a, b, [Comma], FieldToks(fs[1..], st), close);
    }
  }

  lemma RegroupPrinted(fs: seq<Field>, st: Style)
    requires fs != []
    ensures PrintedFields(fs, st) == [PrintedField(fs[0], st)] + PrintedFields(fs[1..], st)
    ensures |fs| == 1 ==> PrintedFields(fs, st) == [PrintedField(fs[0], st)]
  {
    hide Printed;
  }

  lemma RegroupTokens(a: seq<Token>, b: seq<Token>, c: seq<Token>, d: seq<Token>, e: seq<Token>)
    ensures (a + (b + (c + d))) + e == a + (b + (c + (d + e)))
    ensures (a + (b + [])) + e == a + (b + e)
  {
  }

  lemma ReadEmpty(rest: seq<Token>)
    ensures ReadFields([RParen] + rest, []) == ReadDims(Tuple([]), rest)
  {
    hide ReadDims;
    assert ([RParen] + rest)[1..] == rest;
  }

  lemma ReadPrintedName(f: Field, st: Style, after: seq<Token>)
    requires after != [] && (after[0].Comma? || after[0].RParen?)
    ensures ReadName(NameToks(f, st) + after) == (if st.names then f.name else "", f.indexed, after)
    ensures var ts := NameToks(f, st) + after; !ts[0].LBracket?
  {
    var ts := NameToks(f, st) + after;
    assert ts[|NameToks(f, st)|..] == after;
  }

  /** Parsing the printed text rebuilds the type: with names, exactly; without, up to the names. */
  lemma ParseInvertsPrint(t: Type, st: Style)
    requires Printable(t, st)
    ensures NewType(Format(t, st)) == Parsed(Printed(t, st), [])
    ensures st.names ==> Printed(t, st) == t
  {
    hide Lex, Format, Toks, ReadType, Printed, Printable;
    LexFormat(t, st, "");
    assert Format(t, st) + "" == Format(t, st);
    assert Lex("") == [] by { LexNothing(); }
    ReadPrinted(t, st, []);
    assert Toks(t, st) + [] == Toks(t, st);
    if st.names { PrintedWithNames(t, st); }
  }

  lemma LexNothing()
    ensures Lex("") == []
  {
  }
}

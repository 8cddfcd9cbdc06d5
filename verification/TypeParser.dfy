/** The lexer object and the recursive reader that works on it, refining the functions of TypeText. */
module TypeParser {
  import opened Words
  import opened AbiType
  import opened TypeText
  import Decimal

  class Lexer {
    const input: string
    var current: Token
    var peek: Token
    var position: nat
    var readPosition: nat
    var ch: char

    ghost predicate Valid()
      reads this
    {
      readPosition == position + 1 && ch == if position < |input| then input[position] else '\0'
    }

    /** The text still to be lexed, and the tokens still to be parsed. */
    ghost function Rest(): string
      reads this
    {
      From(input, position)
    }

    ghost function Remaining(): seq<Token>
      reads this
    {
      if peek.Eof? then [] else [peek] + Lex(Rest())
    }

    constructor (s: string)
      ensures Valid() && input == s && Rest() == s && peek == Eof
    {
      input := s;
      current, peek := Eof, Eof;
      position, readPosition := 0, 1;
      ch := if 0 < |s| then s[0] else '\0';
    }

    method ReadChar()
      requires Valid()
      modifies this
      ensures Valid() && current == old(current) && peek == old(peek) && position == old(position) + 1
    {
      if readPosition >= |input| { ch := '\0'; } else { ch := input[readPosition]; }
      position := readPosition;
      readPosition := readPosition + 1;
    }

    method NextToken() returns (tok: Token)
      requires Valid()
      modifies this
      ensures Valid() && tok == current == old(peek)
      ensures old(Remaining()) != [] ==> current == old(Remaining())[0] && Remaining() == old(Remaining())[1..]
      ensures old(Remaining()) == [] ==> current == Eof
      ensures old(peek) == Eof ==> Remaining() == Lex(old(Rest()))
    {
      current := peek;
      peek := NextTokenImpl();
      tok := current;
    }

    method NextTokenImpl() returns (tok: Token)
      requires Valid()
      modifies this
      ensures Valid() && current == old(current) && peek == old(peek)
      ensures (tok, Rest()) == LexOne(old(Rest()))
    {
      hide LexOne, From, Span, IsLetter, Decimal.IsDigit, WordToken;
      LexStep(input, position);
      while ch == ' ' || ch == '\t' || ch == '\n' || ch == '\r'
        invariant Valid() && current == old(current) && peek == old(peek)
        invariant LexOne(From(input, position)) == LexOne(old(From(input, position)))
        decreases |input| - position
      {
        LexStep(input, position);
        ReadChar();
      }
      LexStep(input, position);
      if ch == ',' {
        tok := Comma;
      } else if ch == '(' {
        tok := LParen;
      } else if ch == ')' {
        tok := RParen;
      } else if ch == '[' {
        tok := LBracket;
      } else if ch == ']' {
        tok := RBracket;
      } else if ch == '\0' {
        tok := Eof;
      } else if IsLetter(ch) {
        var w := ReadRun(false);
        tok := WordToken(w);
        return;
      } else if Decimal.IsDigit(ch) {
        var w := ReadRun(true);
        return Num(w);
      } else {
        tok := Invalid;
      }
      ReadChar();
    }

    /** readIdentifier and readNumber. */
    method ReadRun(digits: bool) returns (w: string)
      requires Valid()
      modifies this
      ensures Valid() && current == old(current) && peek == old(peek)
      ensures var n := Span(old(Rest()), digits); w == old(Rest())[..n] && Rest() == old(Rest())[n..]
    {
      hide Span, IsWordChar, Decimal.IsDigit, From;
      var start := position;
      RunStep(input, start, digits);
      while InRun(ch, digits)
        invariant Valid() && current == old(current) && peek == old(peek)
        invariant start <= position && (position == start || position <= |input|)
        invariant Span(From(input, start), digits) == position - start + Span(From(input, position), digits)
        decreases |input| - position
      {
        RunStep(input, position, digits);
        ReadChar();
      }
      RunStep(input, position, digits);
      Cut(input, start, position);
      w := if start <= |input| then input[start..position] else "";
    }
  }

  ghost function From(s: string, at: nat): string { if at <= |s| then s[at..] else "" }

  predicate InRun(c: char, digits: bool) { if digits then Decimal.IsDigit(c) else IsWordChar(c) }

  lemma RunStep(s: string, at: nat, digits: bool)
    ensures at < |s| && InRun(s[at], digits) ==> Span(From(s, at), digits) == 1 + Span(From(s, at + 1), digits)
    ensures at < |s| && !InRun(s[at], digits) ==> Span(From(s, at), digits) == 0
    ensures at >= |s| ==> Span(From(s, at), digits) == 0
    ensures !InRun('\0', digits)
  {
    assert at < |s| ==> s[at..][1..] == s[at + 1..];
  }

  /** The lexer's view of the text at a position. */
  lemma LexStep(s: string, at: nat)
    ensures at >= |s| ==> LexOne(From(s, at)) == (Eof, From(s, at + 1))
    ensures at < |s| ==>
      var rest, next := From(s, at), From(s, at + 1);
      LexOne(rest)
      == if IsSpace(s[at]) then LexOne(next)
         else if s[at] == ',' then (Comma, next)
         else if s[at] == '(' then (LParen, next)
         else if s[at] == ')' then (RParen, next)
         else if s[at] == '[' then (LBracket, next)
         else if s[at] == ']' then (RBracket, next)
         else if s[at] == '\0' then (Eof, next)
         else if IsLetter(s[at]) then (WordToken(rest[..Span(rest, false)]), rest[Span(rest, false)..])
         else if Decimal.IsDigit(s[at]) then (Num(rest[..Span(rest, true)]), rest[Span(rest, true)..])
         else (Invalid, next)
  {
    hide Span, IsLetter, Decimal.IsDigit, WordToken;
    assert at < |s| ==> s[at..][1..] == s[at + 1..] && s[at..][0] == s[at];
  }

  lemma Cut(s: string, start: nat, at: nat)
    requires start <= at && (at == start || at <= |s|)
    ensures at - start <= |From(s, start)| && From(s, start)[at - start..] == From(s, at)
    ensures From(s, start)[..at - start] == if start <= |s| && at <= |s| then s[start..at] else ""
  {
  }

  datatype Outcome = Good(typ: Type) | Bad | Panic

  /** The reader's result and the lexer's state agree with a parse of the token stream. */
  ghost predicate Agrees(r: Outcome, l: Lexer, p: Parse)
    reads l
  {
    match p
    case Parsed(t, rest) => r == Good(t) && l.Remaining() == rest
    case Failed(c, rest) => r == Bad && l.current == c && (!c.Eof? ==> l.Remaining() == rest)
    case Panicked => r == Panic
  }

  method ReadTypeFrom(l: Lexer) returns (r: Outcome)
    requires l.Valid()
    modifies l
    ensures l.Valid() && Agrees(r, l, ReadType(old(l.Remaining())))
    decreases |l.Remaining()|, 1
  {
    hide Lex, ReadFields, ReadDims, ReadType, SimpleType, From;
    TypeStep(l.Remaining());
    var tok := l.NextToken();
    var isTuple := false;
    if tok == TupleWord {
      var next := l.NextToken();
      if next != LParen { return Bad; }
      isTuple := true;
    } else if tok == LParen {
      isTuple := true;
    }
    if isTuple {
      r := ReadTupleFrom(l);
    } else if !tok.Str? {
      return Bad;
    } else {
      var simple := SimpleType(tok.s);
      if simple.Unknown? { return Bad; }
      if simple.BadWidth? { return Panic; }
      r := ReadDimsFrom(l, simple.typ);
    }
  }

  /** A type, token by token. */
  lemma TypeStep(ts: seq<Token>)
    ensures ts == [] ==> ReadType(ts) == Failed(Eof, [])
    ensures ts != [] ==>
      var us := ts[1..];
      ReadType(ts)
      == if ts[0].TupleWord? then
           if us == [] then Failed(Eof, [])
           else if us[0].LParen? then ReadFields(us[1..], [])
           else Failed(us[0], us[1..])
         else if ts[0].LParen? then ReadFields(us, [])
         else if ts[0].Str? then
           match SimpleType(ts[0].s)
           case Known(t) => ReadDims(t, us)
           case Unknown => Failed(ts[0], us)
           case BadWidth => Panicked
         else Failed(ts[0], us)
  {
    hide ReadFields, ReadDims, SimpleType;
    if |ts| > 1 { assert ts[1..][1..] == ts[2..]; }
  }

  /** The component loop and, once it ends, the array suffixes of the tuple. */
  method ReadTupleFrom(l: Lexer) returns (r: Outcome)
    requires l.Valid()
    modifies l
    ensures l.Valid() && Agrees(r, l, ReadFields(old(l.Remaining()), []))
    decreases |l.Remaining()|, 2
  {
    hide Lex, ReadDims, ReadName, ReadType;
    var elems: seq<Field> := [];
    while true
      invariant l.Valid() && |l.Remaining()| <= |old(l.Remaining())|
      invariant ReadFields(l.Remaining(), elems) == ReadFields(old(l.Remaining()), [])
      decreases |l.Remaining()|
    {
      var elem := ReadTypeFrom(l);
      if elem.Panic? { return Panic; }
      if elem.Bad? {
        if l.current == RParen && elems == [] { break; }
        return Bad;
      }
      var name, indexed := ReadNameFrom(l);
      elems := elems + [Field(name, elem.typ, indexed)];
      var next := l.NextToken();
      if next == RParen { break; }
      if next != Comma { return Bad; }
    }
    r := ReadDimsFrom(l, Tuple(elems));
  }

  method ReadNameFrom(l: Lexer) returns (name: string, indexed: bool)
    requires l.Valid()
    modifies l
    ensures l.Valid() && (name, indexed, l.Remaining()) == ReadName(old(l.Remaining()))
  {
    hide Lex;
    name, indexed := "", false;
    if l.peek.Str? {
      var tok := l.NextToken();
      name := tok.s;
    } else if l.peek.Indexed? {
      var _ := l.NextToken();
      indexed := true;
      if l.peek.Str? {
        var tok := l.NextToken();
        name := tok.s;
      }
    }
  }

  method ReadDimsFrom(l: Lexer, base: Type) returns (r: Outcome)
    requires l.Valid()
    modifies l
    ensures l.Valid() && Agrees(r, l, ReadDims(base, old(l.Remaining())))
  {
    hide Lex, ReadDims, From, Decimal.Parse, Addressable;
    var tt := base;
    DimsStep(tt, l.Remaining());
    while l.peek == LBracket
      invariant l.Valid() && ReadDims(tt, l.Remaining()) == ReadDims(base, old(l.Remaining()))
      decreases |l.Remaining()|
    {
      DimsStep(tt, l.Remaining());
      var _ := l.NextToken();
      var n := l.NextToken();
      if n == RBracket {
        tt := Slice(tt);
      } else if n.Num? {
        var size := Decimal.Parse(n.s, 0x1_0000_0000);
        if size.Err? { return Bad; }
        if !Addressable(tt, size.value) { return Panic; }
        tt := Array(tt, size.value);
        var close := l.NextToken();
        if close != RBracket { return Bad; }
      } else {
        return Bad;
      }
    }
    DimsStep(tt, l.Remaining());
    return Good(tt);
  }

  /** Array suffixes, token by token. */
  lemma DimsStep(t: Type, ts: seq<Token>)
    ensures ts == [] || !ts[0].LBracket? ==> ReadDims(t, ts) == Parsed(t, ts)
    ensures ts != [] && ts[0].LBracket? ==>
      var us := ts[1..];
      ReadDims(t, ts)
      == if us == [] then Failed(Eof, [])
         else if us[0].RBracket? then ReadDims(Slice(t), us[1..])
         else if us[0].Num? then
           match Decimal.Parse(us[0].s, 0x1_0000_0000)
           case Err => Failed(us[0], us[1..])
           case Ok(n) =>
             var vs := us[1..];
             if !Addressable(t, n) then Panicked
             else if vs == [] then Failed(Eof, [])
             else if vs[0].RBracket? then ReadDims(Array(t, n), vs[1..])
             else Failed(vs[0], vs[1..])
         else Failed(us[0], us[1..])
  {
    hide Decimal.Parse, Addressable;
    if |ts| > 1 {
      assert ts[1..][1..] == ts[2..];
      if |ts| > 2 { assert ts[2..][1..] == ts[3..]; }
    }
  }

  /** NewType: a fresh lexer, one token of look-ahead, and the reader; trailing tokens are ignored. */
  method ParseType(s: string) returns (r: Outcome)
    ensures match NewType(s) case Parsed(t, _) => r == Good(t) case Failed(_, _) => r == Bad case Panicked => r == Panic
  {
    hide Lex, ReadType;
    var l := new Lexer(s);
    var _ := l.NextToken();
    r := ReadTypeFrom(l);
  }
}

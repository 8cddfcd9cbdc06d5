/** Method signatures and JSON argument trees: two more ways in and out of the type parser. */
module TypeSignature {
  import opened Words
  import opened AbiType
  import opened TypeText
  import Decimal

  // ---------------------------------------------------------------- signatures

  /** strings.Replace(s, "tuple", "", -1). */
  function StripTuple(s: string): string
    decreases |s|
  {
    if |s| >= 5 && s[..5] == "tuple" then StripTuple(s[5..])
    else if s == "" then ""
    else [s[0]] + StripTuple(s[1..])
  }

  const BARE := Style(false, false, false)

  function Signature(name: string, fs: seq<Field>): string
  {
    name + "(" + TypeList(fs) + ")"
  }

  function TypeList(fs: seq<Field>): string
  {
    if fs == [] then ""
    else StripTuple(Format(fs[0].typ, TYPES)) + (if |fs| == 1 then "" else "," + TypeList(fs[1..]))
  }

  /** No `t` of the text can begin the word `tuple`, whatever follows. */
  predicate Quiet(a: string)
  {
    forall i :: 0 <= i < |a| && a[i] == 't' ==> i + 1 < |a| && a[i + 1] != 'u'
  }

  lemma {:induction false} StripQuiet(a: string, u: string)
    requires Quiet(a)
    ensures StripTuple(a + u) == a + StripTuple(u)
  {
    hide StripTuple;
    if a == "" {
      assert a + u == u;
    } else {
      assert (a + u)[1..] == a[1..] + u;
      assert a[0] == 't' ==> (a + u)[1] == a[1] != 'u';
      assert forall i :: 0 <= i < |a[1..]| ==> a[1..][i] == a[i + 1];
      StripQuiet(a[1..], u);
      StripOther(a + u);
      assert [a[0]] + (a[1..] + StripTuple(u)) == a + StripTuple(u);
    }
  }

  lemma StripOther(s: string)
    requires s != "" && (s[0] == 't' ==> |s| > 1 && s[1] != 'u')
    ensures StripTuple(s) == [s[0]] + StripTuple(s[1..])
  {
    if |s| >= 5 { assert s[..5][0] == s[0] && s[..5][1] == s[1]; }
  }

  lemma QuietDigits(n: nat)
    ensures Quiet(Decimal.Text(n)) && forall i :: 0 <= i < |Decimal.Text(n)| ==> Decimal.Text(n)[i] != 't'
  {
    var d := Decimal.Text(n);
    forall i | 0 <= i < |d| ensures d[i] != 't' { assert Decimal.IsDigit(d[i]); }
  }

  lemma QuietSized(w: string, n: nat)
    requires forall i :: 0 <= i < |w| && w[i] == 't' ==> i + 1 < |w| ==> w[i + 1] != 'u'
    ensures Quiet(w + Decimal.Text(n))
  {
    QuietDigits(n);
    assert Decimal.IsDigit(Decimal.Text(n)[0]);
  }

  lemma QuietScalar(t: Type)
    requires !(t.Tuple? || t.Array? || t.Slice?)
    ensures Quiet(ScalarText(t))
  {
    if t.UInt? {
      QuietSized("uint", t.bits);
    } else if t.Int? {
      QuietSized("int", t.bits);
    } else if t.FixedBytes? {
      QuietSized("bytes", t.size);
    }
  }

  /** Stripping the word `tuple` from a printed type leaves the bare form. */
  lemma {:induction false} StripFormat(t: Type, u: string)
    ensures StripTuple(Format(t, TYPES) + u) == Format(t, BARE) + StripTuple(u)
    decreases t, 0
  {
    hide StripTuple, ScalarText, FormatFields;
    match t
    case Tuple(fs) =>
      StripFields(fs, ")" + u);
      StripParens(FormatFields(fs, TYPES), FormatFields(fs, BARE), u);
    case Array(e, n) =>
      StripFormat(e, "[" + (Decimal.Text(n) + ("]" + u)));
      StripDims(Format(e, TYPES), Format(e, BARE), n, u);
    case Slice(e) =>
      StripFormat(e, "[]" + u);
      StripQuiet("[]", u);
      assert Format(t, TYPES) + u == Format(e, TYPES) + ("[]" + u);
    case _ =>
      QuietScalar(t);
      StripQuiet(ScalarText(t), u);
  }

  lemma StripParens(body: string, bare: string, u: string)
    requires StripTuple(body + (")" + u)) == bare + StripTuple(")" + u)
    ensures StripTuple("tuple(" + body + ")" + u) == "(" + bare + ")" + StripTuple(u)
  {
    hide StripTuple;
    StripQuiet(")", u);
    StripQuiet("(", body + (")" + u));
    StripWord("(" + (body + (")" + u)));
    assert "tuple(" + body + ")" + u == "tuple" + ("(" + (body + (")" + u)));
  }

  lemma StripDims(e: string, bare: string, n: nat, u: string)
    requires var d := "[" + (Decimal.Text(n) + ("]" + u)); StripTuple(e + d) == bare + StripTuple(d)
    ensures StripTuple(e + "[" + Decimal.Text(n) + "]" + u) == bare + "[" + Decimal.Text(n) + "]" + StripTuple(u)
  {
    hide StripTuple;
    var d := Decimal.Text(n);
    QuietDigits(n);
    StripQuiet("]", u);
    StripQuiet(d, "]" + u);
    StripQuiet("[", d + ("]" + u));
    assert e + "[" + d + "]" + u == e + ("[" + (d + ("]" + u)));
  }

  lemma StripWord(u: string)
    ensures StripTuple("tuple" + u) == StripTuple(u)
  {
    assert ("tuple" + u)[..5] == "tuple" && ("tuple" + u)[5..] == u;
  }

  lemma {:induction false} StripFields(fs: seq<Field>, u: string)
    ensures StripTuple(FormatFields(fs, TYPES) + u) == FormatFields(fs, BARE) + StripTuple(u)
    decreases fs, 0
  {
    hide StripTuple, Format, FormatFields, IndexedText, NameText, Quiet, FieldToks, Toks, NameToks;
    if fs == [] {
      NoFields(fs, TYPES);
      NoFields(fs, BARE);
      assert "" + u == u;
    } else {
      var f, rest := fs[0], FormatFields(fs[1..], TYPES);
      var u' := if |fs| == 1 then u else "," + (rest + u);
      if |fs| > 1 {
        StripFields(fs[1..], u);
        assert Quiet(",") by { QuietComma(); }
        StripQuiet(",", rest + u);
      }
      NameIsIndexed(f);
      StripQuiet(IndexedText(f), u');
      StripFormat(f.typ, IndexedText(f) + u');
      JoinField(fs, TYPES, u);
      JoinField(fs, BARE, StripTuple(u));
    }
  }

  lemma QuietComma()
    ensures Quiet(",")
  {
  }

  lemma NameIsIndexed(f: Field)
    ensures NameText(f, TYPES) == IndexedText(f) == NameText(f, BARE) && Quiet(IndexedText(f))
  {
    assert IndexedText(f) + "" == IndexedText(f);
  }

  /** The components a signature shows: their types only. */
  function Shown(fs: seq<Field>): (r: seq<Field>)
    ensures |r| == |fs|
    ensures forall i :: 0 <= i < |fs| ==> r[i] == Field("", fs[i].typ, false)
  {
    if fs == [] then [] else [Field("", fs[0].typ, false)] + Shown(fs[1..])
  }

  lemma {:induction false} TypeListIsBare(fs: seq<Field>)
    ensures TypeList(fs) == FormatFields(Shown(fs), BARE)
  {
    hide Format;
    if fs != [] {
      TypeListIsBare(fs[1..]);
      assert Shown(fs)[1..] == Shown(fs[1..]);
      StripFormat(fs[0].typ, "");
      assert Format(fs[0].typ, TYPES) + "" == Format(fs[0].typ, TYPES) && StripTuple("") == "";
      assert Format(fs[0].typ, BARE) + "" == Format(fs[0].typ, BARE);
      assert NameText(Shown(fs)[0], BARE) == "";
    }
  }

  lemma SignatureIsBare(name: string, fs: seq<Field>)
    ensures var sig, text := Signature(name, fs), Format(Tuple(Shown(fs)), BARE);
            sig == name + text && sig[..|name|] == name && sig[|name|..] == text
  {
    hide TypeList, FormatFields;
    TypeListIsBare(fs);
    assert Signature(name, fs) == name + Format(Tuple(Shown(fs)), BARE);
  }

  /** The parenthesised part of a signature parses to the inputs' types, without names. */
  lemma SignatureParses(name: string, fs: seq<Field>)
    requires Printable(Tuple(Shown(fs)), BARE)
    ensures var sig := Signature(name, fs);
            |name| <= |sig| && sig[..|name|] == name && NewType(sig[|name|..]) == Parsed(Printed(Tuple(Shown(fs)), BARE), [])
  {
    hide *;
    SignatureIsBare(name, fs);
    ParseInvertsPrint(Tuple(Shown(fs)), BARE);
  }

  /** Methods of one name share a signature exactly when their input types agree up to component names. */
  lemma SignatureIdentifiesTypes(name: string, fs: seq<Field>, gs: seq<Field>)
    requires Printable(Tuple(Shown(fs)), BARE) && Printable(Tuple(Shown(gs)), BARE)
    ensures Signature(name, fs) == Signature(name, gs) <==> Printed(Tuple(Shown(fs)), BARE) == Printed(Tuple(Shown(gs)), BARE)
  {
    hide *;
    SignatureParses(name, fs);
    SignatureParses(name, gs);
    SignatureIsBare(name, fs);
    SignatureIsBare(name, gs);
    FormatOfPrinted(Tuple(Shown(fs)));
    FormatOfPrinted(Tuple(Shown(gs)));
  }

  lemma {:induction false} FormatOfPrinted(t: Type)
    ensures Format(Printed(t, BARE), BARE) == Format(t, BARE)
    decreases t, 0
  {
    match t
    case Tuple(fs) => FieldsOfPrinted(fs);
    case Array(e, _) => FormatOfPrinted(e);
    case Slice(e) => FormatOfPrinted(e);
    case _ =>
  }

  lemma {:induction false} FieldsOfPrinted(fs: seq<Field>)
    ensures FormatFields(PrintedFields(fs, BARE), BARE) == FormatFields(fs, BARE)
    decreases fs, 0
  {
    hide Format, Printed;
    if fs != [] {
      FormatOfPrinted(fs[0].typ);
      FieldsOfPrinted(fs[1..]);
      assert PrintedFields(fs, BARE)[1..] == PrintedFields(fs[1..], BARE);
    }
  }

  // ---------------------------------------------------------------- JSON arguments

  datatype Arg = Arg(name: string, typ: string, indexed: bool, components: seq<Arg>)

  const JSON := Style(true, true, true)

  predicate StartsWithTuple(s: string) { |s| >= 5 && s[..5] == "tuple" }

  /** parseType. */
  function ArgText(a: Arg): string
    decreases a, 0
  {
    if !StartsWithTuple(a.typ) then a.typ
    else if a.components == [] then "tuple()"
    else "tuple(" + ComponentsText(a.components) + ")" + a.typ[5..]
  }

  function ComponentsText(cs: seq<Arg>): string
    decreases cs, 0
  {
    if cs == [] then ""
    else ArgText(cs[0]) + (if cs[0].indexed then " indexed " else " ") + cs[0].name
         + (if |cs| == 1 then "" else "," + ComponentsText(cs[1..]))
  }

  /** fillIn: below the array suffixes the components must line up with a tuple. */
  predicate FillsIn(t: Type, a: Arg)
    decreases a, 0
  {
    a.components != [] ==>
      Base(t).Tuple? && |a.components| == |Base(t).fields| && FillsInAll(Base(t).fields, a.components)
  }

  predicate FillsInAll(fs: seq<Field>, cs: seq<Arg>)
    requires |fs| == |cs|
    decreases cs, 0
  {
    cs != [] ==> FillsIn(fs[0].typ, cs[0]) && FillsInAll(fs[1..], cs[1..])
  }

  function Base(t: Type): (b: Type)
    ensures !(b.Array? || b.Slice?)
  {
    match t case Array(e, _) => Base(e) case Slice(e) => Base(e) case _ => t
  }

  function DimsText(t: Type): string
  {
    match t
    case Array(e, n) => DimsText(e) + "[" + Decimal.Text(n) + "]"
    case Slice(e) => DimsText(e) + "[]"
    case _ => ""
  }

  /** NewTypeFromArgument. */
  function TypeFromArgument(a: Arg): Result<Type>
  {
    match NewType(ArgText(a))
    case Parsed(t, _) => if FillsIn(t, a) then Ok(t) else Err
    case _ => Err
  }

  /** The JSON tree describes the type: scalar types by their text, tuples, which may be empty, by components and
      array suffix. */
  predicate Describes(a: Arg, t: Type)
    decreases a, 0
  {
    var b := Base(t);
    if b.Tuple? then
      && a.typ == "tuple" + DimsText(t)
      && |a.components| == |b.fields| && DescribeAll(a.components, b.fields)
    else
      a.typ == ScalarText(b) + DimsText(t) && a.components == []
  }

  predicate DescribeAll(cs: seq<Arg>, fs: seq<Field>)
    requires |cs| == |fs|
    decreases cs, 0
  {
    cs != [] ==>
      && Describes(cs[0], fs[0].typ) && cs[0].name == fs[0].name && cs[0].indexed == fs[0].indexed
      && DescribeAll(cs[1..], fs[1..])
  }

  lemma {:induction false} FormatSplits(t: Type, st: Style)
    ensures Format(t, st) == Format(Base(t), st) + DimsText(t)
  {
    hide ScalarText, FormatFields, Decimal.Text;
    match t
    case Array(e, n) =>
      FormatSplits(e, st);
      Suffixed(Format(Base(e), st), DimsText(e), "[", Decimal.Text(n), "]");
    case Slice(e) =>
      FormatSplits(e, st);
      AppendThree(Format(Base(e), st), DimsText(e), "[]");
    case _ =>
  }

  lemma Suffixed(a: string, b: string, c: string, d: string, e: string)
    ensures a + b + c + d + e == a + (b + c + d + e)
  {
  }

  /** The type without the array suffixes over an empty tuple. */
  function Dropped(t: Type): (r: Type)
    decreases t, 0
  {
    if Base(t) == Tuple([]) then Tuple([])
    else match t
      case Array(e, n) => Array(Dropped(e), n)
      case Slice(e) => Slice(Dropped(e))
      case Tuple(fs) => Tuple(DroppedFields(fs))
      case _ => t
  }

  function DroppedFields(fs: seq<Field>): (r: seq<Field>)
    ensures |r| == |fs|
    decreases fs, 0
  {
    if fs == [] then []
    else [Field(fs[0].name, Dropped(fs[0].typ), fs[0].indexed)] + DroppedFields(fs[1..])
  }

  /** No array or slice in the type has the empty tuple as its base. */
  predicate NoEmptyBase(t: Type)
    decreases t, 0
  {
    match t
    case Array(e, _) => Base(e) != Tuple([]) && NoEmptyBase(e)
    case Slice(e) => Base(e) != Tuple([]) && NoEmptyBase(e)
    case Tuple(fs) => NoEmptyBases(fs)
    case _ => true
  }

  predicate NoEmptyBases(fs: seq<Field>)
    decreases fs, 0
  {
    fs != [] ==> NoEmptyBase(fs[0].typ) && NoEmptyBases(fs[1..])
  }

  lemma {:induction false} DroppedIff(t: Type)
    ensures Dropped(t) == t <==> NoEmptyBase(t)
    decreases t, 0
  {
    match t
    case Array(e, _) => DroppedIff(e);
    case Slice(e) => DroppedIff(e);
    case Tuple(fs) => DroppedFieldsIff(fs);
    case _ =>
  }

  lemma {:induction false} DroppedFieldsIff(fs: seq<Field>)
    ensures DroppedFields(fs) == fs <==> NoEmptyBases(fs)
    decreases fs, 0
  {
    hide Dropped, NoEmptyBase;
    if fs != [] {
      DroppedIff(fs[0].typ);
      DroppedFieldsIff(fs[1..]);
      assert fs == [fs[0]] + fs[1..];
      assert DroppedFields(fs)[1..] == DroppedFields(fs[1..]);
    }
  }

  /** Dropping leaves the base, and the suffixes over any other one. */
  lemma {:induction false} DroppedBase(t: Type)
    ensures Base(Dropped(t)) == Dropped(Base(t))
    ensures Base(t) != Tuple([]) ==> DimsText(Dropped(t)) == DimsText(t) && GoSize(Dropped(t)) == GoSize(t)
  {
    match t
    case Array(e, _) => DroppedBase(e);
    case Slice(e) => DroppedBase(e);
    case _ =>
  }

  lemma {:induction false} DroppedPrintable(t: Type, st: Style)
    requires Printable(t, st)
    ensures Printable(Dropped(t), st)
    decreases t, 0
  {
    hide GoodName, GoodScalar;
    match t
    case Array(e, n) =>
      DroppedPrintable(e, st);
      DroppedBase(e);
    case Slice(e) => DroppedPrintable(e, st);
    case Tuple(fs) => DroppedFieldsPrintable(fs, st);
    case _ =>
  }

  lemma {:induction false} DroppedFieldsPrintable(fs: seq<Field>, st: Style)
    requires Printable(Tuple(fs), st)
    ensures Printable(Tuple(DroppedFields(fs)), st)
    decreases fs, 0
  {
    hide GoodName, Dropped;
    if fs != [] {
      DroppedPrintable(fs[0].typ, st);
      DroppedFieldsPrintable(fs[1..], st);
    }
  }

  lemma {:induction false} ArgTextIsFormat(a: Arg, t: Type)
    requires Describes(a, t)
    ensures ArgText(a) == Format(Dropped(t), JSON)
    decreases a, 0
  {
    hide NameText, FieldToks, Toks, NameToks, FormatFields, ScalarText, DescribeAll;
    FormatSplits(Dropped(t), JSON);
    DroppedBase(t);
    if Base(t) == Tuple([]) {
      EmptyTupleText();
      assert a.typ[..5] == "tuple";
    } else if Base(t).Tuple? {
      ComponentsTextIsFormat(a.components, Base(t).fields);
      assert a.typ[..5] == "tuple" && a.typ[5..] == DimsText(t);
    } else {
      NotTuple(Base(t), DimsText(t));
    }
  }

  lemma EmptyTupleText()
    ensures Format(Tuple([]), JSON) == "tuple()"
  {
  }

  lemma NotTuple(b: Type, d: string)
    requires !(b.Tuple? || b.Array? || b.Slice?)
    ensures !StartsWithTuple(ScalarText(b) + d)
  {
    assert (ScalarText(b) + d)[0] != 't';
  }

  lemma {:induction false} ComponentsTextIsFormat(cs: seq<Arg>, fs: seq<Field>)
    requires |cs| == |fs| && DescribeAll(cs, fs)
    ensures ComponentsText(cs) == FormatFields(DroppedFields(fs), JSON)
    decreases cs, 0
  {
    hide ArgText, Format, Describes, NameText, FieldToks, Toks, NameToks, Dropped;
    if cs != [] {
      var gs := DroppedFields(fs);
      ArgTextIsFormat(cs[0], fs[0].typ);
      ComponentsTextIsFormat(cs[1..], fs[1..]);
      JsonName(cs[0], gs[0]);
      assert gs[1..] == DroppedFields(fs[1..]);
      assert ComponentsText(cs)
          == ArgText(cs[0]) + ((if cs[0].indexed then " indexed " else " ") + cs[0].name)
             + (if |cs| == 1 then "" else "," + ComponentsText(cs[1..]));
    }
  }

  lemma JsonName(a: Arg, f: Field)
    requires a.name == f.name && a.indexed == f.indexed
    ensures (if a.indexed then " indexed " else " ") + a.name == NameText(f, JSON)
  {
    assert " indexed " == " indexed" + " ";
    assert "" + (" " + f.name) == " " + f.name;
  }

  lemma {:induction false} DescribedFillsIn(a: Arg, t: Type)
    requires Describes(a, t)
    ensures FillsIn(Dropped(t), a)
    decreases a, 0
  {
    DroppedBase(t);
    if Base(t).Tuple? && a.components != [] { DescribedFillInAll(a.components, Base(t).fields); }
  }

  lemma {:induction false} DescribedFillInAll(cs: seq<Arg>, fs: seq<Field>)
    requires |cs| == |fs| && DescribeAll(cs, fs)
    ensures FillsInAll(DroppedFields(fs), cs)
    decreases cs, 0
  {
    hide Dropped, Describes, FillsIn;
    if cs != [] {
      DescribedFillsIn(cs[0], fs[0].typ);
      DescribedFillInAll(cs[1..], fs[1..]);
      assert DroppedFields(fs)[1..] == DroppedFields(fs[1..]);
    }
  }

  /** A JSON argument tree is read as the type it describes, nested tuples, names and all, without the array
      suffixes over empty tuples. So it is read exactly if and only if there are none. */
  lemma ArgumentTree(a: Arg, t: Type)
    requires Describes(a, t) && Printable(t, JSON)
    ensures TypeFromArgument(a) == Ok(Dropped(t))
    ensures TypeFromArgument(a) == Ok(t) <==> NoEmptyBase(t)
  {
    hide Describes, Printable, ArgText, Format, FillsIn, NewType, Printed, Dropped, NoEmptyBase;
    ArgTextIsFormat(a, t);
    DroppedPrintable(t, JSON);
    ParseInvertsPrint(Dropped(t), JSON);
    DescribedFillsIn(a, t);
    DroppedIff(t);
  }

  /** Without components the array suffix is dropped: `tuple[]` and `tuple[3]` come out as the empty tuple. */
  lemma EmptyComponentsDropDims(a: Arg)
    requires StartsWithTuple(a.typ) && a.components == []
    ensures TypeFromArgument(a) == Ok(Tuple([]))
  {
    hide NewType, Printed;
    var t := Tuple([]);
    ParseInvertsPrint(t, FULL);
    assert Format(t, FULL) == "tuple()";
  }
}

/** The ABI decoder as a function on every byte string. */
module AbiDecode {
  import opened Words
  import opened AbiType
  import opened AbiEncode

  function ReadOffset(data: seq<byte>, total: nat): (r: Result<nat>)
    requires |data| >= 32
    ensures r.Ok? ==> r.value <= total
  {
    var n := FromBytes(data[..32]);
    if n >= TWO_63 || n > total then Err else Ok(n)
  }

  function ReadLength(data: seq<byte>): (r: Result<nat>)
    requires |data| >= 32
    ensures r.Ok? ==> r.value <= |data| - 32
  {
    var n := FromBytes(data[..32]);
    if n >= TWO_63 || n > |data| - 32 then Err else Ok(n)
  }

  /** Bytes of the Go integer that holds the type: a machine width, or the whole word as a big.Int. */
  function ByteWidth(bits: nat): (k: nat)
    ensures 1 <= k <= 32
  {
    if bits == 8 then 1 else if bits == 16 then 2 else if bits == 32 then 4 else if bits == 64 then 8 else 32
  }

  function ReadInteger(bits: nat, signed: bool, w: seq<byte>): int
    requires |w| == 32
  {
    var k := ByteWidth(bits);
    var n := FromBytes(w[32 - k..]);
    if signed && 2 * n >= Pow256(k) then n - Pow256(k) else n
  }

  /** One-word types; the caller has checked that a whole word is there. */
  function DecodeWord(t: Type, w: seq<byte>): (r: Result<Value>)
    requires |w| == 32 && WellSized(t)
  {
    match t
    case Bool => if w[31] == 0 then Ok(VBool(false)) else if w[31] == 1 then Ok(VBool(true)) else Err
    case UInt(bits) => Ok(VInt(ReadInteger(bits, false, w)))
    case Int(bits) => Ok(VInt(ReadInteger(bits, true, w)))
    case Address => Ok(VBytes(w[12..]))
    case FixedBytes(n) => Ok(VBytes(w[..n]))
    case Function => if w[24..] == Zeros(8) then Ok(VBytes(w[..24])) else Err
    case _ => Err
  }

  /** The value and what follows it in the input. */
  function Decode(t: Type, input: seq<byte>): (r: Result<(Value, seq<byte>)>)
    requires WellSized(t)
    decreases Depth(t), 1
  {
    if |input| < 32 then Err
    else match t
      case Tuple(fs) =>
        (match DecodeAll(FieldTypes(fs), input, input)
         case Err => Err
         case Ok((vs, rest)) => if Distinct(Names(fs)) then Ok((VTuple(Zip(Names(fs), vs)), rest)) else Err)
      case Array(e, n) =>
        if 32 * n > |input| then Err
        else (match DecodeAll(Repeat(e, n), input, input)
              case Err => Err
              case Ok((vs, rest)) => Ok((VArray(vs), rest)))
      case Slice(e) =>
        (match ReadLength(input)
         case Err => Err
         case Ok(n) =>
           if 32 * n > |input| - 32 then Err
           else match DecodeAll(Repeat(e, n), input[32..], input[32..])
             case Err => Err
             case Ok((vs, rest)) => Ok((VSlice(vs), rest)))
      case String =>
        (match ReadLength(input) case Err => Err case Ok(n) => Ok((VString(input[32..32 + n]), input[32..])))
      case Bytes =>
        (match ReadLength(input) case Err => Err case Ok(n) => Ok((VBytes(input[32..32 + n]), input[32..])))
      case _ =>
        match DecodeWord(t, input[..32]) case Err => Err case Ok(v) => Ok((v, input[32..]))
  }

  /** The components of a container: static ones in sequence, dynamic ones at offsets into `orig`. */
  function DecodeAll(ts: seq<Type>, orig: seq<byte>, data: seq<byte>): (r: Result<(seq<Value>, seq<byte>)>)
    requires AllWellSized(ts)
    ensures r.Ok? ==> |r.value.0| == |ts|
    decreases DepthAll(ts), 3 * |ts|
  {
    if ts == [] then Ok(([], data))
    else match DecodeNext(ts[0], orig, data)
      case Err => Err
      case Ok((v, rest)) =>
        match DecodeAll(ts[1..], orig, rest)
        case Err => Err
        case Ok((vs, end)) => Ok(([v] + vs, end))
  }

  /** One loop iteration: the component and the data left for the next head. */
  function DecodeNext(t: Type, orig: seq<byte>, data: seq<byte>): (r: Result<(Value, seq<byte>)>)
    requires WellSized(t)
    decreases Depth(t), 2
  {
    if |data| < 32 then Err
    else if IsDynamic(t) then
      match ReadOffset(data, |orig|)
      case Err => Err
      case Ok(n) => (match Decode(t, orig[n..]) case Err => Err case Ok((v, _)) => Ok((v, data[32..])))
    else Decode(t, data)
  }

  /** The map a tuple decodes to. */
  function Zip(ns: seq<string>, vs: seq<Value>): (m: map<string, Value>)
    requires |ns| == |vs|
  {
    if ns == [] then map[] else
      var n := |ns| - 1;
      Zip(ns[..n], vs[..n])[ns[n] := vs[n]]
  }

  lemma {:induction false} ZipKeys(ns: seq<string>, vs: seq<Value>, k: string)
    requires |ns| == |vs|
    ensures k in Zip(ns, vs) <==> k in ns
  {
    if ns != [] {
      var n := |ns| - 1;
      ZipKeys(ns[..n], vs[..n], k);
      assert ns == ns[..n] + [ns[n]];
    }
  }

  lemma {:induction false} ZipAt(ns: seq<string>, vs: seq<Value>, i: nat)
    requires |ns| == |vs| && i < |ns| && Distinct(ns)
    ensures ns[i] in Zip(ns, vs) && Zip(ns, vs)[ns[i]] == vs[i]
  {
    var n := |ns| - 1;
    if i < n { ZipAt(ns[..n], vs[..n], i); }
  }

  lemma {:induction false} ZipSize(ns: seq<string>, vs: seq<Value>)
    requires |ns| == |vs| && Distinct(ns)
    ensures |Zip(ns, vs)| == |ns|
  {
    if ns != [] {
      var n := |ns| - 1;
      ZipSize(ns[..n], vs[..n]);
      ZipKeys(ns[..n], vs[..n], ns[n]);
    }
  }
}

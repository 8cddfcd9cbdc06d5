/** ABI types: what is dynamic, how large a head is, and how tuple components are named. */
module AbiType {
  import opened Words
  import Decimal

  datatype Type =
    | Bool
    | UInt(bits: nat)
    | Int(bits: nat)
    | String
    | Bytes
    | FixedBytes(size: nat)
    | Address
    | Function
    | Array(elem: Type, len: nat)
    | Slice(elem: Type)
    | Tuple(fields: seq<Field>)

  datatype Field = Field(name: string, typ: Type, indexed: bool)

  predicate IsDynamic(t: Type)
  {
    match t
    case String | Bytes | Slice(_) => true
    case Array(e, _) => IsDynamic(e)
    case Tuple(fs) => exists f | f in fs :: IsDynamic(f.typ)
    case _ => false
  }

  /** getTypeSize: the bytes a value of this type takes in the head of its container. */
  function TypeSize(t: Type): (n: nat)
    decreases t, 0
  {
    match t
    case Array(e, k) =>
      if IsDynamic(e) then 32
      else if e.Array? || e.Tuple? then k * TypeSize(e)
      else k * 32
    case Tuple(fs) => if IsDynamic(t) then 32 else FieldsSize(fs)
    case _ => 32
  }

  function FieldsSize(fs: seq<Field>): (n: nat)
    decreases fs, 0
  {
    if fs == [] then 0 else TypeSize(fs[0].typ) + FieldsSize(fs[1..])
  }

  /** Bytes of a Go value of the type that reflection builds for it, on a 64-bit machine. */
  function GoSize(t: Type): (n: nat)
  {
    match t
    case Bool => 1
    case UInt(bits) => MachineSize(bits)
    case Int(bits) => MachineSize(bits)
    case String => 16
    case Bytes => 24
    case FixedBytes(k) => k
    case Address => 20
    case Function => 24
    case Array(e, k) => k * GoSize(e)
    case Slice(_) => 24
    case Tuple(_) => 8
  }

  /** A machine integer, or a pointer to a big one. */
  function MachineSize(bits: nat): nat { if bits == 8 then 1 else if bits == 16 then 2 else if bits == 32 then 4 else 8 }

  /** reflect.ArrayOf panics unless the array fits into the address space. */
  predicate Addressable(e: Type, k: nat) { k * GoSize(e) < 2 * TWO_63 }

  /** Nesting depth: the termination measure of everything that recurses over types. */
  function Depth(t: Type): (d: nat)
    decreases t, 0
  {
    match t
    case Array(e, _) => 1 + Depth(e)
    case Slice(e) => 1 + Depth(e)
    case Tuple(fs) => 1 + FieldsDepth(fs)
    case _ => 0
  }

  function FieldsDepth(fs: seq<Field>): (d: nat)
    decreases fs, 0
  {
    if fs == [] then 0 else
      var rest := FieldsDepth(fs[1..]);
      if Depth(fs[0].typ) > rest then Depth(fs[0].typ) else rest
  }

  function DepthAll(ts: seq<Type>): (d: nat)
    ensures forall i :: 0 <= i < |ts| ==> Depth(ts[i]) <= d
  {
    if ts == [] then 0 else
      var rest := DepthAll(ts[1..]);
      if Depth(ts[0]) > rest then Depth(ts[0]) else rest
  }

  function FieldTypes(fs: seq<Field>): (ts: seq<Type>)
    ensures |ts| == |fs|
    ensures forall i :: 0 <= i < |fs| ==> ts[i] == fs[i].typ
    ensures DepthAll(ts) == FieldsDepth(fs)
  {
    if fs == [] then [] else [fs[0].typ] + FieldTypes(fs[1..])
  }

  function Repeat(e: Type, n: nat): (ts: seq<Type>)
    ensures |ts| == n
    ensures forall i :: 0 <= i < n ==> ts[i] == e
    ensures DepthAll(ts) <= Depth(e)
  {
    if n == 0 then [] else [e] + Repeat(e, n - 1)
  }

  /** The key of component `i`: its name, or its position when it has none. */
  function EffectiveName(fs: seq<Field>, i: nat): string
    requires i < |fs|
  {
    if fs[i].name == "" then Decimal.Text(i) else fs[i].name
  }

  function Names(fs: seq<Field>): (ns: seq<string>)
    ensures |ns| == |fs|
    ensures forall i :: 0 <= i < |fs| ==> ns[i] == EffectiveName(fs, i)
  {
    seq(|fs|, i requires 0 <= i < |fs| => EffectiveName(fs, i))
  }

  /** `bytesN` carries 1 to 32 bytes, as the ABI prescribes; the decoder indexes one word with N. */
  predicate WellSized(t: Type)
  {
    match t
    case FixedBytes(n) => 1 <= n <= 32
    case Array(e, _) => WellSized(e)
    case Slice(e) => WellSized(e)
    case Tuple(fs) => forall f | f in fs :: WellSized(f.typ)
    case _ => true
  }

  predicate AllWellSized(ts: seq<Type>)
  {
    forall i :: 0 <= i < |ts| ==> WellSized(ts[i])
  }

  /** No part of the type occupies zero bytes, and no tuple has two components under one key. */
  predicate Regular(t: Type)
  {
    match t
    case Array(e, n) => n > 0 && Regular(e)
    case Slice(e) => Regular(e)
    case Tuple(fs) => fs != [] && Distinct(Names(fs)) && forall f | f in fs :: Regular(f.typ)
    case _ => true
  }
}

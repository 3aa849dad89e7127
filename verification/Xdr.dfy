/** xdr/encode.go and xdr/decode.go as functions of a type description.

    Reflection is replaced by a Schema value: what the codec asks of a Go type. A pointer type names its
    target in an environment, so that recursive types such as a linked list are finite schemas. */
module Xdr {
  import opened Bytes
  import opened XdrTag

  /** Go's sized integers that travel as one 4-octet word; WGo is the 64-bit int or uint. */
  datatype Width = W8 | W16 | W32 | WGo

  datatype Schema =
    | IntT(w: Width)
    | UintT(w: Width)
    | HyperT
    | UhyperT
    | BoolT
    | StringT
    | FixedArrayT(len: nat, elem: Schema)
    | SliceT(elem: Schema)
    | StructT(fields: seq<Field>)
    | PtrT(target: string)

  datatype Field = Field(tag: string, schema: Schema)

  type Env = map<string, Schema>

  datatype Value =
    | VInt(i: int)
    | VBool(b: bool)
    | VStr(s: seq<byte>)
    | VList(vs: seq<Value>)
    | VStruct(fs: seq<Value>)
    | VNil
    | VPtr(to: Value)

  datatype ErrorCode = Overflow | IO | BadEnumValue | BadDiscriminant | BadOptional

  datatype Option<+T> = None | Some(value: T)

  // ---------------------------------------------------------------- types

  function Lo(w: Width): int {
    match w case W8 => -0x80 case W16 => -0x8000 case W32 => -TWO_31 case WGo => -TWO_63
  }

  function SHi(w: Width): int { -Lo(w) }

  function UHi(w: Width): int { -2 * Lo(w) }

  predicate IsOptional(tag: string) { Get(tag, "optional") == "true" }

  predicate IsUnion(tag: string) { Get(tag, "union") == "true" }

  /** opaque=false: encode the elements of a byte slice or array one word each, and skip the union tags. */
  predicate Elementwise(tag: string, s: Schema) {
    Get(tag, "opaque") == "false" && (s.SliceT? || s.FixedArrayT?)
  }

  /** Is a field with this tag on the wire, given the discriminant seen so far ("" for none)? */
  predicate Selected(tag: string, union: string) {
    union != "" ==>
      && (Get(tag, "unionnotcase") != "" ==> Get(tag, "unionnotcase") != union)
      && (Get(tag, "unioncase") != "" ==> Get(tag, "unioncase") == union)
  }

  /** The kinds that can be a discriminant: those convertible to int, and bool. */
  predicate Discriminable(s: Schema) {
    s.IntT? || s.UintT? || s.HyperT? || s.UhyperT? || s.BoolT?
  }

  /** Pointers occur only as the targets of optional fields and every name is bound: what the recursion of the
      codec needs in order to stop. Array lengths are those of Go arrays that DecodeFixedOpaque can be asked for. */
  predicate Guarded(env: Env, s: Schema) {
    match s
    case FixedArrayT(len, elem) => len <= MAX_INT32 && Guarded(env, elem)
    case SliceT(elem) => Guarded(env, elem)
    case StructT(fields) => FieldsGuarded(env, fields)
    case PtrT(_) => false
    case _ => true
  }

  predicate FieldsGuarded(env: Env, fields: seq<Field>) {
    forall i :: 0 <= i < |fields| ==> FieldGuarded(env, fields[i])
  }

  predicate FieldGuarded(env: Env, f: Field) {
    if f.schema.PtrT? then IsOptional(f.tag) && f.schema.target in env
    else Guarded(env, f.schema)
  }

  ghost predicate EnvGuarded(env: Env) {
    forall n :: n in env ==> Guarded(env, env[n])
  }

  /** The static type of a value. */
  predicate HasType(env: Env, s: Schema, v: Value)
    decreases v, s
  {
    match s
    case IntT(w) => v.VInt? && Lo(w) <= v.i < SHi(w)
    case UintT(w) => v.VInt? && 0 <= v.i < UHi(w)
    case HyperT => v.VInt? && -TWO_63 <= v.i < TWO_63
    case UhyperT => v.VInt? && 0 <= v.i < TWO_64
    case BoolT => v.VBool?
    case StringT => v.VStr?
    case FixedArrayT(len, elem) => v.VList? && |v.vs| == len && AllType(env, elem, v.vs)
    case SliceT(elem) => v.VList? && AllType(env, elem, v.vs)
    case StructT(fields) => v.VStruct? && FieldsType(env, fields, v.fs)
    case PtrT(n) => v.VNil? || (v.VPtr? && n in env && HasType(env, env[n], v.to))
  }

  predicate AllType(env: Env, elem: Schema, vs: seq<Value>)
    decreases vs, elem
  {
    forall i :: 0 <= i < |vs| ==> HasType(env, elem, vs[i])
  }

  predicate FieldsType(env: Env, fields: seq<Field>, vs: seq<Value>)
    decreases vs, fields
  {
    |vs| == |fields| && forall i :: 0 <= i < |vs| ==> HasType(env, fields[i].schema, vs[i])
  }

  /** The octets held by a []byte or [n]byte value. */
  function Octets(vs: seq<Value>): (bs: seq<byte>)
    requires forall i :: 0 <= i < |vs| ==> vs[i].VInt? && 0 <= vs[i].i < 256
    ensures |bs| == |vs| && forall i :: 0 <= i < |vs| ==> bs[i] == vs[i].i
  {
    seq(|vs|, i requires 0 <= i < |vs| => vs[i].i)
  }

  function OctetValues(bs: seq<byte>): (vs: seq<Value>)
    ensures |vs| == |bs| && forall i :: 0 <= i < |bs| ==> vs[i] == VInt(bs[i])
  {
    seq(|bs|, i requires 0 <= i < |bs| => VInt(bs[i]))
  }

  /** The zero value of a Go type. */
  function Zero(s: Schema): Value {
    match s
    case IntT(_) => VInt(0)
    case UintT(_) => VInt(0)
    case HyperT => VInt(0)
    case UhyperT => VInt(0)
    case BoolT => VBool(false)
    case StringT => VStr([])
    case FixedArrayT(len, elem) => VList(seq(len, _ => Zero(elem)))
    case SliceT(_) => VList([])
    case StructT(fields) => VStruct(seq(|fields|, i requires 0 <= i < |fields| => Zero(fields[i].schema)))
    case PtrT(_) => VNil
  }

  /** The discriminant as the codec compares it: strconv.Itoa(int(x)), or "1"/"0" for a bool. */
  function Disc(s: Schema, v: Value): string
    requires Discriminable(s) && (if s.BoolT? then v.VBool? else v.VInt?)
  {
    if s.BoolT? then (if v.b then "1" else "0") else Itoa(Wrap64(v.i))
  }

  // ---------------------------------------------------------------- encoder

  /** What an encoding call emits, and the error it stops with. */
  datatype Emit = Emit(bytes: seq<byte>, err: Option<ErrorCode>)

  function Then(a: Emit, b: Emit): Emit {
    if a.err.Some? then a else Emit(a.bytes + b.bytes, b.err)
  }

  function Out(bs: seq<byte>): Emit { Emit(bs, None) }

  function Padded(bs: seq<byte>): seq<byte> { bs + Zeros(Pad(|bs|)) }

  function Enc(env: Env, s: Schema, v: Value, ignoreOpaque: bool): Emit
    requires EnvGuarded(env) && Guarded(env, s) && HasType(env, s, v)
    decreases v, 2
  {
    match s
    case IntT(_) => Out(Put32(v.i))
    case UintT(_) => Out(Put32(v.i))
    case HyperT => Out(Put64(v.i))
    case UhyperT => Out(Put64(v.i))
    case BoolT => Out(Put32(if v.b then 1 else 0))
    case StringT => Out(Put32(|v.s|) + Padded(v.s))
    case FixedArrayT(_, elem) => EncElems(env, elem, v.vs, ignoreOpaque)
    case SliceT(elem) => Then(Out(Put32(|v.vs|)), EncElems(env, elem, v.vs, ignoreOpaque))
    case StructT(fields) => EncFields(env, fields, v.fs, "")
  }

  function EncElems(env: Env, elem: Schema, vs: seq<Value>, ignoreOpaque: bool): Emit
    requires EnvGuarded(env) && Guarded(env, elem) && AllType(env, elem, vs)
    decreases vs, 1
  {
    if !ignoreOpaque && elem == UintT(W8) then
      assert forall i :: 0 <= i < |vs| ==> HasType(env, elem, vs[i]);
      Out(Padded(Octets(vs)))
    else EncEach(env, elem, vs)
  }

  function EncEach(env: Env, elem: Schema, vs: seq<Value>): Emit
    requires EnvGuarded(env) && Guarded(env, elem) && AllType(env, elem, vs)
    decreases vs, 0
  {
    if vs == [] then Out([])
    else Then(Enc(env, elem, vs[0], false), EncEach(env, elem, vs[1..]))
  }

  function EncFields(env: Env, fields: seq<Field>, vs: seq<Value>, union: string): Emit
    requires EnvGuarded(env) && FieldsType(env, fields, vs) && FieldsGuarded(env, fields)
    decreases vs, 0
  {
    if fields == [] then Out([])
    else
      Then(EncField(env, fields[0], vs[0], union),
           EncFields(env, fields[1..], vs[1..], FieldUnion(env, fields[0], vs[0], union)))
  }

  function EncField(env: Env, f: Field, v: Value, union: string): Emit
    requires EnvGuarded(env) && FieldGuarded(env, f) && HasType(env, f.schema, v)
    decreases v, 4
  {
    if !IsOptional(f.tag) then EncBody(env, f.tag, f.schema, v, union)
    else if !f.schema.PtrT? then Emit([], Some(BadOptional))
    else if v.VNil? then Out(Put32(0))
    else Then(Out(Put32(1)), EncBody(env, f.tag, env[f.schema.target], v.to, union))
  }

  /** The discriminant in force after a field. */
  function FieldUnion(env: Env, f: Field, v: Value, union: string): string
    requires FieldGuarded(env, f) && HasType(env, f.schema, v)
  {
    if !f.schema.PtrT? then EncUnion(env, f.tag, f.schema, v, union)
    else if v.VNil? then union
    else EncUnion(env, f.tag, env[f.schema.target], v.to, union)
  }

  /** One field after the optional flag and pointer are out of the way; the encoder sets the discriminant first. */
  function EncBody(env: Env, tag: string, s: Schema, v: Value, union: string): Emit
    requires EnvGuarded(env) && Guarded(env, s) && HasType(env, s, v)
    decreases v, 3
  {
    if Elementwise(tag, s) then Enc(env, s, v, true)
    else if IsUnion(tag) && !Discriminable(s) then Emit([], Some(BadDiscriminant))
    else if !Selected(tag, EncUnion(env, tag, s, v, union)) then Out([])
    else Enc(env, s, v, false)
  }

  function EncUnion(env: Env, tag: string, s: Schema, v: Value, union: string): string
    requires HasType(env, s, v)
  {
    if !Elementwise(tag, s) && IsUnion(tag) && Discriminable(s) then Disc(s, v) else union
  }

  // ---------------------------------------------------------------- decoder

  /** The outcome of a decoding call; n counts the octets read either way. */
  datatype Parsed<+T> = Ok(v: T, n: nat) | Err(code: ErrorCode, n: nat)

  datatype FieldOut = FieldOut(v: Value, union: string)

  function DecWord(input: seq<byte>): (r: Parsed<seq<byte>>)
    ensures r.n <= |input|
    ensures r.Ok? ==> |r.v| == 4 == r.n && r.v == input[..4]
  {
    if |input| < 4 then Err(IO, |input|) else Ok(input[..4], 4)
  }

  function DecLong(input: seq<byte>): (r: Parsed<seq<byte>>)
    ensures r.n <= |input|
    ensures r.Ok? ==> |r.v| == 8 == r.n && r.v == input[..8]
  {
    if |input| < 8 then Err(IO, |input|) else Ok(input[..8], 8)
  }

  function DecBool(input: seq<byte>): (r: Parsed<bool>)
    ensures r.n <= |input| && (r.Ok? ==> r.n == 4)
  {
    match DecWord(input)
    case Err(c, n) => Err(c, n)
    case Ok(w, n) =>
      var x := GetInt32(w);
      if x == 0 then Ok(false, n) else if x == 1 then Ok(true, n) else Err(BadEnumValue, n)
  }

  /** DecodeFixedOpaque: the padded size is computed in 32-bit arithmetic, so it may wrap to a negative number,
      which the conversion to uint makes larger than MaxInt32. */
  function DecFixedOpaque(size: nat, input: seq<byte>): (r: Parsed<seq<byte>>)
    requires size <= MAX_INT32
    ensures r.n <= |input|
  {
    if size == 0 then Ok([], 0)
    else
      var padded := Wrap32(size + Pad(size));
      if padded < 0 || padded > MAX_INT32 then Err(Overflow, 0)
      else if |input| < padded then Err(IO, |input|)
      else Ok(input[..size], padded)
  }

  /** A 32-bit element count, checked against MaxInt32 and against the read limit (0 is "no limit"). */
  function DecLen(lim: nat, input: seq<byte>): (r: Parsed<nat>)
    ensures r.n <= |input|
    ensures r.Ok? ==> r.n == 4 && r.v <= MAX_INT32
  {
    match DecWord(input)
    case Err(c, n) => Err(c, n)
    case Ok(w, n) =>
      var len := Get32(w);
      if len > MAX_INT32 || (lim != 0 && len > lim) then Err(Overflow, n) else Ok(len, n)
  }

  function Dec(env: Env, lim: nat, s: Schema, ignoreOpaque: bool, input: seq<byte>): (r: Parsed<Value>)
    requires EnvGuarded(env) && Guarded(env, s)
    ensures r.n <= |input|
    decreases |input|, s, 0
  {
    match s
    case IntT(w) =>
      (match DecWord(input)
       case Err(c, n) => Err(c, n)
       case Ok(b, n) =>
         var x := GetInt32(b);
         if Lo(w) <= x < SHi(w) then Ok(VInt(x), n) else Err(Overflow, n))
    case UintT(w) =>
      (match DecWord(input)
       case Err(c, n) => Err(c, n)
       case Ok(b, n) =>
         var x := Get32(b);
         if x < UHi(w) then Ok(VInt(x), n) else Err(Overflow, n))
    case HyperT =>
      (match DecLong(input)
       case Err(c, n) => Err(c, n)
       case Ok(b, n) => Ok(VInt(Wrap64(Get64(b))), n))
    case UhyperT =>
      (match DecLong(input)
       case Err(c, n) => Err(c, n)
       case Ok(b, n) => Ok(VInt(Get64(b)), n))
    case BoolT =>
      (match DecBool(input)
       case Err(c, n) => Err(c, n)
       case Ok(b, n) => Ok(VBool(b), n))
    case StringT =>
      (match DecLen(lim, input)
       case Err(c, n) => Err(c, n)
       case Ok(len, n) =>
         match DecFixedOpaque(len, input[n..])
         case Err(c, m) => Err(c, n + m)
         case Ok(bs, m) => Ok(VStr(bs), n + m))
    case FixedArrayT(len, elem) =>
      (match DecElems(env, lim, elem, len, ignoreOpaque, input)
       case Err(c, n) => Err(c, n)
       case Ok(vs, n) => Ok(VList(vs), n))
    case SliceT(elem) =>
      (match DecLen(lim, input)
       case Err(c, n) => Err(c, n)
       case Ok(len, n) =>
         match DecElems(env, lim, elem, len, ignoreOpaque, input[n..])
         case Err(c, m) => Err(c, n + m)
         case Ok(vs, m) => Ok(VList(vs), n + m))
    case StructT(fields) =>
      (match DecFields(env, lim, fields, "", input)
       case Err(c, n) => Err(c, n)
       case Ok(vs, n) => Ok(VStruct(vs), n))
  }

  function DecElems(env: Env, lim: nat, elem: Schema, len: nat, ignoreOpaque: bool, input: seq<byte>): (r: Parsed<seq<Value>>)
    requires EnvGuarded(env) && Guarded(env, elem) && len <= MAX_INT32
    ensures r.n <= |input|
    decreases |input|, elem, len + 2
  {
    if !ignoreOpaque && elem == UintT(W8) then
      match DecFixedOpaque(len, input)
      case Err(c, n) => Err(c, n)
      case Ok(bs, n) => Ok(OctetValues(bs), n)
    else
      DecEach(env, lim, elem, len, input)
  }

  function DecEach(env: Env, lim: nat, elem: Schema, len: nat, input: seq<byte>): (r: Parsed<seq<Value>>)
    requires EnvGuarded(env) && Guarded(env, elem)
    ensures r.n <= |input|
    decreases |input|, elem, len + 1
  {
    if len == 0 then Ok([], 0)
    else
      match Dec(env, lim, elem, false, input)
      case Err(c, n) => Err(c, n)
      case Ok(v, n) =>
        match DecEach(env, lim, elem, len - 1, input[n..])
        case Err(c, m) => Err(c, n + m)
        case Ok(vs, m) => Ok([v] + vs, n + m)
  }

  function DecFields(env: Env, lim: nat, fields: seq<Field>, union: string, input: seq<byte>): (r: Parsed<seq<Value>>)
    requires EnvGuarded(env) && FieldsGuarded(env, fields)
    ensures r.n <= |input|
    decreases |input|, fields, 0
  {
    if fields == [] then Ok([], 0)
    else
      match DecField(env, lim, fields[0], union, input)
      case Err(c, n) => Err(c, n)
      case Ok(out, n) =>
        match DecFields(env, lim, fields[1..], out.union, input[n..])
        case Err(c, m) => Err(c, n + m)
        case Ok(vs, m) => Ok([out.v] + vs, n + m)
  }

  function DecField(env: Env, lim: nat, f: Field, union: string, input: seq<byte>): (r: Parsed<FieldOut>)
    requires EnvGuarded(env) && FieldGuarded(env, f)
    ensures r.n <= |input|
    decreases |input|, f, 0
  {
    if !IsOptional(f.tag) then DecBody(env, lim, f.tag, f.schema, union, input)
    else if !f.schema.PtrT? then Err(BadOptional, 0)
    else
      match DecBool(input)
      case Err(c, n) => Err(c, n)
      case Ok(hasopt, n) =>
        if !hasopt then Ok(FieldOut(VNil, union), n)
        else
          match DecBody(env, lim, f.tag, env[f.schema.target], union, input[n..])
          case Err(c, m) => Err(c, n + m)
          case Ok(out, m) => Ok(FieldOut(VPtr(out.v), out.union), n + m)
  }

  /** One field after the optional flag; the decoder tests the case labels before it sets the discriminant. */
  function DecBody(env: Env, lim: nat, tag: string, s: Schema, union: string, input: seq<byte>): (r: Parsed<FieldOut>)
    requires EnvGuarded(env) && Guarded(env, s)
    ensures r.n <= |input|
    decreases |input|, s, 1
  {
    if Elementwise(tag, s) then
      match Dec(env, lim, s, true, input)
      case Err(c, n) => Err(c, n)
      case Ok(v, n) => Ok(FieldOut(v, union), n)
    else if !Selected(tag, union) then Ok(FieldOut(Zero(s), union), 0)
    else
      match Dec(env, lim, s, false, input)
      case Err(c, n) => Err(c, n)
      case Ok(v, n) =>
        if !IsUnion(tag) then Ok(FieldOut(v, union), n)
        else if !Discriminable(s) then Err(BadDiscriminant, n)
        else Ok(FieldOut(v, Disc(s, v)), n)
  }
}

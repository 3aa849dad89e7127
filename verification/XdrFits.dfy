/** A simple sufficient condition for a value to survive the round trip. */
module XdrFits {
  import opened Bytes
  import opened Xdr
  import opened XdrLaws

  /** No Go int or uint, which the encoder cuts to 32 bits. */
  predicate Narrow(s: Schema) {
    match s
    case IntT(w) => w != WGo
    case UintT(w) => w != WGo
    case FixedArrayT(len, elem) => len + 4 <= MAX_INT32 && Narrow(elem)
    case SliceT(elem) => Narrow(elem)
    case StructT(fields) => forall i :: 0 <= i < |fields| ==> Narrow(fields[i].schema)
    case _ => true
  }

  ghost predicate NarrowEnv(env: Env) {
    forall n :: n in env ==> Narrow(env[n])
  }

  /** Every string and slice in the value is short enough for a padded 32-bit length. */
  predicate Compact(v: Value) {
    match v
    case VStr(s) => |s| + 4 <= MAX_INT32
    case VList(vs) => |vs| + 4 <= MAX_INT32 && forall i :: 0 <= i < |vs| ==> Compact(vs[i])
    case VStruct(fs) => forall i :: 0 <= i < |fs| ==> Compact(fs[i])
    case VPtr(to) => Compact(to)
    case _ => true
  }

  predicate AllCompact(vs: seq<Value>) {
    forall i :: 0 <= i < |vs| ==> Compact(vs[i])
  }

  lemma FitConcat(a: seq<Atom>, b: seq<Atom>)
    requires AllFit(0, a) && AllFit(0, b)
    ensures AllFit(0, a + b)
  {
  }

  lemma {:induction false} CompactFits(env: Env, s: Schema, v: Value, ignoreOpaque: bool)
    requires EnvGuarded(env) && Guarded(env, s) && HasType(env, s, v) && NarrowEnv(env) && Narrow(s) && Compact(v)
    ensures AllFit(0, Atoms(env, s, v, ignoreOpaque))
    decreases v, 2
  {
    match s
    case FixedArrayT(_, elem) => ElemsFit(env, elem, v.vs, ignoreOpaque);
    case SliceT(elem) =>
      ElemsFit(env, elem, v.vs, ignoreOpaque);
      FitConcat([Count(|v.vs|)], AtomsElems(env, elem, v.vs, ignoreOpaque));
    case StructT(fields) => FieldsFit(env, fields, v.fs, "");
    case _ =>
  }

  lemma {:induction false} ElemsFit(env: Env, elem: Schema, vs: seq<Value>, ignoreOpaque: bool)
    requires EnvGuarded(env) && Guarded(env, elem) && AllType(env, elem, vs) && NarrowEnv(env) && Narrow(elem)
    requires AllCompact(vs) && |vs| + 4 <= MAX_INT32
    ensures AllFit(0, AtomsElems(env, elem, vs, ignoreOpaque))
    decreases vs, 1
  {
    EachFit(env, elem, vs);
  }

  lemma {:induction false} EachFit(env: Env, elem: Schema, vs: seq<Value>)
    requires EnvGuarded(env) && Guarded(env, elem) && AllType(env, elem, vs) && NarrowEnv(env) && Narrow(elem)
    requires AllCompact(vs)
    ensures AllFit(0, AtomsEach(env, elem, vs))
    decreases vs, 0
  {
    if vs != [] {
      CompactFits(env, elem, vs[0], false);
      EachFit(env, elem, vs[1..]);
      FitConcat(Atoms(env, elem, vs[0], false), AtomsEach(env, elem, vs[1..]));
    }
  }

  lemma {:induction false} FieldsFit(env: Env, fields: seq<Field>, vs: seq<Value>, union: string)
    requires EnvGuarded(env) && FieldsType(env, fields, vs) && FieldsGuarded(env, fields) && NarrowEnv(env) && AllCompact(vs)
    requires forall i :: 0 <= i < |fields| ==> Narrow(fields[i].schema)
    ensures AllFit(0, AtomsFields(env, fields, vs, union))
    decreases vs, 0
  {
    if fields != [] {
      var u := FieldUnion(env, fields[0], vs[0], union);
      FieldFit(env, fields[0], vs[0], union);
      FieldsFit(env, fields[1..], vs[1..], u);
      FitConcat(AtomsField(env, fields[0], vs[0], union), AtomsFields(env, fields[1..], vs[1..], u));
    }
  }

  lemma {:induction false} FieldFit(env: Env, f: Field, v: Value, union: string)
    requires EnvGuarded(env) && FieldGuarded(env, f) && HasType(env, f.schema, v) && NarrowEnv(env) && Narrow(f.schema)
    requires Compact(v)
    ensures AllFit(0, AtomsField(env, f, v, union))
    decreases v, 4
  {
    if !f.schema.PtrT? {
      BodyFit(env, f.tag, f.schema, v, union);
    } else if v.VPtr? {
      BodyFit(env, f.tag, env[f.schema.target], v.to, union);
      FitConcat([UWord(1)], AtomsBody(env, f.tag, env[f.schema.target], v.to, union));
    }
  }

  lemma {:induction false} BodyFit(env: Env, tag: string, s: Schema, v: Value, union: string)
    requires EnvGuarded(env) && Guarded(env, s) && HasType(env, s, v) && NarrowEnv(env) && Narrow(s) && Compact(v)
    ensures AllFit(0, AtomsBody(env, tag, s, v, union))
    decreases v, 3
  {
    CompactFits(env, s, v, Elementwise(tag, s));
  }

  /** The round trip under the simple condition. */
  lemma CompactRoundTrip(env: Env, s: Schema, v: Value, tail: seq<byte>)
    requires Good(env, s) && HasType(env, s, v) && NarrowEnv(env) && Narrow(s) && Compact(v)
    ensures var e := Enc(env, s, v, false);
            e.err == None && Dec(env, 0, s, false, e.bytes + tail) == Ok(Norm(env, s, v), |e.bytes|)
  {
    CompactFits(env, s, v, false);
    RoundTrip(env, 0, s, v, tail);
  }
}

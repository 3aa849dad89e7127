/** How many octets a value takes, from its schema. */
module XdrSizes {
  import opened Bytes
  import opened Xdr
  import opened XdrLaws
  import opened XdrStructs

  // ---------------------------------------------------------------- schemas of one size

  /** Fixed-width fields only, none of them tagged. */
  predicate Rigid(s: Schema) {
    match s
    case StructT(fields) => forall i :: 0 <= i < |fields| ==> fields[i].tag == "" && Rigid(fields[i].schema)
    case _ => Discriminable(s)
  }

  function WidthOf(s: Schema): nat {
    match s
    case HyperT => 8
    case UhyperT => 8
    case StructT(fields) => WidthFrom(fields, 0)
    case _ => 4
  }

  function WidthFrom(fields: seq<Field>, i: nat): nat
    requires i <= |fields|
    decreases fields, |fields| - i
  {
    if i == |fields| then 0 else WidthOf(fields[i].schema) + WidthFrom(fields, i + 1)
  }

  lemma PlainFieldAtoms(env: Env, s: Schema, v: Value, union: string)
    requires EnvGuarded(env) && Guarded(env, s) && HasType(env, s, v)
    ensures FieldGuarded(env, Field("", s)) && AtomsField(env, Field("", s), v, union) == Atoms(env, s, v, false)
    ensures FieldUnion(env, Field("", s), v, union) == union
  {
    PlainTagFacts();
  }

  /** The items of a structure, first field and the rest. */
  lemma FieldsSize(env: Env, fields: seq<Field>, vs: seq<Value>, union: string)
    requires EnvGuarded(env) && FieldsType(env, fields, vs) && FieldsGuarded(env, fields) && fields != []
    ensures HasType(env, fields[0].schema, vs[0]) && FieldsType(env, fields[1..], vs[1..])
    ensures Size(AtomsFields(env, fields, vs, union)) ==
            Size(AtomsField(env, fields[0], vs[0], union)) +
            Size(AtomsFields(env, fields[1..], vs[1..], FieldUnion(env, fields[0], vs[0], union)))
  {
    assert HasType(env, fields[0].schema, vs[0]);
    SizeConcat(AtomsField(env, fields[0], vs[0], union),
               AtomsFields(env, fields[1..], vs[1..], FieldUnion(env, fields[0], vs[0], union)));
  }

  lemma {:induction false} RigidSize(env: Env, s: Schema, v: Value)
    requires EnvGuarded(env) && Guarded(env, s) && HasType(env, s, v) && Rigid(s)
    ensures Size(Atoms(env, s, v, false)) == WidthOf(s)
    decreases s, 0
  {
    match s
    case StructT(fields) =>
      assert fields[0..] == fields && v.fs[0..] == v.fs;
      RigidFieldsSize(env, fields, v.fs, 0);
    case IntT(_) => CanonOne(SWord(v.i));
    case UintT(_) => CanonOne(UWord(v.i));
    case HyperT => CanonOne(Long(v.i));
    case UhyperT => CanonOne(Long(v.i));
    case BoolT => CanonOne(UWord(if v.b then 1 else 0));
  }

  lemma {:induction false} RigidFieldsSize(env: Env, fields: seq<Field>, vs: seq<Value>, i: nat)
    requires EnvGuarded(env) && i <= |fields| == |vs| && FieldsType(env, fields[i..], vs[i..]) && FieldsGuarded(env, fields[i..])
    requires forall k :: 0 <= k < |fields| ==> fields[k].tag == "" && Rigid(fields[k].schema)
    ensures Size(AtomsFields(env, fields[i..], vs[i..], "")) == WidthFrom(fields, i)
    decreases fields, |fields| - i
  {
    if i < |fields| {
      var fs, ws := fields[i..], vs[i..];
      FieldsSize(env, fs, ws, "");
      assert fs[0] == fields[i] && fs[0] == Field("", fields[i].schema) && fs[1..] == fields[i + 1..] && ws[1..] == vs[i + 1..];
      assert FieldGuarded(env, fs[0]);
      PlainFieldAtoms(env, fields[i].schema, ws[0], "");
      RigidSize(env, fields[i].schema, ws[0]);
      RigidFieldsSize(env, fields, vs, i + 1);
    }
  }

  lemma StringSize(env: Env, s: seq<byte>)
    requires EnvGuarded(env)
    ensures HasType(env, StringT, VStr(s)) && Size(Atoms(env, StringT, VStr(s), false)) == 4 + RoundUp4(|s|)
  {
    CanonOne(Count(|s|));
    CanonOne(Opaque(s));
    SizeConcat([Count(|s|)], [Opaque(s)]);
    assert [Count(|s|)] + [Opaque(s)] == [Count(|s|), Opaque(s)];
  }

  /** One field of a structure without tags. */
  lemma PlainFieldSize(env: Env, fields: seq<Field>, vs: seq<Value>)
    requires FieldsGood(env, fields) && FieldsType(env, fields, vs) && fields != []
    requires fields[0].tag == "" && !fields[0].schema.PtrT?
    ensures Guarded(env, fields[0].schema) && HasType(env, fields[0].schema, vs[0])
    ensures FieldsGood(env, fields[1..]) && FieldsType(env, fields[1..], vs[1..])
    ensures Size(AtomsFields(env, fields, vs, "")) ==
            Size(Atoms(env, fields[0].schema, vs[0], false)) + Size(AtomsFields(env, fields[1..], vs[1..], ""))
  {
    FieldsTail(env, fields);
    FieldsSize(env, fields, vs, "");
    PlainFieldAtoms(env, fields[0].schema, vs[0], "");
    assert fields[0] == Field("", fields[0].schema);
  }
}

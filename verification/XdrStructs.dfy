/** What unions do to structures, field by field. */
module XdrStructs {
  import opened Bytes
  import opened XdrTag
  import opened Xdr
  import opened XdrLaws

  /** No field is a discriminant, so the discriminant in force never changes. */
  predicate Arms(fields: seq<Field>) {
    forall i :: 0 <= i < |fields| ==> !IsUnion(fields[i].tag)
  }

  /** r is the normal form of vs, field by field: the first k + 1 fields see no discriminant, the others see u. */
  ghost predicate Pointwise(env: Env, fields: seq<Field>, vs: seq<Value>, r: seq<Value>, k: int, u: string)
    requires EnvGuarded(env) && FieldsType(env, fields, vs) && FieldsGuarded(env, fields)
  {
    |r| == |vs| && forall i :: 0 <= i < |vs| ==> FieldNorm(env, fields[i], vs[i], if i <= k then "" else u, r[i])
  }

  ghost predicate FieldNorm(env: Env, f: Field, v: Value, union: string, r: Value)
    requires EnvGuarded(env)
  {
    FieldGuarded(env, f) && HasType(env, f.schema, v) && r == NormField(env, f, v, union)
  }

  /** At a field that is not a pointer. */
  lemma AtField(env: Env, fields: seq<Field>, vs: seq<Value>, r: seq<Value>, k: int, u: string, i: nat)
    requires EnvGuarded(env) && FieldsType(env, fields, vs) && FieldsGuarded(env, fields)
    requires Pointwise(env, fields, vs, r, k, u) && i < |fields| && !fields[i].schema.PtrT?
    ensures Guarded(env, fields[i].schema) && HasType(env, fields[i].schema, vs[i]) && |r| == |fields|
    ensures r[i] == NormBody(env, fields[i].tag, fields[i].schema, vs[i], if i <= k then "" else u)
  {
    hide Guarded, HasType, NormBody;
    assert FieldNorm(env, fields[i], vs[i], if i <= k then "" else u, r[i]);
    assert FieldGuarded(env, fields[i]);
  }

  lemma PointwiseCons(env: Env, fields: seq<Field>, vs: seq<Value>, r: seq<Value>, k: int, u: string)
    requires EnvGuarded(env) && FieldsType(env, fields, vs) && FieldsGuarded(env, fields) && fields != [] && r != []
    requires FieldsType(env, fields[1..], vs[1..]) && Pointwise(env, fields[1..], vs[1..], r[1..], k - 1, u)
    requires FieldNorm(env, fields[0], vs[0], if 0 <= k then "" else u, r[0])
    ensures Pointwise(env, fields, vs, r, k, u)
  {
    forall i | 0 <= i < |vs| ensures FieldNorm(env, fields[i], vs[i], if i <= k then "" else u, r[i]) {
      if i > 0 {
        assert fields[i] == fields[1..][i - 1] && vs[i] == vs[1..][i - 1] && r[i] == r[1..][i - 1];
      }
    }
  }

  /** Fields that share one discriminant are normalised one by one. */
  lemma {:induction false} ArmsPointwise(env: Env, fields: seq<Field>, vs: seq<Value>, u: string, k: int)
    requires EnvGuarded(env) && FieldsType(env, fields, vs) && FieldsGuarded(env, fields) && Arms(fields) && k < 0
    ensures Pointwise(env, fields, vs, NormFields(env, fields, vs, u), k, u)
    decreases |fields|
  {
    if fields != [] {
      NormFieldsCons(env, fields, vs, u);
      ArmsPointwise(env, fields[1..], vs[1..], u, k - 1);
      PointwiseCons(env, fields, vs, NormFields(env, fields, vs, u), k, u);
    }
  }

  lemma NormFieldsCons(env: Env, fields: seq<Field>, vs: seq<Value>, union: string)
    requires EnvGuarded(env) && FieldsType(env, fields, vs) && FieldsGuarded(env, fields) && fields != []
    ensures HasType(env, fields[0].schema, vs[0]) && FieldsType(env, fields[1..], vs[1..])
    ensures var r, u := NormFields(env, fields, vs, union), FieldUnion(env, fields[0], vs[0], union);
            r != [] && r[1..] == NormFields(env, fields[1..], vs[1..], u) && FieldNorm(env, fields[0], vs[0], union, r[0])
  {
    var u := FieldUnion(env, fields[0], vs[0], union);
    assert NormFields(env, fields, vs, union) ==
           [NormField(env, fields[0], vs[0], union)] + NormFields(env, fields[1..], vs[1..], u);
  }

  /** A discriminated union (section 4.15 of RFC 4506): plain fields, the discriminant, then the arms. */
  lemma {:induction false} UnionPointwise(env: Env, fields: seq<Field>, vs: seq<Value>, k: nat)
    requires EnvGuarded(env) && FieldsType(env, fields, vs) && FieldsGuarded(env, fields)
    requires k < |fields| && Arms(fields[..k]) && Arms(fields[k + 1..])
    requires IsUnion(fields[k].tag) && Discriminable(fields[k].schema)
    ensures HasType(env, fields[k].schema, vs[k])
    ensures Pointwise(env, fields, vs, NormFields(env, fields, vs, ""), k, Disc(fields[k].schema, vs[k]))
    decreases |fields|
  {
    hide Pointwise, FieldNorm, NormFields, NormBody, Norm, Disc;
    var r, u := NormFields(env, fields, vs, ""), Disc(fields[k].schema, vs[k]);
    if k == 0 {
      PlainTagFacts();
      NormFieldsCons(env, fields, vs, "");
      ArmsPointwise(env, fields[1..], vs[1..], u, -1);
    } else {
      assert fields[0] == fields[..k][0];
      NormFieldsCons(env, fields, vs, "");
      assert fields[1..][..k - 1] == fields[..k][1..] && fields[1..][k..] == fields[k + 1..];
      UnionPointwise(env, fields[1..], vs[1..], k - 1);
    }
    PointwiseCons(env, fields, vs, r, k, u);
  }

  /** An arm labelled with a number is on the wire exactly when the discriminant is that number. */
  lemma CaseSelects(arm: int, union: int)
    ensures Selected("unioncase=" + Itoa(arm), Itoa(union)) <==> arm == union
  {
    CaseTag(Itoa(arm));
    if arm != union && Itoa(arm) == Itoa(union) {
      ItoaInjective(arm, union);
    }
  }

  lemma NotCaseSelects(arm: int, union: int)
    ensures Selected("unionnotcase=" + Itoa(arm), Itoa(union)) <==> arm != union
  {
    NotCaseTag(Itoa(arm));
    if arm != union && Itoa(arm) == Itoa(union) {
      ItoaInjective(arm, union);
    }
  }

  function Case(arm: int): string { "unioncase=" + Itoa(arm) }

  function NotCase(arm: int): string { "unionnotcase=" + Itoa(arm) }

  lemma CaseTagFacts(arm: int)
    ensures !IsUnion(Case(arm)) && !IsOptional(Case(arm)) && Get(Case(arm), "opaque") == ""
    ensures !IsUnion(NotCase(arm)) && !IsOptional(NotCase(arm)) && Get(NotCase(arm), "opaque") == ""
  {
    CaseTag(Itoa(arm));
    NotCaseTag(Itoa(arm));
  }

  lemma PlainTagFacts()
    ensures !IsUnion("") && !IsOptional("") && Get("", "opaque") == ""
    ensures forall u :: Selected("", u) && Selected("union", u)
    ensures IsUnion("union") && !IsOptional("union") && Get("union", "opaque") == ""
    ensures Get("union", "unioncase") == Get("union", "unionnotcase") == ""
    ensures IsOptional("optional") && !IsUnion("optional") && Get("optional", "opaque") == ""
    ensures forall u :: Selected("optional", u)
  {
    EmptyTag("union");
    EmptyTag("optional");
    EmptyTag("opaque");
    EmptyTag("unioncase");
    EmptyTag("unionnotcase");
    UnionTag();
    OptionalTag();
  }

  /** A field is fit for the round-trip theorems. */
  ghost predicate FieldGood(env: Env, f: Field) {
    FieldGuarded(env, f) && FieldSound(env, f)
  }

  lemma PlainGood(env: Env, s: Schema)
    requires Good(env, s)
    ensures FieldGood(env, Field("", s))
  {
    PlainTagFacts();
  }

  lemma UnionGood(env: Env, s: Schema)
    requires Good(env, s) && Discriminable(s)
    ensures FieldGood(env, Field("union", s))
  {
    PlainTagFacts();
  }

  lemma CaseGood(env: Env, arm: int, s: Schema)
    requires Good(env, s)
    ensures FieldGood(env, Field(Case(arm), s)) && FieldGood(env, Field(NotCase(arm), s))
  {
    CaseTagFacts(arm);
  }

  lemma StructGood(env: Env, fields: seq<Field>)
    requires WellFormed(env) && forall i :: 0 <= i < |fields| ==> FieldGood(env, fields[i])
    ensures Good(env, StructT(fields)) && FieldsGood(env, fields)
  {
  }

  lemma WordNorm(env: Env, s: Schema, v: Value)
    requires EnvGuarded(env) && Discriminable(s) && HasType(env, s, v)
    ensures Norm(env, s, v) == v
  {
  }

  /** A field before the discriminant, or the discriminant itself. */
  lemma PlainAt(env: Env, fields: seq<Field>, vs: seq<Value>, r: seq<Value>, k: int, u: string, i: nat)
    requires EnvGuarded(env) && FieldsType(env, fields, vs) && FieldsGuarded(env, fields)
    requires i < |fields| && !fields[i].schema.PtrT?
    requires Pointwise(env, fields, vs, r, k, u) && i < |fields| && (fields[i].tag == "" || fields[i].tag == "union")
    ensures Guarded(env, fields[i].schema) && HasType(env, fields[i].schema, vs[i])
    ensures i < |r| && r[i] == Norm(env, fields[i].schema, vs[i])
  {
    hide Guarded, HasType, Norm, Zero, Pointwise, FieldNorm;
    PlainTagFacts();
    AtField(env, fields, vs, r, k, u, i);
  }

  /** An arm labelled with a number. */
  lemma CaseAt(env: Env, fields: seq<Field>, vs: seq<Value>, r: seq<Value>, k: int, d: int, i: nat, arm: int)
    requires EnvGuarded(env) && FieldsType(env, fields, vs) && FieldsGuarded(env, fields)
    requires i < |fields| && !fields[i].schema.PtrT?
    requires Pointwise(env, fields, vs, r, k, Itoa(d)) && k < i < |fields| && fields[i].tag == Case(arm)
    ensures Guarded(env, fields[i].schema) && HasType(env, fields[i].schema, vs[i])
    ensures i < |r| && r[i] == if arm == d then Norm(env, fields[i].schema, vs[i]) else Zero(fields[i].schema)
  {
    hide Guarded, HasType, Norm, Zero, Pointwise, FieldNorm;
    CaseTagFacts(arm);
    CaseSelects(arm, d);
    AtField(env, fields, vs, r, k, Itoa(d), i);
  }

  /** An arm for every number but one. */
  lemma NotCaseAt(env: Env, fields: seq<Field>, vs: seq<Value>, r: seq<Value>, k: int, d: int, i: nat, arm: int)
    requires EnvGuarded(env) && FieldsType(env, fields, vs) && FieldsGuarded(env, fields)
    requires i < |fields| && !fields[i].schema.PtrT?
    requires Pointwise(env, fields, vs, r, k, Itoa(d)) && k < i < |fields| && fields[i].tag == NotCase(arm)
    ensures Guarded(env, fields[i].schema) && HasType(env, fields[i].schema, vs[i])
    ensures i < |r| && r[i] == if arm != d then Norm(env, fields[i].schema, vs[i]) else Zero(fields[i].schema)
  {
    hide Guarded, HasType, Norm, Zero, Pointwise, FieldNorm;
    CaseTagFacts(arm);
    NotCaseSelects(arm, d);
    AtField(env, fields, vs, r, k, Itoa(d), i);
  }

  lemma PlainArms(fields: seq<Field>)
    requires forall i :: 0 <= i < |fields| ==> !fields[i].schema.PtrT? && (fields[i].tag == "" || IsCaseTag(fields[i].tag))
    ensures Arms(fields)
  {
    forall i | 0 <= i < |fields| ensures !IsUnion(fields[i].tag) {
      PlainTagFacts();
      if fields[i].tag != "" {
        var n :| fields[i].tag == Case(n) || fields[i].tag == NotCase(n);
        CaseTagFacts(n);
      }
    }
  }

  ghost predicate IsCaseTag(tag: string) {
    exists n :: tag == Case(n) || tag == NotCase(n)
  }

  // ---------------------------------------------------------------- the two union shapes of the RPC message

  /** An enum discriminant and two labelled arms. */
  function Union3(m: int, s: Schema, n: int, t: Schema): Schema {
    StructT([Field("union", IntT(W32)), Field(Case(m), s), Field(Case(n), t)])
  }

  /** The same behind one plain field. */
  function Union4(p: Schema, m: int, s: Schema, n: int, t: Schema): Schema {
    StructT([Field("", p), Field("union", IntT(W32)), Field(Case(m), s), Field(Case(n), t)])
  }

  lemma GoodNil(env: Env)
    requires WellFormed(env)
    ensures FieldsGood(env, [])
  {
  }

  lemma GoodCons(env: Env, f: Field, fields: seq<Field>)
    requires FieldGood(env, f) && FieldsGood(env, fields)
    ensures FieldsGood(env, [f] + fields)
  {
    var all := [f] + fields;
    forall i | 0 <= i < |all| ensures FieldGood(env, all[i]) {
      assert i > 0 ==> all[i] == fields[i - 1];
    }
  }

  lemma FieldsOfGood(env: Env, fields: seq<Field>)
    requires FieldsGood(env, fields)
    ensures Good(env, StructT(fields))
  {
  }

  lemma GoodTwo(env: Env, f: Field, g: Field)
    requires WellFormed(env) && FieldGood(env, f) && FieldGood(env, g)
    ensures Good(env, StructT([f, g])) && FieldsGood(env, [f, g])
  {
    hide FieldsGood, FieldGood;
    GoodNil(env);
    GoodCons(env, g, []);
    assert [g] + [] == [g];
    GoodCons(env, f, [g]);
    assert [f] + [g] == [f, g];
    FieldsOfGood(env, [f, g]);
  }

  lemma GoodThree(env: Env, f: Field, g: Field, h: Field)
    requires WellFormed(env) && FieldGood(env, f) && FieldGood(env, g) && FieldGood(env, h)
    ensures Good(env, StructT([f, g, h])) && FieldsGood(env, [f, g, h])
  {
    hide FieldsGood, FieldGood;
    GoodTwo(env, g, h);
    GoodCons(env, f, [g, h]);
    assert [f] + [g, h] == [f, g, h];
    FieldsOfGood(env, [f, g, h]);
  }

  lemma Union3Good(env: Env, m: int, s: Schema, n: int, t: Schema)
    requires Good(env, s) && Good(env, t)
    ensures Good(env, Union3(m, s, n, t)) && FieldsGood(env, Union3(m, s, n, t).fields)
  {
    hide FieldsGood, FieldGood;
    UnionGood(env, IntT(W32));
    CaseGood(env, m, s);
    CaseGood(env, n, t);
    GoodThree(env, Field("union", IntT(W32)), Field(Case(m), s), Field(Case(n), t));
  }

  lemma Union4Good(env: Env, p: Schema, m: int, s: Schema, n: int, t: Schema)
    requires Good(env, p) && Good(env, s) && Good(env, t)
    ensures Good(env, Union4(p, m, s, n, t)) && FieldsGood(env, Union4(p, m, s, n, t).fields)
  {
    PlainGood(env, p);
    Union3Good(env, m, s, n, t);
    GoodCons(env, Field("", p), Union3(m, s, n, t).fields);
    assert [Field("", p)] + Union3(m, s, n, t).fields == Union4(p, m, s, n, t).fields;
    FieldsOfGood(env, Union4(p, m, s, n, t).fields);
  }

  lemma CaseArms(fields: seq<Field>, m: int, n: int)
    requires |fields| == 2 && fields[0].tag == Case(m) && fields[1].tag == Case(n)
    requires !fields[0].schema.PtrT? && !fields[1].schema.PtrT?
    ensures Arms(fields)
  {
    CaseTagFacts(m);
    CaseTagFacts(n);
  }

  ghost predicate Labelled(env: Env, fields: seq<Field>, vs: seq<Value>, k: nat, d: int, m: int, n: int) {
    && FieldsGood(env, fields) && FieldsType(env, fields, vs) && k < 2 && |fields| == k + 3
    && (k == 1 ==> fields[0].tag == "" && !fields[0].schema.PtrT?)
    && fields[k] == Field("union", IntT(W32)) && vs[k] == VInt(d) && -TWO_31 <= d < TWO_31
    && fields[k + 1].tag == Case(m) && fields[k + 2].tag == Case(n)
    && !fields[k + 1].schema.PtrT? && !fields[k + 2].schema.PtrT?
  }

  lemma WordDisc(d: int)
    requires -TWO_31 <= d < TWO_31
    ensures Disc(IntT(W32), VInt(d)) == Itoa(d)
  {
  }

  lemma LabelledArms(env: Env, fields: seq<Field>, vs: seq<Value>, k: nat, d: int, m: int, n: int)
    requires Labelled(env, fields, vs, k, d, m, n)
    ensures Arms(fields[..k]) && Arms(fields[k + 1..])
    ensures IsUnion(fields[k].tag) && Discriminable(fields[k].schema)
    ensures Disc(fields[k].schema, vs[k]) == Itoa(d)
  {
    hide FieldsGood, FieldsType, Disc, Itoa, Wrap64;
    PlainTagFacts();
    PlainArms(fields[..k]);
    CaseArms(fields[k + 1..], m, n);
    WordDisc(d);
  }

  lemma LabelledPointwise(env: Env, fields: seq<Field>, vs: seq<Value>, k: nat, d: int, m: int, n: int)
    requires Labelled(env, fields, vs, k, d, m, n)
    ensures Pointwise(env, fields, vs, NormFields(env, fields, vs, ""), k, Itoa(d))
  {
    hide NormFields, Pointwise, Disc, Itoa, Arms, IsUnion;
    LabelledArms(env, fields, vs, k, d, m, n);
    UnionPointwise(env, fields, vs, k);
  }

  ghost predicate ArmIs(env: Env, s: Schema, v: Value, tag: int, d: int, r: Value) {
    && EnvGuarded(env) && Guarded(env, s) && HasType(env, s, v)
    && r == if tag == d then Norm(env, s, v) else Zero(s)
  }

  lemma LabelledNorm(env: Env, fields: seq<Field>, vs: seq<Value>, k: nat, d: int, m: int, n: int)
    requires Labelled(env, fields, vs, k, d, m, n)
    ensures var r := NormFields(env, fields, vs, "");
            && |r| == |vs| == k + 3
            && (k == 1 ==> ArmIs(env, fields[0].schema, vs[0], d, d, r[0]))
            && r[k] == VInt(d)
            && ArmIs(env, fields[k + 1].schema, vs[k + 1], m, d, r[k + 1])
            && ArmIs(env, fields[k + 2].schema, vs[k + 2], n, d, r[k + 2])
  {
    var r := NormFields(env, fields, vs, "");
    LabelledPointwise(env, fields, vs, k, d, m, n);
    PlainAt(env, fields, vs, r, k, Itoa(d), 0);
    PlainAt(env, fields, vs, r, k, Itoa(d), k);
    CaseAt(env, fields, vs, r, k, d, k + 1, m);
    CaseAt(env, fields, vs, r, k, d, k + 2, n);
  }

  lemma TypeNil(env: Env)
    ensures FieldsType(env, [], [])
  {
  }

  lemma TypeCons(env: Env, f: Field, fields: seq<Field>, v: Value, vs: seq<Value>)
    requires HasType(env, f.schema, v) && FieldsType(env, fields, vs)
    ensures FieldsType(env, [f] + fields, [v] + vs)
  {
    var all, ws := [f] + fields, [v] + vs;
    forall i | 0 <= i < |ws| ensures HasType(env, all[i].schema, ws[i]) {
      assert i > 0 ==> all[i] == fields[i - 1] && ws[i] == vs[i - 1];
    }
  }

  lemma TypeTwo(env: Env, f: Field, g: Field, v: Value, w: Value)
    requires HasType(env, f.schema, v) && HasType(env, g.schema, w)
    ensures FieldsType(env, [f, g], [v, w])
  {
    TypeNil(env);
    TypeCons(env, g, [], w, []);
    assert [g] + [] == [g] && [w] + [] == [w];
    TypeCons(env, f, [g], v, [w]);
    assert [f] + [g] == [f, g] && [v] + [w] == [v, w];
  }

  lemma TypeThree(env: Env, f: Field, g: Field, h: Field, u: Value, v: Value, w: Value)
    requires HasType(env, f.schema, u) && HasType(env, g.schema, v) && HasType(env, h.schema, w)
    ensures FieldsType(env, [f, g, h], [u, v, w])
  {
    TypeTwo(env, g, h, v, w);
    TypeCons(env, f, [g, h], u, [v, w]);
    assert [f] + [g, h] == [f, g, h] && [u] + [v, w] == [u, v, w];
  }

  lemma Union3Typed(env: Env, m: int, s: Schema, n: int, t: Schema, d: int, v: Value, w: Value)
    requires HasType(env, s, v) && HasType(env, t, w) && -TWO_31 <= d < TWO_31
    ensures FieldsType(env, Union3(m, s, n, t).fields, [VInt(d), v, w])
  {
    TypeThree(env, Field("union", IntT(W32)), Field(Case(m), s), Field(Case(n), t), VInt(d), v, w);
  }

  lemma Union4Typed(env: Env, p: Schema, m: int, s: Schema, n: int, t: Schema, x: Value, d: int, v: Value, w: Value)
    requires HasType(env, p, x) && HasType(env, s, v) && HasType(env, t, w) && -TWO_31 <= d < TWO_31
    ensures FieldsType(env, Union4(p, m, s, n, t).fields, [x, VInt(d), v, w])
  {
    Union3Typed(env, m, s, n, t, d, v, w);
    TypeCons(env, Field("", p), Union3(m, s, n, t).fields, x, [VInt(d), v, w]);
    assert [Field("", p)] + Union3(m, s, n, t).fields == Union4(p, m, s, n, t).fields;
    assert [x] + [VInt(d), v, w] == [x, VInt(d), v, w];
  }

  /** s is fit for the round-trip theorems, v is one of its values, and r is what the wire keeps of v. */
  ghost predicate NormIs(env: Env, s: Schema, v: Value, r: Value) {
    Good(env, s) && HasType(env, s, v) && Norm(env, s, v) == r
  }

  lemma StructNorm(env: Env, fields: seq<Field>, vs: seq<Value>)
    requires FieldsGood(env, fields) && FieldsType(env, fields, vs)
    ensures NormIs(env, StructT(fields), VStruct(vs), VStruct(NormFields(env, fields, vs, "")))
  {
    FieldsOfGood(env, fields);
  }

  ghost predicate Unchanged(env: Env, s: Schema, v: Value) {
    EnvGuarded(env) && Guarded(env, s) && HasType(env, s, v) && Norm(env, s, v) == v
  }

  /** Untagged fields that normalisation leaves alone make a structure that it leaves alone. */
  lemma PlainNorm(env: Env, fields: seq<Field>, vs: seq<Value>)
    requires FieldsGood(env, fields) && FieldsType(env, fields, vs)
    requires forall i :: 0 <= i < |fields| ==> fields[i].tag == "" && !fields[i].schema.PtrT?
    requires forall i :: 0 <= i < |fields| ==> Unchanged(env, fields[i].schema, vs[i])
    ensures NormIs(env, StructT(fields), VStruct(vs), VStruct(vs))
  {
    hide NormFields, Norm, Pointwise, FieldsGood, HasType, NormIs;
    FieldsGoodGuarded(env, fields);
    var r := NormFields(env, fields, vs, "");
    PlainArms(fields);
    ArmsPointwise(env, fields, vs, "", -1);
    StructNorm(env, fields, vs);
    forall i | 0 <= i < |fields| ensures i < |r| && r[i] == vs[i] {
      PlainAt(env, fields, vs, r, -1, "", i);
      assert Unchanged(env, fields[i].schema, vs[i]);
    }
    PointwiseLength(env, fields, vs, r, -1, "");
    assert r == vs;
  }

  lemma FieldsGoodGuarded(env: Env, fields: seq<Field>)
    requires FieldsGood(env, fields)
    ensures EnvGuarded(env) && FieldsGuarded(env, fields)
  {
  }

  lemma PointwiseLength(env: Env, fields: seq<Field>, vs: seq<Value>, r: seq<Value>, k: int, u: string)
    requires EnvGuarded(env) && FieldsType(env, fields, vs) && FieldsGuarded(env, fields) && Pointwise(env, fields, vs, r, k, u)
    ensures |r| == |vs|
  {
  }

  lemma Union3Labelled(env: Env, m: int, s: Schema, n: int, t: Schema, d: int, v: Value, w: Value)
    requires Good(env, s) && Good(env, t) && HasType(env, s, v) && HasType(env, t, w) && -TWO_31 <= d < TWO_31
    ensures Labelled(env, Union3(m, s, n, t).fields, [VInt(d), v, w], 0, d, m, n)
    ensures FieldsGood(env, Union3(m, s, n, t).fields) && FieldsType(env, Union3(m, s, n, t).fields, [VInt(d), v, w])
  {
    hide FieldsGood, FieldsType, FieldGood;
    Union3Good(env, m, s, n, t);
    Union3Typed(env, m, s, n, t, d, v, w);
    assert !s.PtrT? && !t.PtrT?;
  }

  lemma Union4Labelled(env: Env, p: Schema, m: int, s: Schema, n: int, t: Schema, x: Value, d: int, v: Value, w: Value)
    requires Good(env, p) && Good(env, s) && Good(env, t) && -TWO_31 <= d < TWO_31
    requires HasType(env, p, x) && HasType(env, s, v) && HasType(env, t, w)
    ensures Labelled(env, Union4(p, m, s, n, t).fields, [x, VInt(d), v, w], 1, d, m, n)
    ensures FieldsGood(env, Union4(p, m, s, n, t).fields) && FieldsType(env, Union4(p, m, s, n, t).fields, [x, VInt(d), v, w])
  {
    Union4Good(env, p, m, s, n, t);
    Union4Typed(env, p, m, s, n, t, x, d, v, w);
    assert !p.PtrT? && !s.PtrT? && !t.PtrT?;
  }

  /** The arm whose label is the discriminant survives; the others become zero values. */
  lemma Union3Norm(env: Env, m: int, s: Schema, n: int, t: Schema, d: int, v: Value, w: Value)
    requires Good(env, s) && Good(env, t) && HasType(env, s, v) && HasType(env, t, w) && -TWO_31 <= d < TWO_31
    ensures NormIs(env, Union3(m, s, n, t), VStruct([VInt(d), v, w]),
                   VStruct([VInt(d), if m == d then Norm(env, s, v) else Zero(s), if n == d then Norm(env, t, w) else Zero(t)]))
  {
    hide Labelled, FieldsType, NormFields, NormIs, Good, HasType;
    var fields, vs := Union3(m, s, n, t).fields, [VInt(d), v, w];
    Union3Labelled(env, m, s, n, t, d, v, w);
    StructNorm(env, fields, vs);
    LabelledNorm(env, fields, vs, 0, d, m, n);
    var r := NormFields(env, fields, vs, "");
    assert r == [r[0], r[1], r[2]];
  }

  lemma Union4Norm(env: Env, p: Schema, m: int, s: Schema, n: int, t: Schema, x: Value, d: int, v: Value, w: Value)
    requires Good(env, p) && Good(env, s) && Good(env, t) && -TWO_31 <= d < TWO_31
    requires HasType(env, p, x) && HasType(env, s, v) && HasType(env, t, w)
    ensures NormIs(env, Union4(p, m, s, n, t), VStruct([x, VInt(d), v, w]),
                   VStruct([Norm(env, p, x), VInt(d),
                            if m == d then Norm(env, s, v) else Zero(s), if n == d then Norm(env, t, w) else Zero(t)]))
  {
    hide Labelled, FieldsGood, FieldsType, NormFields, NormIs, Good, HasType;
    var fields, vs := Union4(p, m, s, n, t).fields, [x, VInt(d), v, w];
    Union4Labelled(env, p, m, s, n, t, x, d, v, w);
    StructNorm(env, fields, vs);
    LabelledNorm(env, fields, vs, 1, d, m, n);
    var r := NormFields(env, fields, vs, "");
    assert r == [r[0], r[1], r[2], r[3]];
  }
}

/** What a decoder leaves in the arms of a union that were not on the wire. */
module XdrArms {
  import opened Bytes
  import opened XdrTag
  import opened Xdr
  import opened XdrLaws
  import opened XdrExact

  /** Every number 0, every bool false, every string and slice empty, every pointer nil, and so for every member of an
      array or structure. */
  predicate IsZero(s: Schema, v: Value)
    decreases v
  {
    match v
    case VInt(i) => i == 0
    case VBool(b) => b == false
    case VStr(t) => |t| == 0
    case VNil => true
    case VPtr(_) => false
    case VList(vs) =>
      if s.SliceT? then |vs| == 0
      else s.FixedArrayT? && |vs| == s.len && forall i :: 0 <= i < |vs| ==> IsZero(s.elem, vs[i])
    case VStruct(fs) => s.StructT? && |fs| == |s.fields| && forall i :: 0 <= i < |fs| ==> IsZero(s.fields[i].schema, fs[i])
  }

  lemma {:induction false} ZeroIsZero(s: Schema)
    ensures IsZero(s, Zero(s))
    decreases s
  {
    match s
    case FixedArrayT(len, elem) =>
      ZeroIsZero(elem);
    case StructT(fields) =>
      forall i | 0 <= i < |fields| ensures IsZero(fields[i].schema, Zero(fields[i].schema)) {
        ZeroIsZero(fields[i].schema);
      }
    case _ =>
  }

  // ---------------------------------------------------------------- selection

  /** A field is on the wire unless a discriminant is in force, not empty, that its labels exclude. */
  lemma SelectedIff(tag: string, u: string)
    ensures Selected(tag, u) <==>
            || u == ""
            || ((Get(tag, "unioncase") == "" || Get(tag, "unioncase") == u) &&
                (Get(tag, "unionnotcase") == "" || Get(tag, "unionnotcase") != u))
  {
  }

  /** The discriminant of a number is its decimal string, of a flag "1" or "0". */
  lemma DiscIs(w: Width, i: int, b: bool)
    ensures Disc(BoolT, VBool(b)) == (if b then "1" else "0")
    ensures 0 <= i < TWO_63 ==> Disc(UintT(w), VInt(i)) == Disc(IntT(w), VInt(i)) == Disc(HyperT, VInt(i)) == Disc(UhyperT, VInt(i)) == Itoa(i)
    ensures -TWO_63 <= i < 0 ==> Disc(IntT(w), VInt(i)) == Disc(HyperT, VInt(i)) == Itoa(i)
    ensures TWO_63 <= i < TWO_64 ==> Disc(UhyperT, VInt(i)) == Itoa(i - TWO_64)
  {
  }

  // ---------------------------------------------------------------- unselected arms, at every depth

  /** In every structure of the value, each arm that the discriminant in force does not select is zero. */
  predicate ArmsZero(env: Env, s: Schema, v: Value)
    requires EnvGuarded(env) && Guarded(env, s) && HasType(env, s, v)
    decreases v, 2
  {
    match s
    case FixedArrayT(_, elem) => EachArmsZero(env, elem, v.vs)
    case SliceT(elem) => EachArmsZero(env, elem, v.vs)
    case StructT(fields) => FieldArmsZero(env, fields, v.fs, "")
    case _ => true
  }

  predicate EachArmsZero(env: Env, elem: Schema, vs: seq<Value>)
    requires EnvGuarded(env) && Guarded(env, elem) && AllType(env, elem, vs)
    decreases vs, 0
  {
    vs == [] || (ArmsZero(env, elem, vs[0]) && EachArmsZero(env, elem, vs[1..]))
  }

  predicate FieldArmsZero(env: Env, fields: seq<Field>, vs: seq<Value>, u: string)
    requires EnvGuarded(env) && FieldsType(env, fields, vs) && FieldsGuarded(env, fields)
    decreases vs, 0
  {
    fields == [] ||
    (ArmZero(env, fields[0], vs[0], u) && FieldArmsZero(env, fields[1..], vs[1..], FieldUnion(env, fields[0], vs[0], u)))
  }

  /** A present optional field is judged behind its pointer. */
  predicate ArmZero(env: Env, f: Field, v: Value, u: string)
    requires EnvGuarded(env) && FieldGuarded(env, f) && HasType(env, f.schema, v)
    decreases v, 4
  {
    if !f.schema.PtrT? then BodyZero(env, f.tag, f.schema, v, u)
    else v.VNil? || BodyZero(env, f.tag, env[f.schema.target], v.to, u)
  }

  predicate BodyZero(env: Env, tag: string, s: Schema, v: Value, u: string)
    requires EnvGuarded(env) && Guarded(env, s) && HasType(env, s, v)
    decreases v, 3
  {
    if Selected(tag, u) || Elementwise(tag, s) then ArmsZero(env, s, v) else IsZero(s, v)
  }

  lemma {:induction false} NormArmsZero(env: Env, s: Schema, v: Value)
    requires Good(env, s) && HasType(env, s, v)
    ensures HasType(env, s, Norm(env, s, v)) && ArmsZero(env, s, Norm(env, s, v))
    decreases v, 2
  {
    NormAlike(env, s, v, false);
    match s
    case FixedArrayT(_, elem) => NormEachZero(env, elem, v.vs);
    case SliceT(elem) => NormEachZero(env, elem, v.vs);
    case StructT(fields) => NormFieldsZero(env, fields, v.fs, "");
    case _ =>
  }

  lemma {:induction false} NormEachZero(env: Env, elem: Schema, vs: seq<Value>)
    requires Good(env, elem) && AllType(env, elem, vs)
    ensures AllType(env, elem, NormEach(env, elem, vs)) && EachArmsZero(env, elem, NormEach(env, elem, vs))
    decreases vs, 0
  {
    EachAlike(env, elem, vs);
    if vs != [] {
      NormArmsZero(env, elem, vs[0]);
      NormEachZero(env, elem, vs[1..]);
      assert NormEach(env, elem, vs)[1..] == NormEach(env, elem, vs[1..]);
    }
  }

  lemma {:induction false} NormFieldsZero(env: Env, fields: seq<Field>, vs: seq<Value>, u: string)
    requires FieldsGood(env, fields) && FieldsType(env, fields, vs)
    ensures FieldsType(env, fields, NormFields(env, fields, vs, u)) && FieldArmsZero(env, fields, NormFields(env, fields, vs, u), u)
    decreases vs, 0
  {
    FieldsAlike(env, fields, vs, u);
    if fields != [] {
      FieldsTail(env, fields);
      var w := FieldUnion(env, fields[0], vs[0], u);
      FieldAlike(env, fields[0], vs[0], u);
      NormFieldZero(env, fields[0], vs[0], u);
      NormFieldsZero(env, fields[1..], vs[1..], w);
      ZeroCons(env, fields, NormField(env, fields[0], vs[0], u), NormFields(env, fields[1..], vs[1..], w), u);
    }
  }

  lemma ZeroCons(env: Env, fields: seq<Field>, v: Value, vs: seq<Value>, u: string)
    requires EnvGuarded(env) && FieldsGuarded(env, fields) && fields != [] && HasType(env, fields[0].schema, v)
    requires FieldsType(env, fields[1..], vs) && FieldsType(env, fields, [v] + vs)
    requires ArmZero(env, fields[0], v, u) && FieldArmsZero(env, fields[1..], vs, FieldUnion(env, fields[0], v, u))
    ensures FieldArmsZero(env, fields, [v] + vs, u)
  {
    hide ArmZero, FieldUnion;
    assert ([v] + vs)[1..] == vs;
  }

  lemma {:induction false} NormFieldZero(env: Env, f: Field, v: Value, u: string)
    requires WellFormed(env) && FieldGuarded(env, f) && FieldSound(env, f) && HasType(env, f.schema, v)
    ensures HasType(env, f.schema, NormField(env, f, v, u)) && ArmZero(env, f, NormField(env, f, v, u), u)
    decreases v, 4
  {
    if !f.schema.PtrT? {
      NormBodyZero(env, f.tag, f.schema, v, u);
    } else if v.VPtr? {
      NormBodyZero(env, f.tag, env[f.schema.target], v.to, u);
    }
  }

  lemma {:induction false} NormBodyZero(env: Env, tag: string, s: Schema, v: Value, u: string)
    requires Good(env, s) && HasType(env, s, v)
    ensures HasType(env, s, NormBody(env, tag, s, v, u)) && BodyZero(env, tag, s, NormBody(env, tag, s, v, u), u)
    decreases v, 3
  {
    if Elementwise(tag, s) || Selected(tag, u) {
      NormArmsZero(env, s, v);
    } else {
      ZeroType(env, s);
      ZeroIsZero(s);
    }
  }

  /** Whatever octets are decoded, every arm that was not on the wire is zero in the result, at every depth. */
  lemma DecodedArmsZero(env: Env, lim: nat, s: Schema, ignoreOpaque: bool, input: seq<byte>)
    requires Good(env, s) && Dec(env, lim, s, ignoreOpaque, input).Ok?
    ensures var v := Dec(env, lim, s, ignoreOpaque, input).v;
            HasType(env, s, v) && ArmsZero(env, s, v)
  {
    Rendered(env, lim, s, ignoreOpaque, input);
    NormArmsZero(env, s, Dec(env, lim, s, ignoreOpaque, input).v);
  }
}

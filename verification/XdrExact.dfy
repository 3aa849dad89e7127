/** What the wire keeps of a value is itself a value with the same encoding, so the round trip is exact. */
module XdrExact {
  import opened Bytes
  import opened XdrTag
  import opened Xdr
  import opened XdrLaws

  /** r is a value of the same type that puts the same items on the wire. */
  ghost predicate Alike(env: Env, s: Schema, v: Value, r: Value, ignoreOpaque: bool)
    requires EnvGuarded(env) && Guarded(env, s) && HasType(env, s, v)
  {
    HasType(env, s, r) && Atoms(env, s, r, ignoreOpaque) == Atoms(env, s, v, ignoreOpaque)
  }

  lemma {:induction false} NormAlike(env: Env, s: Schema, v: Value, ignoreOpaque: bool)
    requires Good(env, s) && HasType(env, s, v)
    ensures Alike(env, s, v, Norm(env, s, v), ignoreOpaque)
    decreases v, 2
  {
    match s
    case FixedArrayT(_, elem) =>
      ElemsAlike(env, elem, v.vs, ignoreOpaque);
    case SliceT(elem) =>
      ElemsAlike(env, elem, v.vs, ignoreOpaque);
    case StructT(fields) =>
      FieldsAlike(env, fields, v.fs, "");
    case _ =>
  }

  lemma {:induction false} ElemsAlike(env: Env, elem: Schema, vs: seq<Value>, ignoreOpaque: bool)
    requires Good(env, elem) && AllType(env, elem, vs)
    ensures var r := NormEach(env, elem, vs);
            && |r| == |vs| && AllType(env, elem, r)
            && AtomsElems(env, elem, r, ignoreOpaque) == AtomsElems(env, elem, vs, ignoreOpaque)
    decreases vs, 1
  {
    EachAlike(env, elem, vs);
    if !ignoreOpaque && elem == UintT(W8) {
      NormOctets(env, vs);
    }
  }

  lemma {:induction false} EachAlike(env: Env, elem: Schema, vs: seq<Value>)
    requires Good(env, elem) && AllType(env, elem, vs)
    ensures var r := NormEach(env, elem, vs);
            |r| == |vs| && AllType(env, elem, r) && AtomsEach(env, elem, r) == AtomsEach(env, elem, vs)
    decreases vs, 0
  {
    if vs != [] {
      NormAlike(env, elem, vs[0], false);
      EachAlike(env, elem, vs[1..]);
      TypedEachCons(env, elem, Norm(env, elem, vs[0]), NormEach(env, elem, vs[1..]));
    }
  }

  lemma {:induction false} FieldsAlike(env: Env, fields: seq<Field>, vs: seq<Value>, union: string)
    requires FieldsGood(env, fields) && FieldsType(env, fields, vs)
    ensures var r := NormFields(env, fields, vs, union);
            FieldsType(env, fields, r) && AtomsFields(env, fields, r, union) == AtomsFields(env, fields, vs, union)
    decreases vs, 0
  {
    if fields != [] {
      FieldsTail(env, fields);
      var u := FieldUnion(env, fields[0], vs[0], union);
      FieldAlike(env, fields[0], vs[0], union);
      FieldsAlike(env, fields[1..], vs[1..], u);
      TypedCons(env, fields, NormField(env, fields[0], vs[0], union), NormFields(env, fields[1..], vs[1..], u), union);
    }
  }

  lemma {:induction false} FieldAlike(env: Env, f: Field, v: Value, union: string)
    requires WellFormed(env) && FieldGuarded(env, f) && FieldSound(env, f) && HasType(env, f.schema, v)
    ensures var r := NormField(env, f, v, union);
            && HasType(env, f.schema, r) && AtomsField(env, f, r, union) == AtomsField(env, f, v, union)
            && FieldUnion(env, f, r, union) == FieldUnion(env, f, v, union)
    decreases v, 4
  {
    if !f.schema.PtrT? {
      BodyAlike(env, f.tag, f.schema, v, union);
    } else if v.VPtr? {
      BodyAlike(env, f.tag, env[f.schema.target], v.to, union);
    }
  }

  lemma {:induction false} BodyAlike(env: Env, tag: string, s: Schema, v: Value, union: string)
    requires Good(env, s) && HasType(env, s, v) && TagSound(tag, s)
    requires IsUnion(tag) ==> Get(tag, "unioncase") == "" && Get(tag, "unionnotcase") == ""
    ensures var r := NormBody(env, tag, s, v, union);
            && HasType(env, s, r) && AtomsBody(env, tag, s, r, union) == AtomsBody(env, tag, s, v, union)
            && EncUnion(env, tag, s, r, union) == EncUnion(env, tag, s, v, union)
    decreases v, 3
  {
    if Elementwise(tag, s) {
      NormAlike(env, s, v, true);
    } else if Selected(tag, union) {
      NormAlike(env, s, v, false);
    } else {
      ZeroType(env, s);
    }
  }

  /** Zeroing the unselected arms changes nothing on the wire. */
  lemma NormEncodesAlike(env: Env, s: Schema, v: Value)
    requires Good(env, s) && HasType(env, s, v)
    ensures HasType(env, s, Norm(env, s, v)) && Enc(env, s, Norm(env, s, v), false) == Enc(env, s, v, false)
  {
    NormAlike(env, s, v, false);
    EncIsCanon(env, s, v, false);
    EncIsCanon(env, s, Norm(env, s, v), false);
  }

  /** A value comes back from its encoding exactly when everything it puts on the wire fits there. */
  lemma RoundTripIff(env: Env, lim: nat, s: Schema, v: Value, tail: seq<byte>)
    requires Good(env, s) && HasType(env, s, v)
    ensures var e := Enc(env, s, v, false);
            Dec(env, lim, s, false, e.bytes + tail) == Ok(Norm(env, s, v), |e.bytes|) <==> AllFit(lim, Atoms(env, s, v, false))
  {
    var e := Enc(env, s, v, false);
    if AllFit(lim, Atoms(env, s, v, false)) {
      RoundTrip(env, lim, s, v, tail);
    }
    if Dec(env, lim, s, false, e.bytes + tail) == Ok(Norm(env, s, v), |e.bytes|) {
      Rendered(env, lim, s, false, e.bytes + tail);
      NormAlike(env, s, v, false);
      RendersFit(lim, Atoms(env, s, Norm(env, s, v), false), (e.bytes + tail)[..|e.bytes|]);
    }
  }

  /** Two values that fit have one encoding exactly when the wire keeps the same of both. */
  lemma SameEncodingIff(env: Env, s: Schema, v: Value, w: Value)
    requires Good(env, s) && HasType(env, s, v) && HasType(env, s, w)
    requires AllFit(0, Atoms(env, s, v, false)) && AllFit(0, Atoms(env, s, w, false))
    ensures Enc(env, s, v, false) == Enc(env, s, w, false) <==> Norm(env, s, v) == Norm(env, s, w)
  {
    NormEncodesAlike(env, s, v);
    NormEncodesAlike(env, s, w);
    if Enc(env, s, v, false) == Enc(env, s, w, false) {
      PrefixFree(env, s, v, w);
    }
  }

  // ---------------------------------------------------------------- a field that is discriminant and arm at once

  lemma ScalarFacts(env: Env, lim: nat, tag: string, s: Schema, v: Value, tail: seq<byte>)
    requires WellFormed(env) && Discriminable(s) && HasType(env, s, v) && AllFit(lim, Atoms(env, s, v, false))
    ensures !Elementwise(tag, s) && Norm(env, s, v) == v
    ensures var e := Enc(env, s, v, false);
            e.err == None && |e.bytes| >= 4 && Dec(env, lim, s, false, e.bytes + tail) == Ok(v, |e.bytes|)
    ensures var d := Dec(env, lim, s, false, tail); d.Ok? ==> d.n >= 4
  {
    RoundTrip(env, lim, s, v, tail);
  }

  /** The encoder sets the discriminant before it looks at the labels of the same field, the decoder after. Whatever the
      tag, the value and the discriminant u in force, the two sides agree on the length exactly when the labels select
      the field under u as they do under the value itself. */
  lemma DiscriminantArmLength(env: Env, lim: nat, tag: string, s: Schema, v: Value, u: string, tail: seq<byte>)
    requires WellFormed(env) && Discriminable(s) && HasType(env, s, v) && AllFit(lim, Atoms(env, s, v, false)) && IsUnion(tag)
    ensures var e, d := EncBody(env, tag, s, v, u), DecBody(env, lim, tag, s, u, EncBody(env, tag, s, v, u).bytes + tail);
            && e.err == None
            && (d.Ok? && d.n == |e.bytes| <==> (Selected(tag, u) <==> Selected(tag, Disc(s, v))))
  {
    ScalarFacts(env, lim, tag, s, v, tail);
    assert [] + tail == tail;
  }

  /** Such a field on its own, labelled c, survives the round trip for the value c and for no other. */
  lemma DiscriminantArmIff(env: Env, c: int, v: int, tail: seq<byte>)
    requires WellFormed(env) && -TWO_31 <= v < TWO_31
    ensures var s := StructT([Field("union,unioncase=" + Itoa(c), IntT(W32))]);
            && Guarded(env, s) && HasType(env, s, VStruct([VInt(v)]))
            && var e := Enc(env, s, VStruct([VInt(v)]), false);
            && e.err == None
            && (Dec(env, 0, s, false, e.bytes + tail) == Ok(VStruct([VInt(v)]), |e.bytes|) <==> v == c)
  {
    var tag := "union,unioncase=" + Itoa(c);
    var f := Field(tag, IntT(W32));
    var fields, vs := [f], [VInt(v)];
    BothTag(Itoa(c));
    ScalarFacts(env, 0, tag, IntT(W32), VInt(v), tail);
    DiscriminantArmLength(env, 0, tag, IntT(W32), VInt(v), "", tail);
    if v != c && Itoa(v) == Itoa(c) {
      ItoaInjective(v, c);
    }
    OneFieldEnc(env, f, VInt(v));
    OneFieldDec(env, f, EncField(env, f, VInt(v), "").bytes + tail);
  }

  lemma OneFieldEnc(env: Env, f: Field, v: Value)
    requires WellFormed(env) && FieldGuarded(env, f) && HasType(env, f.schema, v)
    ensures FieldsType(env, [f], [v]) && FieldsGuarded(env, [f])
    ensures Enc(env, StructT([f]), VStruct([v]), false) == EncField(env, f, v, "")
  {
    hide EncField, FieldUnion;
    var fields, vs, e := [f], [v], EncField(env, f, v, "");
    assert fields[1..] == [] && vs[1..] == [];
    var u := FieldUnion(env, f, v, "");
    assert EncFields(env, fields[1..], vs[1..], u) == Out([]);
    assert e.bytes + [] == e.bytes;
    assert EncFields(env, fields, vs, "") == Then(e, Out([]));
  }

  lemma OneFieldDec(env: Env, f: Field, input: seq<byte>)
    requires WellFormed(env) && FieldGuarded(env, f)
    ensures Guarded(env, StructT([f]))
    ensures var d := DecField(env, 0, f, "", input);
            Dec(env, 0, StructT([f]), false, input) == if d.Ok? then Ok(VStruct([d.v.v]), d.n) else Err(d.code, d.n)
  {
    var fields := [f];
    assert fields[1..] == [];
    var d := DecField(env, 0, f, "", input);
    if d.Ok? {
      NoFields(env, d.v.union, input[d.n..]);
      FieldsCons(env, 0, fields, "", input, d.v, d.n, [], 0);
      assert [d.v.v] + [] == [d.v.v];
    }
  }

  lemma NoFields(env: Env, union: string, input: seq<byte>)
    requires EnvGuarded(env)
    ensures DecFields(env, 0, [], union, input) == Ok([], 0)
  {
  }

  lemma BothTag(n: string)
    requires ',' !in n && n != ""
    ensures var tag := "union,unioncase=" + n;
            && IsUnion(tag) && !IsOptional(tag)
            && Get(tag, "unioncase") == n && Get(tag, "unionnotcase") == ""
  {
    var rest := "unioncase=" + n;
    var tag := "union," + rest;
    assert tag == "union,unioncase=" + n;
    assert tag[..5] == "union" && tag[5] == ',' && tag[6..] == rest;
    CommaAt(tag, 5);
    CaseTag(n);
    CutItem(tag, "union");
    CutItem(tag, "optional");
    CutItem(tag, "unioncase");
    CutItem(tag, "unionnotcase");
  }
}

/** The octets of a value, part by part, as the tables of RFC 4506 draw them. */
module XdrWire {
  import opened Bytes
  import opened XdrTag
  import opened Xdr
  import opened XdrLaws
  import opened XdrStructs
  import opened XdrSizes

  /** What the encoder writes for a value. */
  function Wire(env: Env, s: Schema, v: Value): (bs: seq<byte>)
    requires EnvGuarded(env) && Guarded(env, s) && HasType(env, s, v)
  {
    Canon(Atoms(env, s, v, false))
  }

  lemma WireIsEnc(env: Env, s: Schema, v: Value)
    requires Good(env, s) && HasType(env, s, v)
    ensures Enc(env, s, v, false) == Out(Wire(env, s, v)) && |Wire(env, s, v)| == Size(Atoms(env, s, v, false))
  {
    EncIsCanon(env, s, v, false);
  }

  // ---------------------------------------------------------------- big-endian words

  /** Most significant octet first. */
  lemma BigEndian()
    ensures Put32(0x0102_0304) == [1, 2, 3, 4] && Get32([1, 2, 3, 4]) == 0x0102_0304
    ensures Put64(0x0102_0304_0506_0708) == [1, 2, 3, 4, 5, 6, 7, 8] && Get64([1, 2, 3, 4, 5, 6, 7, 8]) == 0x0102_0304_0506_0708
    ensures Put32(-1) == [255, 255, 255, 255] && GetInt32([255, 255, 255, 255]) == -1
  {
  }

  // ---------------------------------------------------------------- scalars, strings, octets

  lemma WordWire(env: Env, s: Schema, i: int)
    requires EnvGuarded(env) && (s.IntT? || s.UintT?) && HasType(env, s, VInt(i))
    ensures Wire(env, s, VInt(i)) == Put32(i)
  {
    CanonOne(if s.IntT? then SWord(i) else UWord(i));
  }

  lemma HyperWire(env: Env, s: Schema, i: int)
    requires EnvGuarded(env) && (s.HyperT? || s.UhyperT?) && HasType(env, s, VInt(i))
    ensures Wire(env, s, VInt(i)) == Put64(i)
  {
    CanonOne(Long(i));
  }

  lemma BoolWire(env: Env, b: bool)
    requires EnvGuarded(env)
    ensures HasType(env, BoolT, VBool(b)) && Wire(env, BoolT, VBool(b)) == Put32(if b then 1 else 0)
  {
    CanonOne(UWord(if b then 1 else 0));
  }

  lemma CountedWire(bs: seq<byte>)
    ensures Canon([Count(|bs|), Opaque(bs)]) == Put32(|bs|) + (bs + Zeros(Pad(|bs|)))
  {
    CanonOne(Count(|bs|));
    CanonOne(Opaque(bs));
    SizeConcat([Count(|bs|)], [Opaque(bs)]);
    assert [Count(|bs|)] + [Opaque(bs)] == [Count(|bs|), Opaque(bs)];
  }

  /** A string: its length, its octets, and zeros up to a multiple of four. */
  lemma StringWire(env: Env, bs: seq<byte>)
    requires EnvGuarded(env)
    ensures HasType(env, StringT, VStr(bs)) && Wire(env, StringT, VStr(bs)) == Put32(|bs|) + (bs + Zeros(Pad(|bs|)))
  {
    CountedWire(bs);
  }

  lemma OctetsTyped(env: Env, bs: seq<byte>)
    ensures AllType(env, UintT(W8), OctetValues(bs)) && Octets(OctetValues(bs)) == bs
  {
    var vs := OctetValues(bs);
    forall i | 0 <= i < |vs| ensures HasType(env, UintT(W8), vs[i]) { }
    assert Octets(vs) == bs;
  }

  /** A slice of octets is variable-length opaque data, an array of them fixed-length opaque data. */
  lemma OpaqueWire(env: Env, bs: seq<byte>)
    requires EnvGuarded(env)
    ensures Guarded(env, SliceT(UintT(W8))) && HasType(env, SliceT(UintT(W8)), VList(OctetValues(bs)))
    ensures Wire(env, SliceT(UintT(W8)), VList(OctetValues(bs))) == Put32(|bs|) + (bs + Zeros(Pad(|bs|)))
  {
    OctetsTyped(env, bs);
    var vs := OctetValues(bs);
    assert AtomsElems(env, UintT(W8), vs, false) == [Opaque(bs)];
    CountedWire(bs);
    assert [Count(|vs|)] + [Opaque(bs)] == [Count(|bs|), Opaque(bs)];
  }

  lemma FixedOpaqueWire(env: Env, bs: seq<byte>)
    requires EnvGuarded(env) && |bs| <= MAX_INT32
    ensures var s := FixedArrayT(|bs|, UintT(W8));
            && Guarded(env, s) && HasType(env, s, VList(OctetValues(bs)))
            && Wire(env, s, VList(OctetValues(bs))) == bs + Zeros(Pad(|bs|))
  {
    OctetsTyped(env, bs);
    assert AtomsElems(env, UintT(W8), OctetValues(bs), false) == [Opaque(bs)];
    CanonOne(Opaque(bs));
  }

  /** With opaque=false the octets of a slice go out one word each, behind their count. */
  lemma {:induction false} ElementwiseWire(env: Env, bs: seq<byte>)
    requires EnvGuarded(env)
    ensures AllType(env, UintT(W8), OctetValues(bs))
    ensures Canon(AtomsEach(env, UintT(W8), OctetValues(bs))) == WordsOf(bs)
  {
    OctetsTyped(env, bs);
    var vs := OctetValues(bs);
    if bs != [] {
      assert vs[1..] == OctetValues(bs[1..]);
      ElementwiseWire(env, bs[1..]);
      SizeConcat(Atoms(env, UintT(W8), vs[0], false), AtomsEach(env, UintT(W8), vs[1..]));
      WordWire(env, UintT(W8), bs[0] as int);
    }
  }

  function WordsOf(bs: seq<byte>): (ws: seq<byte>)
    ensures |ws| == 4 * |bs|
  {
    if bs == [] then [] else Put32(bs[0] as int) + WordsOf(bs[1..])
  }

  lemma OpaqueFalseTag()
    ensures Get("opaque=false", "opaque") == "false" && !IsOptional("opaque=false") && !IsUnion("opaque=false")
  {
    hide Get, Items, FirstValue;
    var t := "opaque=false";
    SingleItem(t, "opaque");
    SingleItem(t, "optional");
    SingleItem(t, "union");
    assert t[..6] == "opaque" && t[7..] == "false";
  }

  lemma OpaqueFalseWire(env: Env, bs: seq<byte>, union: string)
    requires EnvGuarded(env)
    ensures var f := Field("opaque=false", SliceT(UintT(W8)));
            && FieldGuarded(env, f) && HasType(env, f.schema, VList(OctetValues(bs)))
            && Canon(AtomsField(env, f, VList(OctetValues(bs)), union)) == Put32(|bs|) + WordsOf(bs)
  {
    OpaqueFalseTag();
    ElementwiseWire(env, bs);
    var each := AtomsEach(env, UintT(W8), OctetValues(bs));
    OpaqueFalseAtoms(env, OctetValues(bs), union);
    CanonOne(Count(|bs|));
    SizeConcat([Count(|bs|)], each);
  }

  lemma OpaqueFalseAtoms(env: Env, vs: seq<Value>, union: string)
    requires EnvGuarded(env) && AllType(env, UintT(W8), vs)
    requires Get("opaque=false", "opaque") == "false" && !IsOptional("opaque=false")
    ensures var f := Field("opaque=false", SliceT(UintT(W8)));
            && FieldGuarded(env, f) && HasType(env, f.schema, VList(vs))
            && AtomsField(env, f, VList(vs), union) == [Count(|vs|)] + AtomsEach(env, UintT(W8), vs)
  {
    hide Get, AtomsEach;
    var f := Field("opaque=false", SliceT(UintT(W8)));
    assert Elementwise(f.tag, f.schema) && Guarded(env, UintT(W8)) && Guarded(env, f.schema) && HasType(env, f.schema, VList(vs));
    assert AtomsField(env, f, VList(vs), union) == Atoms(env, f.schema, VList(vs), true);
  }

  // ---------------------------------------------------------------- fields

  /** Under discriminant u a field puts these octets on the wire and leaves discriminant w. */
  ghost predicate FieldIs(env: Env, f: Field, v: Value, u: string, part: seq<byte>, w: string) {
    && EnvGuarded(env) && FieldGuarded(env, f) && HasType(env, f.schema, v)
    && Canon(AtomsField(env, f, v, u)) == part && FieldUnion(env, f, v, u) == w
  }

  /** Every field puts its part on the wire, the discriminants passing from one to the next. */
  ghost predicate FieldsAre(env: Env, fields: seq<Field>, vs: seq<Value>, us: seq<string>, parts: seq<seq<byte>>) {
    && |fields| == |vs| == |parts| && |us| == |fields| + 1
    && forall i :: 0 <= i < |fields| ==> FieldIs(env, fields[i], vs[i], us[i], parts[i], us[i + 1])
  }

  lemma {:induction false} PartsWire(env: Env, fields: seq<Field>, vs: seq<Value>, us: seq<string>, parts: seq<seq<byte>>)
    requires EnvGuarded(env) && FieldsGuarded(env, fields) && FieldsType(env, fields, vs) && FieldsAre(env, fields, vs, us, parts)
    ensures Canon(AtomsFields(env, fields, vs, us[0])) == Concat(parts)
    decreases |fields|
  {
    hide FieldIs;
    if fields != [] {
      assert FieldIs(env, fields[0], vs[0], us[0], parts[0], us[1]);
      FieldsTailWire(env, fields, vs, us[0], parts[0], us[1]);
      forall i | 0 <= i < |fields[1..]|
        ensures FieldIs(env, fields[1..][i], vs[1..][i], us[1..][i], parts[1..][i], us[1..][i + 1])
      {
        assert FieldIs(env, fields[i + 1], vs[i + 1], us[i + 1], parts[i + 1], us[i + 2]);
      }
      PartsWire(env, fields[1..], vs[1..], us[1..], parts[1..]);
    }
  }

  lemma FieldsTailWire(env: Env, fields: seq<Field>, vs: seq<Value>, u: string, part: seq<byte>, w: string)
    requires EnvGuarded(env) && FieldsGuarded(env, fields) && FieldsType(env, fields, vs) && fields != []
    requires FieldIs(env, fields[0], vs[0], u, part, w)
    ensures FieldsGuarded(env, fields[1..]) && FieldsType(env, fields[1..], vs[1..])
    ensures Canon(AtomsFields(env, fields, vs, u)) == part + Canon(AtomsFields(env, fields[1..], vs[1..], w))
  {
    FieldsSize(env, fields, vs, u);
    SizeConcat(AtomsField(env, fields[0], vs[0], u), AtomsFields(env, fields[1..], vs[1..], w));
  }

  /** A structure is its parts one after the other. */
  lemma StructWire(env: Env, fields: seq<Field>, vs: seq<Value>, us: seq<string>, parts: seq<seq<byte>>)
    requires FieldsGood(env, fields) && FieldsType(env, fields, vs) && FieldsAre(env, fields, vs, us, parts) && us[0] == ""
    ensures Good(env, StructT(fields)) && HasType(env, StructT(fields), VStruct(vs))
    ensures Wire(env, StructT(fields), VStruct(vs)) == Concat(parts)
  {
    hide FieldsAre, FieldIs;
    FieldsOfGood(env, fields);
    PartsWire(env, fields, vs, us, parts);
  }

  /** An untagged field. */
  lemma PlainIs(env: Env, s: Schema, v: Value, u: string)
    requires WellFormed(env) && Guarded(env, s) && HasType(env, s, v)
    ensures FieldIs(env, Field("", s), v, u, Wire(env, s, v), u)
  {
    hide Atoms;
    PlainFieldAtoms(env, s, v, u);
  }

  /** Structures without tags. */
  lemma PlainWire(env: Env, fields: seq<Field>, vs: seq<Value>, parts: seq<seq<byte>>)
    requires FieldsGood(env, fields) && FieldsType(env, fields, vs) && |fields| == |vs| == |parts|
    requires forall i :: 0 <= i < |fields| ==>
               && fields[i].tag == "" && Guarded(env, fields[i].schema) && HasType(env, fields[i].schema, vs[i])
               && Wire(env, fields[i].schema, vs[i]) == parts[i]
    ensures Good(env, StructT(fields)) && HasType(env, StructT(fields), VStruct(vs))
    ensures Wire(env, StructT(fields), VStruct(vs)) == Concat(parts)
  {
    var us := seq(|fields| + 1, i => "");
    forall i | 0 <= i < |fields| ensures FieldIs(env, fields[i], vs[i], us[i], parts[i], us[i + 1]) {
      assert fields[i] == Field("", fields[i].schema);
      PlainIs(env, fields[i].schema, vs[i], "");
    }
    hide FieldIs;
    StructWire(env, fields, vs, us, parts);
  }

  // ---------------------------------------------------------------- unions

  lemma DiscriminantIs(env: Env, s: Schema, d: int, u: string)
    requires WellFormed(env) && (s == IntT(W32) || s == UintT(W32)) && HasType(env, s, VInt(d))
    ensures FieldIs(env, Field("union", s), VInt(d), u, Put32(d), Itoa(d)) && FieldGood(env, Field("union", s))
  {
    UnionGood(env, s);
    PlainTagFacts();
    assert Wrap64(d) == d;
    WordWire(env, s, d);
    hide Atoms, Get, Put32, Itoa;
    assert AtomsField(env, Field("union", s), VInt(d), u) == Atoms(env, s, VInt(d), false);
  }

  /** The discriminant of a bool is 1 or 0. */
  lemma FlagIs(env: Env, b: bool, u: string)
    requires WellFormed(env)
    ensures FieldIs(env, Field("union", BoolT), VBool(b), u, Put32(if b then 1 else 0), Itoa(if b then 1 else 0))
    ensures FieldGood(env, Field("union", BoolT))
  {
    UnionGood(env, BoolT);
    PlainTagFacts();
    BoolWire(env, b);
    assert Itoa(1) == "1" && Itoa(0) == "0";
    hide Atoms, Get, Put32, Itoa;
    assert AtomsField(env, Field("union", BoolT), VBool(b), u) == Atoms(env, BoolT, VBool(b), false);
  }

  /** A field with case labels and nothing else. */
  lemma ArmIs(env: Env, tag: string, s: Schema, v: Value, u: string)
    requires Good(env, s) && HasType(env, s, v)
    requires !IsUnion(tag) && !IsOptional(tag) && Get(tag, "opaque") == ""
    ensures FieldIs(env, Field(tag, s), v, u, if Selected(tag, u) then Wire(env, s, v) else [], u)
  {
    assert !s.PtrT? && !Elementwise(tag, s);
    hide Atoms, Get, Selected, Elementwise;
    var atoms := AtomsField(env, Field(tag, s), v, u);
    assert atoms == AtomsBody(env, tag, s, v, u);
    assert atoms == if Selected(tag, u) then Atoms(env, s, v, false) else [];
  }

  lemma CaseIs(env: Env, arm: int, s: Schema, v: Value, d: int)
    requires Good(env, s) && HasType(env, s, v)
    ensures FieldIs(env, Field(Case(arm), s), v, Itoa(d), if arm == d then Wire(env, s, v) else [], Itoa(d))
    ensures FieldGood(env, Field(Case(arm), s))
  {
    CaseGood(env, arm, s);
    CaseTagFacts(arm);
    CaseSelects(arm, d);
    hide FieldIs, Wire, Selected, Itoa;
    ArmIs(env, Case(arm), s, v, Itoa(d));
  }

  lemma NotCaseIs(env: Env, arm: int, s: Schema, v: Value, d: int)
    requires Good(env, s) && HasType(env, s, v)
    ensures FieldIs(env, Field(NotCase(arm), s), v, Itoa(d), if arm != d then Wire(env, s, v) else [], Itoa(d))
    ensures FieldGood(env, Field(NotCase(arm), s))
  {
    CaseGood(env, arm, s);
    CaseTagFacts(arm);
    NotCaseSelects(arm, d);
    hide FieldIs, Wire, Selected, Itoa;
    ArmIs(env, NotCase(arm), s, v, Itoa(d));
  }

  lemma AreNil(env: Env, u: string)
    ensures FieldsAre(env, [], [], [u], [])
  {
  }

  lemma AreCons(env: Env, f: Field, fields: seq<Field>, v: Value, vs: seq<Value>, u: string, us: seq<string>,
                part: seq<byte>, parts: seq<seq<byte>>)
    requires FieldsAre(env, fields, vs, us, parts) && FieldIs(env, f, v, u, part, us[0])
    ensures FieldsAre(env, [f] + fields, [v] + vs, [u] + us, [part] + parts)
  {
    hide FieldIs;
    var fs, ws, xs, ps := [f] + fields, [v] + vs, [u] + us, [part] + parts;
    forall i | 0 <= i < |fs| ensures FieldIs(env, fs[i], ws[i], xs[i], ps[i], xs[i + 1]) {
      if i > 0 {
        assert FieldIs(env, fields[i - 1], vs[i - 1], us[i - 1], parts[i - 1], us[i]);
      }
    }
  }

  /** A discriminant that the two fields behind it keep. */
  lemma ThreeAre(env: Env, f: Field, g: Field, h: Field, x: Value, v: Value, w: Value, u: string, d: string,
                 a: seq<byte>, b: seq<byte>, c: seq<byte>)
    requires FieldIs(env, f, x, u, a, d) && FieldIs(env, g, v, d, b, d) && FieldIs(env, h, w, d, c, d)
    ensures FieldsAre(env, [f, g, h], [x, v, w], [u, d, d, d], [a, b, c])
  {
    hide FieldIs, FieldsAre;
    AreNil(env, d);
    AreCons(env, h, [], w, [], d, [d], c, []);
    assert [h] + [] == [h] && [w] + [] == [w] && [d] + [d] == [d, d] && [c] + [] == [c];
    AreCons(env, g, [h], v, [w], d, [d, d], b, [c]);
    assert [g] + [h] == [g, h] && [v] + [w] == [v, w] && [d] + [d, d] == [d, d, d] && [b] + [c] == [b, c];
    AreCons(env, f, [g, h], x, [v, w], u, [d, d, d], a, [b, c]);
    assert [f] + [g, h] == [f, g, h] && [x] + [v, w] == [x, v, w] && [u] + [d, d, d] == [u, d, d, d] && [a] + [b, c] == [a, b, c];
  }

  lemma TwoAre(env: Env, f: Field, g: Field, v: Value, w: Value, u: string, d: string, a: seq<byte>, b: seq<byte>)
    requires FieldIs(env, f, v, u, a, d) && FieldIs(env, g, w, d, b, d)
    ensures FieldsAre(env, [f, g], [v, w], [u, d, d], [a, b])
    ensures Concat([a, b]) == a + b
  {
    hide FieldIs, FieldsAre;
    AreNil(env, d);
    AreCons(env, g, [], w, [], d, [d], b, []);
    assert [g] + [] == [g] && [w] + [] == [w] && [d] + [d] == [d, d] && [b] + [] == [b];
    AreCons(env, f, [g], v, [w], u, [d, d], a, [b]);
    assert [f] + [g] == [f, g] && [v] + [w] == [v, w] && [u] + [d, d] == [u, d, d] && [a] + [b] == [a, b];
    ConcatCons(a, [b]);
    ConcatOne(b);
  }

  /** A field that leaves the discriminant alone in front of three others. */
  lemma FourAre(env: Env, e: Field, f: Field, g: Field, h: Field, z: Value, x: Value, v: Value, w: Value, u: string, d: string,
                p: seq<byte>, a: seq<byte>, b: seq<byte>, c: seq<byte>)
    requires FieldIs(env, e, z, u, p, u)
    requires FieldIs(env, f, x, u, a, d) && FieldIs(env, g, v, d, b, d) && FieldIs(env, h, w, d, c, d)
    ensures FieldsAre(env, [e, f, g, h], [z, x, v, w], [u, u, d, d, d], [p, a, b, c])
  {
    hide FieldIs, FieldsAre;
    ThreeAre(env, f, g, h, x, v, w, u, d, a, b, c);
    AreCons(env, e, [f, g, h], z, [x, v, w], u, [u, d, d, d], p, [a, b, c]);
    assert [e] + [f, g, h] == [e, f, g, h] && [z] + [x, v, w] == [z, x, v, w];
    assert [u] + [u, d, d, d] == [u, u, d, d, d] && [p] + [a, b, c] == [p, a, b, c];
  }

  /** The discriminant, then the arm it selects, if any. */
  lemma Union3Wire(env: Env, m: int, s: Schema, n: int, t: Schema, d: int, v: Value, w: Value)
    requires Good(env, s) && Good(env, t) && HasType(env, s, v) && HasType(env, t, w) && -TWO_31 <= d < TWO_31
    ensures Good(env, Union3(m, s, n, t)) && HasType(env, Union3(m, s, n, t), VStruct([VInt(d), v, w]))
    ensures Wire(env, Union3(m, s, n, t), VStruct([VInt(d), v, w])) ==
            Concat([Put32(d), if m == d then Wire(env, s, v) else [], if n == d then Wire(env, t, w) else []])
  {
    hide FieldIs, FieldsAre, Wire, Put32, Itoa, FieldsGood, FieldsType, FieldGood, Concat;
    Union3Good(env, m, s, n, t);
    Union3Typed(env, m, s, n, t, d, v, w);
    Union3Are(env, m, s, n, t, d, v, w, "");
    StructWire(env, Union3(m, s, n, t).fields, [VInt(d), v, w], ["", Itoa(d), Itoa(d), Itoa(d)],
               [Put32(d), if m == d then Wire(env, s, v) else [], if n == d then Wire(env, t, w) else []]);
  }

  lemma Union3Are(env: Env, m: int, s: Schema, n: int, t: Schema, d: int, v: Value, w: Value, u: string)
    requires Good(env, s) && Good(env, t) && HasType(env, s, v) && HasType(env, t, w) && -TWO_31 <= d < TWO_31
    ensures FieldsAre(env, Union3(m, s, n, t).fields, [VInt(d), v, w], [u, Itoa(d), Itoa(d), Itoa(d)],
                      [Put32(d), if m == d then Wire(env, s, v) else [], if n == d then Wire(env, t, w) else []])
  {
    DiscriminantIs(env, IntT(W32), d, u);
    CaseIs(env, m, s, v, d);
    CaseIs(env, n, t, w, d);
    hide FieldIs, FieldsAre, Wire, Put32, Itoa, FieldGood;
    ThreeAre(env, Field("union", IntT(W32)), Field(Case(m), s), Field(Case(n), t), VInt(d), v, w, u, Itoa(d),
             Put32(d), if m == d then Wire(env, s, v) else [], if n == d then Wire(env, t, w) else []);
  }

  /** The same behind one plain field. */
  lemma Union4Wire(env: Env, p: Schema, m: int, s: Schema, n: int, t: Schema, x: Value, d: int, v: Value, w: Value)
    requires Good(env, p) && Good(env, s) && Good(env, t) && -TWO_31 <= d < TWO_31
    requires HasType(env, p, x) && HasType(env, s, v) && HasType(env, t, w)
    ensures Good(env, Union4(p, m, s, n, t)) && HasType(env, Union4(p, m, s, n, t), VStruct([x, VInt(d), v, w]))
    ensures Wire(env, Union4(p, m, s, n, t), VStruct([x, VInt(d), v, w])) ==
            Concat([Wire(env, p, x), Put32(d), if m == d then Wire(env, s, v) else [], if n == d then Wire(env, t, w) else []])
  {
    hide FieldIs, FieldsAre, Wire, Put32, Itoa, FieldsGood, FieldsType, FieldGood, Concat;
    var a, b, c := Put32(d), if m == d then Wire(env, s, v) else [], if n == d then Wire(env, t, w) else [];
    var i := Itoa(d);
    Union4Good(env, p, m, s, n, t);
    Union4Typed(env, p, m, s, n, t, x, d, v, w);
    PlainIs(env, p, x, "");
    Union3Are(env, m, s, n, t, d, v, w, "");
    AreCons(env, Field("", p), Union3(m, s, n, t).fields, x, [VInt(d), v, w], "", ["", i, i, i], Wire(env, p, x), [a, b, c]);
    assert [Field("", p)] + Union3(m, s, n, t).fields == Union4(p, m, s, n, t).fields;
    assert [x] + [VInt(d), v, w] == [x, VInt(d), v, w] && [""] + ["", i, i, i] == ["", "", i, i, i];
    assert [Wire(env, p, x)] + [a, b, c] == [Wire(env, p, x), a, b, c];
    StructWire(env, Union4(p, m, s, n, t).fields, [x, VInt(d), v, w], ["", "", i, i, i], [Wire(env, p, x), a, b, c]);
  }
}

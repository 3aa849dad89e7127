/** nfs3/nfstypdef.go: the READDIR reply as an XDR schema, and the sizes its encodings have. */
module NfsTypes {
  import opened Bytes
  import opened XdrTag
  import opened Xdr
  import opened XdrLaws
  import opened XdrStructs
  import opened XdrFits
  import opened XdrSizes

  const READDIRRESOKSIZE := 104
  const ENTRY3SIZE := 24

  const NFSTIME3 := StructT([Field("", UintT(W32)), Field("", UintT(W32))])
  const SPECDATA3 := StructT([Field("", UintT(W32)), Field("", UintT(W32))])
  const FATTR3_FIELDS := [
    Field("", IntT(W32)), Field("", UintT(W32)), Field("", UintT(W32)), Field("", UintT(W32)), Field("", UintT(W32)),
    Field("", UhyperT), Field("", UhyperT), Field("", SPECDATA3), Field("", UhyperT), Field("", UhyperT),
    Field("", NFSTIME3), Field("", NFSTIME3), Field("", NFSTIME3)]
  const FATTR3 := StructT(FATTR3_FIELDS)
  const POST_OP_ATTR := Flagged(FATTR3)
  const COOKIEVERF3 := FixedArrayT(8, UintT(W8))
  const NEXT := Field("optional", PtrT("Entry3"))
  const ENTRY3 := StructT([Field("", UhyperT), Field("", StringT), Field("", UhyperT), NEXT])
  const DIRLIST3 := StructT([NEXT, Field("", BoolT)])
  const READDIR3RESOK := StructT([Field("", POST_OP_ATTR), Field("", COOKIEVERF3), Field("", DIRLIST3)])

  const NFS_ENV: Env := map["Entry3" := ENTRY3]

  // ---------------------------------------------------------------- the size of attributes

  lemma TimeWidth()
    ensures WidthOf(NFSTIME3) == WidthOf(SPECDATA3) == 8 && Rigid(NFSTIME3) && Rigid(SPECDATA3)
  {
    assert WidthFrom(NFSTIME3.fields, 2) == 0;
    assert WidthFrom(NFSTIME3.fields, 1) == 4;
    assert WidthFrom(SPECDATA3.fields, 2) == 0;
    assert WidthFrom(SPECDATA3.fields, 1) == 4;
  }

  /** Attributes take 84 octets. */
  lemma FattrWidth()
    ensures WidthOf(FATTR3) == 84 && Rigid(FATTR3)
  {
    TimeWidth();
    var f := FATTR3_FIELDS;
    assert WidthFrom(f, 13) == 0;
    assert WidthFrom(f, 12) == 8;
    assert WidthFrom(f, 11) == 16;
    assert WidthFrom(f, 10) == 24;
    assert WidthFrom(f, 9) == 32;
    assert WidthFrom(f, 8) == 40;
    assert WidthFrom(f, 7) == 48;
    assert WidthFrom(f, 6) == 56;
    assert WidthFrom(f, 5) == 64;
    assert WidthFrom(f, 4) == 68;
    assert WidthFrom(f, 3) == 72;
    assert WidthFrom(f, 2) == 76;
    assert WidthFrom(f, 1) == 80;
    assert WidthFrom(f, 0) == 84;
  }

  // ---------------------------------------------------------------- the schema is one the codec theorems apply to

  lemma TimeGood(env: Env)
    requires WellFormed(env)
    ensures Good(env, NFSTIME3) && Good(env, SPECDATA3)
  {
    PlainGood(env, UintT(W32));
    StructGood(env, NFSTIME3.fields);
    StructGood(env, SPECDATA3.fields);
  }

  lemma FattrGood(env: Env)
    requires WellFormed(env)
    ensures Good(env, FATTR3)
  {
    TimeGood(env);
    PlainGood(env, IntT(W32));
    PlainGood(env, UintT(W32));
    PlainGood(env, UhyperT);
    PlainGood(env, NFSTIME3);
    PlainGood(env, SPECDATA3);
    var f := FATTR3_FIELDS;
    forall i | 0 <= i < |f| ensures FieldGood(env, f[i]) {
      assert f[i] in {Field("", IntT(W32)), Field("", UintT(W32)), Field("", UhyperT), Field("", SPECDATA3), Field("", NFSTIME3)};
    }
    StructGood(env, f);
  }

  lemma PostOpGood(env: Env)
    requires WellFormed(env)
    ensures Good(env, POST_OP_ATTR) && FieldsGood(env, POST_OP_ATTR.fields)
  {
    FattrGood(env);
    FlaggedGood(env, FATTR3);
  }

  lemma EnvGood()
    ensures WellFormed(NFS_ENV) && Good(NFS_ENV, ENTRY3) && FieldsGood(NFS_ENV, ENTRY3.fields) && FieldGood(NFS_ENV, NEXT)
  {
    hide IsOptional, IsUnion, Get;
    PlainTagFacts();
    assert FieldGuarded(NFS_ENV, NEXT);
    assert forall i :: 0 <= i < 4 ==> FieldGuarded(NFS_ENV, ENTRY3.fields[i]);
    assert Guarded(NFS_ENV, ENTRY3);
    assert forall i :: 0 <= i < 4 ==> FieldSound(NFS_ENV, ENTRY3.fields[i]);
    assert Sound(NFS_ENV, ENTRY3);
  }

  lemma BoolGood(env: Env)
    requires WellFormed(env)
    ensures Good(env, BoolT)
  {
  }

  lemma VerifierGood(env: Env)
    requires WellFormed(env)
    ensures Good(env, COOKIEVERF3)
  {
    assert Sound(env, UintT(W8)) && Guarded(env, UintT(W8));
  }

  lemma ResokGood()
    ensures WellFormed(NFS_ENV)
    ensures Good(NFS_ENV, DIRLIST3) && FieldsGood(NFS_ENV, DIRLIST3.fields)
    ensures Good(NFS_ENV, READDIR3RESOK) && FieldsGood(NFS_ENV, READDIR3RESOK.fields)
  {
    hide FieldGood, FieldsGood, Sound, Guarded;
    EnvGood();
    BoolGood(NFS_ENV);
    PlainGood(NFS_ENV, BoolT);
    GoodTwo(NFS_ENV, NEXT, Field("", BoolT));
    PostOpGood(NFS_ENV);
    VerifierGood(NFS_ENV);
    PlainGood(NFS_ENV, POST_OP_ATTR);
    PlainGood(NFS_ENV, COOKIEVERF3);
    PlainGood(NFS_ENV, DIRLIST3);
    GoodThree(NFS_ENV, Field("", POST_OP_ATTR), Field("", COOKIEVERF3), Field("", DIRLIST3));
  }

  // ---------------------------------------------------------------- READDIR replies as values

  datatype WireEntry = WireEntry(fileid: int, name: seq<byte>, cookie: int)

  predicate EntryOk(e: WireEntry) { 0 <= e.fileid < TWO_64 && 0 <= e.cookie < TWO_64 }

  /** The linked list of entries that hangs off a pointer field. */
  function ChainValue(entries: seq<WireEntry>): Value {
    if entries == [] then VNil
    else VPtr(EntryValue(entries[0], ChainValue(entries[1..])))
  }

  function EntryValue(e: WireEntry, next: Value): Value {
    VStruct([VInt(e.fileid), VStr(e.name), VInt(e.cookie), next])
  }

  function PostOpValue(attrs: Value): Value { VStruct([VBool(true), attrs]) }

  function DirlistValue(entries: seq<WireEntry>, eof: bool): Value { VStruct([ChainValue(entries), VBool(eof)]) }

  /** A reply with the directory's attributes and a zero verifier, as ReadDir fills it. */
  function ResokValue(attrs: Value, entries: seq<WireEntry>, eof: bool): Value {
    VStruct([PostOpValue(attrs), VList(OctetValues(Zeros(8))), DirlistValue(entries, eof)])
  }

  /** The size the server's constants assign to a list of entries. */
  function EntriesSize(entries: seq<WireEntry>): nat {
    if entries == [] then 0 else ENTRY3SIZE + RoundUp4(|entries[0].name|) + EntriesSize(entries[1..])
  }

  lemma {:induction false} ChainTyped(entries: seq<WireEntry>)
    requires forall i :: 0 <= i < |entries| ==> EntryOk(entries[i])
    ensures HasType(NFS_ENV, PtrT("Entry3"), ChainValue(entries))
  {
    if entries != [] {
      ChainTyped(entries[1..]);
      EntryTyped(entries[0], ChainValue(entries[1..]));
    }
  }

  lemma EntryTyped(e: WireEntry, next: Value)
    requires EntryOk(e) && HasType(NFS_ENV, PtrT("Entry3"), next)
    ensures HasType(NFS_ENV, ENTRY3, EntryValue(e, next))
    ensures FieldsType(NFS_ENV, ENTRY3.fields, EntryValue(e, next).fs)
  {
    var f, g := Field("", UhyperT), Field("", StringT);
    TypeNil(NFS_ENV);
    TypeCons(NFS_ENV, NEXT, [], next, []);
    TypeCons(NFS_ENV, f, [NEXT], VInt(e.cookie), [next]);
    assert [f] + [NEXT] == [f, NEXT] && [VInt(e.cookie)] + [next] == [VInt(e.cookie), next];
    TypeCons(NFS_ENV, g, [f, NEXT], VStr(e.name), [VInt(e.cookie), next]);
    assert [g] + [f, NEXT] == [g, f, NEXT] && [VStr(e.name)] + [VInt(e.cookie), next] == [VStr(e.name), VInt(e.cookie), next];
    TypeCons(NFS_ENV, f, [g, f, NEXT], VInt(e.fileid), [VStr(e.name), VInt(e.cookie), next]);
    assert [f] + [g, f, NEXT] == ENTRY3.fields;
    assert [VInt(e.fileid)] + [VStr(e.name), VInt(e.cookie), next] == EntryValue(e, next).fs;
  }

  lemma EntrySize(e: WireEntry, next: Value)
    requires EntryOk(e) && HasType(NFS_ENV, PtrT("Entry3"), next)
    ensures Good(NFS_ENV, ENTRY3) && FieldGood(NFS_ENV, NEXT) && HasType(NFS_ENV, ENTRY3, EntryValue(e, next))
    ensures Size(Atoms(NFS_ENV, ENTRY3, EntryValue(e, next), false)) ==
            20 + RoundUp4(|e.name|) + Size(AtomsField(NFS_ENV, NEXT, next, ""))
  {
    EnvGood();
    EntryTyped(e, next);
    var f0, v0 := ENTRY3.fields, EntryValue(e, next).fs;
    PlainFieldSize(NFS_ENV, f0, v0);
    RigidSize(NFS_ENV, UhyperT, v0[0]);
    var f1, v1 := f0[1..], v0[1..];
    PlainFieldSize(NFS_ENV, f1, v1);
    StringSize(NFS_ENV, e.name);
    var f2, v2 := f1[1..], v1[1..];
    PlainFieldSize(NFS_ENV, f2, v2);
    RigidSize(NFS_ENV, UhyperT, v2[0]);
    var f3, v3 := f2[1..], v2[1..];
    FieldsSize(NFS_ENV, f3, v3, "");
    assert f3 == [NEXT] && v3 == [next] && f3[1..] == [];
  }

  lemma PresentSize(v: Value, union: string)
    requires EnvGuarded(NFS_ENV) && FieldGuarded(NFS_ENV, NEXT) && HasType(NFS_ENV, ENTRY3, v) && Guarded(NFS_ENV, ENTRY3)
    ensures HasType(NFS_ENV, NEXT.schema, VPtr(v))
    ensures Size(AtomsField(NFS_ENV, NEXT, VPtr(v), union)) == 4 + Size(Atoms(NFS_ENV, ENTRY3, v, false))
  {
    PlainTagFacts();
    CanonOne(UWord(1));
    SizeConcat([UWord(1)], Atoms(NFS_ENV, ENTRY3, v, false));
    assert AtomsField(NFS_ENV, NEXT, VPtr(v), union) == [UWord(1)] + Atoms(NFS_ENV, ENTRY3, v, false);
  }

  lemma EndSize(union: string)
    requires EnvGuarded(NFS_ENV) && FieldGuarded(NFS_ENV, NEXT)
    ensures Size(AtomsField(NFS_ENV, NEXT, VNil, union)) == 4
  {
    CanonOne(UWord(0));
  }

  /** Each node of the chain costs exactly what the server budgets for an entry, and the end of the list 4 octets. */
  lemma {:induction false} ChainSize(entries: seq<WireEntry>)
    requires forall i :: 0 <= i < |entries| ==> EntryOk(entries[i])
    ensures FieldGood(NFS_ENV, NEXT) && WellFormed(NFS_ENV) && HasType(NFS_ENV, NEXT.schema, ChainValue(entries))
    ensures Size(AtomsField(NFS_ENV, NEXT, ChainValue(entries), "")) == 4 + EntriesSize(entries)
  {
    hide Atoms, AtomsField, HasType;
    EnvGood();
    ChainTyped(entries);
    if entries == [] {
      EndSize("");
    } else {
      var e, next := entries[0], ChainValue(entries[1..]);
      ChainSize(entries[1..]);
      EntrySize(e, next);
      PresentSize(EntryValue(e, next), "");
    }
  }

  /** A flag that selects the one arm behind it, as post-operation attributes are sent. */
  function Flagged(s: Schema): Schema { StructT([Field("union", BoolT), Field(Case(1), s)]) }

  lemma FlagField(env: Env)
    requires WellFormed(env)
    ensures FieldGood(env, Field("union", BoolT)) && HasType(env, BoolT, VBool(true))
    ensures FieldUnion(env, Field("union", BoolT), VBool(true), "") == "1"
    ensures AtomsField(env, Field("union", BoolT), VBool(true), "") == [UWord(1)]
    ensures NormField(env, Field("union", BoolT), VBool(true), "") == VBool(true)
  {
    UnionGood(env, BoolT);
    PlainTagFacts();
  }

  /** The discriminant true selects the arm labelled 1. */
  lemma FlaggedArm(env: Env, s: Schema, v: Value)
    requires Good(env, s) && HasType(env, s, v)
    ensures FieldGood(env, Field(Case(1), s))
    ensures AtomsField(env, Field(Case(1), s), v, "1") == Atoms(env, s, v, false)
    ensures NormField(env, Field(Case(1), s), v, "1") == Norm(env, s, v)
  {
    hide Atoms, Norm;
    CaseGood(env, 1, s);
    CaseTagFacts(1);
    CaseSelects(1, 1);
    assert Itoa(1) == "1";
  }

  lemma FlaggedGood(env: Env, s: Schema)
    requires Good(env, s)
    ensures Good(env, Flagged(s)) && FieldsGood(env, Flagged(s).fields)
  {
    hide FieldGood;
    UnionGood(env, BoolT);
    CaseGood(env, 1, s);
    GoodTwo(env, Field("union", BoolT), Field(Case(1), s));
  }

  lemma FlaggedTyped(env: Env, s: Schema, v: Value)
    requires HasType(env, s, v)
    ensures FieldsType(env, Flagged(s).fields, [VBool(true), v]) && HasType(env, Flagged(s), VStruct([VBool(true), v]))
  {
    TypeTwo(env, Field("union", BoolT), Field(Case(1), s), VBool(true), v);
  }

  lemma FlaggedSize(env: Env, s: Schema, v: Value)
    requires Good(env, s) && HasType(env, s, v)
    ensures Good(env, Flagged(s)) && HasType(env, Flagged(s), VStruct([VBool(true), v]))
    ensures Size(Atoms(env, Flagged(s), VStruct([VBool(true), v]), false)) == 4 + Size(Atoms(env, s, v, false))
  {
    hide FieldUnion, AtomsField;
    var fields, vs := Flagged(s).fields, [VBool(true), v];
    FlaggedGood(env, s);
    FlaggedTyped(env, s, v);
    FlagField(env);
    FlaggedArm(env, s, v);
    assert fields[1..] == [Field(Case(1), s)] && vs[1..] == [v] && fields[1..][1..] == [];
    FieldsSize(env, fields, vs, "");
    FieldsSize(env, fields[1..], vs[1..], "1");
    CanonOne(UWord(1));
  }

  lemma NormStep(env: Env, fields: seq<Field>, vs: seq<Value>, union: string)
    requires EnvGuarded(env) && FieldsType(env, fields, vs) && FieldsGuarded(env, fields) && fields != []
    ensures HasType(env, fields[0].schema, vs[0]) && FieldsType(env, fields[1..], vs[1..])
    ensures NormFields(env, fields, vs, union) ==
            [NormField(env, fields[0], vs[0], union)] +
            NormFields(env, fields[1..], vs[1..], FieldUnion(env, fields[0], vs[0], union))
  {
    assert HasType(env, fields[0].schema, vs[0]);
  }

  lemma NormNil(env: Env, union: string)
    requires EnvGuarded(env)
    ensures NormFields(env, [], [], union) == []
  {
  }

  lemma FlaggedNorm(env: Env, s: Schema, v: Value)
    requires Good(env, s) && HasType(env, s, v)
    ensures Good(env, Flagged(s)) && HasType(env, Flagged(s), VStruct([VBool(true), v]))
    ensures Norm(env, Flagged(s), VStruct([VBool(true), v])) == VStruct([VBool(true), Norm(env, s, v)])
  {
    hide FieldUnion, NormField, NormFields, Norm, HasType;
    var fields, vs := Flagged(s).fields, [VBool(true), v];
    FlaggedGood(env, s);
    FlaggedTyped(env, s, v);
    FlagField(env);
    FlaggedArm(env, s, v);
    StructNorm(env, fields, vs);
    assert fields[1..] == [Field(Case(1), s)] && vs[1..] == [v] && fields[1..][1..] == [] && vs[1..][1..] == [];
    NormStep(env, fields, vs, "");
    NormStep(env, fields[1..], vs[1..], "1");
    NormNil(env, FieldUnion(env, fields[1], vs[1], "1"));
    assert [VBool(true)] + ([Norm(env, s, v)] + []) == [VBool(true), Norm(env, s, v)];
  }

  /** With the flag set, the structure is the flag and the arm: 4 octets more than the arm, and kept as the arm is. */
  lemma FlaggedParts(env: Env, s: Schema, v: Value)
    requires Good(env, s) && HasType(env, s, v)
    ensures Good(env, Flagged(s)) && HasType(env, Flagged(s), VStruct([VBool(true), v]))
    ensures Size(Atoms(env, Flagged(s), VStruct([VBool(true), v]), false)) == 4 + Size(Atoms(env, s, v, false))
    ensures Norm(env, Flagged(s), VStruct([VBool(true), v])) == VStruct([VBool(true), Norm(env, s, v)])
  {
    FlaggedSize(env, s, v);
    FlaggedNorm(env, s, v);
  }

  lemma PostOpSize(attrs: Value)
    requires HasType(NFS_ENV, FATTR3, attrs)
    ensures Good(NFS_ENV, POST_OP_ATTR) && HasType(NFS_ENV, POST_OP_ATTR, PostOpValue(attrs))
    ensures Size(Atoms(NFS_ENV, POST_OP_ATTR, PostOpValue(attrs), false)) == 88
    ensures Norm(NFS_ENV, POST_OP_ATTR, PostOpValue(attrs)) == PostOpValue(attrs)
  {
    hide Atoms, Norm, HasType, Good;
    EnvGood();
    FattrGood(NFS_ENV);
    FattrSize(attrs);
    FlaggedParts(NFS_ENV, FATTR3, attrs);
  }

  lemma FattrSize(attrs: Value)
    requires HasType(NFS_ENV, FATTR3, attrs)
    ensures WellFormed(NFS_ENV) && Good(NFS_ENV, FATTR3)
    ensures Size(Atoms(NFS_ENV, FATTR3, attrs, false)) == 84 && Norm(NFS_ENV, FATTR3, attrs) == attrs
  {
    hide Atoms, Norm, HasType;
    EnvGood();
    FattrGood(NFS_ENV);
    FattrWidth();
    RigidSize(NFS_ENV, FATTR3, attrs);
    RigidNorm(NFS_ENV, FATTR3, attrs);
  }

  lemma DirlistTyped(entries: seq<WireEntry>, eof: bool)
    requires forall i :: 0 <= i < |entries| ==> EntryOk(entries[i])
    ensures HasType(NFS_ENV, DIRLIST3, DirlistValue(entries, eof))
    ensures FieldsType(NFS_ENV, DIRLIST3.fields, DirlistValue(entries, eof).fs)
  {
    ChainTyped(entries);
    TypeTwo(NFS_ENV, NEXT, Field("", BoolT), ChainValue(entries), VBool(eof));
  }

  lemma DirlistSize(entries: seq<WireEntry>, eof: bool)
    requires forall i :: 0 <= i < |entries| ==> EntryOk(entries[i])
    ensures Good(NFS_ENV, DIRLIST3) && HasType(NFS_ENV, DIRLIST3, DirlistValue(entries, eof))
    ensures Size(Atoms(NFS_ENV, DIRLIST3, DirlistValue(entries, eof), false)) == 8 + EntriesSize(entries)
  {
    ResokGood();
    DirlistTyped(entries, eof);
    ChainSize(entries);
    NextUnion(ChainValue(entries));
    var fields, vs := DIRLIST3.fields, DirlistValue(entries, eof).fs;
    FieldsTail(NFS_ENV, fields);
    FieldsSize(NFS_ENV, fields, vs, "");
    PlainFieldSize(NFS_ENV, fields[1..], vs[1..]);
    RigidSize(NFS_ENV, BoolT, VBool(eof));
    assert fields[1..][1..] == [];
  }

  lemma NextUnion(next: Value)
    requires HasType(NFS_ENV, PtrT("Entry3"), next)
    ensures FieldGood(NFS_ENV, NEXT) && FieldUnion(NFS_ENV, NEXT, next, "") == ""
  {
    EnvGood();
    PlainTagFacts();
  }

  lemma VerifierSize(env: Env)
    requires EnvGuarded(env)
    ensures HasType(env, COOKIEVERF3, VList(OctetValues(Zeros(8))))
    ensures Guarded(env, COOKIEVERF3) && Size(Atoms(env, COOKIEVERF3, VList(OctetValues(Zeros(8))), false)) == 8
  {
    var vs := OctetValues(Zeros(8));
    forall i | 0 <= i < 8 ensures HasType(env, UintT(W8), vs[i]) { }
    CanonOne(Opaque(Octets(vs)));
  }

  lemma ResokTyped(attrs: Value, entries: seq<WireEntry>, eof: bool)
    requires HasType(NFS_ENV, FATTR3, attrs) && forall i :: 0 <= i < |entries| ==> EntryOk(entries[i])
    ensures HasType(NFS_ENV, READDIR3RESOK, ResokValue(attrs, entries, eof))
    ensures FieldsType(NFS_ENV, READDIR3RESOK.fields, ResokValue(attrs, entries, eof).fs)
  {
    EnvGood();
    FlaggedTyped(NFS_ENV, FATTR3, attrs);
    VerifierSize(NFS_ENV);
    DirlistTyped(entries, eof);
    hide FieldsType;
    TypeThree(NFS_ENV, Field("", POST_OP_ATTR), Field("", COOKIEVERF3), Field("", DIRLIST3),
              PostOpValue(attrs), VList(OctetValues(Zeros(8))), DirlistValue(entries, eof));
  }

  /** The server's byte budget is the encoder's: 104 octets, and 24 plus the rounded name length per entry. */
  lemma ReplySize(attrs: Value, entries: seq<WireEntry>, eof: bool)
    requires HasType(NFS_ENV, FATTR3, attrs) && forall i :: 0 <= i < |entries| ==> EntryOk(entries[i])
    ensures Good(NFS_ENV, READDIR3RESOK) && HasType(NFS_ENV, READDIR3RESOK, ResokValue(attrs, entries, eof))
    ensures var e := Enc(NFS_ENV, READDIR3RESOK, ResokValue(attrs, entries, eof), false);
            e.err == None && |e.bytes| == READDIRRESOKSIZE + EntriesSize(entries)
  {
    ResokGood();
    ResokTyped(attrs, entries, eof);
    PostOpSize(attrs);
    VerifierSize(NFS_ENV);
    DirlistSize(entries, eof);
    var f0, v0 := READDIR3RESOK.fields, ResokValue(attrs, entries, eof).fs;
    PlainFieldSize(NFS_ENV, f0, v0);
    var f1, v1 := f0[1..], v0[1..];
    PlainFieldSize(NFS_ENV, f1, v1);
    var f2, v2 := f1[1..], v1[1..];
    PlainFieldSize(NFS_ENV, f2, v2);
    assert f2[1..] == [];
    EncIsCanon(NFS_ENV, READDIR3RESOK, ResokValue(attrs, entries, eof), false);
  }

  // ---------------------------------------------------------------- a reply survives the wire unchanged

  lemma {:induction false} RigidNorm(env: Env, s: Schema, v: Value)
    requires EnvGuarded(env) && Guarded(env, s) && HasType(env, s, v) && Rigid(s)
    ensures Norm(env, s, v) == v
    decreases s
  {
    hide Pointwise, NormFields, Get, IsOptional, IsUnion, Selected, Elementwise;
    if s.StructT? {
      PlainTagFacts();
      var r := NormFields(env, s.fields, v.fs, "");
      ArmsPointwise(env, s.fields, v.fs, "", -1);
      forall i | 0 <= i < |v.fs| ensures i < |r| && r[i] == v.fs[i] {
        PlainAt(env, s.fields, v.fs, r, -1, "", i);
        RigidNorm(env, s.fields[i].schema, v.fs[i]);
      }
      assert r == v.fs;
    }
  }

  /** A structure whose first field and whose rest are unchanged by normalisation is unchanged. */
  lemma FieldsUnchanged(env: Env, fields: seq<Field>, vs: seq<Value>)
    requires FieldsGood(env, fields) && FieldsType(env, fields, vs) && fields != []
    requires fields[0].tag == "" && !fields[0].schema.PtrT?
    requires Guarded(env, fields[0].schema) && HasType(env, fields[0].schema, vs[0])
    requires Norm(env, fields[0].schema, vs[0]) == vs[0]
    requires FieldsGuarded(env, fields[1..]) && FieldsType(env, fields[1..], vs[1..])
    requires NormFields(env, fields[1..], vs[1..], "") == vs[1..]
    ensures NormFields(env, fields, vs, "") == vs
  {
    NormFieldsCons(env, fields, vs, "");
    PlainFieldAtoms(env, fields[0].schema, vs[0], "");
    PlainNormBody(env, fields[0].schema, vs[0], "");
    assert fields[0] == Field("", fields[0].schema);
    var r := NormFields(env, fields, vs, "");
    assert r == [r[0]] + r[1..];
  }

  /** The fields after the first are typed and fit for the theorems as the whole list is. */
  lemma FieldsAfter(env: Env, fields: seq<Field>, vs: seq<Value>)
    requires FieldsGood(env, fields) && FieldsType(env, fields, vs) && fields != []
    ensures HasType(env, fields[0].schema, vs[0])
    ensures FieldsGood(env, fields[1..]) && FieldsType(env, fields[1..], vs[1..])
  {
    FieldsTail(env, fields);
    assert HasType(env, fields[0].schema, vs[0]);
  }

  lemma PlainNormBody(env: Env, s: Schema, v: Value, union: string)
    requires EnvGuarded(env) && Guarded(env, s) && HasType(env, s, v)
    ensures NormBody(env, "", s, v, union) == Norm(env, s, v)
  {
    PlainTagFacts();
  }

  lemma EntryNorm(e: WireEntry, next: Value)
    requires EntryOk(e) && HasType(NFS_ENV, PtrT("Entry3"), next)
    requires FieldGood(NFS_ENV, NEXT) && WellFormed(NFS_ENV) && NormField(NFS_ENV, NEXT, next, "") == next
    ensures Good(NFS_ENV, ENTRY3) && HasType(NFS_ENV, ENTRY3, EntryValue(e, next))
    ensures Norm(NFS_ENV, ENTRY3, EntryValue(e, next)) == EntryValue(e, next)
  {
    EnvGood();
    EntryTyped(e, next);
    var f0, v0 := ENTRY3.fields, EntryValue(e, next).fs;
    FieldsAfter(NFS_ENV, f0, v0);
    var f1, v1 := f0[1..], v0[1..];
    FieldsAfter(NFS_ENV, f1, v1);
    var f2, v2 := f1[1..], v1[1..];
    FieldsAfter(NFS_ENV, f2, v2);
    var f3, v3 := f2[1..], v2[1..];
    assert f3 == [NEXT] && v3 == [next] && f3[1..] == [];
    assert NormFields(NFS_ENV, f3, v3, "") == [next];
    FieldsUnchanged(NFS_ENV, f2, v2);
    FieldsUnchanged(NFS_ENV, f1, v1);
    FieldsUnchanged(NFS_ENV, f0, v0);
  }

  lemma {:induction false} ChainNorm(entries: seq<WireEntry>)
    requires forall i :: 0 <= i < |entries| ==> EntryOk(entries[i])
    ensures FieldGood(NFS_ENV, NEXT) && WellFormed(NFS_ENV) && HasType(NFS_ENV, NEXT.schema, ChainValue(entries))
    ensures NormField(NFS_ENV, NEXT, ChainValue(entries), "") == ChainValue(entries)
  {
    EnvGood();
    ChainTyped(entries);
    if entries != [] {
      PlainTagFacts();
      ChainNorm(entries[1..]);
      EntryNorm(entries[0], ChainValue(entries[1..]));
    }
  }

  lemma DirlistNorm(entries: seq<WireEntry>, eof: bool)
    requires forall i :: 0 <= i < |entries| ==> EntryOk(entries[i])
    ensures Good(NFS_ENV, DIRLIST3) && HasType(NFS_ENV, DIRLIST3, DirlistValue(entries, eof))
    ensures Norm(NFS_ENV, DIRLIST3, DirlistValue(entries, eof)) == DirlistValue(entries, eof)
  {
    hide NormField, NormFields, Norm, FieldUnion;
    ResokGood();
    DirlistTyped(entries, eof);
    ChainNorm(entries);
    NextUnion(ChainValue(entries));
    var fields, vs := DIRLIST3.fields, DirlistValue(entries, eof).fs;
    assert fields[1..] == [Field("", BoolT)] && vs[1..] == [VBool(eof)];
    NormStep(NFS_ENV, fields, vs, "");
    FlagNorm(eof);
    StructNorm(NFS_ENV, fields, vs);
    assert [ChainValue(entries)] + [VBool(eof)] == vs;
  }

  lemma FlagNorm(eof: bool)
    ensures WellFormed(NFS_ENV) && FieldsType(NFS_ENV, [Field("", BoolT)], [VBool(eof)])
    ensures FieldsGuarded(NFS_ENV, [Field("", BoolT)])
    ensures NormFields(NFS_ENV, [Field("", BoolT)], [VBool(eof)], "") == [VBool(eof)]
  {
    EnvGood();
    PlainTagFacts();
    NormNil(NFS_ENV, "");
    NormStep(NFS_ENV, [Field("", BoolT)], [VBool(eof)], "");
  }

  lemma ResokNorm(attrs: Value, entries: seq<WireEntry>, eof: bool)
    requires HasType(NFS_ENV, FATTR3, attrs) && forall i :: 0 <= i < |entries| ==> EntryOk(entries[i])
    ensures Good(NFS_ENV, READDIR3RESOK) && HasType(NFS_ENV, READDIR3RESOK, ResokValue(attrs, entries, eof))
    ensures Norm(NFS_ENV, READDIR3RESOK, ResokValue(attrs, entries, eof)) == ResokValue(attrs, entries, eof)
  {
    ResokGood();
    ResokTyped(attrs, entries, eof);
    PostOpSize(attrs);
    VerifierSize(NFS_ENV);
    NormOctets(NFS_ENV, OctetValues(Zeros(8)));
    DirlistNorm(entries, eof);
    var f0, v0 := READDIR3RESOK.fields, ResokValue(attrs, entries, eof).fs;
    FieldsAfter(NFS_ENV, f0, v0);
    var f1, v1 := f0[1..], v0[1..];
    FieldsAfter(NFS_ENV, f1, v1);
    var f2, v2 := f1[1..], v1[1..];
    FieldsAfter(NFS_ENV, f2, v2);
    assert f2[1..] == [];
    FieldsUnchanged(NFS_ENV, f2, v2);
    FieldsUnchanged(NFS_ENV, f1, v1);
    FieldsUnchanged(NFS_ENV, f0, v0);
  }

  lemma {:induction false} ChainCompact(entries: seq<WireEntry>)
    requires forall i :: 0 <= i < |entries| ==> |entries[i].name| + 4 <= MAX_INT32
    ensures Compact(ChainValue(entries))
  {
    if entries != [] {
      ChainCompact(entries[1..]);
      var fs := EntryValue(entries[0], ChainValue(entries[1..])).fs;
      assert forall i :: 0 <= i < 4 ==> Compact(fs[i]);
    }
  }

  lemma {:induction false} RigidCompact(env: Env, s: Schema, v: Value)
    requires HasType(env, s, v) && Rigid(s)
    ensures Compact(v)
    decreases s
  {
    if s.StructT? {
      forall i | 0 <= i < |v.fs| ensures Compact(v.fs[i]) {
        assert HasType(env, s.fields[i].schema, v.fs[i]);
        RigidCompact(env, s.fields[i].schema, v.fs[i]);
      }
    }
  }

  lemma FattrNarrow()
    ensures Narrow(FATTR3)
  {
    assert Narrow(NFSTIME3) && Narrow(SPECDATA3);
    forall i | 0 <= i < |FATTR3_FIELDS| ensures Narrow(FATTR3_FIELDS[i].schema) {
      assert FATTR3_FIELDS[i] in {Field("", IntT(W32)), Field("", UintT(W32)), Field("", UhyperT), Field("", SPECDATA3), Field("", NFSTIME3)};
    }
  }

  lemma ResokNarrow()
    ensures NarrowEnv(NFS_ENV) && Narrow(READDIR3RESOK)
  {
    FattrNarrow();
    assert Narrow(ENTRY3);
    assert Narrow(POST_OP_ATTR) && Narrow(COOKIEVERF3) && Narrow(DIRLIST3);
  }

  lemma ResokCompact(attrs: Value, entries: seq<WireEntry>, eof: bool)
    requires HasType(NFS_ENV, FATTR3, attrs)
    requires forall i :: 0 <= i < |entries| ==> |entries[i].name| + 4 <= MAX_INT32
    ensures Compact(ResokValue(attrs, entries, eof))
  {
    ChainCompact(entries);
    FattrWidth();
    RigidCompact(NFS_ENV, FATTR3, attrs);
    assert Compact(VBool(true)) && Compact(VBool(eof)) && Compact(VList(OctetValues(Zeros(8))));
    assert Compact(PostOpValue(attrs));
    var list := [ChainValue(entries), VBool(eof)];
    assert forall i :: 0 <= i < 2 ==> Compact(list[i]);
    assert Compact(DirlistValue(entries, eof));
  }

  /** The client decodes the very reply the server built, entry by entry. */
  lemma ReplyRoundTrip(attrs: Value, entries: seq<WireEntry>, eof: bool, tail: seq<byte>)
    requires HasType(NFS_ENV, FATTR3, attrs)
    requires forall i :: 0 <= i < |entries| ==> EntryOk(entries[i]) && |entries[i].name| + 4 <= MAX_INT32
    ensures Good(NFS_ENV, READDIR3RESOK) && HasType(NFS_ENV, READDIR3RESOK, ResokValue(attrs, entries, eof))
    ensures var v := ResokValue(attrs, entries, eof);
            var e := Enc(NFS_ENV, READDIR3RESOK, v, false);
            Dec(NFS_ENV, 0, READDIR3RESOK, false, e.bytes + tail) == Ok(v, |e.bytes|)
  {
    ResokNorm(attrs, entries, eof);
    hide Enc, Dec, HasType, Compact, Narrow;
    ResokNarrow();
    ResokCompact(attrs, entries, eof);
    CompactRoundTrip(NFS_ENV, READDIR3RESOK, ResokValue(attrs, entries, eof), tail);
  }
}

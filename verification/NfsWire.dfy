/** The READDIR reply octet by octet, as section 3.3.16 of RFC 1813 declares it. */
module NfsWire {
  import opened Bytes
  import opened XdrTag
  import opened Xdr
  import opened XdrLaws
  import opened XdrStructs
  import opened XdrWire
  import opened NfsTypes

  // ---------------------------------------------------------------- layouts

  datatype Pair = Pair(first: int, second: int)

  /** fattr3 */
  datatype Fattr = Fattr(ftype: int, mode: int, nlink: int, uid: int, gid: int, size: int, used: int, rdev: Pair,
                         fsid: int, fileid: int, atime: Pair, mtime: Pair, ctime: Pair)

  predicate IsWord(i: int) { 0 <= i < TWO_32 }

  predicate IsLong(i: int) { 0 <= i < TWO_64 }

  predicate PairOk(p: Pair) { IsWord(p.first) && IsWord(p.second) }

  predicate FattrOk(a: Fattr) {
    && -TWO_31 <= a.ftype < TWO_31 && IsWord(a.mode) && IsWord(a.nlink) && IsWord(a.uid) && IsWord(a.gid)
    && IsLong(a.size) && IsLong(a.used) && PairOk(a.rdev) && IsLong(a.fsid) && IsLong(a.fileid)
    && PairOk(a.atime) && PairOk(a.mtime) && PairOk(a.ctime)
  }

  function PairValue(p: Pair): Value { VStruct([VInt(p.first), VInt(p.second)]) }

  function FattrValue(a: Fattr): Value {
    VStruct([VInt(a.ftype), VInt(a.mode), VInt(a.nlink), VInt(a.uid), VInt(a.gid), VInt(a.size), VInt(a.used),
             PairValue(a.rdev), VInt(a.fsid), VInt(a.fileid), PairValue(a.atime), PairValue(a.mtime), PairValue(a.ctime)])
  }

  function PairOctets(p: Pair): seq<byte> { Put32(p.first) + Put32(p.second) }

  function FattrOctets(a: Fattr): seq<byte> {
    Concat([Put32(a.ftype), Put32(a.mode), Put32(a.nlink), Put32(a.uid), Put32(a.gid), Put64(a.size), Put64(a.used),
            PairOctets(a.rdev), Put64(a.fsid), Put64(a.fileid), PairOctets(a.atime), PairOctets(a.mtime), PairOctets(a.ctime)])
  }

  /** The list of entries: a 1 and the entry, or a 0 at the end. */
  function ChainOctets(entries: seq<WireEntry>): seq<byte> {
    if entries == [] then Put32(0)
    else
      var e := entries[0];
      Put32(1) + Concat([Put64(e.fileid), Put32(|e.name|) + (e.name + Zeros(Pad(|e.name|))), Put64(e.cookie),
                         ChainOctets(entries[1..])])
  }

  /** Attributes that follow, a zero verifier, the entries and the Eof flag. */
  function ResokOctets(a: Fattr, entries: seq<WireEntry>, eof: bool): seq<byte> {
    Concat([Put32(1) + FattrOctets(a), Zeros(8), ChainOctets(entries) + Put32(if eof then 1 else 0)])
  }

  // ---------------------------------------------------------------- the encoder follows them

  /** The value is well-typed and goes out as these octets. */
  ghost predicate ValueIs(env: Env, s: Schema, v: Value, part: seq<byte>) {
    EnvGuarded(env) && Guarded(env, s) && HasType(env, s, v) && Wire(env, s, v) == part
  }

  lemma WordIs(env: Env, i: int)
    requires EnvGuarded(env) && IsWord(i)
    ensures ValueIs(env, UintT(W32), VInt(i), Put32(i))
  {
    WordWire(env, UintT(W32), i);
  }

  lemma LongIs(env: Env, i: int)
    requires EnvGuarded(env) && IsLong(i)
    ensures ValueIs(env, UhyperT, VInt(i), Put64(i))
  {
    HyperWire(env, UhyperT, i);
  }

  /** Untagged fields with known octets. */
  lemma PlainParts(env: Env, fields: seq<Field>, vs: seq<Value>, parts: seq<seq<byte>>)
    requires FieldsGood(env, fields) && |fields| == |vs| == |parts|
    requires forall i :: 0 <= i < |fields| ==> fields[i].tag == "" && ValueIs(env, fields[i].schema, vs[i], parts[i])
    ensures ValueIs(env, StructT(fields), VStruct(vs), Concat(parts))
  {
    hide Wire, FieldsGood, Concat;
    forall i | 0 <= i < |fields| ensures HasType(env, fields[i].schema, vs[i]) {
      assert ValueIs(env, fields[i].schema, vs[i], parts[i]);
    }
    PlainWire(env, fields, vs, parts);
  }

  lemma PairIs(env: Env, p: Pair)
    requires WellFormed(env) && PairOk(p)
    ensures ValueIs(env, NFSTIME3, PairValue(p), PairOctets(p)) && SPECDATA3 == NFSTIME3
  {
    TimeGood(env);
    WordIs(env, p.first);
    WordIs(env, p.second);
    hide ValueIs, Put32;
    ConcatCons(Put32(p.first), [Put32(p.second)]);
    ConcatOne(Put32(p.second));
    assert [Put32(p.first)] + [Put32(p.second)] == [Put32(p.first), Put32(p.second)];
    PairFieldsGood(env);
    PlainParts(env, NFSTIME3.fields, [VInt(p.first), VInt(p.second)], [Put32(p.first), Put32(p.second)]);
  }

  lemma PairFieldsGood(env: Env)
    requires WellFormed(env)
    ensures FieldsGood(env, NFSTIME3.fields)
  {
    TimeGood(env);
  }

  lemma FattrFieldsGood(env: Env)
    requires WellFormed(env)
    ensures FieldsGood(env, FATTR3_FIELDS)
  {
    FattrGood(env);
  }

  lemma TypeIs(env: Env, i: int)
    requires EnvGuarded(env) && -TWO_31 <= i < TWO_31
    ensures ValueIs(env, IntT(W32), VInt(i), Put32(i))
  {
    WordWire(env, IntT(W32), i);
  }

  lemma FattrIs(env: Env, a: Fattr)
    requires WellFormed(env) && FattrOk(a)
    ensures ValueIs(env, FATTR3, FattrValue(a), FattrOctets(a))
  {
    hide ValueIs, Put32, Put64, PairOctets, PairValue, FieldsGood, Concat;
    FattrFieldsGood(env);
    TypeIs(env, a.ftype);
    WordIs(env, a.mode);
    WordIs(env, a.nlink);
    WordIs(env, a.uid);
    WordIs(env, a.gid);
    LongIs(env, a.size);
    LongIs(env, a.used);
    PairIs(env, a.rdev);
    LongIs(env, a.fsid);
    LongIs(env, a.fileid);
    PairIs(env, a.atime);
    PairIs(env, a.mtime);
    PairIs(env, a.ctime);
    PlainParts(env, FATTR3_FIELDS, FattrValue(a).fs,
               [Put32(a.ftype), Put32(a.mode), Put32(a.nlink), Put32(a.uid), Put32(a.gid), Put64(a.size), Put64(a.used),
                PairOctets(a.rdev), Put64(a.fsid), Put64(a.fileid), PairOctets(a.atime), PairOctets(a.mtime), PairOctets(a.ctime)]);
  }

  lemma PlainField(env: Env, s: Schema, v: Value, part: seq<byte>)
    requires WellFormed(env) && ValueIs(env, s, v, part)
    ensures FieldIs(env, Field("", s), v, "", part, "")
  {
    PlainIs(env, s, v, "");
  }

  lemma NextNil()
    requires WellFormed(NFS_ENV) && FieldGuarded(NFS_ENV, NEXT)
    ensures FieldIs(NFS_ENV, NEXT, VNil, "", Put32(0), "")
  {
    CanonOne(UWord(0));
  }

  lemma FlagOctets(atoms: seq<Atom>)
    ensures Canon([UWord(1)] + atoms) == Put32(1) + Canon(atoms)
  {
    CanonOne(UWord(1));
    SizeConcat([UWord(1)], atoms);
  }

  lemma NextCons(v: Value, part: seq<byte>)
    requires WellFormed(NFS_ENV) && FieldGuarded(NFS_ENV, NEXT) && ValueIs(NFS_ENV, ENTRY3, v, part)
    ensures FieldIs(NFS_ENV, NEXT, VPtr(v), "", Put32(1) + part, "")
  {
    hide Canon;
    PlainTagFacts();
    var atoms := Atoms(NFS_ENV, ENTRY3, v, false);
    hide Get, Put32, Atoms;
    assert AtomsField(NFS_ENV, NEXT, VPtr(v), "") == [UWord(1)] + atoms;
    assert FieldUnion(NFS_ENV, NEXT, VPtr(v), "") == "";
    FlagOctets(atoms);
  }

  lemma ScalarFields(e: WireEntry)
    requires EntryOk(e) && WellFormed(NFS_ENV)
    ensures FieldIs(NFS_ENV, Field("", UhyperT), VInt(e.fileid), "", Put64(e.fileid), "")
    ensures FieldIs(NFS_ENV, Field("", UhyperT), VInt(e.cookie), "", Put64(e.cookie), "")
    ensures FieldIs(NFS_ENV, Field("", StringT), VStr(e.name), "", Put32(|e.name|) + (e.name + Zeros(Pad(|e.name|))), "")
  {
    LongIs(NFS_ENV, e.fileid);
    LongIs(NFS_ENV, e.cookie);
    StringWire(NFS_ENV, e.name);
    hide FieldIs, Put64, Put32;
    PlainField(NFS_ENV, UhyperT, VInt(e.fileid), Put64(e.fileid));
    PlainField(NFS_ENV, UhyperT, VInt(e.cookie), Put64(e.cookie));
    PlainField(NFS_ENV, StringT, VStr(e.name), Put32(|e.name|) + (e.name + Zeros(Pad(|e.name|))));
  }

  lemma EntryWire(e: WireEntry, next: Value, parts: seq<seq<byte>>)
    requires FieldsGood(NFS_ENV, ENTRY3.fields) && FieldsType(NFS_ENV, ENTRY3.fields, EntryValue(e, next).fs)
    requires FieldsAre(NFS_ENV, ENTRY3.fields, EntryValue(e, next).fs, ["", "", "", "", ""], parts)
    ensures ValueIs(NFS_ENV, ENTRY3, EntryValue(e, next), Concat(parts))
  {
    hide FieldsAre, Concat, FieldsType;
    StructWire(NFS_ENV, ENTRY3.fields, EntryValue(e, next).fs, ["", "", "", "", ""], parts);
  }

  lemma EntryIs(e: WireEntry, next: Value, rest: seq<byte>)
    requires EntryOk(e) && WellFormed(NFS_ENV) && FieldsGood(NFS_ENV, ENTRY3.fields)
    requires HasType(NFS_ENV, PtrT("Entry3"), next) && FieldIs(NFS_ENV, NEXT, next, "", rest, "")
    ensures ValueIs(NFS_ENV, ENTRY3, EntryValue(e, next),
                    Concat([Put64(e.fileid), Put32(|e.name|) + (e.name + Zeros(Pad(|e.name|))), Put64(e.cookie), rest]))
  {
    hide FieldIs, FieldsAre, Put64, Put32, Concat, FieldsGood, HasType, Wire, WellFormed;
    var f, g := Field("", UhyperT), Field("", StringT);
    var name := Put32(|e.name|) + (e.name + Zeros(Pad(|e.name|)));
    EntryTyped(e, next);
    ScalarFields(e);
    FourAre(NFS_ENV, f, g, f, NEXT, VInt(e.fileid), VStr(e.name), VInt(e.cookie), next, "", "",
            Put64(e.fileid), name, Put64(e.cookie), rest);
    EntryWire(e, next, [Put64(e.fileid), name, Put64(e.cookie), rest]);
  }

  lemma {:induction false} ChainIs(entries: seq<WireEntry>)
    requires forall i :: 0 <= i < |entries| ==> EntryOk(entries[i])
    ensures FieldIs(NFS_ENV, NEXT, ChainValue(entries), "", ChainOctets(entries), "")
  {
    hide FieldIs, ValueIs, Put32, Put64, Concat;
    EnvGood();
    if entries == [] {
      NextNil();
    } else {
      var e, rest := entries[0], entries[1..];
      ChainIs(rest);
      ChainTyped(rest);
      EntryIs(e, ChainValue(rest), ChainOctets(rest));
      NextCons(EntryValue(e, ChainValue(rest)),
               Concat([Put64(e.fileid), Put32(|e.name|) + (e.name + Zeros(Pad(|e.name|))), Put64(e.cookie), ChainOctets(rest)]));
    }
  }

  lemma FlaggedWire(env: Env, s: Schema, v: Value, part: seq<byte>)
    requires Good(env, s) && ValueIs(env, s, v, part)
    ensures ValueIs(env, Flagged(s), VStruct([VBool(true), v]), Put32(1) + part)
  {
    FlaggedGood(env, s);
    FlaggedTyped(env, s, v);
    FlagIs(env, true, "");
    CaseIs(env, 1, s, v, 1);
    hide FieldIs, FieldsAre, Wire, Put32, FieldsGood, FieldsType, Itoa;
    TwoAre(env, Field("union", BoolT), Field(Case(1), s), VBool(true), v, "", Itoa(1), Put32(1), part);
    StructWire(env, Flagged(s).fields, [VBool(true), v], ["", Itoa(1), Itoa(1)], [Put32(1), part]);
  }

  lemma EofField(eof: bool)
    requires WellFormed(NFS_ENV)
    ensures FieldIs(NFS_ENV, Field("", BoolT), VBool(eof), "", Put32(if eof then 1 else 0), "")
  {
    BoolWire(NFS_ENV, eof);
    hide FieldIs, Put32;
    PlainField(NFS_ENV, BoolT, VBool(eof), Put32(if eof then 1 else 0));
  }

  lemma DirlistWire(entries: seq<WireEntry>, eof: bool, parts: seq<seq<byte>>)
    requires FieldsGood(NFS_ENV, DIRLIST3.fields) && FieldsType(NFS_ENV, DIRLIST3.fields, DirlistValue(entries, eof).fs)
    requires FieldsAre(NFS_ENV, DIRLIST3.fields, DirlistValue(entries, eof).fs, ["", "", ""], parts)
    ensures ValueIs(NFS_ENV, DIRLIST3, DirlistValue(entries, eof), Concat(parts))
  {
    hide FieldsAre, Concat, FieldsType;
    StructWire(NFS_ENV, DIRLIST3.fields, DirlistValue(entries, eof).fs, ["", "", ""], parts);
  }

  lemma DirlistIs(entries: seq<WireEntry>, eof: bool)
    requires forall i :: 0 <= i < |entries| ==> EntryOk(entries[i])
    ensures ValueIs(NFS_ENV, DIRLIST3, DirlistValue(entries, eof), ChainOctets(entries) + Put32(if eof then 1 else 0))
  {
    hide FieldIs, FieldsAre, Wire, Put32, ChainOctets, FieldsGood, FieldsType, HasType, Good, Concat;
    ResokGood();
    DirlistTyped(entries, eof);
    ChainIs(entries);
    EofField(eof);
    var a, b := ChainOctets(entries), Put32(if eof then 1 else 0);
    TwoAre(NFS_ENV, NEXT, Field("", BoolT), ChainValue(entries), VBool(eof), "", "", a, b);
    DirlistWire(entries, eof, [a, b]);
  }

  lemma VerifierIs()
    requires WellFormed(NFS_ENV)
    ensures ValueIs(NFS_ENV, COOKIEVERF3, VList(OctetValues(Zeros(8))), Zeros(8))
  {
    FixedOpaqueWire(NFS_ENV, Zeros(8));
    assert Zeros(8) + Zeros(Pad(8)) == Zeros(8);
  }

  /** Every READDIR reply goes out as RFC 1813 declares it: attributes field by field, and one entry after the other. */
  lemma ResokLayout(a: Fattr, entries: seq<WireEntry>, eof: bool)
    requires FattrOk(a) && forall i :: 0 <= i < |entries| ==> EntryOk(entries[i])
    ensures HasType(NFS_ENV, FATTR3, FattrValue(a))
    ensures Good(NFS_ENV, READDIR3RESOK) && HasType(NFS_ENV, READDIR3RESOK, ResokValue(FattrValue(a), entries, eof))
    ensures Enc(NFS_ENV, READDIR3RESOK, ResokValue(FattrValue(a), entries, eof), false) == Out(ResokOctets(a, entries, eof))
  {
    hide Good, HasType, Enc, FattrOk;
    ResokGood();
    FattrGood(NFS_ENV);
    FattrIs(NFS_ENV, a);
    FlaggedWire(NFS_ENV, FATTR3, FattrValue(a), FattrOctets(a));
    VerifierIs();
    DirlistIs(entries, eof);
    hide ValueIs, Wire, Put32, ChainOctets, FattrOctets, FieldsGood, FattrValue, DirlistValue, Concat, WellFormed;
    var parts := [Put32(1) + FattrOctets(a), Zeros(8), ChainOctets(entries) + Put32(if eof then 1 else 0)];
    PlainParts(NFS_ENV, READDIR3RESOK.fields, ResokValue(FattrValue(a), entries, eof).fs, parts);
    ResokEnc(a, entries, eof, Concat(parts));
  }

  lemma ResokEnc(a: Fattr, entries: seq<WireEntry>, eof: bool, octets: seq<byte>)
    requires Good(NFS_ENV, READDIR3RESOK) && ValueIs(NFS_ENV, READDIR3RESOK, ResokValue(FattrValue(a), entries, eof), octets)
    requires ValueIs(NFS_ENV, FATTR3, FattrValue(a), FattrOctets(a))
    ensures HasType(NFS_ENV, FATTR3, FattrValue(a)) && HasType(NFS_ENV, READDIR3RESOK, ResokValue(FattrValue(a), entries, eof))
    ensures Enc(NFS_ENV, READDIR3RESOK, ResokValue(FattrValue(a), entries, eof), false) == Out(octets)
  {
    hide Wire, HasType, FattrOctets, FattrValue;
    WireIsEnc(NFS_ENV, READDIR3RESOK, ResokValue(FattrValue(a), entries, eof));
  }
}

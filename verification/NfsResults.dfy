/** nfs3/nfstypdef.go: the result types of the NFS procedures, a status followed by a success or a failure arm. */
module NfsResults {
  import opened Bytes
  import opened XdrTag
  import opened Xdr
  import opened XdrLaws
  import opened XdrStructs
  import opened XdrFits
  import opened XdrWire
  import opened NfsTypes
  import opened ReadDir

  const STATUS := Field("union", UintT(W32))

  function ResultFields(ok: Schema, fail: Schema): seq<Field> { [STATUS, Field(Case(0), ok), Field(NotCase(0), fail)] }

  /** Status, Resok and Resfail. */
  function ResultT(ok: Schema, fail: Schema): Schema { StructT(ResultFields(ok, fail)) }

  function ResultValue(status: int, ok: Value, fail: Value): Value { VStruct([VInt(status), ok, fail]) }

  lemma ResultGood(env: Env, ok: Schema, fail: Schema)
    requires Good(env, ok) && Good(env, fail)
    ensures Good(env, ResultT(ok, fail)) && FieldsGood(env, ResultFields(ok, fail))
  {
    hide FieldsGood, FieldGood;
    UnionGood(env, UintT(W32));
    CaseGood(env, 0, ok);
    CaseGood(env, 0, fail);
    GoodThree(env, STATUS, Field(Case(0), ok), Field(NotCase(0), fail));
  }

  lemma ResultTyped(env: Env, ok: Schema, fail: Schema, status: int, v: Value, w: Value)
    requires HasType(env, ok, v) && HasType(env, fail, w) && 0 <= status < TWO_32
    ensures FieldsType(env, ResultFields(ok, fail), [VInt(status), v, w])
  {
    TypeThree(env, STATUS, Field(Case(0), ok), Field(NotCase(0), fail), VInt(status), v, w);
  }

  lemma ResultArms(ok: Schema, fail: Schema)
    requires !ok.PtrT? && !fail.PtrT?
    ensures Arms(ResultFields(ok, fail)[..0]) && Arms(ResultFields(ok, fail)[1..])
  {
    CaseTagFacts(0);
  }

  lemma ResultPointwise(env: Env, ok: Schema, fail: Schema, status: int, v: Value, w: Value)
    requires Good(env, ok) && Good(env, fail) && HasType(env, ok, v) && HasType(env, fail, w) && 0 <= status < TWO_32
    ensures FieldsGood(env, ResultFields(ok, fail)) && FieldsType(env, ResultFields(ok, fail), [VInt(status), v, w])
    ensures Pointwise(env, ResultFields(ok, fail), [VInt(status), v, w],
                      NormFields(env, ResultFields(ok, fail), [VInt(status), v, w], ""), 0, Itoa(status))
  {
    hide NormFields, NormBody, Norm, HasType;
    ResultGood(env, ok, fail);
    ResultTyped(env, ok, fail, status, v, w);
    ResultArms(ok, fail);
    UnionPointwise(env, ResultFields(ok, fail), [VInt(status), v, w], 0);
  }

  /** What the wire keeps of a result: the success arm for status 0, the failure arm for every other status. */
  function Kept(env: Env, ok: Schema, fail: Schema, status: int, v: Value, w: Value): Value
    requires EnvGuarded(env) && Guarded(env, ok) && Guarded(env, fail) && HasType(env, ok, v) && HasType(env, fail, w)
  {
    if status == 0 then ResultValue(status, Norm(env, ok, v), Zero(fail))
    else ResultValue(status, Zero(ok), Norm(env, fail, w))
  }

  lemma ResultNorm(env: Env, ok: Schema, fail: Schema, status: int, v: Value, w: Value)
    requires Good(env, ok) && Good(env, fail) && HasType(env, ok, v) && HasType(env, fail, w) && 0 <= status < TWO_32
    ensures NormIs(env, ResultT(ok, fail), ResultValue(status, v, w), Kept(env, ok, fail, status, v, w))
  {
    hide Pointwise, NormFields, Norm, FieldsGood, FieldsType, NormIs, HasType;
    var fields, vs := ResultFields(ok, fail), [VInt(status), v, w];
    ResultPointwise(env, ok, fail, status, v, w);
    StructNorm(env, fields, vs);
    var r := NormFields(env, fields, vs, "");
    ResultParts(env, ok, fail, status, v, w, r);
  }

  lemma ResultParts(env: Env, ok: Schema, fail: Schema, status: int, v: Value, w: Value, r: seq<Value>)
    requires FieldsGood(env, ResultFields(ok, fail)) && FieldsType(env, ResultFields(ok, fail), [VInt(status), v, w])
    requires Guarded(env, ok) && Guarded(env, fail) && HasType(env, ok, v) && HasType(env, fail, w) && 0 <= status < TWO_32
    requires Pointwise(env, ResultFields(ok, fail), [VInt(status), v, w], r, 0, Itoa(status))
    ensures VStruct(r) == Kept(env, ok, fail, status, v, w)
  {
    hide Norm, Zero, HasType, Itoa;
    var fields, vs := ResultFields(ok, fail), [VInt(status), v, w];
    assert |r| == 3;
    hide Pointwise;
    PlainAt(env, fields, vs, r, 0, Itoa(status), 0);
    WordNorm(env, UintT(W32), VInt(status));
    CaseAt(env, fields, vs, r, 0, status, 1, 0);
    NotCaseAt(env, fields, vs, r, 0, status, 2, 0);
    assert r == [r[0], r[1], r[2]];
  }

  /** A client that decodes a reply sees status 0 with the success arm, or another status with the failure arm, and
      zero values in the arm that was not sent. */
  lemma ResultRoundTrip(env: Env, ok: Schema, fail: Schema, status: int, v: Value, w: Value, tail: seq<byte>)
    requires Good(env, ok) && Good(env, fail) && HasType(env, ok, v) && HasType(env, fail, w) && 0 <= status < TWO_32
    requires NarrowEnv(env) && Narrow(ok) && Narrow(fail) && Compact(v) && Compact(w)
    ensures Good(env, ResultT(ok, fail)) && HasType(env, ResultT(ok, fail), ResultValue(status, v, w))
    ensures var e := Enc(env, ResultT(ok, fail), ResultValue(status, v, w), false);
            && e.err == None
            && Dec(env, 0, ResultT(ok, fail), false, e.bytes + tail) == Ok(Kept(env, ok, fail, status, v, w), |e.bytes|)
  {
    hide Enc, Dec, Norm, HasType;
    ResultNorm(env, ok, fail, status, v, w);
    ResultNarrow(ok, fail, status, v, w);
    CompactRoundTrip(env, ResultT(ok, fail), ResultValue(status, v, w), tail);
  }

  lemma ResultNarrow(ok: Schema, fail: Schema, status: int, v: Value, w: Value)
    requires Narrow(ok) && Narrow(fail) && Compact(v) && Compact(w)
    ensures Narrow(ResultT(ok, fail)) && Compact(ResultValue(status, v, w))
  {
    var fields, vs := ResultFields(ok, fail), [VInt(status), v, w];
    assert forall i :: 0 <= i < 3 ==> Narrow(fields[i].schema);
    assert forall i :: 0 <= i < 3 ==> Compact(vs[i]);
  }

  lemma ResultAre(env: Env, ok: Schema, fail: Schema, status: int, v: Value, w: Value)
    requires Good(env, ok) && Good(env, fail) && HasType(env, ok, v) && HasType(env, fail, w) && 0 <= status < TWO_32
    ensures FieldsAre(env, ResultFields(ok, fail), [VInt(status), v, w], ["", Itoa(status), Itoa(status), Itoa(status)],
                      [Put32(status), if 0 == status then Wire(env, ok, v) else [], if 0 != status then Wire(env, fail, w) else []])
  {
    DiscriminantIs(env, UintT(W32), status, "");
    CaseIs(env, 0, ok, v, status);
    NotCaseIs(env, 0, fail, w, status);
    hide FieldIs, FieldsAre, Wire, Put32, Itoa, FieldGood;
    ThreeAre(env, STATUS, Field(Case(0), ok), Field(NotCase(0), fail), VInt(status), v, w, "", Itoa(status),
             Put32(status), if 0 == status then Wire(env, ok, v) else [], if 0 != status then Wire(env, fail, w) else []);
  }

  lemma OneOfTwo(a: seq<byte>, first: bool, b: seq<byte>, c: seq<byte>)
    ensures Concat([a, if first then b else [], if !first then c else []]) == a + if first then b else c
  {
    var x, y := if first then b else [], if !first then c else [];
    ConcatCons(a, [x, y]);
    ConcatCons(x, [y]);
    ConcatOne(y);
    assert [a] + [x, y] == [a, x, y] && [x] + [y] == [x, y];
    assert b + [] == b && [] + c == c;
  }

  /** The status, then the success arm if it is 0 and the failure arm if it is not. */
  lemma ResultWire(env: Env, ok: Schema, fail: Schema, status: int, v: Value, w: Value)
    requires Good(env, ok) && Good(env, fail) && HasType(env, ok, v) && HasType(env, fail, w) && 0 <= status < TWO_32
    ensures Good(env, ResultT(ok, fail)) && HasType(env, ResultT(ok, fail), ResultValue(status, v, w))
    ensures Wire(env, ResultT(ok, fail), ResultValue(status, v, w)) ==
            Put32(status) + if status == 0 then Wire(env, ok, v) else Wire(env, fail, w)
  {
    hide FieldsAre, Wire, Put32, FieldsGood, FieldsType, Itoa, Concat;
    ResultGood(env, ok, fail);
    ResultTyped(env, ok, fail, status, v, w);
    ResultAre(env, ok, fail, status, v, w);
    var i := Itoa(status);
    StructWire(env, ResultFields(ok, fail), [VInt(status), v, w], ["", i, i, i],
               [Put32(status), if 0 == status then Wire(env, ok, v) else [], if 0 != status then Wire(env, fail, w) else []]);
    OneOfTwo(Put32(status), 0 == status, Wire(env, ok, v), Wire(env, fail, w));
  }

  // ---------------------------------------------------------------- READDIR3res

  const READDIR3RESFAIL := StructT([Field("", POST_OP_ATTR)])
  const READDIR3RES := ResultT(READDIR3RESOK, READDIR3RESFAIL)

  lemma ResfailGood()
    ensures Good(NFS_ENV, READDIR3RESOK) && Good(NFS_ENV, READDIR3RESFAIL)
    ensures HasType(NFS_ENV, READDIR3RESFAIL, Zero(READDIR3RESFAIL))
  {
    ResokGood();
    PostOpGood(NFS_ENV);
    PlainGood(NFS_ENV, POST_OP_ATTR);
    StructGood(NFS_ENV, [Field("", POST_OP_ATTR)]);
    ZeroType(NFS_ENV, READDIR3RESFAIL);
  }

  lemma {:induction false} ZeroCompact(s: Schema)
    requires Narrow(s)
    ensures Compact(Zero(s))
    decreases s
  {
    match s
    case FixedArrayT(len, elem) =>
      ZeroCompact(elem);
    case StructT(fields) =>
      forall i | 0 <= i < |fields| ensures Compact(Zero(fields[i].schema)) {
        ZeroCompact(fields[i].schema);
      }
    case _ =>
  }

  lemma ResfailNarrow()
    ensures NarrowEnv(NFS_ENV) && Narrow(READDIR3RESOK) && Narrow(READDIR3RESFAIL) && Compact(Zero(READDIR3RESFAIL))
  {
    ResokNarrow();
    assert READDIR3RESOK.fields[0].schema == POST_OP_ATTR;
    assert Narrow(POST_OP_ATTR);
    ZeroCompact(READDIR3RESFAIL);
  }

  /** The whole reply to READDIR: for every page the server builds, the client decodes status 0 and that very page. */
  lemma PageReplied(r: Request, cookie: int, attrs: Value, tail: seq<byte>)
    requires RequestOk(r) && 0 <= cookie < TWO_64 && HasType(NFS_ENV, FATTR3, attrs)
    requires forall i :: 0 <= i < |r.listing| ==> |r.listing[i].name| + 4 <= MAX_INT32
    ensures var p := PageAt(r, cookie);
            var v := ResultValue(0, ResokValue(attrs, p.entries, p.eof), Zero(READDIR3RESFAIL));
            && Good(NFS_ENV, READDIR3RES) && HasType(NFS_ENV, READDIR3RES, v)
            && var e := Enc(NFS_ENV, READDIR3RES, v, false);
            && e.err == None && Dec(NFS_ENV, 0, READDIR3RES, false, e.bytes + tail) == Ok(v, |e.bytes|)
  {
    var p := PageAt(r, cookie);
    PageShape(r, Low(cookie), READDIRRESOKSIZE);
    forall i | 0 <= i < |p.entries| ensures EntryOk(p.entries[i]) && |p.entries[i].name| + 4 <= MAX_INT32 {
      assert p.entries[i] == EntryAt(r, Low(cookie) + i);
    }
    ReplyAccepted(attrs, p.entries, p.eof, tail);
  }

  lemma ReplyAccepted(attrs: Value, entries: seq<WireEntry>, eof: bool, tail: seq<byte>)
    requires HasType(NFS_ENV, FATTR3, attrs)
    requires forall i :: 0 <= i < |entries| ==> EntryOk(entries[i]) && |entries[i].name| + 4 <= MAX_INT32
    ensures var v := ResultValue(0, ResokValue(attrs, entries, eof), Zero(READDIR3RESFAIL));
            && Good(NFS_ENV, READDIR3RES) && HasType(NFS_ENV, READDIR3RES, v)
            && var e := Enc(NFS_ENV, READDIR3RES, v, false);
            && e.err == None && Dec(NFS_ENV, 0, READDIR3RES, false, e.bytes + tail) == Ok(v, |e.bytes|)
  {
    hide Enc, Dec, HasType, Compact, Narrow;
    ResfailGood();
    ResfailNarrow();
    ResokNorm(attrs, entries, eof);
    ResokCompact(attrs, entries, eof);
    ResultRoundTrip(NFS_ENV, READDIR3RESOK, READDIR3RESFAIL, 0, ResokValue(attrs, entries, eof), Zero(READDIR3RESFAIL), tail);
  }
}

/** oncrpc/rpctypes.go: the RPC message, section 9 of RFC 5531, and its XDR schema. */
module RpcTypes {
  import opened Bytes
  import opened Xdr
  import opened XdrLaws
  import opened XdrStructs

  const RPC_VERSION := 2
  const CALL := 0
  const REPLY := 1
  const MSG_ACCEPTED := 0
  const MSG_DENIED := 1
  const SUCCESS := 0
  const PROG_UNAVAIL := 1
  const PROG_MISMATCH := 2
  const PROC_UNAVAIL := 3
  const GARBAGE_ARGS := 4
  const SYSTEM_ERR := 5
  const RPC_MISMATCH := 0
  const AUTH_ERROR := 1
  const AUTH_BADCRED := 1
  const AUTH_NONE := 0
  const AUTH_SYS := 1

  datatype OpaqueAuth = OpaqueAuth(flavor: int, body: seq<byte>)
  datatype CallBody = CallBody(rpcVersion: int, program: int, version: int, procedure: int, cred: OpaqueAuth, verf: OpaqueAuth)
  datatype MismatchReply = MismatchReply(low: int, high: int)
  datatype AcceptedReply = AcceptedReply(verf: OpaqueAuth, stat: int, mismatchP: MismatchReply, mismatchV: MismatchReply)
  datatype RejectedReply = RejectedReply(stat: int, mismatch: MismatchReply, authStat: int)
  datatype ReplyBody = ReplyBody(stat: int, areply: AcceptedReply, rreply: RejectedReply)
  datatype RPCMsg = RPCMsg(xid: int, mtype: int, cbody: CallBody, rbody: ReplyBody)

  const AUTH := StructT([Field("", IntT(W32)), Field("", SliceT(UintT(W8)))])
  const CALL_BODY := StructT([Field("", UintT(W32)), Field("", UintT(W32)), Field("", UintT(W32)), Field("", UintT(W32)), Field("", AUTH), Field("", AUTH)])
  const MISMATCH := StructT([Field("", UintT(W32)), Field("", UintT(W32))])
  const ACCEPTED := Union4(AUTH, PROG_UNAVAIL, MISMATCH, PROG_MISMATCH, MISMATCH)
  const REJECTED := Union3(RPC_MISMATCH, MISMATCH, AUTH_ERROR, IntT(W32))
  const REPLY_BODY := Union3(MSG_ACCEPTED, ACCEPTED, MSG_DENIED, REJECTED)
  const RPC_MSG := Union4(UintT(W32), CALL, CALL_BODY, REPLY, REPLY_BODY)

  // ---------------------------------------------------------------- messages as values

  function AuthValue(a: OpaqueAuth): Value { VStruct([VInt(a.flavor), VList(OctetValues(a.body))]) }

  function CallValue(c: CallBody): Value {
    VStruct([VInt(c.rpcVersion), VInt(c.program), VInt(c.version), VInt(c.procedure), AuthValue(c.cred), AuthValue(c.verf)])
  }

  function MismatchValue(m: MismatchReply): Value { VStruct([VInt(m.low), VInt(m.high)]) }

  function AcceptedValue(a: AcceptedReply): Value {
    VStruct([AuthValue(a.verf), VInt(a.stat), MismatchValue(a.mismatchP), MismatchValue(a.mismatchV)])
  }

  function RejectedValue(r: RejectedReply): Value {
    VStruct([VInt(r.stat), MismatchValue(r.mismatch), VInt(r.authStat)])
  }

  function ReplyValue(r: ReplyBody): Value { VStruct([VInt(r.stat), AcceptedValue(r.areply), RejectedValue(r.rreply)]) }

  function MsgValue(m: RPCMsg): Value { VStruct([VInt(m.xid), VInt(m.mtype), CallValue(m.cbody), ReplyValue(m.rbody)]) }

  predicate IsInt32(x: int) { -TWO_31 <= x < TWO_31 }

  predicate IsUint32(x: int) { 0 <= x < TWO_32 }

  predicate AuthOk(a: OpaqueAuth) { IsInt32(a.flavor) }

  predicate CallOk(c: CallBody) {
    IsUint32(c.rpcVersion) && IsUint32(c.program) && IsUint32(c.version) && IsUint32(c.procedure) && AuthOk(c.cred) && AuthOk(c.verf)
  }

  predicate MismatchOk(m: MismatchReply) { IsUint32(m.low) && IsUint32(m.high) }

  predicate AcceptedOk(a: AcceptedReply) {
    AuthOk(a.verf) && IsInt32(a.stat) && MismatchOk(a.mismatchP) && MismatchOk(a.mismatchV)
  }

  predicate RejectedOk(r: RejectedReply) { IsInt32(r.stat) && MismatchOk(r.mismatch) && IsInt32(r.authStat) }

  predicate ReplyOk(r: ReplyBody) { IsInt32(r.stat) && AcceptedOk(r.areply) && RejectedOk(r.rreply) }

  /** The fields hold what their Go types can hold. */
  predicate MsgOk(m: RPCMsg) { IsUint32(m.xid) && IsInt32(m.mtype) && CallOk(m.cbody) && ReplyOk(m.rbody) }

  const NO_AUTH := OpaqueAuth(0, [])
  const NO_CALL := CallBody(0, 0, 0, 0, NO_AUTH, NO_AUTH)
  const NO_MISMATCH := MismatchReply(0, 0)
  const NO_ACCEPTED := AcceptedReply(NO_AUTH, 0, NO_MISMATCH, NO_MISMATCH)
  const NO_REJECTED := RejectedReply(0, NO_MISMATCH, 0)
  const NO_REPLY := ReplyBody(0, NO_ACCEPTED, NO_REJECTED)

  // ---------------------------------------------------------------- what the unions keep

  function NormAccepted(a: AcceptedReply): AcceptedReply {
    a.(mismatchP := if a.stat == PROG_UNAVAIL then a.mismatchP else NO_MISMATCH,
       mismatchV := if a.stat == PROG_MISMATCH then a.mismatchV else NO_MISMATCH)
  }

  function NormRejected(r: RejectedReply): RejectedReply {
    r.(mismatch := if r.stat == RPC_MISMATCH then r.mismatch else NO_MISMATCH,
       authStat := if r.stat == AUTH_ERROR then r.authStat else 0)
  }

  function NormReply(r: ReplyBody): ReplyBody {
    r.(areply := if r.stat == MSG_ACCEPTED then NormAccepted(r.areply) else NO_ACCEPTED,
       rreply := if r.stat == MSG_DENIED then NormRejected(r.rreply) else NO_REJECTED)
  }

  /** The message with everything outside its discriminants' arms cleared. */
  function NormMsg(m: RPCMsg): RPCMsg {
    m.(cbody := if m.mtype == CALL then m.cbody else NO_CALL,
       rbody := if m.mtype == REPLY then NormReply(m.rbody) else NO_REPLY)
  }

  lemma AuthTyped(env: Env, a: OpaqueAuth)
    requires AuthOk(a)
    ensures HasType(env, AUTH, AuthValue(a))
  {
    var vs := OctetValues(a.body);
    assert AllType(env, UintT(W8), vs) by {
      forall i | 0 <= i < |vs| ensures HasType(env, UintT(W8), vs[i]) { }
    }
    assert HasType(env, SliceT(UintT(W8)), VList(vs));
  }

  lemma CallTyped(env: Env, c: CallBody)
    requires CallOk(c)
    ensures HasType(env, CALL_BODY, CallValue(c))
  {
    AuthTyped(env, c.cred);
    AuthTyped(env, c.verf);
  }

  lemma AuthGood(env: Env)
    requires WellFormed(env)
    ensures Good(env, AUTH) && FieldsGood(env, AUTH.fields)
  {
    PlainGood(env, IntT(W32));
    assert Good(env, SliceT(UintT(W8)));
    PlainGood(env, SliceT(UintT(W8)));
    StructGood(env, AUTH.fields);
  }

  lemma MismatchGood(env: Env)
    requires WellFormed(env)
    ensures Good(env, MISMATCH) && FieldsGood(env, MISMATCH.fields)
  {
    PlainGood(env, UintT(W32));
    StructGood(env, MISMATCH.fields);
  }

  lemma CallGood(env: Env)
    requires WellFormed(env)
    ensures Good(env, CALL_BODY) && FieldsGood(env, CALL_BODY.fields)
  {
    AuthGood(env);
    PlainGood(env, UintT(W32));
    PlainGood(env, AUTH);
    StructGood(env, CALL_BODY.fields);
  }

  lemma BodyUnchanged(env: Env, body: seq<byte>)
    requires WellFormed(env)
    ensures Unchanged(env, SliceT(UintT(W8)), VList(OctetValues(body)))
  {
    var vs := OctetValues(body);
    assert AllType(env, UintT(W8), vs) by {
      forall i | 0 <= i < |vs| ensures HasType(env, UintT(W8), vs[i]) { }
    }
    NormOctets(env, vs);
  }

  lemma AuthNorm(env: Env, a: OpaqueAuth)
    requires WellFormed(env) && AuthOk(a)
    ensures Good(env, AUTH) && HasType(env, AUTH, AuthValue(a)) && Norm(env, AUTH, AuthValue(a)) == AuthValue(a)
  {
    AuthGood(env);
    AuthTyped(env, a);
    var fields, vs := AUTH.fields, AuthValue(a).fs;
    BodyUnchanged(env, a.body);
    assert Unchanged(env, IntT(W32), vs[0]);
    hide Norm, HasType, Guarded;
    PlainNorm(env, fields, vs);
  }

  lemma MismatchNorm(env: Env, m: MismatchReply)
    requires WellFormed(env) && MismatchOk(m)
    ensures Good(env, MISMATCH) && HasType(env, MISMATCH, MismatchValue(m))
    ensures Norm(env, MISMATCH, MismatchValue(m)) == MismatchValue(m)
  {
    MismatchGood(env);
    var fields, vs := MISMATCH.fields, MismatchValue(m).fs;
    assert Unchanged(env, UintT(W32), vs[0]) && Unchanged(env, UintT(W32), vs[1]);
    PlainNorm(env, fields, vs);
  }

  lemma CallNorm(env: Env, c: CallBody)
    requires WellFormed(env) && CallOk(c)
    ensures Good(env, CALL_BODY) && HasType(env, CALL_BODY, CallValue(c))
    ensures Norm(env, CALL_BODY, CallValue(c)) == CallValue(c)
  {
    CallGood(env);
    CallTyped(env, c);
    AuthNorm(env, c.cred);
    AuthNorm(env, c.verf);
    var fields, vs := CALL_BODY.fields, CallValue(c).fs;
    assert forall i :: 0 <= i < 4 ==> Unchanged(env, UintT(W32), vs[i]);
    assert Unchanged(env, AUTH, vs[4]) && Unchanged(env, AUTH, vs[5]);
    hide Norm, HasType, Guarded;
    PlainNorm(env, fields, vs);
  }

  lemma ZeroMismatch()
    ensures Zero(MISMATCH) == MismatchValue(NO_MISMATCH)
  {
    assert Zero(MISMATCH).fs == MismatchValue(NO_MISMATCH).fs;
  }

  lemma ZeroAuth()
    ensures Zero(AUTH) == AuthValue(NO_AUTH)
  {
    assert OctetValues([]) == [];
    assert Zero(AUTH).fs == AuthValue(NO_AUTH).fs;
  }

  lemma ZeroCall()
    ensures Zero(CALL_BODY) == CallValue(NO_CALL)
  {
    ZeroAuth();
    assert Zero(CALL_BODY).fs == CallValue(NO_CALL).fs;
  }

  lemma ZeroReply()
    ensures Zero(ACCEPTED) == AcceptedValue(NO_ACCEPTED)
    ensures Zero(REJECTED) == RejectedValue(NO_REJECTED)
    ensures Zero(REPLY_BODY) == ReplyValue(NO_REPLY)
  {
    ZeroAuth();
    ZeroMismatch();
    assert Zero(ACCEPTED).fs == AcceptedValue(NO_ACCEPTED).fs;
    assert Zero(REJECTED).fs == RejectedValue(NO_REJECTED).fs;
    assert Zero(REPLY_BODY).fs == ReplyValue(NO_REPLY).fs;
  }

  lemma AcceptedNorm(env: Env, a: AcceptedReply)
    requires WellFormed(env) && AcceptedOk(a)
    ensures Good(env, ACCEPTED) && HasType(env, ACCEPTED, AcceptedValue(a))
    ensures Norm(env, ACCEPTED, AcceptedValue(a)) == AcceptedValue(NormAccepted(a))
  {
    AuthNorm(env, a.verf);
    MismatchNorm(env, a.mismatchP);
    MismatchNorm(env, a.mismatchV);
    ZeroMismatch();
    Union4Norm(env, AUTH, PROG_UNAVAIL, MISMATCH, PROG_MISMATCH, MISMATCH, AuthValue(a.verf), a.stat,
               MismatchValue(a.mismatchP), MismatchValue(a.mismatchV));
  }

  lemma RejectedNorm(env: Env, r: RejectedReply)
    requires WellFormed(env) && RejectedOk(r)
    ensures Good(env, REJECTED) && HasType(env, REJECTED, RejectedValue(r))
    ensures Norm(env, REJECTED, RejectedValue(r)) == RejectedValue(NormRejected(r))
  {
    MismatchNorm(env, r.mismatch);
    ZeroMismatch();
    Union3Norm(env, RPC_MISMATCH, MISMATCH, AUTH_ERROR, IntT(W32), r.stat, MismatchValue(r.mismatch), VInt(r.authStat));
  }

  lemma ReplyNorm(env: Env, b: ReplyBody)
    requires WellFormed(env) && ReplyOk(b)
    ensures Good(env, REPLY_BODY) && HasType(env, REPLY_BODY, ReplyValue(b))
    ensures Norm(env, REPLY_BODY, ReplyValue(b)) == ReplyValue(NormReply(b))
  {
    AcceptedNorm(env, b.areply);
    RejectedNorm(env, b.rreply);
    ZeroReply();
    Union3Norm(env, MSG_ACCEPTED, ACCEPTED, MSG_DENIED, REJECTED, b.stat, AcceptedValue(b.areply), RejectedValue(b.rreply));
  }

  /** What the wire keeps of a message: the arms its discriminants select, and nothing else. */
  lemma MsgNorm(env: Env, m: RPCMsg)
    requires WellFormed(env) && MsgOk(m)
    ensures Good(env, RPC_MSG) && HasType(env, RPC_MSG, MsgValue(m))
    ensures Norm(env, RPC_MSG, MsgValue(m)) == MsgValue(NormMsg(m))
  {
    WordNorm(env, UintT(W32), VInt(m.xid));
    assert Good(env, UintT(W32)) && HasType(env, UintT(W32), VInt(m.xid));
    hide Norm, HasType, Good, Zero, CallValue, ReplyValue;
    CallNorm(env, m.cbody);
    ReplyNorm(env, m.rbody);
    ZeroCall();
    ZeroReply();
    Union4Norm(env, UintT(W32), CALL, CALL_BODY, REPLY, REPLY_BODY, VInt(m.xid), m.mtype, CallValue(m.cbody), ReplyValue(m.rbody));
  }

  lemma MsgGood(env: Env)
    requires WellFormed(env)
    ensures Good(env, RPC_MSG)
  {
    MsgNorm(env, RPCMsg(0, 0, NO_CALL, NO_REPLY));
  }
}

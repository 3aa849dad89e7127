/** oncrpc/clientcodec.go and oncrpc/servercodec.go: the two halves of one connection. */
module RpcCodec {
  import opened Bytes
  import opened Xdr
  import opened XdrLaws
  import opened XdrCodec
  import opened XdrFits
  import opened Record
  import opened RpcTypes

  datatype ProcEntry = ProcEntry(program: int, version: int, procList: seq<string>)

  type Table = seq<ProcEntry>

  /** Programs and versions are uint32, and so are procedure numbers. */
  predicate TableOk(table: Table) {
    forall i :: 0 <= i < |table| ==>
      IsUint32(table[i].program) && IsUint32(table[i].version) && IsUint32(|table[i].procList|)
  }

  predicate DistinctPrograms(table: Table) {
    forall i, j :: 0 <= i < j < |table| ==> table[i].program != table[j].program
  }

  datatype RpcError =
    | ProcedureUnavailable
    | XdrError(code: ErrorCode)
    | RecordFailed(error: RecordError)
    | InvalidMessageType(mtype: int)

  // ---------------------------------------------------------------- reading messages out of values

  function Member(v: Value, i: nat): Value { if v.VStruct? && i < |v.fs| then v.fs[i] else VNil }

  function IntOf(v: Value): int { if v.VInt? then v.i else 0 }

  predicate IsOctet(v: Value) { v.VInt? && 0 <= v.i < 256 }

  function BytesOf(v: Value): seq<byte> {
    if v.VList? && forall i :: 0 <= i < |v.vs| ==> IsOctet(v.vs[i]) then Octets(v.vs) else []
  }

  function AuthOf(v: Value): OpaqueAuth { OpaqueAuth(IntOf(Member(v, 0)), BytesOf(Member(v, 1))) }

  function CallOf(v: Value): CallBody {
    CallBody(IntOf(Member(v, 0)), IntOf(Member(v, 1)), IntOf(Member(v, 2)), IntOf(Member(v, 3)),
             AuthOf(Member(v, 4)), AuthOf(Member(v, 5)))
  }

  function MismatchOf(v: Value): MismatchReply { MismatchReply(IntOf(Member(v, 0)), IntOf(Member(v, 1))) }

  function AcceptedOf(v: Value): AcceptedReply {
    AcceptedReply(AuthOf(Member(v, 0)), IntOf(Member(v, 1)), MismatchOf(Member(v, 2)), MismatchOf(Member(v, 3)))
  }

  function RejectedOf(v: Value): RejectedReply {
    RejectedReply(IntOf(Member(v, 0)), MismatchOf(Member(v, 1)), IntOf(Member(v, 2)))
  }

  function ReplyOf(v: Value): ReplyBody {
    ReplyBody(IntOf(Member(v, 0)), AcceptedOf(Member(v, 1)), RejectedOf(Member(v, 2)))
  }

  function MsgOf(v: Value): RPCMsg {
    RPCMsg(IntOf(Member(v, 0)), IntOf(Member(v, 1)), CallOf(Member(v, 2)), ReplyOf(Member(v, 3)))
  }

  lemma AuthOfValue(a: OpaqueAuth)
    ensures AuthOf(AuthValue(a)) == a
  {
    var vs := OctetValues(a.body);
    assert forall i :: 0 <= i < |vs| ==> IsOctet(vs[i]);
    assert Octets(vs) == a.body;
  }

  lemma MsgOfValue(m: RPCMsg)
    ensures MsgOf(MsgValue(m)) == m
  {
    AuthOfValue(m.cbody.cred);
    AuthOfValue(m.cbody.verf);
    AuthOfValue(m.rbody.areply.verf);
    assert CallOf(CallValue(m.cbody)) == m.cbody;
    assert AcceptedOf(AcceptedValue(m.rbody.areply)) == m.rbody.areply;
    assert RejectedOf(RejectedValue(m.rbody.rreply)) == m.rbody.rreply;
  }

  /** The message schema has no pointers, so it needs no named types. */
  const NO_ENV: Env := map[]

  /** The only variable lengths in a message are those of its credentials. */
  predicate SmallAuth(a: OpaqueAuth) { |a.body| + 4 <= MAX_INT32 }

  predicate SmallMsg(m: RPCMsg) {
    MsgOk(m) && SmallAuth(m.cbody.cred) && SmallAuth(m.cbody.verf) && SmallAuth(m.rbody.areply.verf)
  }

  lemma MsgCompact(m: RPCMsg)
    requires SmallMsg(m)
    ensures Compact(MsgValue(m))
  {
    forall a: OpaqueAuth | SmallAuth(a) ensures Compact(AuthValue(a)) {
      var vs := OctetValues(a.body);
      assert forall i :: 0 <= i < |vs| ==> Compact(vs[i]);
      assert Compact(VList(vs));
    }
    assert forall r: MismatchReply :: Compact(MismatchValue(r));
    assert Compact(CallValue(m.cbody));
    assert Compact(AcceptedValue(m.rbody.areply));
    assert Compact(RejectedValue(m.rbody.rreply));
    assert Compact(ReplyValue(m.rbody));
  }

  lemma MsgNarrow()
    ensures Narrow(RPC_MSG)
  {
    assert Narrow(AUTH) && Narrow(MISMATCH);
    assert Narrow(CALL_BODY);
    assert Narrow(ACCEPTED);
    assert Narrow(REJECTED);
    assert Narrow(REPLY_BODY);
  }

  /** A message written by either side is read by the other as what the wire keeps of it, up to its last octet. */
  lemma MsgRoundTrip(m: RPCMsg, tail: seq<byte>)
    requires SmallMsg(m)
    ensures Good(NO_ENV, RPC_MSG) && HasType(NO_ENV, RPC_MSG, MsgValue(m))
    ensures var e := Enc(NO_ENV, RPC_MSG, MsgValue(m), false);
            && e.err == None
            && Dec(NO_ENV, 0, RPC_MSG, false, e.bytes + tail) == Ok(MsgValue(NormMsg(m)), |e.bytes|)
            && MsgOf(MsgValue(NormMsg(m))) == NormMsg(m)
  {
    MsgNorm(NO_ENV, m);
    MsgCompact(m);
    MsgNarrow();
    CompactRoundTrip(NO_ENV, RPC_MSG, MsgValue(m), tail);
    MsgOfValue(NormMsg(m));
  }

  // ---------------------------------------------------------------- client: requests

  function FirstIndex(list: seq<string>, name: string): (j: int)
    ensures -1 <= j < |list|
    ensures j >= 0 ==> list[j] == name && forall k :: 0 <= k < j ==> list[k] != name
    ensures j < 0 <==> name !in list
  {
    if list == [] then -1
    else if list[0] == name then 0
    else
      var j := FirstIndex(list[1..], name);
      if j < 0 then -1 else j + 1
  }

  /** The last program that has the procedure. */
  function LastEntry(table: Table, name: string): (i: int)
    ensures -1 <= i < |table|
    ensures i >= 0 ==> name in table[i].procList && forall k :: i < k < |table| ==> name !in table[k].procList
    ensures i < 0 <==> forall k :: 0 <= k < |table| ==> name !in table[k].procList
  {
    if table == [] then -1
    else
      var n := |table| - 1;
      if name in table[n].procList then n
      else
        assert forall k :: 0 <= k < n ==> table[..n][k] == table[k];
        LastEntry(table[..n], name)
  }

  /** The call message the client builds for a method of the table. */
  function CallFor(table: Table, name: string, seqNo: int): (m: RPCMsg)
    requires TableOk(table) && LastEntry(table, name) >= 0
    ensures SmallMsg(m)
  {
    var i := LastEntry(table, name);
    var j := FirstIndex(table[i].procList, name);
    RPCMsg(Uint32(seqNo), CALL, CallBody(RPC_VERSION, table[i].program, table[i].version, j, NO_AUTH, NO_AUTH), NO_REPLY)
  }

  /** A parameter or a result, with the schema of its Go type. */
  datatype Payload = Payload(env: Env, schema: Schema, value: Value)

  ghost predicate Typed(p: Payload) {
    EnvGuarded(p.env) && Guarded(p.env, p.schema) && HasType(p.env, p.schema, p.value)
  }

  ghost predicate PayloadOk(p: Payload) {
    Good(p.env, p.schema) && HasType(p.env, p.schema, p.value) && AllFit(0, Atoms(p.env, p.schema, p.value, false))
  }

  function PayloadBytes(p: Payload): seq<byte>
    requires Typed(p)
  {
    Enc(p.env, p.schema, p.value, false).bytes
  }

  function MsgBytes(m: RPCMsg): seq<byte>
    requires MsgOk(m)
  {
    MsgNorm(NO_ENV, m);
    Enc(NO_ENV, RPC_MSG, MsgValue(m), false).bytes
  }

  /** A message and its payload marshalled into one buffer. */
  function Outgoing(m: RPCMsg, p: Payload): Emit
    requires MsgOk(m) && Typed(p)
  {
    MsgNorm(NO_ENV, m);
    Then(Enc(NO_ENV, RPC_MSG, MsgValue(m), false), Enc(p.env, p.schema, p.value, false))
  }

  lemma OutgoingBytes(m: RPCMsg, p: Payload)
    requires SmallMsg(m) && PayloadOk(p)
    ensures Outgoing(m, p) == Out(MsgBytes(m) + PayloadBytes(p))
  {
    MsgRoundTrip(m, []);
    EncIsCanon(p.env, p.schema, p.value, false);
  }

  /** A nil parameter or result is not marshalled; the empty structure stands for it. */
  const NIL := Payload(NO_ENV, StructT([]), VStruct([]))

  lemma NilPayload(input: seq<byte>)
    ensures PayloadOk(NIL) && PayloadBytes(NIL) == []
    ensures Dec(NO_ENV, 0, NIL.schema, false, input) == Ok(NIL.value, 0)
  {
    assert WellFormed(NO_ENV) && Sound(NO_ENV, NIL.schema);
  }

  /** What became of a marshalled buffer with `spare` octets of capacity behind it: nothing was sent if marshalling
      failed, else WriteFullRecord offered it to the connection, and panicked where its second round does. */
  ghost predicate SentRecord(before: seq<byte>, capacity: nat, e: Emit, spare: seq<byte>, after: seq<byte>,
                             panicked: bool, err: Option<RpcError>, io: Option<ErrorCode>) {
    var len := |e.bytes|;
    if e.err.Some? then err == Some(XdrError(e.err.value)) && io == None && !panicked && after == before
    else
      && err == None
      && (exists n: nat :: Emitted(before, capacity, Out(Offered(e.bytes + spare, len)), after, n, io))
      && (panicked <==> io == None && len > MAX_FRAGMENT && SecondPanics(len + |spare|, len))
  }

  class ClientCodec {
    const out: Writer
    const inp: Reader
    const procTable: Table
    var recordReader: Reader

    constructor (out: Writer, inp: Reader, table: Table)
      ensures this.out == out && this.inp == inp && this.procTable == table && fresh(recordReader)
    {
      this.out, this.inp, this.procTable := out, inp, table;
      recordReader := new Reader([]);
    }

    /** `spare` is what the capacity of the payload buffer holds behind the payload. */
    method WriteRequest(serviceMethod: string, seqNo: int, param: Payload, spare: seq<byte>)
      returns (panicked: bool, err: Option<RpcError>, io: Option<ErrorCode>)
      requires TableOk(procTable) && Typed(param)
      requires |out.out| <= out.capacity
      modifies out
      ensures LastEntry(procTable, serviceMethod) < 0 ==> err == Some(ProcedureUnavailable) && io == None && !panicked && out.out == old(out.out)
      ensures LastEntry(procTable, serviceMethod) >= 0 ==>
                SentRecord(old(out.out), out.capacity, Outgoing(CallFor(procTable, serviceMethod, seqNo), param), spare,
                           out.out, panicked, err, io)
    {
      panicked, io := false, None;
      var pentryIndex, procIndex := -1, -1;
      for i := 0 to |procTable|
        invariant out.out == old(out.out)
        invariant pentryIndex == LastEntry(procTable[..i], serviceMethod)
        invariant pentryIndex >= 0 ==> procIndex == FirstIndex(procTable[pentryIndex].procList, serviceMethod)
        invariant pentryIndex < 0 ==> procIndex < 0
      {
        var procList := procTable[i].procList;
        assert procTable[..i + 1][..i] == procTable[..i];
        for j := 0 to |procList|
          invariant out.out == old(out.out)
          invariant pentryIndex == LastEntry(procTable[..i], serviceMethod)
          invariant pentryIndex >= 0 ==> procIndex == FirstIndex(procTable[pentryIndex].procList, serviceMethod)
          invariant pentryIndex < 0 ==> procIndex < 0
          invariant serviceMethod !in procList[..j]
        {
          if serviceMethod == procList[j] {
            FirstAt(procList, serviceMethod, j);
            pentryIndex, procIndex := i, j;
            break;
          }
        }
        assert procList[..|procList|] == procList;
      }
      assert procTable[..|procTable|] == procTable;
      if pentryIndex < 0 || procIndex < 0 {
        return false, Some(ProcedureUnavailable), None;
      }
      var call := RPCMsg(Uint32(seqNo), CALL,
                         CallBody(RPC_VERSION, procTable[pentryIndex].program, procTable[pentryIndex].version, procIndex,
                                  NO_AUTH, NO_AUTH), NO_REPLY);
      var payload := Outgoing(call, param);
      if payload.err.Some? {
        return false, Some(XdrError(payload.err.value)), None;
      }
      assert (payload.bytes + spare)[..|payload.bytes|] == payload.bytes;
      var total;
      total, panicked, io := WriteFullRecord(out, payload.bytes + spare, |payload.bytes|);
      err := None;
    }

    /** The sequence number is set even when the reply reports an error. */
    method ReadResponseHeader() returns (seqNo: int, failed: Option<RpcError>, err: Option<ReplyError>)
      modifies this, inp
      ensures match ReadResponse(old(inp.data))
              case Response(s, e, body, rest) =>
                && failed == None && seqNo == s && err == e
                && recordReader.data == body && inp.data == rest && fresh(recordReader)
              case BadResponse(e) => failed == Some(e)
    {
      seqNo, failed, err := 0, None, None;
      var record, rerr := ReadFullRecord(inp);
      if rerr.Some? {
        return 0, Some(RecordFailed(rerr.value)), None;
      }
      MsgGood(NO_ENV);
      recordReader := new Reader(record);
      var d := new Decoder(recordReader, 0);
      var v, n, xerr := d.Decode(NO_ENV, RPC_MSG, false);
      if xerr.Some? {
        return 0, Some(XdrError(xerr.value)), None;
      }
      seqNo := MsgOf(v).xid;
      err := CheckReply(MsgOf(v));
    }

    method ReadResponseBody(env: Env, s: Schema) returns (v: Value, err: Option<ErrorCode>)
      requires EnvGuarded(env) && Guarded(env, s)
      modifies recordReader
      ensures recordReader == old(recordReader)
      ensures var p := Dec(env, 0, s, false, old(recordReader.data));
              && recordReader.data == old(recordReader.data)[p.n..]
              && (if p.Ok? then err == None && v == p.v else err == Some(p.code))
    {
      var d := new Decoder(recordReader, 0);
      var n;
      v, n, err := d.Decode(env, s, false);
    }
  }

  lemma {:induction false} FirstAt(list: seq<string>, name: string, j: nat)
    requires j < |list| && list[j] == name && name !in list[..j]
    ensures FirstIndex(list, name) == j
  {
    if j > 0 {
      assert list[0] == list[..j][0];
      assert list[1..][..j - 1] == list[..j][1..];
      FirstAt(list[1..], name, j - 1);
    }
  }

  // ---------------------------------------------------------------- server: requests

  datatype Dispatched = Dispatched(name: string, currentProgIndex: int)

  /** The first entry with the program number. */
  function FirstProgram(table: Table, program: int): (i: int)
    ensures -1 <= i < |table|
    ensures i >= 0 ==> table[i].program == program && forall k :: 0 <= k < i ==> table[k].program != program
    ensures i < 0 ==> forall k :: 0 <= k < |table| ==> table[k].program != program
  {
    if table == [] then -1
    else if table[0].program == program then 0
    else
      var i := FirstProgram(table[1..], program);
      assert forall k :: 1 <= k < |table| ==> table[k] == table[1..][k - 1];
      if i < 0 then -1 else i + 1
  }

  /** What the server makes of a call: the name net/rpc is to look up, possibly one of the reserved error names. */
  function Dispatch(table: Table, cur: int, call: CallBody): Dispatched {
    if call.rpcVersion != RPC_VERSION then Dispatched("NfsProc.RPCMismatch", cur)
    else if call.cred.flavor != AUTH_NONE && call.cred.flavor != AUTH_SYS then Dispatched("NfsProc.AuthError", cur)
    else
      var i := FirstProgram(table, call.program);
      if i < 0 then Dispatched("NfsProc.ProgUnavail", cur)
      else if call.version != table[i].version then Dispatched("NfsProc.ProgMismatch", i)
      else if call.procedure < 0 || call.procedure >= |table[i].procList| then Dispatched("NfsProc.ProcUnavail", i)
      else Dispatched(table[i].procList[call.procedure], i)
  }

  /** The outcome of reading one request header off a connection: body is what the argument decoder will read. */
  datatype Request =
    | Request(name: string, seqNo: int, currentProgIndex: int, body: seq<byte>, rest: seq<byte>)
    | BadRequest(error: RpcError)

  function ReadRequest(table: Table, cur: int, input: seq<byte>): Request {
    match Reassemble(input, [])
    case Failed(e) => BadRequest(RecordFailed(e))
    case Complete(record, rest) =>
      MsgGood(NO_ENV);
      match Dec(NO_ENV, 0, RPC_MSG, false, record)
      case Err(c, n) => BadRequest(XdrError(c))
      case Ok(v, n) =>
        var call := MsgOf(v);
        if call.mtype != CALL then BadRequest(InvalidMessageType(call.mtype))
        else
          var d := Dispatch(table, cur, call.cbody);
          Request(d.name, call.xid, d.currentProgIndex, record[n..], rest)
  }

  class ServerCodec {
    const out: Writer
    const inp: Reader
    const procTable: Table
    var recordReader: Reader
    var currentProgIndex: int

    constructor (out: Writer, inp: Reader, table: Table)
      ensures this.out == out && this.inp == inp && this.procTable == table && fresh(recordReader)
      ensures currentProgIndex == -1
    {
      this.out, this.inp, this.procTable := out, inp, table;
      currentProgIndex := -1;
      recordReader := new Reader([]);
    }

    method ReadRequestHeader() returns (name: string, seqNo: int, err: Option<RpcError>)
      requires TableOk(procTable)
      modifies this, inp
      ensures match ReadRequest(procTable, old(currentProgIndex), old(inp.data))
              case Request(m, s, cur, body, rest) =>
                && err == None && name == m && seqNo == s && currentProgIndex == cur
                && recordReader.data == body && inp.data == rest && fresh(recordReader)
              case BadRequest(e) => err == Some(e) && currentProgIndex == old(currentProgIndex)
    {
      name, seqNo := "", 0;
      var record, rerr := ReadFullRecord(inp);
      if rerr.Some? {
        return "", 0, Some(RecordFailed(rerr.value));
      }
      MsgGood(NO_ENV);
      recordReader := new Reader(record);
      var d := new Decoder(recordReader, 0);
      var v, n, xerr := d.Decode(NO_ENV, RPC_MSG, false);
      if xerr.Some? {
        return "", 0, Some(XdrError(xerr.value));
      }
      var call := MsgOf(v);
      if call.mtype != CALL {
        return "", 0, Some(InvalidMessageType(call.mtype));
      }
      seqNo := call.xid;
      err := None;
      if call.cbody.rpcVersion != RPC_VERSION {
        name := "NfsProc.RPCMismatch";
        return;
      }
      if call.cbody.cred.flavor != AUTH_NONE && call.cbody.cred.flavor != AUTH_SYS {
        name := "NfsProc.AuthError";
        return;
      }
      var programIndex := -1;
      for i := 0 to |procTable|
        invariant programIndex == -1 && currentProgIndex == old(currentProgIndex)
        invariant forall k :: 0 <= k < i ==> procTable[k].program != call.cbody.program
        invariant recordReader.data == record[n..] && inp.data == Reassemble(old(inp.data), []).rest
      {
        if call.cbody.program == procTable[i].program {
          programIndex := i;
          currentProgIndex := i;
          break;
        }
      }
      assert programIndex == FirstProgram(procTable, call.cbody.program);
      if programIndex == -1 {
        name := "NfsProc.ProgUnavail";
        return;
      }
      if call.cbody.version != procTable[programIndex].version {
        name := "NfsProc.ProgMismatch";
        return;
      }
      if call.cbody.procedure < 0 || call.cbody.procedure >= Uint32(|procTable[programIndex].procList|) {
        name := "NfsProc.ProcUnavail";
        return;
      }
      name := procTable[programIndex].procList[call.cbody.procedure];
    }

    /** An argument that does not decode closes the connection; no error reaches net/rpc. */
    method ReadRequestBody(env: Env, s: Schema) returns (v: Value, closed: bool)
      requires EnvGuarded(env) && Guarded(env, s)
      modifies recordReader
      ensures recordReader == old(recordReader)
      ensures var p := Dec(env, 0, s, false, old(recordReader.data));
              closed == p.Err? && recordReader.data == old(recordReader.data)[p.n..] && (p.Ok? ==> v == p.v)
    {
      var d := new Decoder(recordReader, 0);
      var n, err;
      v, n, err := d.Decode(env, s, false);
      closed := err.Some?;
    }

    /** A marshalling or write error closes the connection. `spare` is the spare capacity of the reply buffer. */
    method WriteResponse(name: string, seqNo: int, result: Payload, spare: seq<byte>)
      returns (panicked: bool, closed: bool, err: Option<RpcError>, io: Option<ErrorCode>)
      requires TableOk(procTable) && Typed(result)
      requires |out.out| <= out.capacity
      modifies out
      ensures ReplyPanics(procTable, currentProgIndex, name) ==> panicked && !closed && out.out == old(out.out)
      ensures !ReplyPanics(procTable, currentProgIndex, name) ==>
                && SentRecord(old(out.out), out.capacity, Outgoing(ReplyFor(procTable, currentProgIndex, name, seqNo), result),
                              spare, out.out, panicked, err, io)
                && (closed <==> err.Some? || io.Some?)
    {
      hide Outgoing;
      panicked, closed, err, io := false, false, None, None;
      var stat, p, v, rej := SUCCESS, NO_MISMATCH, NO_MISMATCH, NO_REJECTED;
      if name == "NfsProc.ProgUnavail" {
        if |procTable| == 0 {
          return true, false, None, None;
        }
        p := MismatchReply(procTable[0].program, procTable[|procTable| - 1].program);
        stat := PROG_UNAVAIL;
      } else if name == "NfsProc.ProgMismatch" {
        if currentProgIndex < 0 || currentProgIndex >= |procTable| {
          return true, false, None, None;
        }
        v := MismatchReply(procTable[currentProgIndex].version, procTable[currentProgIndex].version);
        stat := PROG_MISMATCH;
      } else if name == "NfsProc.ProcUnavail" {
        stat := PROC_UNAVAIL;
      } else if name == "NfsProc.GarbageArgs" {
        stat := GARBAGE_ARGS;
      } else if name == "NfsProc.SystemErr" {
        stat := SYSTEM_ERR;
      } else if name == "NfsProc.RPCMismatch" {
        rej := RejectedReply(RPC_MISMATCH, MismatchReply(2, 2), 0);
      } else if name == "NfsProc.AuthError" {
        rej := RejectedReply(AUTH_ERROR, NO_MISMATCH, AUTH_BADCRED);
      }
      var reply := RPCMsg(Uint32(seqNo), REPLY, NO_CALL, ReplyBody(MSG_ACCEPTED, AcceptedReply(NO_AUTH, stat, p, v), rej));
      var buf := Outgoing(reply, result);
      if buf.err.Some? {
        return false, true, Some(XdrError(buf.err.value)), None;
      }
      assert (buf.bytes + spare)[..|buf.bytes|] == buf.bytes;
      var total;
      total, panicked, io := WriteFullRecord(out, buf.bytes + spare, |buf.bytes|);
      closed := io.Some?;
    }
  }

  // ---------------------------------------------------------------- server: replies

  /** The slice expressions of WriteResponse that can go out of range. */
  predicate ReplyPanics(table: Table, cur: int, name: string) {
    || (name == "NfsProc.ProgUnavail" && table == [])
    || (name == "NfsProc.ProgMismatch" && !(0 <= cur < |table|))
  }

  function StatFor(name: string): int {
    if name == "NfsProc.ProgUnavail" then PROG_UNAVAIL
    else if name == "NfsProc.ProgMismatch" then PROG_MISMATCH
    else if name == "NfsProc.ProcUnavail" then PROC_UNAVAIL
    else if name == "NfsProc.GarbageArgs" then GARBAGE_ARGS
    else if name == "NfsProc.SystemErr" then SYSTEM_ERR
    else SUCCESS
  }

  /** The reply message for a method name. The two rejections fill the rejected arm but keep the stat MsgAccepted. */
  function ReplyFor(table: Table, cur: int, name: string, seqNo: int): (m: RPCMsg)
    requires TableOk(table) && !ReplyPanics(table, cur, name)
    ensures SmallMsg(m)
  {
    var p := if name == "NfsProc.ProgUnavail" then MismatchReply(table[0].program, table[|table| - 1].program) else NO_MISMATCH;
    var v := if name == "NfsProc.ProgMismatch" then MismatchReply(table[cur].version, table[cur].version) else NO_MISMATCH;
    var rej := if name == "NfsProc.RPCMismatch" then RejectedReply(RPC_MISMATCH, MismatchReply(2, 2), 0)
               else if name == "NfsProc.AuthError" then RejectedReply(AUTH_ERROR, NO_MISMATCH, AUTH_BADCRED)
               else NO_REJECTED;
    RPCMsg(Uint32(seqNo), REPLY, NO_CALL, ReplyBody(MSG_ACCEPTED, AcceptedReply(NO_AUTH, StatFor(name), p, v), rej))
  }

  // ---------------------------------------------------------------- client: replies

  datatype ReplyError =
    | InvalidType(mtype: int)
    | ProgMismatch(low: int, high: int)
    | ProgUnavail(low: int, high: int)
    | ProcUnavail
    | GarbageArgs
    | SystemErr
    | InvalidAccepted
    | RpcMismatch(low: int, high: int)
    | AuthError
    | InvalidDenied
    | InvalidReplyType

  /** checkReplyForErr */
  function CheckReply(reply: RPCMsg): Option<ReplyError> {
    if reply.mtype != REPLY then Some(InvalidType(reply.mtype))
    else if reply.rbody.stat == MSG_ACCEPTED then
      var a := reply.rbody.areply;
      if a.stat == SUCCESS then None
      else if a.stat == PROG_MISMATCH then Some(ProgMismatch(a.mismatchV.low, a.mismatchV.high))
      else if a.stat == PROG_UNAVAIL then Some(ProgUnavail(a.mismatchP.low, a.mismatchP.high))
      else if a.stat == PROC_UNAVAIL then Some(ProcUnavail)
      else if a.stat == GARBAGE_ARGS then Some(GarbageArgs)
      else if a.stat == SYSTEM_ERR then Some(SystemErr)
      else Some(InvalidAccepted)
    else if reply.rbody.stat == MSG_DENIED then
      var r := reply.rbody.rreply;
      if r.stat == RPC_MISMATCH then Some(RpcMismatch(r.mismatch.low, r.mismatch.high))
      else if r.stat == AUTH_ERROR then Some(AuthError)
      else Some(InvalidDenied)
    else Some(InvalidReplyType)
  }

  datatype Response =
    | Response(seqNo: int, err: Option<ReplyError>, body: seq<byte>, rest: seq<byte>)
    | BadResponse(error: RpcError)

  /** ReadResponseHeader on the octets waiting in the stream. */
  function ReadResponse(input: seq<byte>): Response {
    match Reassemble(input, [])
    case Failed(e) => BadResponse(RecordFailed(e))
    case Complete(record, rest) =>
      MsgGood(NO_ENV);
      match Dec(NO_ENV, 0, RPC_MSG, false, record)
      case Err(c, n) => BadResponse(XdrError(c))
      case Ok(v, n) => Response(MsgOf(v).xid, CheckReply(MsgOf(v)), record[n..], rest)
  }

  // ---------------------------------------------------------------- one half meets the other

  /** A record that holds a message and a payload, as the reader on the other side sees it. */
  lemma RecordOf(m: RPCMsg, p: Payload, tail: seq<byte>)
    requires SmallMsg(m) && PayloadOk(p) && |MsgBytes(m) + PayloadBytes(p)| <= MAX_RECORD
    ensures Good(NO_ENV, RPC_MSG)
    ensures var data := MsgBytes(m) + PayloadBytes(p);
            && Reassemble(Frame([data]) + tail, []) == Complete(data, tail)
            && (exists n: nat :: n <= |data| && data[n..] == PayloadBytes(p) &&
                                 Dec(NO_ENV, 0, RPC_MSG, false, data) == Ok(MsgValue(NormMsg(m)), n))
            && MsgOf(MsgValue(NormMsg(m))) == NormMsg(m)
  {
    hide Reassemble, Dec, Enc, NormMsg, Frame;
    var data := MsgBytes(m) + PayloadBytes(p);
    MsgRoundTrip(m, PayloadBytes(p));
    assert data[|MsgBytes(m)|..] == PayloadBytes(p);
    assert Concat([data]) == data + Concat([]) == data;
    ReassemblesFrames([data], [], tail);
    assert [] + Concat([data]) == data;
  }

  lemma PayloadDecodes(p: Payload)
    requires PayloadOk(p)
    ensures Dec(p.env, 0, p.schema, false, PayloadBytes(p)) == Ok(Norm(p.env, p.schema, p.value), |PayloadBytes(p)|)
  {
    RoundTrip(p.env, 0, p.schema, p.value, []);
    assert PayloadBytes(p) + [] == PayloadBytes(p);
  }

  /** End to end: the server dispatches a call as the method the client named, with the client's sequence number,
      and is left exactly at the argument, which decodes to what the client passed. Program numbers must be distinct. */
  lemma CallDispatched(table: Table, cur: int, name: string, seqNo: int, arg: Payload, tail: seq<byte>)
    requires TableOk(table) && DistinctPrograms(table) && LastEntry(table, name) >= 0 && PayloadOk(arg)
    requires |MsgBytes(CallFor(table, name, seqNo)) + PayloadBytes(arg)| <= MAX_RECORD
    ensures var data := MsgBytes(CallFor(table, name, seqNo)) + PayloadBytes(arg);
            ReadRequest(table, cur, Frame([data]) + tail) ==
            Request(name, Uint32(seqNo), LastEntry(table, name), PayloadBytes(arg), tail)
    ensures Dec(arg.env, 0, arg.schema, false, PayloadBytes(arg)) ==
            Ok(Norm(arg.env, arg.schema, arg.value), |PayloadBytes(arg)|)
  {
    hide Reassemble, Dec, Frame, PayloadBytes, LastEntry;
    var call := CallFor(table, name, seqNo);
    RecordOf(call, arg, tail);
    PayloadDecodes(arg);
    var i := LastEntry(table, name);
    assert FirstProgram(table, table[i].program) == i;
    assert Dispatch(table, cur, call.cbody) == Dispatched(name, i);
  }

  /** What the client is told for each method name: both rejections come out as success. */
  function ClientSees(table: Table, cur: int, name: string): Option<ReplyError>
    requires !ReplyPanics(table, cur, name)
  {
    if name == "NfsProc.ProgUnavail" then Some(ProgUnavail(table[0].program, table[|table| - 1].program))
    else if name == "NfsProc.ProgMismatch" then Some(ProgMismatch(table[cur].version, table[cur].version))
    else if name == "NfsProc.ProcUnavail" then Some(ProcUnavail)
    else if name == "NfsProc.GarbageArgs" then Some(GarbageArgs)
    else if name == "NfsProc.SystemErr" then Some(SystemErr)
    else None
  }

  /** What the reserved names stand for. */
  function Intended(table: Table, cur: int, name: string): Option<ReplyError>
    requires !ReplyPanics(table, cur, name)
  {
    if name == "NfsProc.RPCMismatch" then Some(RpcMismatch(2, 2))
    else if name == "NfsProc.AuthError" then Some(AuthError)
    else ClientSees(table, cur, name)
  }

  /** Replies: the client recovers the transaction id, the error class with its bounds, and the result. */
  lemma ReplyReceived(table: Table, cur: int, name: string, seqNo: int, result: Payload, tail: seq<byte>)
    requires TableOk(table) && !ReplyPanics(table, cur, name) && PayloadOk(result)
    requires |MsgBytes(ReplyFor(table, cur, name, seqNo)) + PayloadBytes(result)| <= MAX_RECORD
    ensures var data := MsgBytes(ReplyFor(table, cur, name, seqNo)) + PayloadBytes(result);
            ReadResponse(Frame([data]) + tail) ==
            Response(Uint32(seqNo), ClientSees(table, cur, name), PayloadBytes(result), tail)
    ensures Dec(result.env, 0, result.schema, false, PayloadBytes(result)) ==
            Ok(Norm(result.env, result.schema, result.value), |PayloadBytes(result)|)
  {
    hide Reassemble, Dec, Frame, PayloadBytes, MsgBytes;
    var reply := ReplyFor(table, cur, name, seqNo);
    RecordOf(reply, result, tail);
    PayloadDecodes(result);
    assert CheckReply(NormMsg(reply)) == ClientSees(table, cur, name);
  }

  /** The status reaches the client as meant exactly when the reply is not a rejection: for those two the reply stat
      stays MsgAccepted, the rejected arm is not sent, and the client reads success. */
  lemma StatusFaithfulIff(table: Table, cur: int, name: string, seqNo: int, result: Payload, tail: seq<byte>)
    requires TableOk(table) && !ReplyPanics(table, cur, name) && PayloadOk(result)
    requires |MsgBytes(ReplyFor(table, cur, name, seqNo)) + PayloadBytes(result)| <= MAX_RECORD
    ensures var data := MsgBytes(ReplyFor(table, cur, name, seqNo)) + PayloadBytes(result);
            var r := ReadResponse(Frame([data]) + tail);
            && r.Response?
            && (r.err == Intended(table, cur, name) <==> name != "NfsProc.RPCMismatch" && name != "NfsProc.AuthError")
  {
    hide ReadResponse, Frame;
    ReplyReceived(table, cur, name, seqNo, result, tail);
  }

  /** A call for the wrong version of a program, answered at once, tells the client the version that is served. */
  lemma VersionMismatchReported(table: Table, cur: int, call: RPCMsg, i: nat, arg: Payload, result: Payload)
    requires TableOk(table) && DistinctPrograms(table) && i < |table| && SmallMsg(call) && PayloadOk(arg) && PayloadOk(result)
    requires call.mtype == CALL && call.cbody.rpcVersion == RPC_VERSION && call.cbody.cred.flavor in {AUTH_NONE, AUTH_SYS}
    requires call.cbody.program == table[i].program && call.cbody.version != table[i].version
    requires |MsgBytes(call) + PayloadBytes(arg)| <= MAX_RECORD
    requires |MsgBytes(ReplyFor(table, i, "NfsProc.ProgMismatch", call.xid)) + PayloadBytes(result)| <= MAX_RECORD
    ensures var r := ReadRequest(table, cur, Frame([MsgBytes(call) + PayloadBytes(arg)]));
            && r.Request? && !ReplyPanics(table, r.currentProgIndex, r.name) && r.currentProgIndex == i
            && r.name == "NfsProc.ProgMismatch" && r.seqNo == call.xid
            && var data := MsgBytes(ReplyFor(table, r.currentProgIndex, r.name, r.seqNo)) + PayloadBytes(result);
            && var answer := ReadResponse(Frame([data]));
            && answer.Response? && answer.seqNo == call.xid
            && answer.err == Some(ProgMismatch(table[i].version, table[i].version))
  {
    hide ReadResponse, Frame, MsgBytes, PayloadBytes;
    var sent := Frame([MsgBytes(call) + PayloadBytes(arg)]);
    RecordOf(call, arg, []);
    assert sent + [] == sent;
    assert FirstProgram(table, call.cbody.program) == i;
    var data := MsgBytes(ReplyFor(table, i, "NfsProc.ProgMismatch", call.xid)) + PayloadBytes(result);
    ReplyReceived(table, i, "NfsProc.ProgMismatch", call.xid, result, []);
    assert Frame([data]) + [] == Frame([data]);
  }
}

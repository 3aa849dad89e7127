/** One remote call from end to end, on the codec objects of both sides. */
module RpcExchange {
  import opened Bytes
  import opened Xdr
  import opened XdrLaws
  import opened XdrCodec
  import opened Record
  import opened RpcTypes
  import opened RpcCodec

  /** Names that stand for an error instead of a procedure. */
  predicate Reserved(name: string) {
    name in {"NfsProc.ProgUnavail", "NfsProc.ProgMismatch", "NfsProc.ProcUnavail", "NfsProc.GarbageArgs",
             "NfsProc.SystemErr", "NfsProc.RPCMismatch", "NfsProc.AuthError"}
  }

  /** A record sent on an idle connection with room for it arrives as it is. */
  lemma Arrives(capacity: nat, m: RPCMsg, p: Payload, spare: seq<byte>, after: seq<byte>, panicked: bool,
                err: Option<RpcError>, io: Option<ErrorCode>)
    requires SmallMsg(m) && PayloadOk(p) && |MsgBytes(m) + PayloadBytes(p)| <= MAX_RECORD <= capacity - 4
    requires SentRecord([], capacity, Outgoing(m, p), spare, after, panicked, err, io)
    ensures !panicked && err == None && io == None && after == Frame([MsgBytes(m) + PayloadBytes(p)])
  {
    OutgoingBytes(m, p);
    var data := MsgBytes(m) + PayloadBytes(p);
    OneFragment(data + spare, |data|);
    assert (data + spare)[..|data|] == data;
    var n: nat :| Emitted([], capacity, Out(Frame([data])), after, n, io);
    assert |Frame([data])| == 4 + |data|;
    assert Frame([data])[..n] == Frame([data]) && [] + Frame([data]) == Frame([data]);
  }

  /** The client writes a call; the server reads it, takes its argument and answers; the client reads the answer. The
      assignments to the readers are the network. */
  method Exchange(client: ClientCodec, server: ServerCodec, name: string, seqNo: int, arg: Payload, result: Payload,
                  spare: seq<byte>)
    returns (called: string, got: Value, answered: int, status: Option<ReplyError>, value: Value)
    requires client.procTable == server.procTable && TableOk(client.procTable) && DistinctPrograms(client.procTable)
    requires LastEntry(client.procTable, name) >= 0 && !Reserved(name) && IsUint32(seqNo)
    requires PayloadOk(arg) && PayloadOk(result)
    requires |MsgBytes(CallFor(client.procTable, name, seqNo)) + PayloadBytes(arg)| <= MAX_RECORD
    requires |MsgBytes(ReplyFor(client.procTable, LastEntry(client.procTable, name), name, seqNo)) + PayloadBytes(result)| <= MAX_RECORD
    requires client.out != server.out && client.inp != server.inp
    requires client.out.out == [] == server.out.out
    requires client.out.capacity >= MAX_RECORD + 4 && server.out.capacity >= MAX_RECORD + 4
    modifies client, server, client.out, server.out, client.inp, server.inp
    ensures called == name && got == Norm(arg.env, arg.schema, arg.value)
    ensures answered == seqNo && status == None && value == Norm(result.env, result.schema, result.value)
  {
    hide ReadRequest, ReadResponse, Frame, Outgoing, MsgBytes, PayloadBytes, CallFor, ReplyFor, Dec, Norm, SentRecord, DistinctPrograms;
    var table, cur := client.procTable, LastEntry(client.procTable, name);
    var panicked, err, io := client.WriteRequest(name, seqNo, arg, spare);
    Arrives(client.out.capacity, CallFor(table, name, seqNo), arg, spare, client.out.out, panicked, err, io);
    server.inp.data := client.out.out;
    CallReceived(table, server.currentProgIndex, name, seqNo, arg);
    var seqNo';
    called, seqNo', err := server.ReadRequestHeader();
    var closed;
    got, closed := server.ReadRequestBody(arg.env, arg.schema);
    panicked, closed, err, io := server.WriteResponse(called, seqNo', result, spare);
    Arrives(server.out.capacity, ReplyFor(table, cur, name, seqNo), result, spare, server.out.out, panicked, err, io);
    client.inp.data := server.out.out;
    AnswerReceived(table, cur, name, seqNo, result);
    var failed, xerr;
    answered, failed, status := client.ReadResponseHeader();
    value, xerr := client.ReadResponseBody(result.env, result.schema);
  }

  lemma CallReceived(table: Table, cur: int, name: string, seqNo: int, arg: Payload)
    requires TableOk(table) && DistinctPrograms(table) && LastEntry(table, name) >= 0 && PayloadOk(arg) && IsUint32(seqNo)
    requires |MsgBytes(CallFor(table, name, seqNo)) + PayloadBytes(arg)| <= MAX_RECORD
    ensures ReadRequest(table, cur, Frame([MsgBytes(CallFor(table, name, seqNo)) + PayloadBytes(arg)])) ==
            Request(name, seqNo, LastEntry(table, name), PayloadBytes(arg), [])
    ensures Dec(arg.env, 0, arg.schema, false, PayloadBytes(arg)) ==
            Ok(Norm(arg.env, arg.schema, arg.value), |PayloadBytes(arg)|)
  {
    var data := MsgBytes(CallFor(table, name, seqNo)) + PayloadBytes(arg);
    CallDispatched(table, cur, name, seqNo, arg, []);
    assert Frame([data]) + [] == Frame([data]);
  }

  lemma AnswerReceived(table: Table, cur: int, name: string, seqNo: int, result: Payload)
    requires TableOk(table) && !Reserved(name) && PayloadOk(result) && IsUint32(seqNo)
    requires |MsgBytes(ReplyFor(table, cur, name, seqNo)) + PayloadBytes(result)| <= MAX_RECORD
    ensures ReadResponse(Frame([MsgBytes(ReplyFor(table, cur, name, seqNo)) + PayloadBytes(result)])) ==
            Response(seqNo, None, PayloadBytes(result), [])
    ensures Dec(result.env, 0, result.schema, false, PayloadBytes(result)) ==
            Ok(Norm(result.env, result.schema, result.value), |PayloadBytes(result)|)
  {
    var data := MsgBytes(ReplyFor(table, cur, name, seqNo)) + PayloadBytes(result);
    ReplyReceived(table, cur, name, seqNo, result, []);
    assert Frame([data]) + [] == Frame([data]);
  }

  // ---------------------------------------------------------------- calls in a row

  /** A call a client has sent without waiting for the answers to earlier ones. */
  datatype Sent = Sent(name: string, seqNo: int, arg: Payload)

  ghost predicate SentOk(table: Table, c: Sent)
    requires TableOk(table)
  {
    && LastEntry(table, c.name) >= 0 && PayloadOk(c.arg)
    && |MsgBytes(CallFor(table, c.name, c.seqNo)) + PayloadBytes(c.arg)| <= MAX_RECORD
  }

  function CallRecord(table: Table, c: Sent): seq<byte>
    requires TableOk(table) && SentOk(table, c)
  {
    Frame([MsgBytes(CallFor(table, c.name, c.seqNo)) + PayloadBytes(c.arg)])
  }

  function CallStream(table: Table, calls: seq<Sent>): seq<byte>
    requires TableOk(table) && forall i :: 0 <= i < |calls| ==> SentOk(table, calls[i])
  {
    if calls == [] then []
    else
      assert SentOk(table, calls[0]);
      CallRecord(table, calls[0]) + CallStream(table, calls[1..])
  }

  /** The server's loop over headers: up to k requests, until one cannot be read. */
  function ReadRequests(table: Table, cur: int, input: seq<byte>, k: nat): seq<Request>
    decreases k
  {
    if k == 0 then []
    else
      var r := ReadRequest(table, cur, input);
      if r.BadRequest? then [r] else [r] + ReadRequests(table, r.currentProgIndex, r.rest, k - 1)
  }

  /** The request is the call as it was sent, with the rest of the stream behind it. */
  ghost predicate ReadAs(table: Table, c: Sent, r: Request)
    requires TableOk(table) && SentOk(table, c)
  {
    && r.Request? && r.name == c.name && r.seqNo == Uint32(c.seqNo) && r.currentProgIndex == LastEntry(table, c.name)
    && r.body == PayloadBytes(c.arg)
    && Dec(c.arg.env, 0, c.arg.schema, false, r.body) == Ok(Norm(c.arg.env, c.arg.schema, c.arg.value), |r.body|)
  }

  /** Calls sent in a row on one connection are all dispatched, in order, each with its own argument, and the server is
      left at whatever the client sends next. */
  lemma {:induction false} CallsInARow(table: Table, cur: int, calls: seq<Sent>, tail: seq<byte>)
    requires TableOk(table) && DistinctPrograms(table) && forall i :: 0 <= i < |calls| ==> SentOk(table, calls[i])
    ensures var rs := ReadRequests(table, cur, CallStream(table, calls) + tail, |calls|);
            && |rs| == |calls|
            && (forall i :: 0 <= i < |calls| ==> ReadAs(table, calls[i], rs[i]))
            && (calls != [] ==> rs[|calls| - 1].rest == tail)
    decreases |calls|
  {
    hide ReadRequest, MsgBytes, PayloadBytes, Frame, Dec, Norm, LastEntry, DistinctPrograms;
    if calls != [] {
      var c, more := calls[0], calls[1..];
      var frame, rest := CallRecord(table, c), CallStream(table, more) + tail;
      ConcatAssoc(frame, CallStream(table, more), tail);
      CallDispatched(table, cur, c.name, c.seqNo, c.arg, rest);
      var r := ReadRequest(table, cur, frame + rest);
      CallsInARow(table, r.currentProgIndex, more, tail);
      var rs := [r] + ReadRequests(table, r.currentProgIndex, rest, |more|);
      assert ReadRequests(table, cur, CallStream(table, calls) + tail, |calls|) == rs;
      forall i | 0 <= i < |calls| ensures ReadAs(table, calls[i], rs[i]) {
        if i > 0 {
          assert calls[i] == more[i - 1] && rs[i] == rs[1..][i - 1];
        }
      }
    }
  }

  // ---------------------------------------------------------------- what a call is answered

  /** The answer a call should get: its rejection, the error of its program, version or procedure, or success. */
  function Deserved(table: Table, call: CallBody): Option<ReplyError>
    requires table != []
  {
    if call.rpcVersion != RPC_VERSION then Some(RpcMismatch(2, 2))
    else if call.cred.flavor != AUTH_NONE && call.cred.flavor != AUTH_SYS then Some(AuthError)
    else
      var i := FirstProgram(table, call.program);
      if i < 0 then Some(ProgUnavail(table[0].program, table[|table| - 1].program))
      else if call.version != table[i].version then Some(ProgMismatch(table[i].version, table[i].version))
      else if call.procedure < 0 || call.procedure >= |table[i].procList| then Some(ProcUnavail)
      else None
  }

  predicate NoReservedNames(table: Table) {
    forall i, j :: 0 <= i < |table| && 0 <= j < |table[i].procList| ==> !Reserved(table[i].procList[j])
  }

  lemma DispatchAnswers(table: Table, cur: int, call: CallBody)
    requires table != [] && NoReservedNames(table)
    ensures var d := Dispatch(table, cur, call);
            && !ReplyPanics(table, d.currentProgIndex, d.name)
            && (ClientSees(table, d.currentProgIndex, d.name) == Deserved(table, call) <==>
                call.rpcVersion == RPC_VERSION && call.cred.flavor in {AUTH_NONE, AUTH_SYS})
  {
    var d := Dispatch(table, cur, call);
    var i := FirstProgram(table, call.program);
    if i >= 0 && 0 <= call.procedure < |table[i].procList| {
      assert !Reserved(table[i].procList[call.procedure]);
    }
  }

  /** A call answered at once, whatever it asks for, is answered as it deserves exactly when it has RPC version 2 and
      credentials of a kind the server knows; the others are told success. */
  lemma AnsweredAsDeservedIff(table: Table, cur: int, call: CallBody, seqNo: int, result: Payload, tail: seq<byte>)
    requires TableOk(table) && table != [] && NoReservedNames(table) && PayloadOk(result)
    requires var d := Dispatch(table, cur, call);
             !ReplyPanics(table, d.currentProgIndex, d.name) ==>
               |MsgBytes(ReplyFor(table, d.currentProgIndex, d.name, seqNo)) + PayloadBytes(result)| <= MAX_RECORD
    ensures var d := Dispatch(table, cur, call);
            && !ReplyPanics(table, d.currentProgIndex, d.name)
            && var data := MsgBytes(ReplyFor(table, d.currentProgIndex, d.name, seqNo)) + PayloadBytes(result);
               var r := ReadResponse(Frame([data]) + tail);
            && r.Response?
            && (r.err == Deserved(table, call) <==> call.rpcVersion == RPC_VERSION && call.cred.flavor in {AUTH_NONE, AUTH_SYS})
  {
    hide Dispatch, ReadResponse, Frame, MsgBytes, PayloadBytes, ReplyFor, ClientSees, Deserved;
    DispatchAnswers(table, cur, call);
    var d := Dispatch(table, cur, call);
    ReplyReceived(table, d.currentProgIndex, d.name, seqNo, result, tail);
  }
}

/** One server connection over time: net/rpc reads the next header while earlier calls are still being served, and
    writes responses in any order. The codec keeps a single currentProgIndex for all of them. */
module RpcSession {
  import opened Bytes
  import opened Xdr
  import opened Record
  import opened RpcTypes
  import opened RpcCodec
  import opened RpcExchange

  /** A call that was read and not yet answered; prog is the table entry of the program it asked for, or -1. */
  datatype Pending = Pending(name: string, seqNo: int, prog: int)

  datatype Session = Session(currentProgIndex: int, pending: seq<Pending>)

  datatype Event = Receive(call: RPCMsg) | Respond(k: nat)

  const START := Session(-1, [])

  /** A message that is not a call is refused before the codec looks at it. A response is written for a pending call;
      the event is void when there is none. */
  function Step(table: Table, s: Session, e: Event): Session {
    match e
    case Receive(call) =>
      if call.mtype != CALL then s
      else
        var d := Dispatch(table, s.currentProgIndex, call.cbody);
        Session(d.currentProgIndex, s.pending + [Pending(d.name, call.xid, FirstProgram(table, call.cbody.program))])
    case Respond(k) =>
      if k < |s.pending| then s.(pending := s.pending[..k] + s.pending[k + 1..]) else s
  }

  function Run(table: Table, s: Session, events: seq<Event>): Session
    decreases |events|
  {
    if events == [] then s else Run(table, Step(table, s, events[0]), events[1..])
  }

  /** A response takes its own call off the pending ones and changes nothing else. */
  lemma RespondRemovesOne(table: Table, s: Session, k: nat)
    requires k < |s.pending|
    ensures var t := Step(table, s, Respond(k));
            && t.currentProgIndex == s.currentProgIndex
            && |t.pending| == |s.pending| - 1
            && multiset(s.pending) == multiset(t.pending) + multiset{s.pending[k]}
            && forall i :: 0 <= i < |t.pending| ==> t.pending[i] == s.pending[if i < k then i else i + 1]
  {
    assert s.pending == s.pending[..k] + ([s.pending[k]] + s.pending[k + 1..]);
  }

  // ---------------------------------------------------------------- events are what the codec reads

  /** A message with its payload, as it lies on the connection. */
  datatype Message = Message(msg: RPCMsg, payload: Payload)

  ghost predicate MessageOk(m: Message) {
    SmallMsg(m.msg) && PayloadOk(m.payload) && |MsgBytes(m.msg) + PayloadBytes(m.payload)| <= MAX_RECORD
  }

  function OnWire(m: Message): seq<byte>
    requires MessageOk(m)
  {
    Frame([MsgBytes(m.msg) + PayloadBytes(m.payload)])
  }

  function PendingOf(table: Table, m: Message, r: Request): Pending
    requires r.Request?
  {
    Pending(r.name, r.seqNo, FirstProgram(table, m.msg.cbody.program))
  }

  /** The header reader on the octets of a message takes the step of its event: a call goes to the pending ones under the
      name and index that were read, and any other message is refused and changes nothing. */
  lemma HeaderIsStep(table: Table, s: Session, m: Message, tail: seq<byte>)
    requires MessageOk(m)
    ensures var r := ReadRequest(table, s.currentProgIndex, OnWire(m) + tail);
            var t := Step(table, s, Receive(m.msg));
            if m.msg.mtype == CALL then
              && r.Request? && r.body == PayloadBytes(m.payload) && r.rest == tail
              && t == Session(r.currentProgIndex, s.pending + [PendingOf(table, m, r)])
            else
              r == BadRequest(InvalidMessageType(m.msg.mtype)) && t == s
  {
    hide Frame, MsgBytes, PayloadBytes, Dec, Reassemble;
    RecordOf(m.msg, m.payload, tail);
  }

  function MessageStream(ms: seq<Message>): seq<byte>
    requires forall i :: 0 <= i < |ms| ==> MessageOk(ms[i])
  {
    if ms == [] then [] else OnWire(ms[0]) + MessageStream(ms[1..])
  }

  function Receipts(ms: seq<Message>): seq<Event> {
    seq(|ms|, i requires 0 <= i < |ms| => Receive(ms[i].msg))
  }

  function PendingFrom(table: Table, ms: seq<Message>, rs: seq<Request>): seq<Pending>
    requires |ms| == |rs| && forall i :: 0 <= i < |rs| ==> rs[i].Request?
  {
    seq(|ms|, i requires 0 <= i < |ms| => PendingOf(table, ms[i], rs[i]))
  }

  lemma PendingCons(table: Table, before: seq<Pending>, ms: seq<Message>, r: Request, more: seq<Request>)
    requires ms != [] && |ms| == |more| + 1 && r.Request? && forall i :: 0 <= i < |more| ==> more[i].Request?
    ensures forall i :: 0 <= i < |ms| ==> ([r] + more)[i].Request?
    ensures before + PendingFrom(table, ms, [r] + more) ==
            (before + [PendingOf(table, ms[0], r)]) + PendingFrom(table, ms[1..], more)
  {
    hide PendingOf;
    forall i | 0 <= i < |ms| ensures ([r] + more)[i].Request? {
      assert i > 0 ==> ([r] + more)[i] == more[i - 1];
    }
    assert PendingFrom(table, ms, [r] + more) == [PendingOf(table, ms[0], r)] + PendingFrom(table, ms[1..], more);
  }

  lemma RunReceipts(table: Table, s: Session, ms: seq<Message>)
    requires ms != []
    ensures Run(table, s, Receipts(ms)) == Run(table, Step(table, s, Receive(ms[0].msg)), Receipts(ms[1..]))
  {
    assert Receipts(ms)[1..] == Receipts(ms[1..]);
  }

  /** Calls read off a connection one after the other leave the session that the run of their events leaves: the index
      read last, and every call pending as it was read. */
  lemma {:induction false} HeadersAreRun(table: Table, s: Session, ms: seq<Message>, tail: seq<byte>)
    requires forall i :: 0 <= i < |ms| ==> MessageOk(ms[i]) && ms[i].msg.mtype == CALL
    ensures var rs := ReadRequests(table, s.currentProgIndex, MessageStream(ms) + tail, |ms|);
            && |rs| == |ms| && (forall i :: 0 <= i < |rs| ==> rs[i].Request?)
            && Run(table, s, Receipts(ms)) ==
               Session(if ms == [] then s.currentProgIndex else rs[|rs| - 1].currentProgIndex,
                       s.pending + PendingFrom(table, ms, rs))
    decreases |ms|
  {
    hide ReadRequest, Step, OnWire, PendingOf, PendingFrom, Receipts;
    if ms == [] {
      NoPending(table, s);
    } else {
      var rest := MessageStream(ms[1..]) + tail;
      ConcatAssoc(OnWire(ms[0]), MessageStream(ms[1..]), tail);
      HeaderIsStep(table, s, ms[0], rest);
      var r := ReadRequest(table, s.currentProgIndex, OnWire(ms[0]) + rest);
      HeadersAreRun(table, Step(table, s, Receive(ms[0].msg)), ms[1..], tail);
      RunReceipts(table, s, ms);
      var more := ReadRequests(table, r.currentProgIndex, rest, |ms| - 1);
      assert ReadRequests(table, s.currentProgIndex, MessageStream(ms) + tail, |ms|) == [r] + more;
      PendingCons(table, s.pending, ms, r, more);
    }
  }

  lemma NoPending(table: Table, s: Session)
    ensures Run(table, s, Receipts([])) == Session(s.currentProgIndex, s.pending + PendingFrom(table, [], []))
  {
    assert s.pending + [] == s.pending;
  }

  // ---------------------------------------------------------------- whole runs

  predicate Inv(table: Table, s: Session) {
    && -1 <= s.currentProgIndex < |table|
    && forall p :: p in s.pending && p.name == "NfsProc.ProgMismatch" ==> s.currentProgIndex >= 0
  }

  lemma {:induction false} InvHolds(table: Table, s: Session, events: seq<Event>)
    requires Inv(table, s)
    ensures Inv(table, Run(table, s, events))
    decreases |events|
  {
    if events != [] {
      var t := Step(table, s, events[0]);
      forall p | p in t.pending && p.name == "NfsProc.ProgMismatch" ensures t.currentProgIndex >= 0 {
        assert p in s.pending || (events[0].Receive? && t.pending[|t.pending| - 1] == p);
      }
      InvHolds(table, t, events[1..]);
    }
  }

  /** In every interleaving of reads and writes, no response indexes outside a nonempty procedure table. */
  lemma ResponsesNeverPanic(table: Table, events: seq<Event>, k: nat)
    requires table != [] && k < |Run(table, START, events).pending|
    ensures var s := Run(table, START, events);
            !ReplyPanics(table, s.currentProgIndex, s.pending[k].name)
  {
    InvHolds(table, START, events);
    var s := Run(table, START, events);
    assert s.pending[k] in s.pending;
  }

  /** The table has to be nonempty: with no programs, whatever went before and comes after, the answer to every
      acceptable call indexes out of range. */
  lemma {:induction false} EmptyTablePanics(s: Session, call: RPCMsg, later: seq<Event>)
    requires call.mtype == CALL && call.cbody.rpcVersion == RPC_VERSION && call.cbody.cred.flavor in {AUTH_NONE, AUTH_SYS}
    ensures var t := Step([], s, Receive(call));
            && |t.pending| == |s.pending| + 1
            && ReplyPanics([], Run([], t, later).currentProgIndex, t.pending[|s.pending|].name)
  {
  }

  /** Serial use: the version a ProgMismatch response reports is that of the program the call asked for. */
  lemma SerialReportsOwnVersion(table: Table, s: Session, call: RPCMsg)
    requires Inv(table, s) && s.pending == [] && call.mtype == CALL
    ensures var t := Step(table, s, Receive(call));
            && |t.pending| == 1
            && (t.pending[0].name == "NfsProc.ProgMismatch" ==>
                  && 0 <= t.pending[0].prog == t.currentProgIndex
                  && ClientSees(table, t.currentProgIndex, t.pending[0].name) ==
                     Some(ProgMismatch(table[t.pending[0].prog].version, table[t.pending[0].prog].version)))
  {
  }

  /** The call gets as far as the table and finds its program. */
  predicate Finds(table: Table, call: RPCMsg) {
    && call.mtype == CALL
    && call.cbody.rpcVersion == RPC_VERSION && call.cbody.cred.flavor in {AUTH_NONE, AUTH_SYS}
    && FirstProgram(table, call.cbody.program) >= 0
  }

  /** The entry of the last call that found its program. */
  function LastFound(table: Table, cur: int, events: seq<Event>): int
    decreases |events|
  {
    if events == [] then cur
    else
      var e := events[0];
      LastFound(table, if e.Receive? && Finds(table, e.call) then FirstProgram(table, e.call.cbody.program) else cur, events[1..])
  }

  lemma {:induction false} CurrentIsLastFound(table: Table, s: Session, events: seq<Event>)
    ensures Run(table, s, events).currentProgIndex == LastFound(table, s.currentProgIndex, events)
    decreases |events|
  {
    if events != [] {
      CurrentIsLastFound(table, Step(table, s, events[0]), events[1..]);
    }
  }

  /** Overlapping calls: a ProgMismatch response written after further events reports the right version exactly when
      the last program found since has the same version as the program that was asked for. */
  lemma OverlapReportsIff(table: Table, s: Session, call: RPCMsg, later: seq<Event>)
    requires Inv(table, s) && call.mtype == CALL
    requires Dispatch(table, s.currentProgIndex, call.cbody).name == "NfsProc.ProgMismatch"
    ensures var asked := FirstProgram(table, call.cbody.program);
            var t := Run(table, Step(table, s, Receive(call)), later);
            && 0 <= asked && 0 <= t.currentProgIndex < |table| && 0 <= LastFound(table, asked, later) < |table|
            && (ClientSees(table, t.currentProgIndex, "NfsProc.ProgMismatch") ==
                  Some(ProgMismatch(table[asked].version, table[asked].version)) <==>
                table[LastFound(table, asked, later)].version == table[asked].version)
  {
    var s1 := Step(table, s, Receive(call));
    var asked := FirstProgram(table, call.cbody.program);
    CurrentIsLastFound(table, s1, later);
    LastFoundInRange(table, asked, later);
  }

  /** A server that gives all its programs one version, as this one does, never misreports. */
  lemma OneVersionNeverMisreports(table: Table, version: int, s: Session, call: RPCMsg, later: seq<Event>)
    requires forall i :: 0 <= i < |table| ==> table[i].version == version
    requires Inv(table, s) && call.mtype == CALL
    requires Dispatch(table, s.currentProgIndex, call.cbody).name == "NfsProc.ProgMismatch"
    ensures var t := Run(table, Step(table, s, Receive(call)), later);
            && 0 <= t.currentProgIndex < |table|
            && ClientSees(table, t.currentProgIndex, "NfsProc.ProgMismatch") == Some(ProgMismatch(version, version))
  {
    OverlapReportsIff(table, s, call, later);
  }

  lemma {:induction false} LastFoundInRange(table: Table, cur: int, events: seq<Event>)
    requires 0 <= cur < |table|
    ensures 0 <= LastFound(table, cur, events) < |table|
    decreases |events|
  {
    if events != [] {
      var e := events[0];
      LastFoundInRange(table, if e.Receive? && Finds(table, e.call) then FirstProgram(table, e.call.cbody.program) else cur,
                       events[1..]);
    }
  }

  function CallTo(program: int, version: int): RPCMsg {
    RPCMsg(1, CALL, CallBody(RPC_VERSION, program, version, 0, NO_AUTH, NO_AUTH), NO_REPLY)
  }

  /** The condition can fail: a mismatched call to one program, overtaken by a call to another, is answered with the
      other program's version. */
  lemma OverlapMisreports()
    ensures var table := [ProcEntry(100003, 3, ["null"]), ProcEntry(100005, 1, ["null"])];
            var s := Run(table, START, [Receive(CallTo(100003, 2)), Receive(CallTo(100005, 1))]);
            && |s.pending| == 2 && s.currentProgIndex == 1
            && s.pending[0].name == "NfsProc.ProgMismatch" && s.pending[0].prog == 0
            && ClientSees(table, s.currentProgIndex, s.pending[0].name) == Some(ProgMismatch(1, 1))
  {
    var table := [ProcEntry(100003, 3, ["null"]), ProcEntry(100005, 1, ["null"])];
    var events := [Receive(CallTo(100003, 2)), Receive(CallTo(100005, 1))];
    assert FirstProgram(table, 100003) == 0;
    assert FirstProgram(table, 100005) == 1;
    var s1 := Step(table, START, events[0]);
    var s2 := Step(table, s1, events[1]);
    assert events[1..] == [events[1]] && events[1..][1..] == [];
    assert Run(table, START, events) == Run(table, s1, events[1..]) == Run(table, s2, []);
  }
}

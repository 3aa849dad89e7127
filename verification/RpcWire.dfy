/** The RPC messages octet by octet, as section 9 of RFC 5531 lays them out: discriminants are written as numbers here. */
module RpcWire {
  import opened Bytes
  import opened Xdr
  import opened XdrLaws
  import opened XdrWire
  import opened Record
  import opened RpcTypes
  import opened RpcCodec

  // ---------------------------------------------------------------- layouts

  function AuthOctets(a: OpaqueAuth): seq<byte> {
    Put32(a.flavor) + (Put32(|a.body|) + (a.body + Zeros(Pad(|a.body|))))
  }

  function CallOctets(c: CallBody): seq<byte> {
    Put32(c.rpcVersion) + (Put32(c.program) + (Put32(c.version) + (Put32(c.procedure) + (AuthOctets(c.cred) + AuthOctets(c.verf)))))
  }

  function RangeOctets(m: MismatchReply): seq<byte> { Put32(m.low) + Put32(m.high) }

  /** An accepted reply carries bounds with the stats 1, program unavailable, and 2, program mismatch. */
  function AcceptedOctets(a: AcceptedReply): seq<byte> {
    AuthOctets(a.verf) +
    (Put32(a.stat) + if a.stat == 1 then RangeOctets(a.mismatchP) else if a.stat == 2 then RangeOctets(a.mismatchV) else [])
  }

  /** A rejected reply carries bounds with the stat 0, RPC mismatch, and a reason with 1, authentication error. */
  function RejectedOctets(r: RejectedReply): seq<byte> {
    Put32(r.stat) + if r.stat == 0 then RangeOctets(r.mismatch) else if r.stat == 1 then Put32(r.authStat) else []
  }

  function ReplyOctets(b: ReplyBody): seq<byte> {
    Put32(b.stat) + if b.stat == 0 then AcceptedOctets(b.areply) else if b.stat == 1 then RejectedOctets(b.rreply) else []
  }

  function MsgOctets(m: RPCMsg): seq<byte> {
    Put32(m.xid) + (Put32(m.mtype) + if m.mtype == 0 then CallOctets(m.cbody) else if m.mtype == 1 then ReplyOctets(m.rbody) else [])
  }

  // ---------------------------------------------------------------- the encoder follows them

  lemma Concat2(a: seq<byte>, b: seq<byte>)
    ensures Concat([a, b]) == a + b
  {
    ConcatCons(a, [b]);
    ConcatOne(b);
    assert [a] + [b] == [a, b];
  }

  lemma Concat3(a: seq<byte>, b: seq<byte>, c: seq<byte>)
    ensures Concat([a, b, c]) == a + (b + c)
  {
    ConcatCons(a, [b, c]);
    Concat2(b, c);
    assert [a] + [b, c] == [a, b, c];
  }

  lemma Concat4(a: seq<byte>, b: seq<byte>, c: seq<byte>, d: seq<byte>)
    ensures Concat([a, b, c, d]) == a + (b + (c + d))
  {
    ConcatCons(a, [b, c, d]);
    Concat3(b, c, d);
    assert [a] + [b, c, d] == [a, b, c, d];
  }

  lemma Concat6(a: seq<byte>, b: seq<byte>, c: seq<byte>, d: seq<byte>, e: seq<byte>, f: seq<byte>)
    ensures Concat([a, b, c, d, e, f]) == a + (b + (c + (d + (e + f))))
  {
    ConcatCons(a, [b, c, d, e, f]);
    ConcatCons(b, [c, d, e, f]);
    Concat4(c, d, e, f);
    assert [a] + [b, c, d, e, f] == [a, b, c, d, e, f] && [b] + [c, d, e, f] == [b, c, d, e, f];
  }

  lemma AuthWire(a: OpaqueAuth)
    requires AuthOk(a)
    ensures Good(NO_ENV, AUTH) && HasType(NO_ENV, AUTH, AuthValue(a)) && Wire(NO_ENV, AUTH, AuthValue(a)) == AuthOctets(a)
  {
    AuthNorm(NO_ENV, a);
    AuthGood(NO_ENV);
    var body := VList(OctetValues(a.body));
    var parts := [Put32(a.flavor), Put32(|a.body|) + (a.body + Zeros(Pad(|a.body|)))];
    WordWire(NO_ENV, IntT(W32), a.flavor);
    OpaqueWire(NO_ENV, a.body);
    Concat2(parts[0], parts[1]);
    hide Wire, Put32, HasType;
    PlainWire(NO_ENV, AUTH.fields, [VInt(a.flavor), body], parts);
  }

  lemma RangeWire(m: MismatchReply)
    requires MismatchOk(m)
    ensures Good(NO_ENV, MISMATCH) && HasType(NO_ENV, MISMATCH, MismatchValue(m))
    ensures Wire(NO_ENV, MISMATCH, MismatchValue(m)) == RangeOctets(m)
  {
    MismatchNorm(NO_ENV, m);
    MismatchGood(NO_ENV);
    WordWire(NO_ENV, UintT(W32), m.low);
    WordWire(NO_ENV, UintT(W32), m.high);
    Concat2(Put32(m.low), Put32(m.high));
    hide Wire, Put32;
    PlainWire(NO_ENV, MISMATCH.fields, [VInt(m.low), VInt(m.high)], [Put32(m.low), Put32(m.high)]);
  }

  lemma NumberWire(i: int)
    requires IsUint32(i)
    ensures Guarded(NO_ENV, UintT(W32)) && HasType(NO_ENV, UintT(W32), VInt(i)) && Wire(NO_ENV, UintT(W32), VInt(i)) == Put32(i)
  {
    WordWire(NO_ENV, UintT(W32), i);
  }

  lemma CallWire(c: CallBody)
    requires CallOk(c)
    ensures Good(NO_ENV, CALL_BODY) && HasType(NO_ENV, CALL_BODY, CallValue(c))
    ensures Wire(NO_ENV, CALL_BODY, CallValue(c)) == CallOctets(c)
  {
    hide Wire, Put32, AuthOctets, HasType, Guarded, Good, FieldsGood;
    CallNorm(NO_ENV, c);
    CallGood(NO_ENV);
    CallFieldsTyped(c);
    AuthWire(c.cred);
    AuthWire(c.verf);
    var fields, vs := CALL_BODY.fields, CallValue(c).fs;
    var parts := [Put32(c.rpcVersion), Put32(c.program), Put32(c.version), Put32(c.procedure), AuthOctets(c.cred), AuthOctets(c.verf)];
    NumberWire(c.rpcVersion);
    NumberWire(c.program);
    NumberWire(c.version);
    NumberWire(c.procedure);
    AuthGuarded();
    Concat6(parts[0], parts[1], parts[2], parts[3], parts[4], parts[5]);
    PlainWire(NO_ENV, fields, vs, parts);
  }

  lemma CallFieldsTyped(c: CallBody)
    requires CallOk(c)
    ensures FieldsType(NO_ENV, CALL_BODY.fields, CallValue(c).fs)
  {
    CallTyped(NO_ENV, c);
  }

  lemma AuthGuarded()
    ensures Guarded(NO_ENV, AUTH)
  {
    AuthGood(NO_ENV);
  }

  lemma AcceptedWire(a: AcceptedReply)
    requires AcceptedOk(a)
    ensures Good(NO_ENV, ACCEPTED) && HasType(NO_ENV, ACCEPTED, AcceptedValue(a))
    ensures Wire(NO_ENV, ACCEPTED, AcceptedValue(a)) == AcceptedOctets(a)
  {
    hide Wire, Put32, AuthOctets, RangeOctets, HasType, Good, Concat;
    AcceptedNorm(NO_ENV, a);
    AuthWire(a.verf);
    RangeWire(a.mismatchP);
    RangeWire(a.mismatchV);
    Union4Wire(NO_ENV, AUTH, PROG_UNAVAIL, MISMATCH, PROG_MISMATCH, MISMATCH, AuthValue(a.verf), a.stat,
               MismatchValue(a.mismatchP), MismatchValue(a.mismatchV));
    var p, v := if PROG_UNAVAIL == a.stat then RangeOctets(a.mismatchP) else [],
                if PROG_MISMATCH == a.stat then RangeOctets(a.mismatchV) else [];
    Concat4(AuthOctets(a.verf), Put32(a.stat), p, v);
    assert p + [] == p && [] + v == v;
  }

  lemma RejectedWire(r: RejectedReply)
    requires RejectedOk(r)
    ensures Good(NO_ENV, REJECTED) && HasType(NO_ENV, REJECTED, RejectedValue(r))
    ensures Wire(NO_ENV, REJECTED, RejectedValue(r)) == RejectedOctets(r)
  {
    assert HasType(NO_ENV, IntT(W32), VInt(r.authStat)) && Good(NO_ENV, IntT(W32));
    WordWire(NO_ENV, IntT(W32), r.authStat);
    hide Wire, Put32, RangeOctets, HasType, Good, Concat;
    RejectedNorm(NO_ENV, r);
    RangeWire(r.mismatch);
    Union3Wire(NO_ENV, RPC_MISMATCH, MISMATCH, AUTH_ERROR, IntT(W32), r.stat, MismatchValue(r.mismatch), VInt(r.authStat));
    var p, v := if RPC_MISMATCH == r.stat then RangeOctets(r.mismatch) else [], if AUTH_ERROR == r.stat then Put32(r.authStat) else [];
    Concat3(Put32(r.stat), p, v);
    assert p + [] == p && [] + v == v;
  }

  lemma ReplyWire(b: ReplyBody)
    requires ReplyOk(b)
    ensures Good(NO_ENV, REPLY_BODY) && HasType(NO_ENV, REPLY_BODY, ReplyValue(b))
    ensures Wire(NO_ENV, REPLY_BODY, ReplyValue(b)) == ReplyOctets(b)
  {
    hide Wire, Put32, AcceptedOctets, RejectedOctets, HasType, Good, Concat;
    ReplyNorm(NO_ENV, b);
    AcceptedWire(b.areply);
    RejectedWire(b.rreply);
    Union3Wire(NO_ENV, MSG_ACCEPTED, ACCEPTED, MSG_DENIED, REJECTED, b.stat, AcceptedValue(b.areply), RejectedValue(b.rreply));
    var p, v := if MSG_ACCEPTED == b.stat then AcceptedOctets(b.areply) else [],
                if MSG_DENIED == b.stat then RejectedOctets(b.rreply) else [];
    Concat3(Put32(b.stat), p, v);
    assert p + [] == p && [] + v == v;
  }

  /** Every message, call or reply, accepted or denied, is marshalled as RFC 5531 lays it out. */
  lemma MsgLayout(m: RPCMsg)
    requires MsgOk(m)
    ensures MsgBytes(m) == MsgOctets(m)
  {
    assert Good(NO_ENV, UintT(W32)) && HasType(NO_ENV, UintT(W32), VInt(m.xid));
    WordWire(NO_ENV, UintT(W32), m.xid);
    hide Wire, Put32, CallOctets, ReplyOctets, HasType, Good, Concat;
    MsgNorm(NO_ENV, m);
    CallWire(m.cbody);
    ReplyWire(m.rbody);
    Union4Wire(NO_ENV, UintT(W32), CALL, CALL_BODY, REPLY, REPLY_BODY, VInt(m.xid), m.mtype, CallValue(m.cbody), ReplyValue(m.rbody));
    WireIsEnc(NO_ENV, RPC_MSG, MsgValue(m));
    var p, v := if CALL == m.mtype then CallOctets(m.cbody) else [], if REPLY == m.mtype then ReplyOctets(m.rbody) else [];
    Concat4(Put32(m.xid), Put32(m.mtype), p, v);
    assert p + [] == p && [] + v == v;
  }

  // ---------------------------------------------------------------- the calls and replies of this code

  function Words(ws: seq<int>): seq<byte> {
    if ws == [] then [] else Put32(ws[0]) + Words(ws[1..])
  }

  lemma WordsCons(w: int, ws: seq<int>)
    ensures Words([w] + ws) == Put32(w) + Words(ws)
  {
    assert ([w] + ws)[1..] == ws;
  }

  lemma Words2(a: int, b: int)
    ensures Words([a, b]) == Put32(a) + Put32(b)
  {
    WordsCons(a, [b]);
    WordsCons(b, []);
    assert [a] + [b] == [a, b] && [b] + [] == [b] && Put32(b) + [] == Put32(b);
  }

  lemma NoAuthOctets(rest: seq<byte>)
    ensures AuthOctets(NO_AUTH) + rest == Put32(0) + (Put32(0) + rest)
  {
    assert NO_AUTH.body + Zeros(Pad(0)) == [];
    assert Put32(0) + NO_AUTH.body == Put32(0);
    ConcatAssoc(Put32(0), Put32(0), rest);
  }

  /** The client's call for a method: RPC version 2, the program and version of the last entry that has the method, the
      first procedure of that name, and empty credentials of flavour 0. */
  lemma ClientCallOctets(table: Table, name: string, seqNo: int, i: nat, j: nat)
    requires TableOk(table) && i < |table| && j < |table[i].procList| && table[i].procList[j] == name
    requires forall k :: i < k < |table| ==> name !in table[k].procList
    requires forall k :: 0 <= k < j ==> table[i].procList[k] != name
    ensures LastEntry(table, name) == i
    ensures MsgBytes(CallFor(table, name, seqNo)) ==
            Words([seqNo % 0x1_0000_0000, 0]) +
            (Words([2, table[i].program]) + (Words([table[i].version, j]) + (Words([0, 0]) + Words([0, 0]))))
  {
    assert name in table[i].procList;
    var m := CallFor(table, name, seqNo);
    MsgLayout(m);
    hide Put32;
    var c := m.cbody;
    assert c.program == table[i].program && c.version == table[i].version && c.procedure == j;
    NoAuthOctets(AuthOctets(NO_AUTH));
    NoAuthOctets([]);
    assert AuthOctets(NO_AUTH) + [] == AuthOctets(NO_AUTH) && Put32(0) + [] == Put32(0);
    Words2(m.xid, 0);
    Words2(2, c.program);
    Words2(c.version, j);
    Words2(0, 0);
    ConcatAssoc(Put32(m.xid), Put32(0), CallOctets(c));
    ConcatAssoc(Put32(2), Put32(c.program), Put32(c.version) + (Put32(j) + (AuthOctets(NO_AUTH) + AuthOctets(NO_AUTH))));
    ConcatAssoc(Put32(c.version), Put32(j), AuthOctets(NO_AUTH) + AuthOctets(NO_AUTH));
    ConcatAssoc(Put32(0), Put32(0), Words([0, 0]));
  }

  /** The server's reply: accepted, an empty verifier of flavour 0, and the stat of the name with its bounds. */
  lemma ServerReplyOctets(table: Table, cur: int, name: string, seqNo: int)
    requires TableOk(table) && !ReplyPanics(table, cur, name)
    ensures MsgBytes(ReplyFor(table, cur, name, seqNo)) ==
            Words([seqNo % 0x1_0000_0000, 1]) + (Put32(0) + (Words([0, 0]) +
            if name == "NfsProc.ProgUnavail" then Put32(1) + Words([table[0].program, table[|table| - 1].program])
            else if name == "NfsProc.ProgMismatch" then Put32(2) + Words([table[cur].version, table[cur].version])
            else if name == "NfsProc.ProcUnavail" then Put32(3) + []
            else if name == "NfsProc.GarbageArgs" then Put32(4) + []
            else if name == "NfsProc.SystemErr" then Put32(5) + []
            else Put32(0) + []))
  {
    var m := ReplyFor(table, cur, name, seqNo);
    MsgLayout(m);
    hide Put32;
    var a := m.rbody.areply;
    Words2(m.xid, 1);
    Words2(0, 0);
    Words2(a.mismatchP.low, a.mismatchP.high);
    Words2(a.mismatchV.low, a.mismatchV.high);
    var rest := Put32(a.stat) + if a.stat == 1 then RangeOctets(a.mismatchP) else if a.stat == 2 then RangeOctets(a.mismatchV) else [];
    NoAuthOctets(rest);
    ConcatAssoc(Put32(0), Put32(0), rest);
    ConcatAssoc(Put32(m.xid), Put32(1), ReplyOctets(m.rbody));
  }

  // ---------------------------------------------------------------- what the server makes of any message

  predicate FirstWith(table: Table, program: int, i: nat)
    requires i < |table|
  {
    table[i].program == program && forall k :: 0 <= k < i ==> table[k].program != program
  }

  /** A message with its payload, framed: for every message, any credentials and any tail, what the header reader gives. */
  lemma CallRead(table: Table, cur: int, m: RPCMsg, p: Payload, tail: seq<byte>)
    requires SmallMsg(m) && PayloadOk(p) && |MsgBytes(m) + PayloadBytes(p)| <= MAX_RECORD
    ensures var r := ReadRequest(table, cur, Frame([MsgBytes(m) + PayloadBytes(p)]) + tail);
            var c := m.cbody;
            && (m.mtype != 0 ==> r == BadRequest(InvalidMessageType(m.mtype)))
            && (m.mtype == 0 ==>
                  && r.Request? && r.seqNo == m.xid && r.body == PayloadBytes(p) && r.rest == tail
                  && (c.rpcVersion != 2 ==> r.name == "NfsProc.RPCMismatch" && r.currentProgIndex == cur)
                  && (c.rpcVersion == 2 && c.cred.flavor != 0 && c.cred.flavor != 1 ==>
                        r.name == "NfsProc.AuthError" && r.currentProgIndex == cur)
                  && (c.rpcVersion == 2 && (c.cred.flavor == 0 || c.cred.flavor == 1) ==>
                        && ((forall k :: 0 <= k < |table| ==> table[k].program != c.program) ==>
                              r.name == "NfsProc.ProgUnavail" && r.currentProgIndex == cur)
                        && (forall i :: 0 <= i < |table| && FirstWith(table, c.program, i) ==>
                              && r.currentProgIndex == i
                              && r.name == (if c.version != table[i].version then "NfsProc.ProgMismatch"
                                            else if c.procedure >= |table[i].procList| then "NfsProc.ProcUnavail"
                                            else table[i].procList[c.procedure]))))
  {
    RecordOf(m, p, tail);
    hide MsgBytes, PayloadBytes, Frame, Reassemble, Dec;
    FirstProgramIs(table, m.cbody.program);
  }

  lemma FirstProgramIs(table: Table, program: int)
    ensures forall i :: 0 <= i < |table| && FirstWith(table, program, i) ==> FirstProgram(table, program) == i
    ensures (forall k :: 0 <= k < |table| ==> table[k].program != program) ==> FirstProgram(table, program) == -1
  {
  }

  /** So a call with credentials of flavour 0 or 1 is dispatched to the procedure it asks for. */
  lemma ProcedureCalled(table: Table, cur: int, m: RPCMsg, p: Payload, tail: seq<byte>, i: nat)
    requires SmallMsg(m) && PayloadOk(p) && |MsgBytes(m) + PayloadBytes(p)| <= MAX_RECORD
    requires m.mtype == 0 && m.cbody.rpcVersion == 2 && (m.cbody.cred.flavor == 0 || m.cbody.cred.flavor == 1)
    requires DistinctPrograms(table) && i < |table| && m.cbody.program == table[i].program
    requires m.cbody.version == table[i].version && m.cbody.procedure < |table[i].procList|
    ensures ReadRequest(table, cur, Frame([MsgBytes(m) + PayloadBytes(p)]) + tail) ==
            Request(table[i].procList[m.cbody.procedure], m.xid, i, PayloadBytes(p), tail)
  {
    hide MsgBytes, PayloadBytes, Frame, ReadRequest;
    CallRead(table, cur, m, p, tail);
  }

  // ---------------------------------------------------------------- what the client makes of any message

  /** Success is reported for accepted replies of stat 0 and for nothing else; each error is the one its stats name, with
      the bounds it carries. */
  lemma ReplyRead(m: RPCMsg, p: Payload, tail: seq<byte>)
    requires SmallMsg(m) && PayloadOk(p) && |MsgBytes(m) + PayloadBytes(p)| <= MAX_RECORD
    ensures var r := ReadResponse(Frame([MsgBytes(m) + PayloadBytes(p)]) + tail);
            var a, d := m.rbody.areply, m.rbody.rreply;
            && r.Response? && r.seqNo == m.xid && r.body == PayloadBytes(p) && r.rest == tail
            && (r.err == None <==> m.mtype == 1 && m.rbody.stat == 0 && a.stat == 0)
            && (m.mtype != 1 ==> r.err == Some(InvalidType(m.mtype)))
            && (m.mtype == 1 && m.rbody.stat != 0 && m.rbody.stat != 1 ==> r.err == Some(InvalidReplyType))
            && (m.mtype == 1 && m.rbody.stat == 0 ==>
                  && (a.stat == 1 ==> r.err == Some(ProgUnavail(a.mismatchP.low, a.mismatchP.high)))
                  && (a.stat == 2 ==> r.err == Some(ProgMismatch(a.mismatchV.low, a.mismatchV.high)))
                  && (a.stat == 3 ==> r.err == Some(ProcUnavail))
                  && (a.stat == 4 ==> r.err == Some(GarbageArgs))
                  && (a.stat == 5 ==> r.err == Some(SystemErr))
                  && (a.stat < 0 || a.stat > 5 ==> r.err == Some(InvalidAccepted)))
            && (m.mtype == 1 && m.rbody.stat == 1 ==>
                  && (d.stat == 0 ==> r.err == Some(RpcMismatch(d.mismatch.low, d.mismatch.high)))
                  && (d.stat == 1 ==> r.err == Some(AuthError))
                  && (d.stat != 0 && d.stat != 1 ==> r.err == Some(InvalidDenied)))
  {
    RecordOf(m, p, tail);
    hide MsgBytes, PayloadBytes, Frame, Reassemble, Dec;
  }
}

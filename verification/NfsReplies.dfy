/** A READDIR reply on its way through every layer: the page, its result union, the RPC reply and the record. */
module NfsReplies {
  import opened Bytes
  import opened Xdr
  import opened XdrLaws
  import opened XdrExact
  import opened XdrWire
  import opened Record
  import opened RpcTypes
  import opened RpcCodec
  import opened RpcExchange
  import opened RpcWire
  import opened NfsTypes
  import opened NfsResults
  import opened ReadDir

  /** The result READDIR returns for a page. */
  function PageResult(r: ReadDir.Request, cookie: int, attrs: Value): Payload
    requires RequestOk(r) && 0 <= cookie
  {
    var p := PageAt(r, cookie);
    Payload(NFS_ENV, READDIR3RES, ResultValue(0, ResokValue(attrs, p.entries, p.eof), Zero(READDIR3RESFAIL)))
  }

  lemma PageResultOk(r: ReadDir.Request, cookie: int, attrs: Value)
    requires RequestOk(r) && 0 <= cookie < TWO_64 && HasType(NFS_ENV, FATTR3, attrs)
    requires forall i :: 0 <= i < |r.listing| ==> |r.listing[i].name| + 4 <= MAX_INT32
    ensures var q := PageResult(r, cookie, attrs);
            PayloadOk(q) && Norm(q.env, q.schema, q.value) == q.value
  {
    hide Enc, Dec, HasType, Norm, Atoms;
    var q := PageResult(r, cookie, attrs);
    PageReplied(r, cookie, attrs, []);
    var e := Enc(q.env, q.schema, q.value, false);
    DecodesExactly(q.env, 0, q.schema, q.value, e.bytes + [], |e.bytes|);
    RoundTripIff(q.env, 0, q.schema, q.value, []);
  }

  // ---------------------------------------------------------------- sizes

  /** The header of a success reply takes 24 octets. */
  lemma SuccessHeaderSize(m: RPCMsg)
    requires SmallMsg(m) && m.mtype == REPLY && m.rbody.stat == MSG_ACCEPTED
    requires m.rbody.areply.stat == SUCCESS && m.rbody.areply.verf == NO_AUTH
    ensures |MsgBytes(m)| == 24
  {
    MsgLayout(m);
  }

  lemma PageResultSize(r: ReadDir.Request, cookie: int, attrs: Value)
    requires RequestOk(r) && 0 <= cookie < TWO_64 && HasType(NFS_ENV, FATTR3, attrs)
    requires PayloadOk(PageResult(r, cookie, attrs))
    ensures |PayloadBytes(PageResult(r, cookie, attrs))| == 4 + ReplyBytes(PageAt(r, cookie).entries)
  {
    hide Atoms, HasType, Good, PageAt;
    var p, q := PageAt(r, cookie), PageResult(r, cookie, attrs);
    PageEntriesOk(r, cookie);
    var v := ResokValue(attrs, p.entries, p.eof);
    ReplySize(attrs, p.entries, p.eof);
    ResfailGood();
    ResultWire(NFS_ENV, READDIR3RESOK, READDIR3RESFAIL, 0, v, Zero(READDIR3RESFAIL));
    WireIsEnc(NFS_ENV, READDIR3RESOK, v);
    WireIsEnc(NFS_ENV, READDIR3RES, q.value);
  }

  lemma PageEntriesOk(r: ReadDir.Request, cookie: int)
    requires RequestOk(r) && 0 <= cookie < TWO_64
    ensures forall i :: 0 <= i < |PageAt(r, cookie).entries| ==> EntryOk(PageAt(r, cookie).entries[i])
  {
    PageShape(r, Low(cookie), READDIRRESOKSIZE);
    var p := PageAt(r, cookie);
    forall i | 0 <= i < |p.entries| ensures EntryOk(p.entries[i]) {
      assert p.entries[i] == EntryAt(r, Low(cookie) + i);
    }
  }

  // ---------------------------------------------------------------- delivery

  /** A record longer than the reader's buffer is refused at its header. */
  lemma TooLong(data: seq<byte>, tail: seq<byte>)
    requires MAX_RECORD < |data| <= MAX_FRAGMENT
    ensures ReadResponse(Frame([data]) + tail) == BadResponse(RecordFailed(MessageSizeExceeded))
  {
    FrameCons([data], tail);
    HeaderRead(|data|, true, data + tail);
    var header := Put32(CreateFragmentHeader(|data|, true));
    ConcatAssoc(header, data, tail);
    hide Frame, CreateFragmentHeader, GetFragmentSize, Put32, Get32, IsLastFragment;
    assert Reassemble(header + (data + tail), []) == Failed(MessageSizeExceeded);
  }

  /** What is left of the client's record for the page, after the reply header and the status. */
  const PAGE_LIMIT: nat := 1_048_548

  /** The client of a READDIR call reads success with its own sequence number, and the rest of the record decodes to the
      page the server built, whatever follows on the connection; unless the record is too long for the reader that both
      sides use, and then the client is told so. Which of the two depends on the listing and the count. */
  lemma PageDeliveredIff(table: Table, cur: int, name: string, seqNo: int, r: ReadDir.Request, cookie: int, attrs: Value,
                         tail: seq<byte>)
    requires TableOk(table) && !Reserved(name) && IsUint32(seqNo)
    requires RequestOk(r) && 0 <= cookie < TWO_64 && HasType(NFS_ENV, FATTR3, attrs)
    requires forall i :: 0 <= i < |r.listing| ==> |r.listing[i].name| + 4 <= MAX_INT32
    ensures var q := PageResult(r, cookie, attrs);
            && PayloadOk(q)
            && var data := MsgBytes(ReplyFor(table, cur, name, seqNo)) + PayloadBytes(q);
            && |data| == 28 + ReplyBytes(PageAt(r, cookie).entries)
            && (|data| <= MAX_RECORD <==> StopsInTime(r, MinOf(PAGE_LIMIT, r.count), Low(cookie), READDIRRESOKSIZE))
            && (|data| <= MAX_RECORD ==>
                  && ReadResponse(Frame([data]) + tail) == Response(seqNo, None, PayloadBytes(q), tail)
                  && Dec(NFS_ENV, 0, READDIR3RES, false, PayloadBytes(q)) == Ok(q.value, |PayloadBytes(q)|))
            && (MAX_RECORD < |data| <= MAX_FRAGMENT ==>
                  ReadResponse(Frame([data]) + tail) == BadResponse(RecordFailed(MessageSizeExceeded)))
  {
    hide ReadResponse, Frame, MsgBytes, PayloadBytes, Dec, Norm, HasType, PageAt, StopsInTime, AllFit;
    var q := PageResult(r, cookie, attrs);
    PageResultOk(r, cookie, attrs);
    PageResultSize(r, cookie, attrs);
    SuccessHeaderSize(ReplyFor(table, cur, name, seqNo));
    ReplyWithinIff(r, cookie, PAGE_LIMIT);
    var data := MsgBytes(ReplyFor(table, cur, name, seqNo)) + PayloadBytes(q);
    if |data| <= MAX_RECORD {
      ReplyReceived(table, cur, name, seqNo, q, tail);
    } else if |data| <= MAX_FRAGMENT {
      TooLong(data, tail);
    }
  }

  /** Names as Unix has them and a count within the limit are always delivered. */
  lemma SmallCountDelivered(r: ReadDir.Request, cookie: int)
    requires RequestOk(r) && 0 <= cookie < TWO_64 && r.count <= PAGE_LIMIT
    requires forall i :: 0 <= i < |r.listing| ==> |r.listing[i].name| <= 255
    ensures StopsInTime(r, MinOf(PAGE_LIMIT, r.count), Low(cookie), READDIRRESOKSIZE)
  {
    ShortNamesStop(r, r.count, Low(cookie), READDIRRESOKSIZE);
  }

  /** A count with room for the whole listing gets the whole listing. */
  lemma {:induction false} RoomForAll(r: ReadDir.Request, i: nat, spent: nat)
    requires RequestOk(r) && i <= |r.listing| && spent + EntriesSize(Slice(r, i, |r.listing| - i)) <= r.count
    ensures PageFrom(r, i, spent) == Page(Slice(r, i, |r.listing| - i), true)
    decreases |r.listing| - i
  {
    if i < |r.listing| {
      var rest, more := Slice(r, i, |r.listing| - i), Slice(r, i + 1, |r.listing| - i - 1);
      assert rest[0] == EntryAt(r, i) && rest[1..] == more;
      OverheadIs(r.listing[i]);
      RoomForAll(r, i + 1, spent + ENTRY3SIZE + RoundUp4(|r.listing[i].name|));
      assert rest == [EntryAt(r, i)] + more;
    }
  }

  /** A client may ask for more than the record reader takes: with a count of 2 MiB, a directory of 4096 names of 252
      octets is sent in one record that no reader of this code accepts. */
  lemma LargeCountRefused()
    ensures var r := ReadDir.Request(ManyNames()[..4096], 2_097_152, false, 0);
            && RequestOk(r)
            && !StopsInTime(r, MinOf(PAGE_LIMIT, r.count), 0, READDIRRESOKSIZE)
            && MAX_RECORD < 28 + ReplyBytes(PageAt(r, 0).entries) <= MAX_FRAGMENT
  {
    hide LongName, PageFrom, EntriesSize, StopsInTime, ManyNames;
    var r := ReadDir.Request(ManyNames()[..4096], 2_097_152, false, 0);
    var es := Slice(r, 0, 4096);
    forall k | 0 <= k < |es| ensures |es[k].name| == NAME_LENGTH {
      assert es[k] == EntryAt(r, k);
    }
    LongNamesSize(es);
    RoomForAll(r, 0, READDIRRESOKSIZE);
    assert PageAt(r, 0).entries == es;
    ReplyWithinIff(r, 0, PAGE_LIMIT);
  }
}

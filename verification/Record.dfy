/** oncrpc/record.go: record marking, section 11 of RFC 5531. */
module Record {
  import opened Bytes
  import opened Xdr
  import opened XdrCodec

  const MAX_FRAGMENT: int := 0x7FFF_FFFF
  const MAX_RECORD: int := 1024 * 1024

  // ---------------------------------------------------------------- fragment headers

  /** fragmentHeader >> 31 == 1, on 32-bit unsigned words. */
  predicate IsLastFragment(header: int)
    requires 0 <= header < TWO_32
  {
    header / TWO_31 == 1
  }

  /** fragmentHeader &^ (1 << 31). */
  function GetFragmentSize(header: int): (size: nat)
    requires 0 <= header < TWO_32
    ensures size <= MAX_FRAGMENT
  {
    header % TWO_31
  }

  /** The size with its top bit cleared, and the top bit set for a last fragment. */
  function CreateFragmentHeader(size: int, last: bool): (header: int)
    requires 0 <= size < TWO_32
    ensures 0 <= header < TWO_32
  {
    size % TWO_31 + if last then TWO_31 else 0
  }

  /** Size and flag are packed without loss, and every word is the header of some size and flag. */
  lemma HeaderInverse(size: int, last: bool, header: int)
    requires 0 <= size <= MAX_FRAGMENT && 0 <= header < TWO_32
    ensures GetFragmentSize(CreateFragmentHeader(size, last)) == size
    ensures IsLastFragment(CreateFragmentHeader(size, last)) == last
    ensures CreateFragmentHeader(GetFragmentSize(header), IsLastFragment(header)) == header
  {
  }

  /** The last-fragment flag is the top bit of the header word and the size is the other 31 bits: the first octet of the
      header is 128 or more exactly on a last fragment. */
  lemma HeaderIs(size: int, last: bool)
    requires 0 <= size < 0x8000_0000
    ensures CreateFragmentHeader(size, last) == if last then 0x8000_0000 + size else size
    ensures IsLastFragment(0x8000_0000 + size) && GetFragmentSize(0x8000_0000 + size) == size
    ensures !IsLastFragment(size) && GetFragmentSize(size) == size
  {
  }

  // ---------------------------------------------------------------- reading

  datatype RecordError = Eof | MessageSizeExceeded | InvalidFragmentSize

  datatype ReadResult = Complete(data: seq<byte>, rest: seq<byte>) | Failed(error: RecordError)

  /** ReadFullRecord on the octets waiting in the stream; `acc` is the record read so far. */
  function Reassemble(input: seq<byte>, acc: seq<byte>): ReadResult
    decreases |input|
  {
    if |input| < 4 then Failed(Eof)
    else
      var header := Get32(input[..4]);
      var size := GetFragmentSize(header);
      if size > MAX_RECORD - |acc| then Failed(MessageSizeExceeded)
      else if |input| - 4 < size then Failed(Eof)
      else
        var acc' := acc + input[4..4 + size];
        if IsLastFragment(header) then Complete(acc', input[4 + size..])
        else Reassemble(input[4 + size..], acc')
  }

  /** The loop of ReadFullRecord over a stream. The buffer has the capacity it was made with. */
  method ReadFullRecord(conn: Reader) returns (record: seq<byte>, err: Option<RecordError>)
    modifies conn
    ensures match Reassemble(old(conn.data), [])
            case Complete(data, rest) => err == None && record == data && conn.data == rest
            case Failed(e) => err == Some(e)
  {
    record := [];
    while true
      invariant Reassemble(conn.data, record) == Reassemble(old(conn.data), [])
      decreases |conn.data|
    {
      ghost var before := conn.data;
      var buf, n, short := conn.ReadFull(4);
      if short.Some? {
        return [], Some(Eof);
      }
      var fragmentHeader := Get32(buf);
      var fragmentSize := GetFragmentSize(fragmentHeader);
      if fragmentSize > MAX_FRAGMENT {
        return [], Some(InvalidFragmentSize);
      }
      if fragmentSize > MAX_RECORD - |record| {
        return [], Some(MessageSizeExceeded);
      }
      buf, n, short := conn.ReadFull(fragmentSize);
      if short.Some? {
        return [], Some(Eof);
      }
      record := record + buf;
      assert before[4..][..fragmentSize] == before[4..4 + fragmentSize];
      assert before[4..][fragmentSize..] == before[4 + fragmentSize..];
      if IsLastFragment(fragmentHeader) {
        return record, None;
      }
    }
  }

  // ---------------------------------------------------------------- framing

  predicate Sendable(fragments: seq<seq<byte>>) {
    forall i :: 0 <= i < |fragments| ==> |fragments[i]| <= MAX_FRAGMENT
  }

  /** The octets of a record sent as the given fragments; only the last one carries the flag. */
  function Frame(fragments: seq<seq<byte>>): seq<byte>
    requires |fragments| >= 1
    requires Sendable(fragments)
  {
    Put32(CreateFragmentHeader(|fragments[0]|, |fragments| == 1)) + fragments[0] +
    if |fragments| == 1 then [] else Frame(fragments[1..])
  }

  /** One fragment at the head of the input. */
  lemma ReadFragment(last: bool, input: seq<byte>, rest: seq<byte>, fragment: seq<byte>, acc: seq<byte>)
    requires |fragment| <= MAX_FRAGMENT
    requires input == Put32(CreateFragmentHeader(|fragment|, last)) + fragment + rest
    requires |acc| + |fragment| <= MAX_RECORD
    ensures Reassemble(input, acc) == if last then Complete(acc + fragment, rest) else Reassemble(rest, acc + fragment)
  {
    var h := CreateFragmentHeader(|fragment|, last);
    assert input[..4] == Put32(h);
    GetPut32(h);
    ModUnique32(h, 0, h);
    HeaderInverse(|fragment|, last, h);
    assert input[4..4 + |fragment|] == fragment && input[4 + |fragment|..] == rest;
  }

  lemma FrameCons(fragments: seq<seq<byte>>, tail: seq<byte>)
    requires |fragments| >= 1
    requires Sendable(fragments)
    ensures var last := |fragments| == 1;
            Frame(fragments) + tail ==
            Put32(CreateFragmentHeader(|fragments[0]|, last)) + fragments[0] + (if last then tail else Frame(fragments[1..]) + tail)
    ensures Concat(fragments) == if |fragments| == 1 then fragments[0] else fragments[0] + Concat(fragments[1..])
  {
    if |fragments| == 1 {
      assert Concat(fragments[1..]) == [];
      assert fragments[0] + [] == fragments[0];
    }
  }

  /** Reassembly: whatever the split into fragments, empty ones included, the reader returns the message and leaves
      the octets behind it. */
  lemma {:induction false} ReassemblesFrames(fragments: seq<seq<byte>>, acc: seq<byte>, tail: seq<byte>)
    requires |fragments| >= 1 && |acc| + |Concat(fragments)| <= MAX_RECORD
    requires Sendable(fragments)
    ensures Reassemble(Frame(fragments) + tail, acc) == Complete(acc + Concat(fragments), tail)
    decreases |fragments|
  {
    FrameCons(fragments, tail);
    if |fragments| == 1 {
      ReadFragment(true, Frame(fragments) + tail, tail, fragments[0], acc);
    } else {
      var head, more := fragments[0], fragments[1..];
      ReadFragment(false, Frame(fragments) + tail, Frame(more) + tail, head, acc);
      ReassemblesFrames(more, acc + head, tail);
      ConcatAssoc(acc, head, Concat(more));
    }
  }

  /** Conversely, a record that was read is the concatenation of the fragments framed at the head of the input. */
  lemma {:induction false} FramesRead(input: seq<byte>, acc: seq<byte>) returns (fragments: seq<seq<byte>>)
    requires Reassemble(input, acc).Complete? && |acc| <= MAX_RECORD
    ensures |fragments| >= 1 && Sendable(fragments)
    ensures var r := Reassemble(input, acc);
            && input == Frame(fragments) + r.rest && r.data == acc + Concat(fragments) && |r.data| <= MAX_RECORD
    decreases |input|
  {
    var header := Get32(input[..4]);
    var size, last := GetFragmentSize(header), IsLastFragment(header);
    var head, rest := input[4..4 + size], input[4 + size..];
    HeaderOf(input, size);
    if last {
      fragments := [head];
      FrameCons(fragments, rest);
    } else {
      var r := Reassemble(rest, acc + head);
      assert Reassemble(input, acc) == r;
      var tail := FramesRead(rest, acc + head);
      fragments := [head] + tail;
      FramesCons(input, acc, head, tail, r.rest, r.data);
    }
  }

  lemma FramesCons(input: seq<byte>, acc: seq<byte>, head: seq<byte>, tail: seq<seq<byte>>, out: seq<byte>, data: seq<byte>)
    requires |head| <= MAX_FRAGMENT && |tail| >= 1 && Sendable(tail)
    requires input == Put32(CreateFragmentHeader(|head|, false)) + head + (Frame(tail) + out)
    requires data == (acc + head) + Concat(tail)
    ensures Sendable([head] + tail)
    ensures input == Frame([head] + tail) + out && data == acc + Concat([head] + tail)
  {
    var fs := [head] + tail;
    assert fs[0] == head && |fs| == |tail| + 1 && fs[1..] == tail;
    forall i | 0 <= i < |fs| ensures |fs[i]| <= MAX_FRAGMENT {
      assert i > 0 ==> fs[i] == tail[i - 1];
    }
    assert Sendable(fs);
    FrameCons(fs, out);
    assert Frame(fs[1..]) == Frame(tail);
    assert Concat(fs) == head + Concat(tail);
    ConcatAssoc(acc, head, Concat(tail));
  }

  lemma HeaderOf(input: seq<byte>, size: nat)
    requires |input| >= 4 && size == GetFragmentSize(Get32(input[..4])) && 4 + size <= |input|
    ensures input == Put32(CreateFragmentHeader(size, IsLastFragment(Get32(input[..4])))) + input[4..4 + size] + input[4 + size..]
  {
    var header := Get32(input[..4]);
    PutGet32(input[..4]);
    HeaderInverse(size, IsLastFragment(header), header);
  }

  /** A record that ends too early, wherever it is cut, is an end of file. */
  lemma {:induction false} TruncatedRecord(input: seq<byte>, acc: seq<byte>, m: nat)
    requires Reassemble(input, acc).Complete? && m <= |input|
    ensures m < |input| - |Reassemble(input, acc).rest| ==> Reassemble(input[..m], acc) == Failed(Eof)
    ensures |Reassemble(input, acc).rest| <= |input|
    decreases |input|
  {
    var size := GetFragmentSize(Get32(input[..4]));
    hide Get32, GetFragmentSize, IsLastFragment;
    if m >= 4 {
      assert input[..m][..4] == input[..4];
      if m - 4 >= size && !IsLastFragment(Get32(input[..4])) {
        assert input[..m][4..4 + size] == input[4..4 + size];
        assert input[..m][4 + size..] == input[4 + size..][..m - 4 - size];
        TruncatedRecord(input[4 + size..], acc + input[4..4 + size], m - 4 - size);
      }
    }
    if !IsLastFragment(Get32(input[..4])) {
      TruncatedRecord(input[4 + size..], acc + input[4..4 + size], 0);
    }
  }

  /** Fragments that add up to more than the buffer holds are refused, whatever the split. */
  lemma {:induction false} LongRecordRefused(fragments: seq<seq<byte>>, acc: seq<byte>, tail: seq<byte>)
    requires |fragments| >= 1 && Sendable(fragments) && |acc| <= MAX_RECORD < |acc| + |Concat(fragments)|
    ensures Reassemble(Frame(fragments) + tail, acc) == Failed(MessageSizeExceeded)
    decreases |fragments|
  {
    var head, last := fragments[0], |fragments| == 1;
    FrameCons(fragments, tail);
    var rest := if last then tail else Frame(fragments[1..]) + tail;
    ConcatAssoc(Put32(CreateFragmentHeader(|head|, last)), head, rest);
    HeaderRead(|head|, last, head + rest);
    if |acc| + |head| <= MAX_RECORD {
      ReadFragment(last, Frame(fragments) + tail, rest, head, acc);
      LongRecordRefused(fragments[1..], acc + head, tail);
    }
  }

  // ---------------------------------------------------------------- writing

  /** The first round: the whole record if it fits one fragment, else a full fragment that is not the last. */
  function FirstRound(data: seq<byte>): seq<byte> {
    if |data| <= MAX_FRAGMENT then Frame([data])
    else Put32(CreateFragmentHeader(MAX_FRAGMENT, false)) + data[..MAX_FRAGMENT]
  }

  /** The end of the second slice. The running total counts the four header octets, so for data up to three octets longer
      than a fragment the remaining length is negative and the conversion to uint32 wraps. */
  function SecondEnd(len: nat): int { Uint32(MinOf(MAX_FRAGMENT, len - (4 + MAX_FRAGMENT))) }

  /** The second slice starts behind its own end or ends behind the capacity of the data. */
  predicate SecondPanics(capacity: nat, len: nat) { 4 + MAX_FRAGMENT > SecondEnd(len) || SecondEnd(len) > capacity }

  /** A second slice can only succeed by the wrap, on data that has nearly 2^32 octets of spare capacity. */
  lemma SecondPanicsIff(capacity: nat, len: nat)
    requires len > MAX_FRAGMENT
    ensures SecondPanics(capacity, len) <==> len >= MAX_FRAGMENT + 4 || capacity < TWO_32 + len - (MAX_FRAGMENT + 4)
  {
    var rest := len - (4 + MAX_FRAGMENT);
    if rest < 0 {
      ModUnique32(rest, -1, TWO_32 + rest);
    }
  }

  /** All octets WriteFullRecord offers the connection, for the data backing[..len] with its spare capacity behind it. */
  function Offered(backing: seq<byte>, len: nat): seq<byte>
    requires len <= |backing|
  {
    var first := FirstRound(backing[..len]);
    if len <= MAX_FRAGMENT || SecondPanics(|backing|, len) then first
    else first + (Put32(CreateFragmentHeader(SecondEnd(len), true)) + backing[4 + MAX_FRAGMENT..SecondEnd(len)])
  }

  /** The loop of WriteFullRecord. The end of the slice it sends is the fragment size, not an offset, and its running
      total counts header octets too, so it is right for data of one fragment and panics on nearly all longer data. */
  method WriteFullRecord(conn: Writer, backing: seq<byte>, len: nat) returns (total: int, panicked: bool, err: Option<ErrorCode>)
    requires len <= |backing| && |conn.out| <= conn.capacity
    modifies conn
    ensures exists n: nat :: Emitted(old(conn.out), conn.capacity, Out(Offered(backing, len)), conn.out, n, err)
    ensures panicked <==> err == None && len > MAX_FRAGMENT && SecondPanics(|backing|, len)
    ensures var first := |FirstRound(backing[..len])|;
            total == if err == None then |Offered(backing, len)| else if first <= conn.capacity - |old(conn.out)| then first else 0
  {
    hide Frame, CreateFragmentHeader, Put32;
    var lastFragment := false;
    ghost var first := FirstRound(backing[..len]);
    total, panicked, err := 0, false, None;
    while true
      invariant !panicked && err == None && |conn.out| <= conn.capacity && !lastFragment
      invariant
        || (total == 0 && conn.out == old(conn.out))
        || (total == 4 + MAX_FRAGMENT == |first| && len > MAX_FRAGMENT &&
            Emitted(old(conn.out), conn.capacity, Out(first), conn.out, total, None))
      decreases if total == 0 then 1 else 0
    {
      var remainingBytes := len - total;
      if remainingBytes <= MAX_FRAGMENT {
        lastFragment := true;
      }
      var fragmentSize := Uint32(MinOf(MAX_FRAGMENT, remainingBytes));
      var header := Put32(CreateFragmentHeader(fragmentSize, lastFragment));
      if total > fragmentSize || fragmentSize > |backing| {
        assert Emitted(old(conn.out), conn.capacity, Out(Offered(backing, len)), conn.out, total, None);
        return total, true, None;
      }
      ghost var before, sent := conn.out, header + backing[total..fragmentSize];
      assert total == 0 ==> sent == first by {
        if total == 0 {
          FirstRoundSent(backing, len, fragmentSize, lastFragment);
        }
      }
      var n;
      n, err := conn.Write(header + backing[total..fragmentSize]);
      if total > 0 {
        SecondRound(old(conn.out), conn.capacity, first, before, total, sent, conn.out, n, err);
        assert fragmentSize == SecondEnd(len) && lastFragment && Offered(backing, len) == first + sent;
      }
      if err.Some? {
        if total == 0 {
          FirstStopped(old(conn.out), conn.capacity, backing, len, conn.out, n, err);
        }
        return total, false, err;
      }
      total := total + n;
      if lastFragment {
        assert Emitted(old(conn.out), conn.capacity, Out(Offered(backing, len)), conn.out, total, None);
        return;
      }
    }
  }

  lemma FirstRoundSent(backing: seq<byte>, len: nat, size: int, last: bool)
    requires len <= |backing| && size == Uint32(MinOf(MAX_FRAGMENT, len)) && (last <==> len <= MAX_FRAGMENT)
    ensures Put32(CreateFragmentHeader(size, last)) + backing[0..size] == FirstRound(backing[..len])
  {
    assert backing[..len][..size] == backing[0..size];
    if last {
      assert Put32(CreateFragmentHeader(len, true)) + backing[..len] + [] == Put32(CreateFragmentHeader(len, true)) + backing[..len];
    }
  }

  lemma SecondRound(before: seq<byte>, capacity: nat, first: seq<byte>, mid: seq<byte>, n: nat, sent: seq<byte>,
                    after: seq<byte>, m: nat, err: Option<ErrorCode>)
    requires Emitted(before, capacity, Out(first), mid, n, None) && Emitted(mid, capacity, Out(sent), after, m, err)
    ensures Emitted(before, capacity, Out(first + sent), after, n + m, err)
    ensures |first| <= capacity - |before| && n == |first| && (err == None ==> n + m == |first + sent|)
  {
    EmittedThen(before, capacity, Out(first), mid, n, Out(sent), after, m, err);
  }

  lemma FirstStopped(before: seq<byte>, capacity: nat, backing: seq<byte>, len: nat, after: seq<byte>, n: nat, err: Option<ErrorCode>)
    requires len <= |backing| && err.Some?
    requires Emitted(before, capacity, Out(FirstRound(backing[..len])), after, n, err)
    ensures Emitted(before, capacity, Out(Offered(backing, len)), after, n, err)
  {
    var first := FirstRound(backing[..len]);
    EmittedStop(before, capacity, Out(first), after, n, Out(Offered(backing, len)[|first|..]), err);
    assert Offered(backing, len) == first + Offered(backing, len)[|first|..];
  }

  /** Data of one fragment goes out as one record. */
  lemma OneFragment(backing: seq<byte>, len: nat)
    requires len <= |backing| && len <= MAX_FRAGMENT
    ensures Offered(backing, len) == Frame([backing[..len]])
  {
  }

  /** What framed octets begin with: the header of the first fragment, the fragment, and the others. */
  lemma FrameHead(fragments: seq<seq<byte>>)
    requires |fragments| >= 1 && Sendable(fragments)
    ensures var n, last, f := |fragments[0]|, |fragments| == 1, Frame(fragments);
            && |f| >= 4 + n && (last ==> |f| == 4 + n)
            && GetFragmentSize(Get32(f[..4])) == n && IsLastFragment(Get32(f[..4])) == last
            && (!last ==> Sendable(fragments[1..]) && f[4 + n..] == Frame(fragments[1..]))
  {
    var n, last := |fragments[0]|, |fragments| == 1;
    HeaderRead(n, last, Frame(fragments)[4..]);
    assert Frame(fragments)[..4] == Put32(CreateFragmentHeader(n, last));
  }

  lemma HeaderRead(n: nat, last: bool, rest: seq<byte>)
    requires n <= MAX_FRAGMENT
    ensures var f := Put32(CreateFragmentHeader(n, last)) + rest;
            && Get32(f[..4]) == CreateFragmentHeader(n, last)
            && GetFragmentSize(Get32(f[..4])) == n && IsLastFragment(Get32(f[..4])) == last
  {
    var h := CreateFragmentHeader(n, last);
    assert (Put32(h) + rest)[..4] == Put32(h);
    GetPut32(h);
    ModUnique32(h, 0, h);
    HeaderInverse(n, last, h);
  }

  /** A last fragment is as long as its header says. */
  lemma WrongLength(n: nat, rest: seq<byte>, fragments: seq<seq<byte>>)
    requires n <= MAX_FRAGMENT && |rest| != n && |fragments| >= 1 && Sendable(fragments)
    ensures Put32(CreateFragmentHeader(n, true)) + rest != Frame(fragments)
  {
    hide Frame, CreateFragmentHeader, GetFragmentSize, IsLastFragment;
    HeaderRead(n, true, rest);
    FrameHead(fragments);
  }

  /** A full fragment that is not the last is followed by the rest of a record. */
  lemma FirstThen(body: seq<byte>, more: seq<byte>, fragments: seq<seq<byte>>)
    requires |body| == MAX_FRAGMENT && |fragments| >= 1 && Sendable(fragments)
    requires Put32(CreateFragmentHeader(MAX_FRAGMENT, false)) + (body + more) == Frame(fragments)
    ensures |fragments| >= 2 && Sendable(fragments[1..]) && more == Frame(fragments[1..]) && more != []
  {
    hide Frame, CreateFragmentHeader, GetFragmentSize, IsLastFragment;
    HeaderRead(MAX_FRAGMENT, false, body + more);
    FrameHead(fragments);
    FrameHead(fragments[1..]);
    var header := Put32(CreateFragmentHeader(MAX_FRAGMENT, false));
    assert (header + (body + more))[4 + MAX_FRAGMENT..] == more;
  }

  lemma SecondNumbers(len: nat)
    requires MAX_FRAGMENT < len < MAX_FRAGMENT + 4
    ensures SecondEnd(len) == TWO_32 + len - (4 + MAX_FRAGMENT)
    ensures CreateFragmentHeader(SecondEnd(len), true) == CreateFragmentHeader(TWO_31 + len - (4 + MAX_FRAGMENT), true)
  {
    var rest := len - (4 + MAX_FRAGMENT);
    ModUnique32(rest, -1, TWO_32 + rest);
  }

  /** What the second round sends, if it gets that far. */
  function SecondSent(backing: seq<byte>, len: nat): seq<byte>
    requires MAX_FRAGMENT < len <= |backing|
  {
    if SecondPanics(|backing|, len) then []
    else Put32(CreateFragmentHeader(SecondEnd(len), true)) + backing[4 + MAX_FRAGMENT..SecondEnd(len)]
  }

  /** It is a last fragment that announces three octets more than it holds. */
  lemma SecondShape(backing: seq<byte>, len: nat) returns (n: nat, rest: seq<byte>)
    requires MAX_FRAGMENT < len <= |backing| && SecondSent(backing, len) != []
    ensures n <= MAX_FRAGMENT && n == |rest| + 3
    ensures SecondSent(backing, len) == Put32(CreateFragmentHeader(n, true)) + rest
  {
    SecondBounds(backing, len);
    hide SecondPanics, Put32, CreateFragmentHeader, SecondEnd;
    SecondNumbers(len);
    n, rest := TWO_31 + len - (4 + MAX_FRAGMENT), backing[4 + MAX_FRAGMENT..SecondEnd(len)];
  }

  lemma SecondBounds(backing: seq<byte>, len: nat)
    requires MAX_FRAGMENT < len <= |backing| && SecondSent(backing, len) != []
    ensures len < MAX_FRAGMENT + 4 && 4 + MAX_FRAGMENT <= SecondEnd(len) <= |backing| && !SecondPanics(|backing|, len)
  {
    hide Put32, CreateFragmentHeader;
    SecondPanicsIff(|backing|, len);
  }

  lemma SecondNeverFrames(backing: seq<byte>, len: nat, fragments: seq<seq<byte>>)
    requires MAX_FRAGMENT < len <= |backing| && |fragments| >= 1 && Sendable(fragments) && SecondSent(backing, len) != []
    ensures SecondSent(backing, len) != Frame(fragments)
  {
    hide SecondSent, Put32, CreateFragmentHeader, Frame;
    var n, rest := SecondShape(backing, len);
    WrongLength(n, rest, fragments);
  }

  lemma OfferedParts(backing: seq<byte>, len: nat)
    requires MAX_FRAGMENT < len <= |backing|
    ensures Offered(backing, len) ==
            Put32(CreateFragmentHeader(MAX_FRAGMENT, false)) + (backing[..len][..MAX_FRAGMENT] + SecondSent(backing, len))
  {
    hide Frame, Put32, CreateFragmentHeader, SecondPanics, SecondEnd;
    var header, body := Put32(CreateFragmentHeader(MAX_FRAGMENT, false)), backing[..len][..MAX_FRAGMENT];
    ConcatAssoc(header, body, SecondSent(backing, len));
  }

  /** Longer data is never offered as a record. */
  lemma LongNeverFrames(backing: seq<byte>, len: nat, fragments: seq<seq<byte>>)
    requires MAX_FRAGMENT < len <= |backing| && |fragments| >= 1 && Sendable(fragments)
    ensures Offered(backing, len) != Frame(fragments)
  {
    hide Offered, SecondSent, Frame, Put32, CreateFragmentHeader;
    OfferedParts(backing, len);
    if Offered(backing, len) == Frame(fragments) {
      FirstThen(backing[..len][..MAX_FRAGMENT], SecondSent(backing, len), fragments);
      SecondNeverFrames(backing, len, fragments[1..]);
    }
  }

  /** What is offered is some record, whatever its fragments, exactly if the data fits one fragment. */
  lemma FramesIff(backing: seq<byte>, len: nat)
    requires len <= |backing|
    ensures (exists fs :: |fs| >= 1 && Sendable(fs) && Offered(backing, len) == Frame(fs)) <==> len <= MAX_FRAGMENT
  {
    if len <= MAX_FRAGMENT {
      var fs := [backing[..len]];
      OneFragment(backing, len);
      assert Sendable(fs) && Offered(backing, len) == Frame(fs);
    } else {
      forall fs | |fs| >= 1 && Sendable(fs) ensures Offered(backing, len) != Frame(fs) {
        LongNeverFrames(backing, len, fs);
      }
    }
  }

  /** Messages written back to back, one fragment each. */
  function Stream(messages: seq<seq<byte>>): seq<byte>
    requires Sendable(messages)
  {
    if messages == [] then [] else Frame([messages[0]]) + Stream(messages[1..])
  }

  /** Reading records until the stream is empty. */
  function ReadAll(input: seq<byte>): Option<seq<seq<byte>>>
    decreases |input|
  {
    if input == [] then Some([])
    else
      match Reassemble(input, [])
      case Failed(_) => None
      case Complete(data, rest) =>
        if |rest| >= |input| then None
        else match ReadAll(rest) case None => None case Some(more) => Some([data] + more)
  }

  lemma {:induction false} StreamRoundTrip(messages: seq<seq<byte>>)
    requires forall i :: 0 <= i < |messages| ==> |messages[i]| <= MAX_RECORD
    ensures ReadAll(Stream(messages)) == Some(messages)
  {
    if messages != [] {
      var head, tail := [messages[0]], messages[1..];
      assert Concat(head) == messages[0] + Concat([]) == messages[0];
      assert forall i :: 0 <= i < |tail| ==> tail[i] == messages[i + 1];
      ReassemblesFrames(head, [], Stream(tail));
      assert [] + Concat(head) == messages[0];
      StreamRoundTrip(tail);
      assert [messages[0]] + tail == messages;
    }
  }
}

# gonfs in Dafny

A model of the hard core of gonfs, an NFSv3 server in Go with its own XDR codec, record marking and RPC layer, and
proofs about it. Reflection over Go types is replaced by a schema datatype; everything that the source does step by
step is a class with methods and loops, each tied by its contract to a function, and the laws are proved about the
functions.

| file | models |
|---|---|
| `Bytes.dfy` | big-endian words, wrap-around, padding |
| `XdrTag.dfy` | `xdr/tag.go`: struct tags |
| `Xdr.dfy` | schemas, values, and what the encoder emits and the decoder accepts (RFC 4506) |
| `XdrCodec.dfy` | `xdr/encode.go` and `xdr/decode.go` as `Encoder` and `Decoder` over a `Writer` and a `Reader` |
| `XdrLaws.dfy`, `XdrExact.dfy`, `XdrFits.dfy`, `XdrLimits.dfy`, `XdrStructs.dfy`, `XdrArms.dfy` | round trips, exactness, the read limit, unions and their unselected arms |
| `XdrErrors.dfy`, `XdrWire.dfy`, `XdrSizes.dfy` | errors and truncated input, octet layouts, encoded sizes |
| `Record.dfy` | `oncrpc/record.go`: record marking (section 11 of RFC 5531) |
| `RpcTypes.dfy`, `RpcCodec.dfy`, `RpcWire.dfy`, `RpcExchange.dfy`, `RpcSession.dfy` | `oncrpc`: the message schema, both codecs, message layouts and what is made of any message, a whole call, one connection over time |
| `NfsTypes.dfy`, `NfsWire.dfy`, `NfsResults.dfy`, `NfsReplies.dfy` | `nfs3/nfstypdef.go`: the READDIR schema, its sizes and layout, the result unions, a reply through all layers |
| `ReadDir.dfy`, `ReadDirRuns.dfy` | `ReadDir` in `nfs3/allunix.go`: one page, the list built in place, whole runs |
| `Handles.dfy`, `HandleRuns.dfy`, `Backend.dfy` | the file-handle table in `nfs3/allunix.go`: steps, runs, and the object that takes them |

How the XDR proof is built: a value with its schema stands for a list of wire items (`XdrLaws.Atoms`), and
`XdrLaws.Renders` says which octets represent such a list, padding octets being free. The encoder writes the one
rendering with zero padding, the decoder accepts exactly the renderings, and the main results follow. `XdrLaws.Norm` is
what the wire keeps of a value: union arms that the discriminant does not select become zero values
(`XdrArms.DecodedArmsZero`).

The functions that methods are tied to are fixed from outside as well: by layouts with literal numbers
(`RpcWire.MsgLayout`, `NfsWire.ResokLayout`), by what is made of any framed message (`RpcWire.CallRead`,
`RpcWire.ReplyRead`), by what each entry of a page says (`ReadDir.PageDescribes`), and by what each request is answered,
changes and drops (`Handles.StepAnswered`).

Places where the code falls short of what one would expect of it, each with its exact condition:

- The encoder sets a discriminant before it looks at the case labels of the same field and the decoder after
  (`XdrExact.DiscriminantArmLength`); such a field, labelled c, survives only the value c (`XdrExact.DiscriminantArmIff`).
  None occurs in the repository, and `XdrLaws.Sound` excludes them from the other results.
- Go `int` and `uint` are cut to 32 bits on the wire: `XdrExact.RoundTripIff` says exactly which values come back.
- `READDIR` adds sizes in 32 bits and sends an empty page whatever the count: `ReadDir.ReplyFitsIff` says for which
  listings and counts a reply fits, and `ReadDir.LargeDirectoryExceedsCount` gives a directory for which it does not.
- A client may ask READDIR for more than the record reader of this repository takes: `NfsReplies.PageDeliveredIff` says
  when the reply can be read, and `NfsReplies.LargeCountRefused` gives a directory and a count of 2 MiB for which it cannot.
- Calls with a wrong RPC version or unknown credentials are answered with success (`RpcCodec.StatusFaithfulIff`,
  `RpcExchange.AnsweredAsDeservedIff`).
- When calls overlap on one connection, a version mismatch may report another program's version
  (`RpcSession.OverlapReportsIff`, `RpcSession.OverlapMisreports`). It takes programs of different versions; gonfs itself
  serves both of its programs at version 3, so it never does (`RpcSession.OneVersionNeverMisreports`).
- Over an empty program table the answer to every acceptable call indexes out of range (`RpcSession.EmptyTablePanics`).
- `Rmdir` joins its name checks with `||`, so every name reaches the system call (`Handles.RemoveRefusesIff`).
- `WriteFullRecord` is right for data that fits one fragment and panics in its second round for longer data, except by a
  wrap on data with nearly 2^32 octets of spare capacity (`Record.SecondPanicsIff`), which sends no record either
  (`Record.FramesIff`).
- The server takes a handle bound to another living path for a hash collision and ends. Without any collision it does so
  on handles that a silly rename has moved (`HandleRuns.AbortsWithoutCollisionIff`); linking a file to a `.nfs` name,
  renaming the one to the other and looking up the old name again is enough (`HandleRuns.MovedHandleAborts`).
- A handle is answered by path: once its file is replaced it serves the new one (`HandleRuns.ServesItsFileIff`,
  `HandleRuns.ReplacedFileIsServed`).

## Model

| member | source | states |
|---|---|---|
| `XdrTag.Lookup` | xdr/tag.go:56-78 | the cutting loop stops and returns the value of the first comma-separated item that is the option or option=value |
| `XdrTag.ItemsSplit` | xdr/tag.go:59-64 | the items are free of commas and joining them with commas gives the tag back |
| `XdrTag.FirstMatch` | xdr/tag.go:65-74 | the answer is that of the first matching item, whatever follows, and "" when no item matches |
| `XdrTag.UnionSkipsCaseLabels` | xdr/tag.go:67-68 | looking up "union" passes over unioncase=N and unionnotcase=N and goes on with the rest of the tag |
| `XdrTag.ParseTag` | xdr/tag.go:40-51 | the deprecated xdropaque key makes "opaque" read as false unless the tag lists that option itself, and changes no other option |
| `XdrTag.ItoaInjective` | xdr/decode.go:588-620 | comparing discriminants as decimal strings is comparing the numbers |
| `XdrTag.ItoaIsDecimal` | xdr/decode.go:608-616 | discriminants are compared in decimal notation without leading zeros |
| `XdrStructs.CaseSelects` | xdr/decode.go:596-601 | the arm unioncase=N is on the wire exactly when the discriminant is N |
| `XdrStructs.NotCaseSelects` | xdr/decode.go:588-593 | the arm unionnotcase=N is on the wire exactly when the discriminant is not N |
| `XdrArms.SelectedIff` | xdr/decode.go:588-601 | a field is skipped exactly when a discriminant is in force that differs from its unioncase or equals its unionnotcase |
| `XdrArms.DiscIs` | xdr/decode.go:608-616 | the discriminant is the decimal string of a number, as a 64-bit int, and 1 or 0 for a bool |
| `XdrStructs.UnionPointwise` | xdr/encode.go:450-552 | in a structure with one discriminant, optional fields included, fields up to it survive as they are and each later field survives or is zeroed by its own tag |
| `XdrArms.ZeroIsZero` | xdr/decode.go:588-601 | the zero value of every type has only zero numbers, false flags, empty strings and slices, and nil pointers |
| `XdrArms.DecodedArmsZero` | xdr/decode.go:516-627 | in whatever is decoded, every arm that was not on the wire is zero in that sense, at every depth |
| `XdrLaws.EncIsCanon` | xdr/encode.go:619-696 | the encoder emits the items of the value in order, zero padded, and reports no error on any schema that is well formed |
| `XdrLaws.RoundTrip` | xdr/decode.go:716-869 | for every well-formed schema and every value that fits the wire, decoding its encoding followed by any octets gives the value with unselected arms at zero and consumes exactly the encoding |
| `XdrExact.RoundTripIff` | xdr/encode.go:619-696 | a value comes back in that sense exactly when every word, count and padded length it puts on the wire fits there |
| `XdrExact.NormEncodesAlike` | xdr/encode.go:512-541 | zeroing the unselected arms of a value changes nothing on the wire |
| `XdrExact.SameEncodingIff` | xdr/encode.go:450-552 | two values that fit encode alike exactly when the wire keeps the same of both |
| `XdrExact.DiscriminantArmLength` | xdr/encode.go:512-541 | for a field that is discriminant and arm at once, encoder and decoder agree on the length exactly when its labels select it under the old discriminant as under its own value |
| `XdrExact.DiscriminantArmIff` | xdr/decode.go:588-622 | such a field labelled c, alone in a structure, comes back for the value c and for no other |
| `XdrLaws.ReEncode` | xdr/decode.go:516-627 | whatever octets decode, encoding the result gives the same number of octets, equal except that padding is zero |
| `XdrLaws.DecodesExactly` | xdr/decode.go:716-869 | the decoder answers with a value and a count if and only if that many octets represent that value |
| `XdrLaws.PrefixFree` | xdr/encode.go:450-552 | no encoding is a proper prefix of another |
| `XdrFits.CompactRoundTrip` | xdr/encode.go:619-696 | the round trip for schemas without Go int and values whose strings and slices are not within 4 of MaxInt32 |
| `XdrWire.BigEndian` | xdr/encode.go:104-150 | most significant octet first |
| `XdrWire.StringWire` | xdr/encode.go:332-372 | a string is its length, its octets and zeros up to a multiple of four |
| `XdrWire.OpaqueFalseWire` | xdr/encode.go:486-504 | with opaque=false the octets of a slice go out one word each behind their count |
| `XdrWire.StructWire` | xdr/encode.go:450-552 | a structure is the octets of its fields in order, each under the discriminant the fields before it leave |
| `XdrWire.Union3Wire` | xdr/encode.go:512-545 | a union is its discriminant and the arm labelled with it, if any |
| `XdrLimits.PaddingCheckExact` | xdr/decode.go:321-344 | the wrapping 32-bit check rejects exactly the sizes whose padded length exceeds MaxInt32 |
| `XdrErrors.ScalarOutcomes` | xdr/decode.go:123-210 | four octets are read as a number, a flag or a length, or give the overflow or enum error, exactly by what they say |
| `XdrErrors.WidthBounds` | xdr/decode.go:751-785 | the ranges of the Go integer types |
| `XdrErrors.BadTags` | xdr/decode.go:531-538 | an optional tag off a pointer or a union tag off a number or flag is an error of both sides, with what was written and read by then |
| `XdrErrors.Truncated` | xdr/decode.go:716-869 | an input cut before the last octet read fails with the read error after taking all of it, for every schema; cut behind it nothing changes |
| `XdrLimits.LimitedRefines` | xdr/decode.go:85-95 | a limited decode that succeeds gives the value and count of the unlimited one |
| `XdrLimits.LimitedSucceedsIff` | xdr/decode.go:356-408 | an unlimited success survives the limit exactly when every count in the value is within it |
| `XdrLimits.LimitedDiffers` | xdr/decode.go:461-471 | on any input, limited and unlimited outcomes are equal unless the limited one is an overflow right after a count word above the limit |
| `XdrCodec.Encoder.EncodeFixedOpaque` | xdr/encode.go:291-320 | writes the octets and their zero padding, short writes counted |
| `XdrCodec.Encoder.EncodeEach` | xdr/encode.go:381-410 | the element loop emits the elements in order; on a full writer it stops with exactly what fitted |
| `XdrCodec.Encoder.EncodeStruct` | xdr/encode.go:450-552 | the field loop with its running discriminant emits the specified octets and count, or stops with exactly what fitted |
| `XdrCodec.Encoder.EncodeField` | xdr/encode.go:462-511 | the optional flag, the field behind it, and the discriminant in force afterwards |
| `XdrCodec.Encoder.Encode` | xdr/encode.go:619-696 | the octets written, the count and the error are those of the specification for every schema and value |
| `XdrCodec.Reader.ReadFull` | xdr/decode.go:321-344 | reads exactly the octets asked for, or takes what is left and fails |
| `XdrCodec.Decoder.DecodeFixedOpaque` | xdr/decode.go:321-344 | opaque data without its padding; the count is what left the reader on success and on every error path |
| `XdrCodec.Decoder.DecodeEach` | xdr/decode.go:422-443 | the element loop ends, and its values, count and error are the specified ones |
| `XdrCodec.Decoder.DecodeStruct` | xdr/decode.go:516-627 | the field loop with its running discriminant ends, and the count is what left the reader on success and on every error path |
| `XdrCodec.Decoder.DecodeField` | xdr/decode.go:528-586 | the optional flag, the field behind it, and the discriminant in force afterwards |
| `XdrCodec.Decoder.Decode` | xdr/decode.go:716-869 | ends on any input by the remaining octets and the schema; value, count and error are those of the specification, and arms that were not on the wire are zero in the value |
| `Record.HeaderInverse` | oncrpc/record.go:29-43 | size and last-fragment flag pack into the header without loss, and every header word is some size and flag |
| `Record.HeaderIs` | oncrpc/record.go:29-43 | the flag is the top bit of the word and the size the other 31 bits |
| `Record.ReadFullRecord` | oncrpc/record.go:76-100 | the loop returns the reassembled record and leaves the octets behind it, or the specified error |
| `Record.ReassemblesFrames` | oncrpc/record.go:76-100 | however a message within the limit is split into fragments, empty ones included, the reader returns it and leaves the rest |
| `Record.FramesRead` | oncrpc/record.go:76-100 | whatever record is read was framed at the head of the input as some fragments and is within the limit |
| `Record.TruncatedRecord` | oncrpc/record.go:78-93 | a record cut anywhere is an end of file |
| `Record.LongRecordRefused` | oncrpc/record.go:88-90 | fragments that add up to more than the buffer are refused, whatever the split |
| `Record.WriteFullRecord` | oncrpc/record.go:52-74 | for all data, spare capacity and connections: the octets offered, what of them went out, the error, the returned total, and whether a slice expression panics |
| `Record.SecondPanicsIff` | oncrpc/record.go:58-65 | on data longer than one fragment the second round panics, unless the data is at most three octets longer and has capacity for the wrapped slice end |
| `Record.OneFragment` | oncrpc/record.go:52-74 | data of at most one fragment is offered as one framed record |
| `Record.FramesIff` | oncrpc/record.go:52-74 | what is offered is a record, of whatever fragments, exactly if the data fits one fragment |
| `Record.StreamRoundTrip` | oncrpc/record.go:52-100 | records written back to back are read back as the same sequence |
| `RpcTypes.MsgNorm` | oncrpc/rpctypes.go:78-117 | the wire keeps of a message the arms its type and stat fields select and nothing else |
| `RpcWire.MsgLayout` | oncrpc/rpctypes.go:17-117 | every message, call or reply, accepted or denied, is marshalled as section 9 of RFC 5531 lays it out, with its numbers |
| `RpcCodec.MsgRoundTrip` | oncrpc/rpctypes.go:78-117 | a message written by one side is read by the other as what the wire keeps of it, up to its last octet |
| `RpcCodec.ClientCodec.WriteRequest` | oncrpc/clientcodec.go:38-76 | the table loops find the last program with the method and its procedure number; call and argument are offered as WriteFullRecord does, or nothing is sent and the error returned |
| `RpcWire.ClientCallOctets` | oncrpc/clientcodec.go:38-62 | the words of a call: version 2, the program and version of the last entry that has the method, its first procedure of that name, and empty credentials |
| `RpcCodec.NilPayload` | oncrpc/clientcodec.go:67-71 | a nil parameter, modelled as the empty structure, adds nothing to the payload and is read without taking an octet |
| `RpcCodec.ServerCodec.ReadRequestHeader` | oncrpc/servercodec.go:41-98 | the method, sequence number, program index and argument reader of the call read, or its error with the index unchanged |
| `RpcWire.CallRead` | oncrpc/servercodec.go:41-98 | for every framed message, any credentials, payload and tail: the name, index and sequence number read, the reader at the argument, or the error, each exactly when |
| `RpcWire.ProcedureCalled` | oncrpc/servercodec.go:71-97 | a call with credentials of flavour 0 or 1 for procedure j of entry i gets that entry's j-th method |
| `RpcCodec.ServerCodec.ReadRequestBody` | oncrpc/servercodec.go:100-109 | an argument that does not decode closes the connection and is not reported to the caller |
| `RpcCodec.ServerCodec.WriteResponse` | oncrpc/servercodec.go:111-163 | the reply for each reserved name and the result are offered as WriteFullRecord does; it panics exactly where a table index or that write does, and closes the connection exactly on a marshalling or write error |
| `RpcWire.ServerReplyOctets` | oncrpc/servercodec.go:111-147 | the words of the reply for each name: accepted, an empty verifier, the stat and its bounds |
| `RpcCodec.ClientCodec.ReadResponseHeader` | oncrpc/clientcodec.go:117-132 | the sequence number, the error class and the reader left at the result |
| `RpcWire.ReplyRead` | oncrpc/clientcodec.go:78-132 | for every framed message: success exactly for accepted replies of stat 0, and for every other one the error its stats name with the bounds it carries |
| `RpcCodec.ClientCodec.ReadResponseBody` | oncrpc/clientcodec.go:134-141 | the result decoded from the reader left by the header, or the decoding error |
| `RpcCodec.OutgoingBytes` | oncrpc/clientcodec.go:61-72 | marshalling a message and a payload that fits succeeds and gives the octets of the one followed by those of the other |
| `RpcExchange.Exchange` | oncrpc/clientcodec.go:38-141 | a whole call on the objects of both sides: the server sees the method and argument the client passed, the client sees its own sequence number, success and the server's result |
| `RpcExchange.CallsInARow` | oncrpc/servercodec.go:41-98 | calls sent in a row on one connection are dispatched in order, each with its own sequence number and argument, and the server is left at what follows |
| `RpcExchange.AnsweredAsDeservedIff` | oncrpc/servercodec.go:60-163 | over a nonempty table without reserved procedure names, a call answered at once tells the client the rejection, error or success it deserves exactly when its RPC version is 2 and its credentials are of a known kind |
| `RpcCodec.CallDispatched` | oncrpc/servercodec.go:41-98 | with distinct programs, the server dispatches the call as the method the client named with its sequence number, and its reader is left exactly at the argument, which decodes to what was passed |
| `RpcCodec.ReplyReceived` | oncrpc/clientcodec.go:117-141 | the client recovers the transaction id, the error class with its low and high values, and the result |
| `RpcCodec.StatusFaithfulIff` | oncrpc/servercodec.go:111-163 | the status arrives as meant exactly when the reply is not one of the two rejections |
| `RpcCodec.VersionMismatchReported` | oncrpc/servercodec.go:80-87 | a call for the wrong version, answered at once, tells the client the version that is served |
| `RpcSession.HeaderIsStep` | oncrpc/servercodec.go:41-98 | reading the header of a message off the connection is the step of its event: a call becomes pending under the name and index read, any other message is refused and changes nothing |
| `RpcSession.HeadersAreRun` | oncrpc/servercodec.go:41-98 | calls read off one connection in a row leave the session that the run of their events leaves |
| `RpcSession.RespondRemovesOne` | oncrpc/servercodec.go:111-163 | a response takes its own call off the pending ones and leaves the index alone |
| `RpcSession.ResponsesNeverPanic` | oncrpc/servercodec.go:126-133 | in every interleaving of header reads and responses over a nonempty table no response indexes out of range |
| `RpcSession.EmptyTablePanics` | oncrpc/servercodec.go:126-129 | over an empty table the answer to any acceptable call, at any point of a connection, indexes out of range |
| `RpcSession.SerialReportsOwnVersion` | oncrpc/servercodec.go:130-133 | in serial use the version reported is that of the program asked for |
| `RpcSession.OverlapReportsIff` | oncrpc/servercodec.go:68-98 | with later events in between, the right version is reported exactly when the program found last has the same version |
| `RpcSession.OverlapMisreports` | oncrpc/servercodec.go:68-98 | a concrete overlap in which the wrong version is reported |
| `RpcSession.OneVersionNeverMisreports` | oncrpc/servercodec.go:130-133 | a table whose programs all have one version reports that version whatever overlaps |
| `NfsTypes.ReplySize` | nfs3/nfstypdef.go:21-26 | the encoder emits exactly 104 octets, and 24 plus the rounded name length per entry, for a READDIR reply |
| `NfsTypes.ChainSize` | nfs3/nfstypdef.go:647-656 | each node of the entry list costs what the constants say, and the end of the list 4 octets |
| `NfsTypes.ReplyRoundTrip` | nfs3/nfstypdef.go:647-661 | the client decodes the very READDIR reply the server built |
| `NfsWire.ResokLayout` | nfs3/nfstypdef.go:140-158 | every READDIR reply goes out as RFC 1813 declares it: thirteen attributes in order, a zero verifier, each entry behind a 1, a 0, and the Eof flag |
| `NfsResults.ResultRoundTrip` | nfs3/nfstypdef.go:234-236 | a client decodes status 0 with the success arm, or another status with the failure arm, and zero values in the arm not sent |
| `NfsResults.ResultWire` | nfs3/nfstypdef.go:234-236 | a result is its status and the success arm for 0, the failure arm for any other |
| `NfsResults.PageReplied` | nfs3/nfstypdef.go:665-669 | for every page the server builds, the client decodes status 0 and that very page |
| `NfsReplies.PageDeliveredIff` | nfs3/nfstypdef.go:665-669 | through result union, RPC reply and record: a page whose record is within the reader's limit reaches the client as success with its sequence number and decodes to itself, a longer one is refused, and listing and count decide which: the first sum above count and limit must end the page |
| `NfsReplies.SmallCountDelivered` | oncrpc/record.go:87-89 | with names of at most 255 octets, counts up to 1 MiB less 28 are always delivered |
| `NfsReplies.LargeCountRefused` | oncrpc/record.go:87-89 | with a count of 2 MiB a directory of 4096 names is sent in a record that the reader refuses |
| `ReadDir.CookieInverse` | nfs3/allunix.go:434-461 | entry count and position are recovered from a cookie |
| `ReadDir.BuildList` | nfs3/allunix.go:441-471 | the tail-pointer loop leaves an acyclic list of fresh nodes that holds exactly the page's slice of the listing, each node with the name and inode of its position, and the Eof flag |
| `ReadDir.FillPage` | nfs3/allunix.go:434-472 | the reply's list and flag are the specified page, each node has the name and inode of its position, and the encoder's walk over it sees one entry per node |
| `ReadDir.PageDescribes` | nfs3/allunix.go:455-462 | entry k of a page has the name and inode found k places after the cookie, the export's parent shown as the export itself, and a cookie with the entry count and the next position |
| `ReadDir.WalkIsChain` | xdr/encode.go:465-485 | following the next pointers ends and yields the nodes in order, each once |
| `ReadDir.PageShape` | nfs3/allunix.go:441-471 | a page is a contiguous run from the cookie's position, and says Eof exactly when it reaches the end |
| `ReadDir.PageBudget` | nfs3/allunix.go:444-448 | the running size is the true size modulo 2^32: within the count for the page, beyond it with one more entry |
| `ReadDir.PageIsLongest` | nfs3/allunix.go:441-471 | without wrap-around a nonempty page encodes to at most the count and the next entry would exceed it |
| `ReadDir.ReplyFitsIff` | nfs3/allunix.go:444-448 | a reply is within the count exactly when the count is at least 104 and the first true sum above the count, if any, stays above it in 32 bits |
| `ReadDir.ReplyWithinIff` | nfs3/allunix.go:444-448 | the same for any limit below 2^32 beside the count |
| `ReadDir.LargestCountStopsNowhere` | nfs3/allunix.go:446-449 | at count 2^32 - 1 no size check ever stops the page: it is all the rest of the listing |
| `ReadDir.LargeDirectoryExceedsCount` | nfs3/allunix.go:444-448 | at that count, a directory of 16 million different names of 252 octets is sent as one page of more than 2^32 octets |
| `ReadDir.ShortNamesNoWrap` | nfs3/allunix.go:444-448 | names of at most 255 octets never wrap for counts below 2^32 - 384 |
| `ReadDirRuns.PageProgress` | nfs3/allunix.go:434-461 | the low half of the last cookie grows by the length of the page, and the high half is the current entry count |
| `ReadDirRuns.AdmittedPage` | nfs3/allunix.go:444-449 | a page with neither an entry nor Eof, on which a client would stick, is sent exactly when the count has no room for the next entry |
| `ReadDirRuns.RunReachesEof` | nfs3/allunix.go:434-472 | in a changing directory of at most N entries, with counts that admit the next entry, every run ends in Eof within max(1,N) pages, on its last page only |
| `ReadDirRuns.WholeRun` | nfs3/allunix.go:434-472 | an unchanged listing of n entries is delivered exactly once and in order, names and inodes with that one replacement, within max(1,n) calls, Eof on the final page only |
| `ReadDirRuns.AmpleCountsAdmit` | nfs3/allunix.go:444-448 | counts that no single entry outgrows admit the next entry at every step of every run |
| `ReadDirRuns.PageOnTheWire` | nfs3/allunix.go:441-472 | the encoder emits exactly the octets the loop budgeted, at most the count, and the client decodes the same page |
| `Handles.StepBindings` | nfs3/allunix.go:325-343 | after any step a handle has kept its path, is new and the hash of what it names, was reset from a path that is gone, or followed a silly rename |
| `Handles.RebindingIsJustified` | nfs3/allunix.go:1893-1910 | a binding changes from p to q only when p is gone or by a silly rename of p to q |
| `Handles.RemoveRefusesIff` | nfs3/allunix.go:1619-1621 | with a live directory and write access a name is refused exactly by Remove and when it is not strict; otherwise the system call happens |
| `Handles.StepAnswered` | nfs3/allunix.go:310-374 | for every request: each status exactly under its written-out condition, the handle given out and when, the files afterwards, and which handles leave and enter the table |
| `HandleRuns.KeysAreHashes` | nfs3/allunix.go:57-67 | over every run each handle is the hash of the name, inode and filesystem it was issued for, and still names that path unless a silly rename moved it |
| `HandleRuns.HistoryStep` | nfs3/allunix.go:819-836 | a handle that keeps its path or follows a silly rename keeps what it was issued for and counts as moved from the change on; any other was issued in that step for the path it names |
| `HandleRuns.FreshServer` | nfs3/allunix.go:47-55 | so it is from an empty table on |
| `HandleRuns.PathsStayUnderExport` | nfs3/allunix.go:317-335 | over every run every stored path is the export path followed by "/" and nonempty slash-free components |
| `HandleRuns.ReadOnlyRun` | nfs3/allunix.go:1140-1145 | with write access off no run of requests changes the filesystem |
| `HandleRuns.SillyRenameRedirects` | nfs3/allunix.go:812-842 | a handle issued for the old name and still bound to it names the new path, with the same inode, after a silly rename |
| `HandleRuns.RedirectsExactly` | nfs3/allunix.go:819-836 | a silly rename moves a handle of the old name exactly when it was made from the inode that the new name has |
| `HandleRuns.SillyRenameKeepsIdentity` | nfs3/allunix.go:812-842 | through every later run that does not abort, the handle resolves to the same inode and filesystem as long as the new path keeps it; later silly renames of that path are included unless the handle also hashes from it and is moved on |
| `HandleRuns.StepKeeps` | nfs3/allunix.go:134-145 | no step touches a handle whose path exists before and after, unless it silly-renames that path to a name whose inode the handle was made from, or unmounts that handle |
| `HandleRuns.IssuedResolves` | nfs3/allunix.go:310-343 | an issued handle names the path asked for with its inode, no other binding changes, and a second Lookup gives the same handle and changes nothing |
| `HandleRuns.AbortsIff` | nfs3/allunix.go:329-342 | a step aborts exactly when the handle it computes, for the path asked for and what lstat says of it, is bound to another path that still exists; a silly rename does not ask whether it exists |
| `HandleRuns.AbortIsCollisionOrMove` | nfs3/allunix.go:819-836 | a run that aborts has reached a request whose computed handle was issued for another path with the same hash, or was moved by a silly rename |
| `HandleRuns.AbortsWithoutCollisionIff` | nfs3/allunix.go:333-341 | where the computed handle collides with nothing, a step aborts exactly when a silly rename has moved that handle to a path that still exists |
| `HandleRuns.InjectiveNeverCollides` | nfs3/allunix.go:57-67 | that is so on every run for a hash without collisions |
| `HandleRuns.MovedHandleAborts` | nfs3/allunix.go:812-842 | link, silly rename onto the link and lookup of the old name end the server, for any hash that tells the file from the root |
| `HandleRuns.ServesItsFileIff` | nfs3/allunix.go:193-206 | over every run a handle not moved is answered exactly while its path exists, and for the file it was issued for exactly while the path has that inode and filesystem |
| `HandleRuns.ReplacedFileIsServed` | nfs3/allunix.go:193-206 | a run in which a handle answers for the file that was renamed over its own |
| `Backend.Server.Mount` | nfs3/allunix.go:113-132 | the whole new table, status and handle of a mount, which is the hash of the export path |
| `Backend.Server.UnMount` | nfs3/allunix.go:134-145 | only the export directory's handle goes |
| `Backend.Server.GetFileAttr` | nfs3/allunix.go:193-206 | a handle whose path is gone is dropped, nothing else changes |
| `Backend.Server.ListDir` | nfs3/allunix.go:410-504 | ReadDir drops the handle of a directory that cannot be stat'ed and leaves the table alone otherwise |
| `Backend.Server.IssueHandle` | nfs3/allunix.go:329-342 | a new handle is bound, a stale one reset, and a live collision aborts |
| `Backend.Server.Lookup` | nfs3/allunix.go:310-374 | table, status and handle are those of the specified step on every branch; OK exactly when a handle is issued, the directory and child exist and the name is plain; STALE, ACCES and errors each exactly when |
| `Backend.Server.MakeNode` | nfs3/allunix.go:604-727 | the same for Mkdir, Create and SymLink |
| `Backend.Server.ModifyFile` | nfs3/allunix.go:1127-1234 | the same for Setattr and Write |
| `Backend.Server.RemoveNode` | nfs3/allunix.go:1509-1576 | the same for Remove and Rmdir |
| `Backend.Server.LinkNode` | nfs3/allunix.go:1694-1841 | the same for Link with its two handles |
| `Backend.Server.RenameNode` | nfs3/allunix.go:774-969 | the same for Rename, silly renames included |
| `Backend.Server.Serve` | nfs3/allunix.go:30-55 | requests served one after the other do what the specified run does and the server's history is that run's; from the empty table on every handle is the hash of what that history says it was issued for and names it unless moved, every path is under the export, and a read-only export stays as others left it |

## Left out

- Go reflection, settable checks and error texts: schemas and error codes stand for them.
- XDR maps, interfaces, `time.Time` and floating-point values.
- Pointers without the `optional` tag (`Entryplus3`, the mount lists): such recursion is not a well-formed schema.
- Decoding into a target that already holds data: a longer slice in the target keeps its length in Go; targets here are fresh.
- `XdrLaws.RoundTrip` and its kin: a field that is discriminant and arm at once is excluded, because the two sides treat it differently.
- `Record.ReadFullRecord`: the buffer keeps the capacity it was made with; Go may grow it when a record comes near the limit.
- `RpcCodec.ClientCodec.WriteRequest` and `RpcCodec.ServerCodec.WriteResponse`: marshalling into the growing buffer is the encoder's function, not a bounded `Writer`; the buffer's spare capacity is a parameter.
- `RpcExchange.Exchange`: one call on an idle connection with room for both records; `RpcSession` covers overlapping calls.
- `RpcCodec.ReplyReceived`: states what the client sees, which for the two rejections is success.
- `ReadDir.PageIsLongest`: assumes no wrap of the running size; `ReadDir.ReplyFitsIff` is the general statement.
- Directories of 2^32 entries or more, whose cookies overlap; the listing and the outcome of reading it are inputs.
- The internals of FNV-1a: the hash is a parameter, and nothing is assumed of it.
- Errno tables: every failed system call has one status here; a system call that changes files may leave any filesystem behind.
- Reply attributes, data of READ and WRITE, and the attributes of a failed Setattr.
- Read, ReadLink, Commit, Access, FSINFO, FSSTAT, PATHCONF and READDIRPLUS, which use the handle table as GetFileAttr does.
- Concurrency of requests on the handle table: the mutex covers single map accesses, each request is one step here.
- Resolved paths: stored paths may hold ".." components below the root, so only their form is stated.
- `main.go`, the portmapper client and `nfs3/nfsprocdef.go`: flags, sockets and forwarding.

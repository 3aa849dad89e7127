/** nfs3/allunix.go, ReadDir: paging through a directory, section 3.3.16 of RFC 1813. */
module ReadDir {
  import opened Bytes
  import opened Xdr
  import opened NfsTypes

  /** An entry of the directory as the operating system lists it, "." and ".." included. */
  datatype DirEntry = DirEntry(name: seq<byte>, ino: int)

  /** What one request finds: the listing, the client's count, whether this is the exported directory (whose parent
      must not show) and the inode of ".". */
  datatype Request = Request(listing: seq<DirEntry>, count: int, exported: bool, dotIno: int)

  datatype Page = Page(entries: seq<WireEntry>, eof: bool)

  const DOTDOT: seq<byte> := [46, 46]

  /** Directories have fewer than 2^32 entries and inodes are uint64. */
  predicate RequestOk(r: Request) {
    && |r.listing| < TWO_32 && 0 <= r.count < TWO_32 && 0 <= r.dotIno < TWO_64
    && forall i :: 0 <= i < |r.listing| ==> 0 <= r.listing[i].ino < TWO_64
  }

  // ---------------------------------------------------------------- cookies

  /** (dirEntryCount << 32) | (i + 1): the low half is below 2^32, so the halves do not overlap. */
  function MakeCookie(dirEntryCount: int, i: int): (c: int)
    requires 0 <= i < dirEntryCount < TWO_32
    ensures 0 <= c < TWO_64
  {
    dirEntryCount * TWO_32 + (i + 1)
  }

  /** cookie & 0xFFFFFFFF */
  function Low(cookie: int): (i: int)
    requires 0 <= cookie
    ensures 0 <= i < TWO_32
  {
    cookie % TWO_32
  }

  /** cookie >> 32 */
  function High(cookie: int): int
    requires 0 <= cookie
  {
    cookie / TWO_32
  }

  lemma CookieInverse(dirEntryCount: int, i: int)
    requires 0 <= i < dirEntryCount < TWO_32
    ensures Low(MakeCookie(dirEntryCount, i)) == i + 1
    ensures High(MakeCookie(dirEntryCount, i)) == dirEntryCount
  {
  }

  // ---------------------------------------------------------------- one page

  /** uint32(ENTRY3SIZE + ((len+3)/4)*4) */
  function Overhead(e: DirEntry): int { Uint32(ENTRY3SIZE + (|e.name| + 3) / 4 * 4) }

  function EntryAt(r: Request, i: nat): (e: WireEntry)
    requires RequestOk(r) && i < |r.listing|
    ensures EntryOk(e) && e.name == r.listing[i].name
  {
    var d := r.listing[i];
    WireEntry(if r.exported && d.name == DOTDOT then r.dotIno else d.ino, d.name, MakeCookie(|r.listing|, i))
  }

  /** The entries from index i on that fit, with `size` octets spent so far; the sum is kept in 32 bits. */
  function PageFrom(r: Request, i: nat, size: int): Page
    requires RequestOk(r)
    decreases |r.listing| - i
  {
    if i >= |r.listing| then Page([], true)
    else
      var size' := Uint32(size + Overhead(r.listing[i]));
      if size' > r.count then Page([], false)
      else
        var more := PageFrom(r, i + 1, size');
        Page([EntryAt(r, i)] + more.entries, more.eof)
  }

  function PageAt(r: Request, cookie: int): Page
    requires RequestOk(r) && 0 <= cookie
  {
    PageFrom(r, Low(cookie), READDIRRESOKSIZE)
  }

  // ---------------------------------------------------------------- the list built in place

  class Entry3 {
    var fileid: int
    var name: seq<byte>
    var cookie: int
    var nextentry: Entry3?

    constructor ()
      ensures nextentry == null
    {
      fileid, name, cookie, nextentry := 0, [], 0, null;
    }
  }

  class Dirlist3 {
    var entries: Entry3?
    var eof: bool

    constructor ()
      ensures entries == null && !eof
    {
      entries, eof := null, false;
    }
  }

  ghost predicate Linked(nodes: seq<Entry3>)
    reads nodes
  {
    && (forall k {:trigger nodes[k].nextentry} :: 0 <= k < |nodes| - 1 ==> nodes[k].nextentry == nodes[k + 1])
    && (nodes != [] ==> nodes[|nodes| - 1].nextentry == null)
  }

  /** The nodes hang off p one after the other, all different, and the last one ends the list. */
  ghost predicate Chain(p: Entry3?, nodes: seq<Entry3>)
    reads nodes
  {
    && p == (if nodes == [] then null else nodes[0])
    && Linked(nodes)
    && (forall j, k :: 0 <= j < k < |nodes| ==> nodes[j] != nodes[k])
  }

  ghost function WireOf(n: Entry3): WireEntry
    reads n
  {
    WireEntry(n.fileid, n.name, n.cookie)
  }

  ghost function WireEntries(nodes: seq<Entry3>): (es: seq<WireEntry>)
    reads nodes
    ensures |es| == |nodes| && forall k :: 0 <= k < |nodes| ==> es[k] == WireOf(nodes[k])
  {
    seq(|nodes|, k requires 0 <= k < |nodes| reads nodes => WireOf(nodes[k]))
  }

  /** What the encoder's walk over the next pointers sees. */
  ghost function HeapValue(p: Entry3?, nodes: seq<Entry3>): Value
    requires Chain(p, nodes)
    reads nodes
    decreases |nodes|
  {
    if p == null then VNil
    else
      ChainTail(p, nodes);
      VPtr(EntryValue(WireOf(p), HeapValue(p.nextentry, nodes[1..])))
  }

  lemma ChainTail(p: Entry3?, nodes: seq<Entry3>)
    requires Chain(p, nodes) && p != null
    ensures nodes != [] && p == nodes[0] && Chain(p.nextentry, nodes[1..])
  {
    var rest := nodes[1..];
    assert nodes[0].nextentry == if rest == [] then null else rest[0];
    forall k | 0 <= k < |rest| - 1 ensures rest[k].nextentry == rest[k + 1] {
      assert rest[k] == nodes[k + 1] && nodes[k + 1].nextentry == nodes[k + 2];
    }
  }

  /** The walk ends and yields one entry per node, in order. */
  lemma {:induction false} WalkIsChain(p: Entry3?, nodes: seq<Entry3>)
    requires Chain(p, nodes)
    ensures HeapValue(p, nodes) == ChainValue(WireEntries(nodes))
    decreases |nodes|
  {
    if p != null {
      ChainTail(p, nodes);
      WalkIsChain(p.nextentry, nodes[1..]);
      assert WireEntries(nodes)[1..] == WireEntries(nodes[1..]);
    }
  }

  /** k consecutive entries of the listing. */
  function Slice(r: Request, start: nat, k: nat): (es: seq<WireEntry>)
    requires RequestOk(r) && (k == 0 || start + k <= |r.listing|)
    ensures |es| == k && forall j :: 0 <= j < k ==> es[j] == EntryAt(r, start + j)
  {
    seq(k, j requires 0 <= j < k => EntryAt(r, start + j))
  }

  /** With k entries taken and `size` octets spent, the page is those entries and what is still to come. */
  ghost predicate Progress(r: Request, start: nat, k: nat, size: int)
    requires RequestOk(r) && (k == 0 || start + k <= |r.listing|)
  {
    var rest := PageFrom(r, start + k, size);
    PageFrom(r, start, READDIRRESOKSIZE) == Page(Slice(r, start, k) + rest.entries, rest.eof)
  }

  lemma ProgressStart(r: Request, start: nat)
    requires RequestOk(r)
    ensures Progress(r, start, 0, READDIRRESOKSIZE)
  {
    assert Slice(r, start, 0) + PageFrom(r, start, READDIRRESOKSIZE).entries == PageFrom(r, start, READDIRRESOKSIZE).entries;
  }

  lemma ProgressStep(r: Request, start: nat, k: nat, size: int)
    requires RequestOk(r) && start + k < |r.listing| && Progress(r, start, k, size)
    ensures var size' := Uint32(size + Overhead(r.listing[start + k]));
            if size' > r.count then PageFrom(r, start, READDIRRESOKSIZE) == Page(Slice(r, start, k), false)
            else Progress(r, start, k + 1, size')
  {
    var size' := Uint32(size + Overhead(r.listing[start + k]));
    if size' > r.count {
      assert Slice(r, start, k) + [] == Slice(r, start, k);
    } else {
      var more := PageFrom(r, start + k + 1, size').entries;
      assert Slice(r, start, k) + ([EntryAt(r, start + k)] + more) == Slice(r, start, k + 1) + more;
    }
  }

  lemma ProgressEnd(r: Request, start: nat, k: nat, size: int)
    requires RequestOk(r) && (k == 0 || start + k <= |r.listing|) && start + k >= |r.listing| && Progress(r, start, k, size)
    ensures PageFrom(r, start, READDIRRESOKSIZE) == Page(Slice(r, start, k), true)
  {
    assert Slice(r, start, k) + [] == Slice(r, start, k);
  }

  method NewEntry(r: Request, i: nat) returns (entryP: Entry3)
    requires RequestOk(r) && i < |r.listing|
    ensures fresh(entryP) && WireOf(entryP) == EntryAt(r, i) && entryP.nextentry == null
    ensures Describes(r, i, WireOf(entryP))
  {
    EntryDescribes(r, i);
    entryP := new Entry3();
    entryP.name := r.listing[i].name;
    entryP.fileid := r.listing[i].ino;
    if r.exported && entryP.name == DOTDOT {
      entryP.fileid := r.dotIno;
    }
    entryP.cookie := MakeCookie(|r.listing|, i);
  }

  /** The nodes hold consecutive entries of the listing. */
  ghost predicate Holds(r: Request, start: nat, nodes: seq<Entry3>)
    requires RequestOk(r)
    reads nodes
  {
    && (nodes == [] || start + |nodes| <= |r.listing|)
    && forall j :: 0 <= j < |nodes| ==> WireOf(nodes[j]) == EntryAt(r, start + j)
  }

  /** Append a node: at the head pointer of an empty list, else at the tail. */
  method Link(reply: Dirlist3, prevEntryP: Entry3?, entryP: Entry3, first: bool, ghost nodes: seq<Entry3>,
              ghost r: Request, ghost start: nat)
    requires Chain(reply.entries, nodes) && entryP !in nodes && entryP.nextentry == null
    requires prevEntryP == (if nodes == [] then null else nodes[|nodes| - 1]) && (first <==> nodes == [])
    requires RequestOk(r) && Holds(r, start, nodes) && start + |nodes| < |r.listing|
    requires WireOf(entryP) == EntryAt(r, start + |nodes|)
    modifies reply`entries, nodes`nextentry
    ensures Chain(reply.entries, nodes + [entryP]) && Holds(r, start, nodes + [entryP])
  {
    if first {
      reply.entries := entryP;
    } else {
      prevEntryP.nextentry := entryP;
    }
    ghost var all := nodes + [entryP];
    forall k | 0 <= k < |all| - 1 ensures all[k].nextentry == all[k + 1] {
      if k < |nodes| - 1 {
        assert nodes[k] != nodes[|nodes| - 1] && old(nodes[k].nextentry) == nodes[k + 1];
      }
    }
    forall k | 0 <= k < |all| ensures WireOf(all[k]) == EntryAt(r, start + k) {
      assert k < |nodes| ==> WireOf(nodes[k]) == old(WireOf(nodes[k]));
    }
  }

  lemma Finished(p: Entry3?, nodes: seq<Entry3>, r: Request, start: nat)
    requires RequestOk(r) && Chain(p, nodes) && Holds(r, start, nodes)
    ensures WireEntries(nodes) == Slice(r, start, |nodes|)
    ensures HeapValue(p, nodes) == ChainValue(Slice(r, start, |nodes|))
  {
    assert WireEntries(nodes) == Slice(r, start, |nodes|);
    WalkIsChain(p, nodes);
  }

  lemma HoldsDescribes(r: Request, start: nat, nodes: seq<Entry3>)
    requires RequestOk(r) && Holds(r, start, nodes)
    ensures forall k :: 0 <= k < |nodes| ==> start + k < |r.listing| && Describes(r, start + k, WireOf(nodes[k]))
  {
    forall k | 0 <= k < |nodes| ensures start + k < |r.listing| && Describes(r, start + k, WireOf(nodes[k])) {
      EntryDescribes(r, start + k);
    }
  }

  /** The loop of ReadDir: append at the tail pointer until the byte budget or the listing is exhausted. */
  method BuildList(r: Request, cookie: int, reply: Dirlist3) returns (isEof: bool, ghost nodes: seq<Entry3>)
    requires RequestOk(r) && 0 <= cookie < TWO_64
    requires reply.entries == null
    modifies reply`entries
    ensures Chain(reply.entries, nodes) && forall k :: 0 <= k < |nodes| ==> fresh(nodes[k])
    ensures Holds(r, Low(cookie), nodes)
    ensures PageAt(r, cookie) == Page(Slice(r, Low(cookie), |nodes|), isEof)
    ensures forall k :: 0 <= k < |nodes| ==> Low(cookie) + k < |r.listing| && Describes(r, Low(cookie) + k, WireOf(nodes[k]))
  {
    hide PageFrom, Progress, Slice, Describes, EntryAt, Low, High;
    var dirEntryCount := |r.listing|;
    var entrySize := READDIRRESOKSIZE;
    var dirEntryCountSent := Low(cookie);
    isEof := true;
    var prevEntryP: Entry3? := null;
    nodes := [];
    ProgressStart(r, dirEntryCountSent);
    var i := dirEntryCountSent;
    while i < dirEntryCount
      invariant isEof && i == dirEntryCountSent + |nodes|
      invariant Chain(reply.entries, nodes) && Holds(r, dirEntryCountSent, nodes)
      invariant prevEntryP == if nodes == [] then null else nodes[|nodes| - 1]
      invariant forall j :: 0 <= j < |nodes| ==> fresh(nodes[j])
      invariant Progress(r, dirEntryCountSent, |nodes|, entrySize)
    {
      ghost var k := |nodes|;
      ProgressStep(r, dirEntryCountSent, k, entrySize);
      var entryOverhead := Uint32(ENTRY3SIZE + (|r.listing[i].name| + 3) / 4 * 4);
      assert entryOverhead == Overhead(r.listing[dirEntryCountSent + k]);
      entrySize := Uint32(entrySize + entryOverhead);
      if entrySize > r.count {
        HoldsDescribes(r, dirEntryCountSent, nodes);
        return false, nodes;
      }
      assert Progress(r, dirEntryCountSent, k + 1, entrySize);
      var entryP := NewEntry(r, i);
      Link(reply, prevEntryP, entryP, i == dirEntryCountSent, nodes, r, dirEntryCountSent);
      prevEntryP := entryP;
      nodes := nodes + [entryP];
      assert |nodes| == k + 1;
      i := i + 1;
    }
    ProgressEnd(r, dirEntryCountSent, |nodes|, entrySize);
    HoldsDescribes(r, dirEntryCountSent, nodes);
  }

  method FillPage(r: Request, cookie: int, reply: Dirlist3) returns (ghost nodes: seq<Entry3>)
    requires RequestOk(r) && 0 <= cookie < TWO_64
    requires reply.entries == null
    modifies reply
    ensures Chain(reply.entries, nodes) && forall k :: 0 <= k < |nodes| ==> fresh(nodes[k])
    ensures Page(WireEntries(nodes), reply.eof) == PageAt(r, cookie)
    ensures HeapValue(reply.entries, nodes) == ChainValue(PageAt(r, cookie).entries)
    ensures forall k :: 0 <= k < |nodes| ==> Low(cookie) + k < |r.listing| && Describes(r, Low(cookie) + k, WireOf(nodes[k]))
  {
    var isEof;
    isEof, nodes := BuildList(r, cookie, reply);
    reply.eof := isEof;
    Finished(reply.entries, nodes, r, Low(cookie));
  }

  // ---------------------------------------------------------------- what a page holds

  lemma EntriesSizeAppend(a: seq<WireEntry>, e: WireEntry)
    ensures EntriesSize(a + [e]) == EntriesSize(a) + ENTRY3SIZE + RoundUp4(|e.name|)
  {
    if a == [] {
      assert a + [e] == [e] && [e][1..] == [];
    } else {
      EntriesSizeAppend(a[1..], e);
      assert (a + [e])[1..] == a[1..] + [e];
    }
  }

  lemma OverheadIs(e: DirEntry)
    ensures Overhead(e) == Uint32(ENTRY3SIZE + RoundUp4(|e.name|))
  {
  }

  /** A page is a contiguous run of the listing; it claims the end exactly when it reaches it. */
  lemma {:induction false} PageShape(r: Request, i: nat, size: int)
    requires RequestOk(r)
    ensures var p := PageFrom(r, i, size);
            && (p.entries != [] ==> i + |p.entries| <= |r.listing|)
            && (forall k :: 0 <= k < |p.entries| ==> p.entries[k] == EntryAt(r, i + k))
            && (p.eof <==> i + |p.entries| >= |r.listing|)
    decreases |r.listing| - i
  {
    if i < |r.listing| {
      PageShape(r, i + 1, Uint32(size + Overhead(r.listing[i])));
    }
  }

  lemma WrapAdd(a: int, b: int)
    ensures Uint32(Uint32(a) + Uint32(b)) == Uint32(a + b)
  {
    var q := a / TWO_32 + b / TWO_32;
    var r := a % TWO_32 + b % TWO_32;
    assert a + b == TWO_32 * q + r;
    if r < TWO_32 {
      ModUnique32(r, 0, r);
      ModUnique32(a + b, q, r);
    } else {
      ModUnique32(r, 1, r - TWO_32);
      ModUnique32(a + b, q + 1, r - TWO_32);
    }
  }

  /** True sizes after the entries of a page, and after one more. */
  ghost predicate WithinBudget(r: Request, i: nat, spent: nat, p: Page)
    requires RequestOk(r)
  {
    && (p.entries != [] ==> Uint32(spent + EntriesSize(p.entries)) <= r.count)
    && (!p.eof ==>
          && i + |p.entries| < |r.listing|
          && Uint32(spent + EntriesSize(p.entries + [EntryAt(r, i + |p.entries|)])) > r.count)
  }

  lemma BudgetCons(r: Request, i: nat, spent: nat, more: Page)
    requires RequestOk(r) && i < |r.listing|
    requires var cost := ENTRY3SIZE + RoundUp4(|r.listing[i].name|);
             Uint32(spent + cost) <= r.count && WithinBudget(r, i + 1, spent + cost, more)
    ensures WithinBudget(r, i, spent, Page([EntryAt(r, i)] + more.entries, more.eof))
  {
    hide PageFrom, RoundUp4, EntryAt;
    var all := [EntryAt(r, i)] + more.entries;
    assert all[1..] == more.entries;
    if !more.eof {
      var next := EntryAt(r, i + |all|);
      EntriesSizeAppend(all, next);
      EntriesSizeAppend(more.entries, next);
    }
  }

  lemma BudgetStop(r: Request, i: nat, spent: nat, eof: bool)
    requires RequestOk(r) && (eof <==> i >= |r.listing|)
    requires !eof ==> Uint32(spent + ENTRY3SIZE + RoundUp4(|r.listing[i].name|)) > r.count
    ensures WithinBudget(r, i, spent, Page([], eof))
  {
    if !eof {
      EntriesSizeAppend([], EntryAt(r, i));
    }
  }

  /** The running size is the true size of what was accepted, modulo 2^32: it is within the count for the page, and
      beyond it for the page with the next entry. */
  lemma {:induction false} PageBudget(r: Request, i: nat, spent: nat)
    requires RequestOk(r)
    ensures WithinBudget(r, i, spent, PageFrom(r, i, Uint32(spent)))
    decreases |r.listing| - i
  {
    hide WithinBudget, EntriesSize, EntryAt, RoundUp4;
    if i >= |r.listing| {
      BudgetStop(r, i, spent, true);
    } else {
      var cost := ENTRY3SIZE + RoundUp4(|r.listing[i].name|);
      OverheadIs(r.listing[i]);
      WrapAdd(spent, cost);
      if Uint32(spent + cost) > r.count {
        BudgetStop(r, i, spent, false);
      } else {
        PageBudget(r, i + 1, spent + cost);
        BudgetCons(r, i, spent, PageFrom(r, i + 1, Uint32(spent + cost)));
      }
    }
  }

  /** No entry can push the 32-bit running size past its end: a bound on names and count that a caller can check. */
  predicate NoWrap(r: Request) {
    forall i :: 0 <= i < |r.listing| ==>
      r.count + READDIRRESOKSIZE + ENTRY3SIZE + RoundUp4(|r.listing[i].name|) < TWO_32
  }

  /** Unix names of at most 255 octets never wrap unless the count is within 384 of 2^32. */
  lemma ShortNamesNoWrap(r: Request)
    requires r.count < TWO_32 - 384 && forall i :: 0 <= i < |r.listing| ==> |r.listing[i].name| <= 255
    ensures NoWrap(r)
  {
  }

  /** The octets of a reply that carries these entries. */
  function ReplyBytes(entries: seq<WireEntry>): nat { READDIRRESOKSIZE + EntriesSize(entries) }

  /** Without wrap-around a page fits the client's count, and the next entry would not have: it is the longest run. */
  lemma PageIsLongest(r: Request, cookie: int)
    requires RequestOk(r) && 0 <= cookie && NoWrap(r)
    ensures var p := PageAt(r, cookie);
            && (p.entries != [] ==> ReplyBytes(p.entries) <= r.count)
            && (!p.eof ==>
                  && Low(cookie) + |p.entries| < |r.listing|
                  && ReplyBytes(p.entries + [EntryAt(r, Low(cookie) + |p.entries|)]) > r.count)
  {
    var p, i := PageAt(r, cookie), Low(cookie);
    PageBudget(r, i, READDIRRESOKSIZE);
    if p.entries != [] {
      NoWrapSum(r, i, READDIRRESOKSIZE);
    }
    if !p.eof {
      EntriesSizeAppend(p.entries, EntryAt(r, i + |p.entries|));
    }
  }

  lemma {:induction false} NoWrapSum(r: Request, i: nat, spent: nat)
    requires RequestOk(r) && NoWrap(r) && (spent <= r.count || spent == READDIRRESOKSIZE)
    requires PageFrom(r, i, spent).entries != []
    ensures spent + EntriesSize(PageFrom(r, i, spent).entries) <= r.count
    decreases |r.listing| - i
  {
    var cost := ENTRY3SIZE + RoundUp4(|r.listing[i].name|);
    OverheadIs(r.listing[i]);
    assert Uint32(spent + Overhead(r.listing[i])) == spent + cost <= r.count;
    var p, more := PageFrom(r, i, spent), PageFrom(r, i + 1, spent + cost);
    assert p.entries == [EntryAt(r, i)] + more.entries && p.entries[1..] == more.entries;
    if more.entries != [] {
      NoWrapSum(r, i + 1, spent + cost);
    }
  }

  // ---------------------------------------------------------------- what the entries say

  /** The entry at position i of the listing: its name, its own inode (but the export's parent shows as the export
      itself), and a cookie whose halves are the size of the listing and the position after it. */
  predicate Describes(r: Request, i: nat, e: WireEntry)
    requires i < |r.listing|
  {
    && e.name == r.listing[i].name
    && e.fileid == (if r.exported && r.listing[i].name == [46, 46] then r.dotIno else r.listing[i].ino)
    && 0 <= e.cookie && e.cookie / 0x1_0000_0000 == |r.listing| && e.cookie % 0x1_0000_0000 == i + 1
  }

  lemma EntryDescribes(r: Request, i: nat)
    requires RequestOk(r) && i < |r.listing|
    ensures Describes(r, i, EntryAt(r, i))
  {
    CookieInverse(|r.listing|, i);
  }

  lemma DescribeAll(r: Request)
    requires RequestOk(r)
    ensures forall i :: 0 <= i < |r.listing| ==> Describes(r, i, EntryAt(r, i))
  {
    forall i | 0 <= i < |r.listing| ensures Describes(r, i, EntryAt(r, i)) {
      EntryDescribes(r, i);
    }
  }

  /** Entry k of a page describes position k after the cookie's. */
  lemma PageDescribes(r: Request, cookie: int)
    requires RequestOk(r) && 0 <= cookie
    ensures var p := PageAt(r, cookie);
            && (p.entries == [] || Low(cookie) + |p.entries| <= |r.listing|)
            && forall k :: 0 <= k < |p.entries| ==> Describes(r, Low(cookie) + k, p.entries[k])
  {
    PageShape(r, Low(cookie), READDIRRESOKSIZE);
    var p := PageAt(r, cookie);
    forall k | 0 <= k < |p.entries| ensures Describes(r, Low(cookie) + k, p.entries[k]) {
      EntryDescribes(r, Low(cookie) + k);
    }
  }

  // ---------------------------------------------------------------- does the reply fit the client's count?

  /** Adding true sizes from index i on, the first sum above a limit, or None if everything is within it. */
  function FirstOver(r: Request, limit: int, i: nat, spent: nat): Option<nat>
    requires RequestOk(r)
    decreases |r.listing| - i
  {
    if i >= |r.listing| then None
    else
      var sum := spent + ENTRY3SIZE + RoundUp4(|r.listing[i].name|);
      if sum > limit then Some(sum) else FirstOver(r, limit, i + 1, sum)
  }

  /** The first sum above the limit, if there is one, is above the count in 32 bits. */
  predicate StopsInTime(r: Request, limit: int, i: nat, spent: nat)
    requires RequestOk(r)
  {
    var over := FirstOver(r, limit, i, spent);
    over.Some? ==> Uint32(over.value) > r.count
  }

  /** The true size of a page, by its first entry. */
  lemma PageSizeCons(r: Request, i: nat, spent: nat)
    requires RequestOk(r) && i < |r.listing| && spent < TWO_32
    ensures var cost := ENTRY3SIZE + RoundUp4(|r.listing[i].name|);
            EntriesSize(PageFrom(r, i, spent).entries) ==
            if Uint32(spent + cost) > r.count then 0 else cost + EntriesSize(PageFrom(r, i + 1, Uint32(spent + cost)).entries)
  {
    hide EntryAt, RoundUp4;
    var cost := ENTRY3SIZE + RoundUp4(|r.listing[i].name|);
    OverheadIs(r.listing[i]);
    WrapAdd(spent, cost);
    var p, more := PageFrom(r, i, spent), PageFrom(r, i + 1, Uint32(spent + cost));
    if Uint32(spent + cost) <= r.count {
      assert p.entries == [EntryAt(r, i)] + more.entries && p.entries[1..] == more.entries;
    }
  }

  lemma {:induction false} WithinFrom(r: Request, limit: nat, i: nat, spent: nat)
    requires RequestOk(r) && spent <= limit < TWO_32
    ensures spent + EntriesSize(PageFrom(r, i, spent).entries) <= limit <==> StopsInTime(r, MinOf(limit, r.count), i, spent)
    decreases |r.listing| - i
  {
    hide PageFrom, EntriesSize, RoundUp4;
    if i < |r.listing| {
      PageSizeCons(r, i, spent);
      var sum := spent + ENTRY3SIZE + RoundUp4(|r.listing[i].name|);
      if Uint32(sum) <= r.count && sum <= MinOf(limit, r.count) {
        WithinFrom(r, limit, i + 1, sum);
      }
    } else {
      PastTheEnd(r, i, spent);
    }
  }

  lemma PastTheEnd(r: Request, i: nat, spent: nat)
    requires RequestOk(r) && i >= |r.listing|
    ensures EntriesSize(PageFrom(r, i, spent).entries) == 0
  {
  }

  /** A reply takes at most `limit` octets exactly when the limit has room for an empty page and the first sum above the
      limit or the count ends the page, instead of staying below the count or wrapping around to it. */
  lemma ReplyWithinIff(r: Request, cookie: int, limit: nat)
    requires RequestOk(r) && 0 <= cookie && limit < TWO_32
    ensures ReplyBytes(PageAt(r, cookie).entries) <= limit <==>
            limit >= READDIRRESOKSIZE && StopsInTime(r, MinOf(limit, r.count), Low(cookie), READDIRRESOKSIZE)
  {
    if limit >= READDIRRESOKSIZE {
      WithinFrom(r, limit, Low(cookie), READDIRRESOKSIZE);
    }
  }

  /** A reply is within the client's count exactly when the count has room for an empty page and the sum that should
      end the page does not wrap around to the count or below. */
  lemma ReplyFitsIff(r: Request, cookie: int)
    requires RequestOk(r) && 0 <= cookie
    ensures ReplyBytes(PageAt(r, cookie).entries) <= r.count <==>
            r.count >= READDIRRESOKSIZE && StopsInTime(r, r.count, Low(cookie), READDIRRESOKSIZE)
  {
    ReplyWithinIff(r, cookie, r.count);
  }

  /** With names of at most 255 octets and a count below 2^32 - 384 nothing wraps. */
  lemma {:induction false} ShortNamesStop(r: Request, limit: int, i: nat, spent: nat)
    requires RequestOk(r) && r.count < TWO_32 - 384 && forall k :: 0 <= k < |r.listing| ==> |r.listing[k].name| <= 255
    requires r.count <= limit < TWO_32 - 384 && (spent <= limit || spent == READDIRRESOKSIZE)
    ensures StopsInTime(r, limit, i, spent)
    decreases |r.listing| - i
  {
    if i < |r.listing| {
      var sum := spent + ENTRY3SIZE + RoundUp4(|r.listing[i].name|);
      if sum <= limit {
        ShortNamesStop(r, limit, i + 1, sum);
      }
    }
  }

  /** At the largest count there is, no running size is above the count: the page is all the rest of the listing. */
  lemma {:induction false} LargestCountStopsNowhere(r: Request, i: nat, size: int)
    requires RequestOk(r) && r.count == TWO_32 - 1 && i <= |r.listing|
    ensures PageFrom(r, i, size) == Page(Slice(r, i, |r.listing| - i), true)
    decreases |r.listing| - i
  {
    if i < |r.listing| {
      LargestCountStopsNowhere(r, i + 1, Uint32(size + Overhead(r.listing[i])));
      assert [EntryAt(r, i)] + Slice(r, i + 1, |r.listing| - i - 1) == Slice(r, i, |r.listing| - i);
    }
  }

  const MANY: nat := 16_000_000
  const NAME_LENGTH: nat := 252

  lemma {:induction false} LongNamesSize(es: seq<WireEntry>)
    requires forall k :: 0 <= k < |es| ==> |es[k].name| == NAME_LENGTH
    ensures EntriesSize(es) == |es| * 276
  {
    if es != [] {
      LongNamesSize(es[1..]);
    }
  }

  function Bit(i: nat, k: nat): (b: nat)
    ensures b < 2
  {
    if k == 0 then i % 2 else Bit(i / 2, k - 1)
  }

  function Power(n: nat): nat { if n == 0 then 1 else 2 * Power(n - 1) }

  lemma {:induction false} BitsDecide(i: nat, j: nat, n: nat)
    requires i < Power(n) && j < Power(n) && forall k :: 0 <= k < n ==> Bit(i, k) == Bit(j, k)
    ensures i == j
  {
    if n > 0 {
      assert Bit(i, 0) == Bit(j, 0);
      forall k | 0 <= k < n - 1 ensures Bit(i / 2, k) == Bit(j / 2, k) {
        assert Bit(i, k + 1) == Bit(j, k + 1);
      }
      BitsDecide(i / 2, j / 2, n - 1);
    }
  }

  /** A file name of 252 letters that spell a number in A and B. */
  function LongName(i: nat): (name: seq<byte>)
    ensures |name| == NAME_LENGTH
  {
    seq(NAME_LENGTH, k requires 0 <= k < NAME_LENGTH => (65 + Bit(i, k)) as byte)
  }

  lemma NamesDiffer(i: nat, j: nat)
    requires i < MANY && j < MANY && LongName(i) == LongName(j)
    ensures i == j
  {
    forall k | 0 <= k < 24 ensures Bit(i, k) == Bit(j, k) {
      assert LongName(i)[k] == LongName(j)[k];
    }
    assert Power(24) == 16_777_216 by {
      assert Power(8) == 256;
      assert Power(16) == 65_536;
    }
    BitsDecide(i, j, 24);
  }

  function ManyNames(): (listing: seq<DirEntry>)
    ensures |listing| == MANY && forall i :: 0 <= i < MANY ==> listing[i] == DirEntry(LongName(i), i)
  {
    seq(MANY, i requires 0 <= i < MANY => DirEntry(LongName(i), i))
  }

  /** The wrap is real: with the largest count, a directory of 16 million different names of 252 octets is sent in one
      page of more than 2^32 octets. */
  lemma LargeDirectoryExceedsCount()
    ensures var r := Request(ManyNames(), TWO_32 - 1, false, 0);
            && RequestOk(r)
            && (forall i, j :: 0 <= i < j < MANY ==> r.listing[i].name != r.listing[j].name)
            && |PageAt(r, 0).entries| == MANY && ReplyBytes(PageAt(r, 0).entries) > TWO_32
  {
    hide PageFrom, LongName, EntriesSize;
    var r := Request(ManyNames(), TWO_32 - 1, false, 0);
    forall i, j | 0 <= i < j < MANY ensures r.listing[i].name != r.listing[j].name {
      if LongName(i) == LongName(j) {
        NamesDiffer(i, j);
      }
    }
    LargestCountStopsNowhere(r, 0, READDIRRESOKSIZE);
    var es := PageAt(r, 0).entries;
    forall k | 0 <= k < |es| ensures |es[k].name| == NAME_LENGTH {
      assert es[k] == EntryAt(r, k);
    }
    LongNamesSize(es);
  }
}

/** READDIR from the client's side: a listing fetched page by page, each request resuming from the last cookie. */
module ReadDirRuns {
  import opened Bytes
  import opened Xdr
  import opened XdrLaws
  import opened NfsTypes
  import opened ReadDir

  ghost predicate AllOk(rs: seq<Request>) {
    forall k :: 0 <= k < |rs| ==> RequestOk(rs[k])
  }

  function LastCookie(p: Page): (c: int)
    requires p.entries != []
  {
    p.entries[|p.entries| - 1].cookie
  }

  /** The count has room for the next entry. */
  predicate AdmitsNext(r: Request, i: nat) {
    i < |r.listing| ==> Uint32(READDIRRESOKSIZE + Overhead(r.listing[i])) <= r.count
  }

  /** The pages a client sees: it goes on until a page says Eof or brings nothing. The directory and the count may
      differ from request to request. */
  function Follow(rs: seq<Request>, cookie: int): (ps: seq<Page>)
    requires AllOk(rs) && 0 <= cookie < TWO_64
    ensures |ps| <= |rs| && (rs != [] ==> ps != [])
  {
    if rs == [] then []
    else
      var p := PageAt(rs[0], cookie);
      if p.eof || p.entries == [] then [p]
      else
        PageProgress(rs[0], cookie);
        [p] + Follow(rs[1..], LastCookie(p))
  }

  /** Every request of the run has room for the entry it is about to list. */
  ghost predicate AdmitsAlong(rs: seq<Request>, cookie: int)
    requires AllOk(rs) && 0 <= cookie < TWO_64
  {
    rs != [] ==>
      && AdmitsNext(rs[0], Low(cookie))
      && var p := PageAt(rs[0], cookie);
         p.entries != [] ==> (PageProgress(rs[0], cookie); AdmitsAlong(rs[1..], LastCookie(p)))
  }

  /** The low half of the cookie counts what was sent: it grows by the length of a nonempty page. */
  lemma PageProgress(r: Request, cookie: int)
    requires RequestOk(r) && 0 <= cookie < TWO_64 && PageAt(r, cookie).entries != []
    ensures var p := PageAt(r, cookie);
            && 0 <= LastCookie(p) < TWO_64
            && Low(LastCookie(p)) == Low(cookie) + |p.entries| <= |r.listing|
            && High(LastCookie(p)) == |r.listing|
            && (p.eof <==> Low(LastCookie(p)) == |r.listing|)
  {
    PageShape(r, Low(cookie), READDIRRESOKSIZE);
    var p := PageAt(r, cookie);
    var last := Low(cookie) + |p.entries| - 1;
    assert p.entries[|p.entries| - 1] == EntryAt(r, last);
    CookieInverse(|r.listing|, last);
  }

  /** A page that brings nothing and does not say Eof, so that the client could never go on, is sent exactly when the
      count has no room for the next entry. */
  lemma AdmittedPage(r: Request, cookie: int)
    requires RequestOk(r) && 0 <= cookie < TWO_64
    ensures PageAt(r, cookie).entries == [] && !PageAt(r, cookie).eof <==> !AdmitsNext(r, Low(cookie))
  {
  }

  function Bound(n: nat, cookie: int): nat
    requires 0 <= cookie
  {
    if n > Low(cookie) then n - Low(cookie) else 1
  }

  /** A changing directory: if it never has more than n entries and the counts admit the next entry, any run reaches
      Eof within max(1, n) pages, and only its last page says Eof. */
  lemma {:induction false} RunReachesEof(rs: seq<Request>, cookie: int, n: nat)
    requires AllOk(rs) && 0 <= cookie < TWO_64 && AdmitsAlong(rs, cookie)
    requires forall k :: 0 <= k < |rs| ==> |rs[k].listing| <= n
    requires |rs| >= Bound(n, cookie)
    ensures var ps := Follow(rs, cookie);
            && 1 <= |ps| <= Bound(n, cookie)
            && forall k :: 0 <= k < |ps| ==> (ps[k].eof <==> k == |ps| - 1)
    decreases |rs|
  {
    var p := PageAt(rs[0], cookie);
    AdmittedPage(rs[0], cookie);
    if !p.eof {
      PageProgress(rs[0], cookie);
      var c := LastCookie(p);
      RunReachesEof(rs[1..], c, n);
      var more := Follow(rs[1..], c);
      assert Follow(rs, cookie) == [p] + more;
      forall k | 0 <= k < 1 + |more| ensures ([p] + more)[k].eof <==> k == |more| {
        assert k > 0 ==> ([p] + more)[k] == more[k - 1];
      }
    }
  }

  function Flat(ps: seq<Page>): seq<WireEntry> {
    if ps == [] then [] else ps[0].entries + Flat(ps[1..])
  }

  lemma FlatCons(p: Page, more: seq<Page>)
    ensures Flat([p] + more) == p.entries + Flat(more)
  {
    assert ([p] + more)[1..] == more;
  }

  /** Two requests meet the same directory; only the counts differ. */
  predicate SameDirectory(r: Request, q: Request) { r == q.(count := r.count) }

  lemma PageIsSlice(r: Request, q: Request, cookie: int)
    requires RequestOk(r) && RequestOk(q) && SameDirectory(r, q) && 0 <= cookie < TWO_64
    ensures var p := PageAt(r, cookie);
            && (p.entries == [] || Low(cookie) + |p.entries| <= |q.listing|)
            && p.entries == Slice(q, Low(cookie), |p.entries|)
  {
    PageShape(r, Low(cookie), READDIRRESOKSIZE);
    var p := PageAt(r, cookie);
    forall k | 0 <= k < |p.entries| ensures p.entries[k] == EntryAt(q, Low(cookie) + k) {
      assert EntryAt(r, Low(cookie) + k) == EntryAt(q, Low(cookie) + k);
    }
  }

  lemma PageEnds(r: Request, cookie: int)
    requires RequestOk(r) && 0 <= cookie < TWO_64 && Low(cookie) <= |r.listing|
    ensures var p := PageAt(r, cookie);
            Low(cookie) + |p.entries| <= |r.listing| && (p.eof <==> Low(cookie) + |p.entries| == |r.listing|)
  {
    PageShape(r, Low(cookie), READDIRRESOKSIZE);
  }

  lemma SliceConcat(q: Request, i: nat, j: nat, k: nat)
    requires RequestOk(q) && i + j + k <= |q.listing|
    ensures Slice(q, i, j) + Slice(q, i + j, k) == Slice(q, i, j + k)
  {
  }

  /** An unchanged directory: from a cookie into the listing, a run that ends in Eof delivers the rest of the listing,
      every entry once and in order. */
  lemma {:induction false} RunDeliversRest(rs: seq<Request>, q: Request, cookie: int)
    requires AllOk(rs) && RequestOk(q) && 0 <= cookie < TWO_64 && Low(cookie) <= |q.listing| && AdmitsAlong(rs, cookie)
    requires forall k :: 0 <= k < |rs| ==> SameDirectory(rs[k], q)
    requires |rs| >= Bound(|q.listing|, cookie)
    ensures Flat(Follow(rs, cookie)) == Slice(q, Low(cookie), |q.listing| - Low(cookie))
    decreases |rs|
  {
    hide Slice, PageFrom, PageAt, AdmitsNext;
    var p := PageAt(rs[0], cookie);
    AdmittedPage(rs[0], cookie);
    PageEnds(rs[0], cookie);
    PageIsSlice(rs[0], q, cookie);
    if p.eof {
      FlatCons(p, []);
      assert Follow(rs, cookie) == [p] == [p] + [];
      assert p.entries + [] == p.entries;
    } else {
      PageProgress(rs[0], cookie);
      var c := LastCookie(p);
      RunDeliversRest(rs[1..], q, c);
      FlatCons(p, Follow(rs[1..], c));
      SliceConcat(q, Low(cookie), |p.entries|, |q.listing| - Low(c));
    }
  }

  /** The whole listing from cookie 0: every entry exactly once and in order, Eof on the final page only, and at most
      max(1, n) calls for n entries. */
  lemma WholeRun(rs: seq<Request>, q: Request)
    requires AllOk(rs) && RequestOk(q) && AdmitsAlong(rs, 0)
    requires forall k :: 0 <= k < |rs| ==> SameDirectory(rs[k], q)
    requires |rs| >= 1 && |rs| >= |q.listing|
    ensures var ps := Follow(rs, 0);
            && Flat(ps) == Slice(q, 0, |q.listing|)
            && (forall i :: 0 <= i < |q.listing| ==> Describes(q, i, Flat(ps)[i]))
            && 1 <= |ps| && |ps| <= (if q.listing == [] then 1 else |q.listing|)
            && forall k :: 0 <= k < |ps| ==> (ps[k].eof <==> k == |ps| - 1)
  {
    RunDeliversRest(rs, q, 0);
    DescribeAll(q);
    RunReachesEof(rs, 0, |q.listing|);
  }

  /** A count that no single entry outgrows admits the next entry at every step of every run. */
  lemma {:induction false} AmpleCountsAdmit(rs: seq<Request>, cookie: int)
    requires AllOk(rs) && 0 <= cookie < TWO_64
    requires forall k, i :: 0 <= k < |rs| && 0 <= i < |rs[k].listing| ==> AdmitsNext(rs[k], i)
    ensures AdmitsAlong(rs, cookie)
    decreases |rs|
  {
    if rs != [] {
      assert Low(cookie) < |rs[0].listing| ==> AdmitsNext(rs[0], Low(cookie));
      if PageAt(rs[0], cookie).entries != [] {
        PageProgress(rs[0], cookie);
        forall k, i | 0 <= k < |rs[1..]| && 0 <= i < |rs[1..][k].listing| ensures AdmitsNext(rs[1..][k], i) {
          assert rs[1..][k] == rs[k + 1];
        }
        AmpleCountsAdmit(rs[1..], LastCookie(PageAt(rs[0], cookie)));
      }
    }
  }

  /** What a page costs on the wire, and that it arrives: the encoder emits exactly the octets the loop budgeted, at
      most the client's count for a nonempty page, and the client decodes the same entries and Eof flag. */
  lemma PageOnTheWire(r: Request, cookie: int, attrs: Value, tail: seq<byte>)
    requires RequestOk(r) && 0 <= cookie < TWO_64 && NoWrap(r) && HasType(NFS_ENV, FATTR3, attrs)
    requires forall i :: 0 <= i < |r.listing| ==> |r.listing[i].name| + 4 <= MAX_INT32
    ensures var p := PageAt(r, cookie);
            var v := ResokValue(attrs, p.entries, p.eof);
            && Good(NFS_ENV, READDIR3RESOK) && HasType(NFS_ENV, READDIR3RESOK, v)
            && var e := Enc(NFS_ENV, READDIR3RESOK, v, false);
            && e.err == None && |e.bytes| == ReplyBytes(p.entries)
            && (p.entries != [] ==> |e.bytes| <= r.count)
            && Dec(NFS_ENV, 0, READDIR3RESOK, false, e.bytes + tail) == Ok(v, |e.bytes|)
  {
    hide PageFrom, Good, HasType, Enc, Dec;
    var p := PageAt(r, cookie);
    PageShape(r, Low(cookie), READDIRRESOKSIZE);
    forall i | 0 <= i < |p.entries| ensures EntryOk(p.entries[i]) && |p.entries[i].name| + 4 <= MAX_INT32 {
      assert p.entries[i] == EntryAt(r, Low(cookie) + i);
    }
    ReplySize(attrs, p.entries, p.eof);
    PageIsLongest(r, cookie);
    ReplyRoundTrip(attrs, p.entries, p.eof, tail);
  }
}

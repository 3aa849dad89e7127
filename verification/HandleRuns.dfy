/** What the handle table keeps over whole runs of the server. */
module HandleRuns {
  import opened Xdr
  import opened Handles

  function Run(cfg: Config, hash: Hash, s: State, rs: seq<Request>): Option<State>
    decreases |rs|
  {
    if rs == [] then Some(s)
    else
      match Step(cfg, hash, s, rs[0])
      case Aborted => None
      case Done(s', _, _) => Run(cfg, hash, s', rs[1..])
  }

  // ---------------------------------------------------------------- every key is the hash it was issued as

  /** The name, inode and filesystem a handle was made from. */
  datatype Birth = Birth(path: Path, ino: nat, fsid: nat)

  /** For every handle of the table its birth, and the handles that silly renames have moved since. */
  datatype History = History(births: map<nat, Birth>, moved: set<nat>)

  function BirthNow(cfg: Config, hash: Hash, fs: Fs, h: nat, p: Path): Birth {
    if p in fs && h == HandleOf(hash, p, fs[p]) then Birth(p, fs[p].ino, fs[p].fsid)
    else Birth(cfg.exportPath, cfg.fid, cfg.fsid)
  }

  function Survives(cfg: Config, hash: Hash, s: State, r: Request, s': State, h: nat, births: map<nat, Birth>): bool
    requires h in s'.handles
  {
    h in births && (OriginIs(cfg, hash, s, r, s', h, Kept) || OriginIs(cfg, hash, s, r, s', h, Moved))
  }

  /** A handle that is kept or moved keeps its birth; a new or reset one is born now. */
  function Remember(cfg: Config, hash: Hash, s: State, r: Request, s': State, old_: History): History {
    History(map h | h in s'.handles :: if Survives(cfg, hash, s, r, s', h, old_.births) then old_.births[h]
                                       else BirthNow(cfg, hash, s'.fs, h, s'.handles[h]),
            set h | h in s'.handles && Survives(cfg, hash, s, r, s', h, old_.births) &&
                    (h in old_.moved || !OriginIs(cfg, hash, s, r, s', h, Kept)))
  }

  function Track(cfg: Config, hash: Hash, s: State, rs: seq<Request>, hist: History): Option<(State, History)>
    decreases |rs|
  {
    if rs == [] then Some((s, hist))
    else
      match Step(cfg, hash, s, rs[0])
      case Aborted => None
      case Done(s', _, _) => Track(cfg, hash, s', rs[1..], Remember(cfg, hash, s, rs[0], s', hist))
  }

  predicate Traced(hash: Hash, s: State, hist: History) {
    && hist.births.Keys == s.handles.Keys
    && forall h :: h in s.handles ==>
         var b := hist.births[h];
         h == hash(b.path, b.ino, b.fsid) && (h !in hist.moved ==> s.handles[h] == b.path)
  }

  lemma StepTraced(cfg: Config, hash: Hash, s: State, r: Request, hist: History)
    requires Traced(hash, s, hist) && Step(cfg, hash, s, r).Done?
    ensures var s' := Step(cfg, hash, s, r).s; Traced(hash, s', Remember(cfg, hash, s, r, s', hist))
  {
    var s' := Step(cfg, hash, s, r).s;
    var hist' := Remember(cfg, hash, s, r, s', hist);
    forall h | h in s'.handles
      ensures var b := hist'.births[h]; h == hash(b.path, b.ino, b.fsid) && (h !in hist'.moved ==> s'.handles[h] == b.path)
    {
      StepBindings(cfg, hash, s, r, h);
    }
  }

  /** What a step does to the history: a handle that keeps its path, or follows a silly rename, keeps what it was issued
      for and is moved from then on if its path changed; any other handle was issued in this step, for the path it names. */
  lemma HistoryStep(cfg: Config, hash: Hash, s: State, r: Request, hist: History, h: nat)
    requires Traced(hash, s, hist) && Step(cfg, hash, s, r).Done? && h in Step(cfg, hash, s, r).s.handles
    ensures var s' := Step(cfg, hash, s, r).s;
            var hist' := Remember(cfg, hash, s, r, s', hist);
            && h in hist'.births
            && if h in s.handles && (s'.handles[h] == s.handles[h] || Follows(cfg, hash, s, r, h)) then
                 && hist'.births[h] == hist.births[h]
                 && (h in hist'.moved <==> h in hist.moved || s'.handles[h] != s.handles[h])
               else
                 h !in hist'.moved && hist'.births[h].path == s'.handles[h]
  {
    var s' := Step(cfg, hash, s, r).s;
    StepBindings(cfg, hash, s, r, h);
    if h in s.handles {
      StepBound(cfg, hash, s, r, h);
    }
    hide Step;
  }

  /** Over every run: each handle in the table is the hash of the name, inode and filesystem it was issued for, and
      still names that path unless a silly rename has moved it. */
  lemma {:induction false} KeysAreHashes(cfg: Config, hash: Hash, s: State, rs: seq<Request>, hist: History)
    requires Traced(hash, s, hist)
    ensures var e := Track(cfg, hash, s, rs, hist);
            && (e.Some? <==> Run(cfg, hash, s, rs).Some?)
            && (e.Some? ==> e.value.0 == Run(cfg, hash, s, rs).value && Traced(hash, e.value.0, e.value.1))
    decreases |rs|
  {
    if rs != [] && Step(cfg, hash, s, rs[0]).Done? {
      var s' := Step(cfg, hash, s, rs[0]).s;
      StepTraced(cfg, hash, s, rs[0], hist);
      KeysAreHashes(cfg, hash, s', rs[1..], Remember(cfg, hash, s, rs[0], s', hist));
    }
  }

  /** The server starts with an empty table. */
  lemma FreshServer(cfg: Config, hash: Hash, fs: Fs, rs: seq<Request>)
    ensures var start := State(fs, map[]);
            var e := Track(cfg, hash, start, rs, History(map[], {}));
            e.Some? ==> Run(cfg, hash, start, rs) == Some(e.value.0) && Traced(hash, e.value.0, e.value.1)
  {
    KeysAreHashes(cfg, hash, State(fs, map[]), rs, History(map[], {}));
  }

  // ---------------------------------------------------------------- stored paths

  function Walk(p: Path, names: seq<string>): Path
    decreases |names|
  {
    if names == [] then p else Walk(Child(p, names[0]), names[1..])
  }

  predicate AllPlain(names: seq<string>) {
    forall i :: 0 <= i < |names| ==> PlainName(names[i])
  }

  /** The export path followed by zero or more "/" and nonempty slash-free components. */
  ghost predicate UnderExport(cfg: Config, p: Path) {
    exists names :: AllPlain(names) && p == Walk(cfg.exportPath, names)
  }

  ghost predicate PathsOk(cfg: Config, t: Table) {
    forall h :: h in t ==> UnderExport(cfg, t[h])
  }

  lemma {:induction false} WalkAppend(p: Path, names: seq<string>, name: string)
    ensures Walk(p, names + [name]) == Child(Walk(p, names), name)
    decreases |names|
  {
    if names == [] {
      assert [] + [name] == [name] && [name][1..] == [];
    } else {
      assert (names + [name])[1..] == names[1..] + [name];
      WalkAppend(Child(p, names[0]), names[1..], name);
    }
  }

  lemma ChildUnderExport(cfg: Config, p: Path, name: string)
    requires UnderExport(cfg, p) && PlainName(name)
    ensures UnderExport(cfg, Child(p, name))
  {
    var names :| AllPlain(names) && p == Walk(cfg.exportPath, names);
    WalkAppend(cfg.exportPath, names, name);
    assert AllPlain(names + [name]);
  }

  /** A path that a step stores is an old one, the export path, or a child of an old one. */
  lemma StepPaths(cfg: Config, hash: Hash, s: State, r: Request, h: nat)
    requires Step(cfg, hash, s, r).Done? && h in Step(cfg, hash, s, r).s.handles
    ensures var q := Step(cfg, hash, s, r).s.handles[h];
            || (h in s.handles && s.handles[h] == q)
            || q == cfg.exportPath
            || exists g, name :: g in s.handles && PlainName(name) && q == Child(s.handles[g], name)
  {
    var s' := Step(cfg, hash, s, r).s;
    var q := s'.handles[h];
    if !(h in s.handles && s.handles[h] == q) && q != cfg.exportPath {
      match r
      case Lookup(g, name) =>
        var name' := if s.handles[g] == cfg.exportPath && name == ".." then "." else name;
        assert g in s.handles && PlainName(name') && q == Child(s.handles[g], name');
      case Make(_, g, name, _) =>
        assert g in s.handles && PlainName(name) && q == Child(s.handles[g], name);
      case Rename(_, _, g, name, _) =>
        assert g in s.handles && PlainName(name) && q == Child(s.handles[g], name);
    }
  }

  lemma {:induction false} PathsStayUnderExport(cfg: Config, hash: Hash, s: State, rs: seq<Request>)
    requires PathsOk(cfg, s.handles)
    ensures Run(cfg, hash, s, rs).Some? ==> PathsOk(cfg, Run(cfg, hash, s, rs).value.handles)
    decreases |rs|
  {
    if rs != [] && Step(cfg, hash, s, rs[0]).Done? {
      var s' := Step(cfg, hash, s, rs[0]).s;
      forall h | h in s'.handles ensures UnderExport(cfg, s'.handles[h]) {
        StepPaths(cfg, hash, s, rs[0], h);
        var q := s'.handles[h];
        if q == cfg.exportPath {
          assert AllPlain([]) && q == Walk(cfg.exportPath, []);
        } else if !(h in s.handles && s.handles[h] == q) {
          var g, name :| g in s.handles && PlainName(name) && q == Child(s.handles[g], name);
          ChildUnderExport(cfg, s.handles[g], name);
        }
      }
      PathsStayUnderExport(cfg, hash, s', rs[1..]);
    }
  }

  // ---------------------------------------------------------------- read-only exports

  /** The filesystem as other processes left it. */
  function EnvironmentFs(fs: Fs, rs: seq<Request>): Fs
    decreases |rs|
  {
    if rs == [] then fs
    else EnvironmentFs(if rs[0].Environment? then rs[0].after else fs, rs[1..])
  }

  /** With write access off no sequence of requests changes the filesystem: it is what the environment made it. */
  lemma {:induction false} ReadOnlyRun(cfg: Config, hash: Hash, s: State, rs: seq<Request>)
    requires !cfg.writeaccess && Run(cfg, hash, s, rs).Some?
    ensures Run(cfg, hash, s, rs).value.fs == EnvironmentFs(s.fs, rs)
    decreases |rs|
  {
    if rs != [] {
      var s' := Step(cfg, hash, s, rs[0]).s;
      assert s'.fs == if rs[0].Environment? then rs[0].after else s.fs;
      ReadOnlyRun(cfg, hash, s', rs[1..]);
    }
  }

  // ---------------------------------------------------------------- silly rename

  predicate Names(fs: Fs, p: Path, ino: nat, fsid: nat) {
    p in fs && fs[p].ino == ino && fs[p].fsid == fsid
  }

  lemma ChildIsLonger(p: Path, name: string)
    ensures Child(p, name) != p
  {
    assert |Child(p, name)| > |p|;
  }

  /** A handle issued for `from` and still bound to it follows a silly rename that keeps the file's identity. */
  lemma SillyRenameRedirects(cfg: Config, hash: Hash, s: State, fromH: nat, fromName: string, toH: nat, toName: string,
                             os: Outcome, h: nat)
    requires cfg.writeaccess && fromH in s.handles && toH in s.handles && h in s.handles && h != toH
    requires s.handles[fromH] in s.fs && s.handles[toH] in s.fs
    requires StrictName(fromName) && StrictName(toName) && IsSilly(toName) && os.ok
    requires var from, to := Child(s.handles[fromH], fromName), Child(s.handles[toH], toName);
             && s.handles[h] == from && from in s.fs && h == HandleOf(hash, from, s.fs[from])
             && Names(os.after, to, s.fs[from].ino, s.fs[from].fsid)
    ensures var from, to := Child(s.handles[fromH], fromName), Child(s.handles[toH], toName);
            var d := Step(cfg, hash, s, Rename(fromH, fromName, toH, toName, os));
            && d.Done? && d.status == OK && d.s.fs == os.after
            && h in d.s.handles && d.s.handles[h] == to
            && GetFileAttrStep(d.s, h).status == OK && Names(d.s.fs, d.s.handles[h], s.fs[from].ino, s.fs[from].fsid)
  {
    ChildIsLonger(s.handles[fromH], fromName);
  }

  /** A silly rename moves a handle bound to the old name exactly when the handle was made from the inode that the new
      name has: a handle issued before the file was replaced keeps the old name. */
  lemma RedirectsExactly(cfg: Config, hash: Hash, s: State, r: Request, from: Path, to: Path, h: nat)
    requires r.Rename? && SillyRename(s.handles, r, from, to) && from != to && to in r.os.after
    requires cfg.writeaccess && StrictName(r.fromName) && StrictName(r.toName)
    requires s.handles[r.fromH] in s.fs && s.handles[r.toH] in s.fs
    requires h in s.handles && s.handles[h] == from && h != r.fromH && h != r.toH
    ensures var d := Step(cfg, hash, s, r);
            d.Done? ==> h in d.s.handles &&
                        d.s.handles[h] == if h == HandleOf(hash, from, r.os.after[to]) then to else from
  {
  }

  /** The request moves this handle from p to another name: a silly rename of p, and the handle is the hash of p with
      the inode that the new name then has. */
  predicate Moves(hash: Hash, t: Table, r: Request, h: nat, p: Path) {
    && r.Rename? && r.fromH in t && r.toH in t
    && var q := Child(t[r.toH], r.toName);
       SillyRename(t, r, p, q) && q in r.os.after && h == HandleOf(hash, p, r.os.after[q])
  }

  /** A later step leaves the handle alone as long as its path exists before and after, the step does not move that very
      handle, and the handle is not the one UnMount deletes. */
  lemma StepKeeps(cfg: Config, hash: Hash, s: State, r: Request, h: nat, p: Path)
    requires h in s.handles && s.handles[h] == p && p in s.fs && h != MountHandle(cfg, hash)
    requires Step(cfg, hash, s, r).Done? && p in Step(cfg, hash, s, r).s.fs
    requires !Moves(hash, s.handles, r, h, p)
    ensures var s' := Step(cfg, hash, s, r).s; h in s'.handles && s'.handles[h] == p
  {
  }

  /** Along the run the path keeps naming the same file, and no silly rename moves the handle on. */
  ghost predicate KeepsNaming(cfg: Config, hash: Hash, s: State, rs: seq<Request>, h: nat, p: Path, ino: nat, fsid: nat)
    decreases |rs|
  {
    && Names(s.fs, p, ino, fsid)
    && (rs != [] ==>
          && !Moves(hash, s.handles, rs[0], h, p)
          && var d := Step(cfg, hash, s, rs[0]);
             d.Done? ==> KeepsNaming(cfg, hash, d.s, rs[1..], h, p, ino, fsid))
  }

  lemma {:induction false} RunKeeps(cfg: Config, hash: Hash, s: State, rs: seq<Request>, h: nat, p: Path, ino: nat, fsid: nat)
    requires h in s.handles && s.handles[h] == p && h != MountHandle(cfg, hash)
    requires KeepsNaming(cfg, hash, s, rs, h, p, ino, fsid) && Run(cfg, hash, s, rs).Some?
    ensures var e := Run(cfg, hash, s, rs).value;
            && h in e.handles && e.handles[h] == p && Names(e.fs, p, ino, fsid)
    decreases |rs|
  {
    if rs != [] {
      StepKeeps(cfg, hash, s, rs[0], h, p);
      RunKeeps(cfg, hash, Step(cfg, hash, s, rs[0]).s, rs[1..], h, p, ino, fsid);
    }
  }

  /** Silly rename keeps identity: after the rename, and through every later run that does not abort, the old handle
      resolves to the same inode and filesystem. */
  lemma SillyRenameKeepsIdentity(cfg: Config, hash: Hash, s: State, fromH: nat, fromName: string, toH: nat, toName: string,
                                 os: Outcome, h: nat, rs: seq<Request>)
    requires cfg.writeaccess && fromH in s.handles && toH in s.handles && h in s.handles && h != toH
    requires s.handles[fromH] in s.fs && s.handles[toH] in s.fs && h != MountHandle(cfg, hash)
    requires StrictName(fromName) && StrictName(toName) && IsSilly(toName) && os.ok
    requires var from, to := Child(s.handles[fromH], fromName), Child(s.handles[toH], toName);
             && s.handles[h] == from && from in s.fs && h == HandleOf(hash, from, s.fs[from])
             && Names(os.after, to, s.fs[from].ino, s.fs[from].fsid)
             && var d := Step(cfg, hash, s, Rename(fromH, fromName, toH, toName, os));
             d.Done? ==> KeepsNaming(cfg, hash, d.s, rs, h, to, s.fs[from].ino, s.fs[from].fsid) && Run(cfg, hash, d.s, rs).Some?
    ensures var from := Child(s.handles[fromH], fromName);
            var d := Step(cfg, hash, s, Rename(fromH, fromName, toH, toName, os));
            && d.Done?
            && var e := Run(cfg, hash, d.s, rs).value;
            && h in e.handles && Names(e.fs, e.handles[h], s.fs[from].ino, s.fs[from].fsid)
            && GetFileAttrStep(e, h).status == OK
  {
    var from, to := Child(s.handles[fromH], fromName), Child(s.handles[toH], toName);
    SillyRenameRedirects(cfg, hash, s, fromH, fromName, toH, toName, os, h);
    var d := Step(cfg, hash, s, Rename(fromH, fromName, toH, toName, os));
    RunKeeps(cfg, hash, d.s, rs, h, to, s.fs[from].ino, s.fs[from].fsid);
  }

  // ---------------------------------------------------------------- issued handles

  /** A handle that Lookup, Mkdir, Create or SymLink returns names the path that was asked for, with the inode it has;
      every other binding stays; and looking the name up again gives the same handle and changes nothing. */
  lemma IssuedResolves(cfg: Config, hash: Hash, s: State, r: Request)
    requires (r.Lookup? || r.Make?) && Step(cfg, hash, s, r).Done? && Step(cfg, hash, s, r).issued.Some?
    requires r.h in s.handles && s.handles[r.h] in Step(cfg, hash, s, r).s.fs
    ensures var d := Step(cfg, hash, s, r);
            var h, p := d.issued.value, Target(cfg, s, r);
            && h in d.s.handles && d.s.handles[h] == p && p in d.s.fs && h == HandleOf(hash, p, d.s.fs[p])
            && d.s.handles - {h} == s.handles - {h}
            && GetFileAttrStep(d.s, h) == Done(d.s, OK, None)
            && LookupStep(cfg, hash, d.s, r.h, r.name) == Done(d.s, OK, Some(h))
  {
  }

  // ---------------------------------------------------------------- aborts

  /** A path whose handle a request computes, and what lstat said of the file. */
  datatype Hashing = Hashing(path: Path, attr: Attr)

  /** What a request hashes, if it gets that far: a Lookup or creating request the path it was asked for, a silly rename
      the old name with the inode the new name has. */
  function Hashed(cfg: Config, s: State, r: Request): Option<Hashing> {
    match r
    case Lookup(h, name) =>
      if h !in s.handles || s.handles[h] !in s.fs || !PlainName(name) || Target(cfg, s, r) !in s.fs then None
      else Some(Hashing(Target(cfg, s, r), s.fs[Target(cfg, s, r)]))
    case Make(_, h, name, os) =>
      if h !in s.handles || s.handles[h] !in s.fs || !cfg.writeaccess || !StrictName(name) || !os.ok
         || Target(cfg, s, r) !in os.after then None
      else Some(Hashing(Target(cfg, s, r), os.after[Target(cfg, s, r)]))
    case Rename(fromH, fromName, toH, toName, os) =>
      if fromH !in s.handles || s.handles[fromH] !in s.fs || toH !in s.handles || s.handles[toH] !in s.fs
         || !cfg.writeaccess || !StrictName(fromName) || !StrictName(toName) || !os.ok || !IsSilly(toName)
         || Child(s.handles[toH], toName) !in os.after then None
      else Some(Hashing(Child(s.handles[fromH], fromName), os.after[Child(s.handles[toH], toName)]))
    case _ => None
  }

  /** The filesystem in which a request that issues a handle looks for the path of an earlier binding. */
  function FsAtIssue(s: State, r: Request): Fs { if r.Make? then r.os.after else s.fs }

  /** A step aborts exactly when the handle it computes is bound to another path, and that path still exists; a silly
      rename does not ask whether it exists. */
  lemma AbortsIff(cfg: Config, hash: Hash, s: State, r: Request)
    ensures Step(cfg, hash, s, r).Aborted? <==>
            && Hashed(cfg, s, r).Some?
            && var x := Hashed(cfg, s, r).value;
               var h := HandleOf(hash, x.path, x.attr);
               h in s.handles && s.handles[h] != x.path && (r.Rename? || s.handles[h] in FsAtIssue(s, r))
  {
  }

  /** Why a request cannot have the handle it computes: the handle is bound to another path, because another path was
      hashed to it when it was issued, or because a silly rename has moved it since. */
  predicate Occupied(cfg: Config, hash: Hash, s: State, r: Request, hist: History) {
    && Hashed(cfg, s, r).Some?
    && var x := Hashed(cfg, s, r).value;
       var h := HandleOf(hash, x.path, x.attr);
       && h in s.handles && h in hist.births && s.handles[h] != x.path
       && h == hash(hist.births[h].path, hist.births[h].ino, hist.births[h].fsid)
       && (h in hist.moved || hist.births[h].path != x.path)
  }

  /** A run that aborts has come, after some requests, to one whose handle collides or was moved. */
  lemma {:induction false} AbortIsCollisionOrMove(cfg: Config, hash: Hash, s: State, rs: seq<Request>, hist: History)
    returns (k: nat)
    requires Traced(hash, s, hist) && Run(cfg, hash, s, rs).None?
    ensures k < |rs| && Track(cfg, hash, s, rs[..k], hist).Some?
    ensures var e := Track(cfg, hash, s, rs[..k], hist).value;
            && Run(cfg, hash, s, rs[..k]) == Some(e.0) && Traced(hash, e.0, e.1)
            && Step(cfg, hash, e.0, rs[k]).Aborted? && Occupied(cfg, hash, e.0, rs[k], e.1)
    decreases |rs|
  {
    var d := Step(cfg, hash, s, rs[0]);
    if d.Aborted? {
      AbortsIff(cfg, hash, s, rs[0]);
      k := 0;
    } else {
      var hist' := Remember(cfg, hash, s, rs[0], d.s, hist);
      StepTraced(cfg, hash, s, rs[0], hist);
      var m := AbortIsCollisionOrMove(cfg, hash, d.s, rs[1..], hist');
      k := m + 1;
      assert rs[..k][0] == rs[0] && rs[..k][1..] == rs[1..][..m];
    }
  }

  /** The handle a request computes, if it is in the table, was issued for the very file the request is about. */
  predicate NoCollision(cfg: Config, hash: Hash, s: State, r: Request, hist: History) {
    Hashed(cfg, s, r).Some? ==>
      var x := Hashed(cfg, s, r).value;
      var h := HandleOf(hash, x.path, x.attr);
      h in hist.births ==> hist.births[h] == Birth(x.path, x.attr.ino, x.attr.fsid)
  }

  /** Where nothing collides the server still aborts, and exactly on a handle that a silly rename has moved to a path
      that still exists (a silly rename does not ask whether it exists). */
  lemma AbortsWithoutCollisionIff(cfg: Config, hash: Hash, s: State, r: Request, hist: History)
    requires Traced(hash, s, hist) && NoCollision(cfg, hash, s, r, hist)
    ensures Step(cfg, hash, s, r).Aborted? <==>
            && Hashed(cfg, s, r).Some?
            && var x := Hashed(cfg, s, r).value;
               var h := HandleOf(hash, x.path, x.attr);
               h in hist.moved && h in s.handles && s.handles[h] != x.path && (r.Rename? || s.handles[h] in FsAtIssue(s, r))
  {
    AbortsIff(cfg, hash, s, r);
  }

  /** An injective hash never collides, on any run. */
  lemma InjectiveNeverCollides(cfg: Config, hash: Hash, s: State, r: Request, hist: History)
    requires Traced(hash, s, hist)
    requires forall p, i, f, q, j, g {:trigger hash(p, i, f), hash(q, j, g)} ::
               hash(p, i, f) == hash(q, j, g) ==> p == q && i == j && f == g
    ensures NoCollision(cfg, hash, s, r, hist)
  {
    if Hashed(cfg, s, r).Some? {
      var x := Hashed(cfg, s, r).value;
      var h := HandleOf(hash, x.path, x.attr);
      if h in hist.births {
        var b := hist.births[h];
        assert hash(b.path, b.ino, b.fsid) == hash(x.path, x.attr.ino, x.attr.fsid);
      }
    }
  }

  // A small export for examples: a root directory and a few names for inodes.
  const DEMO := Config("/e", 1, 0, true)
  const ROOT_DIR := Attr(1, 0, Directory)

  function Inode(n: nat): Attr { Attr(n, 0, Regular) }

  const ONE_NAME: Fs := map["/e" := ROOT_DIR, "/e/a" := Inode(5)]
  const TWO_NAMES: Fs := map["/e" := ROOT_DIR, "/e/a" := Inode(5), "/e/.nfs1" := Inode(5)]

  /** A client looks up "a", links it to ".nfs1" and renames the one to the other. */
  function LinkAndRename(hash: Hash): seq<Request> {
    var root, h := MountHandle(DEMO, hash), HandleOf(hash, "/e/a", Inode(5));
    [Mount("/e"), Lookup(root, "a"), Link(h, root, ".nfs1", Outcome(true, TWO_NAMES)),
     Rename(root, "a", root, ".nfs1", Outcome(true, TWO_NAMES))]
  }

  lemma LinkThenRename(hash: Hash)
    requires MountHandle(DEMO, hash) != HandleOf(hash, "/e/a", Inode(5))
    ensures var root, h := MountHandle(DEMO, hash), HandleOf(hash, "/e/a", Inode(5));
            Run(DEMO, hash, State(ONE_NAME, map[root := "/e", h := "/e/a"]), LinkAndRename(hash)[2..]) ==
            Some(State(TWO_NAMES, map[root := "/e", h := "/e/.nfs1"]))
  {
    var root, h := MountHandle(DEMO, hash), HandleOf(hash, "/e/a", Inode(5));
    var rs := LinkAndRename(hash);
    assert Child("/e", "a") == "/e/a" && Child("/e", ".nfs1") == "/e/.nfs1";
    assert ".nfs1"[..4] == ".nfs" && StrictName(".nfs1");
    var s2 := State(ONE_NAME, map[root := "/e", h := "/e/a"]);
    var s3 := State(TWO_NAMES, s2.handles);
    var s4 := State(TWO_NAMES, map[root := "/e", h := "/e/.nfs1"]);
    assert Step(DEMO, hash, s2, rs[2]).s == s3;
    assert Step(DEMO, hash, s3, rs[3]).s == s4;
    hide Step;
    RunCons(DEMO, hash, s3, rs[3], []);
    RunCons(DEMO, hash, s2, rs[2], [rs[3]]);
    assert rs[2..] == [rs[2]] + [rs[3]];
  }

  lemma LinkAndRenameMoves(hash: Hash)
    requires MountHandle(DEMO, hash) != HandleOf(hash, "/e/a", Inode(5))
    ensures Run(DEMO, hash, State(ONE_NAME, map[]), LinkAndRename(hash)) ==
            Some(State(TWO_NAMES, map[MountHandle(DEMO, hash) := "/e", HandleOf(hash, "/e/a", Inode(5)) := "/e/.nfs1"]))
  {
    var root, h := MountHandle(DEMO, hash), HandleOf(hash, "/e/a", Inode(5));
    var rs := LinkAndRename(hash);
    assert Child("/e", "a") == "/e/a";
    var s0 := State(ONE_NAME, map[]);
    var s1 := State(ONE_NAME, map[root := "/e"]);
    var s2 := State(ONE_NAME, map[root := "/e", h := "/e/a"]);
    assert Step(DEMO, hash, s0, rs[0]).s == s1;
    assert Step(DEMO, hash, s1, rs[1]).s == s2;
    hide Step;
    LinkThenRename(hash);
    RunCons(DEMO, hash, s1, rs[1], rs[2..]);
    RunCons(DEMO, hash, s0, rs[0], rs[1..]);
    assert rs[1..] == [rs[1]] + rs[2..] && rs == [rs[0]] + rs[1..];
  }

  /** It happens with any hash: the rename does nothing to a pair of hard links, but moves the handle, and the next
      Lookup of "a" kills the server, though the handle it computes was issued for that very file. */
  lemma MovedHandleAborts(hash: Hash)
    requires MountHandle(DEMO, hash) != HandleOf(hash, "/e/a", Inode(5))
    ensures Run(DEMO, hash, State(ONE_NAME, map[]), LinkAndRename(hash)).Some?
    ensures Run(DEMO, hash, State(ONE_NAME, map[]), LinkAndRename(hash) + [Lookup(MountHandle(DEMO, hash), "a")]) == None
  {
    var root := MountHandle(DEMO, hash);
    var look := Lookup(root, "a");
    LinkAndRenameMoves(hash);
    var end := Run(DEMO, hash, State(ONE_NAME, map[]), LinkAndRename(hash)).value;
    assert Child("/e", "a") == "/e/a";
    assert Hashed(DEMO, end, look) == Some(Hashing("/e/a", Inode(5)));
    AbortsIff(DEMO, hash, end, look);
    hide Step;
    RunAppend(DEMO, hash, State(ONE_NAME, map[]), LinkAndRename(hash), look);
  }

  lemma {:induction false} RunAppend(cfg: Config, hash: Hash, s: State, rs: seq<Request>, r: Request)
    ensures var e := Run(cfg, hash, s, rs);
            Run(cfg, hash, s, rs + [r]) ==
            if e.None? || Step(cfg, hash, e.value, r).Aborted? then None else Some(Step(cfg, hash, e.value, r).s)
    decreases |rs|
  {
    hide Step;
    if rs == [] {
      assert [] + [r] == [r] && [r][1..] == [];
    } else {
      assert (rs + [r])[1..] == rs[1..] + [r];
      var d := Step(cfg, hash, s, rs[0]);
      if d.Done? {
        RunAppend(cfg, hash, d.s, rs[1..], r);
      }
    }
  }

  lemma RunCons(cfg: Config, hash: Hash, s: State, r: Request, rs: seq<Request>)
    ensures var d := Step(cfg, hash, s, r);
            Run(cfg, hash, s, [r] + rs) == if d.Aborted? then None else Run(cfg, hash, d.s, rs)
  {
    assert ([r] + rs)[1..] == rs;
  }

  // ---------------------------------------------------------------- which file a handle serves

  /** GetFileAttr answers by path and never looks at the inode again. Over every run from an empty table, a handle that
      no silly rename has moved is answered exactly while its path exists, and for the file it was issued for exactly
      while the path has the inode and filesystem it had then. */
  lemma ServesItsFileIff(cfg: Config, hash: Hash, fs: Fs, rs: seq<Request>, h: nat)
    requires Track(cfg, hash, State(fs, map[]), rs, History(map[], {})).Some?
    requires var e := Track(cfg, hash, State(fs, map[]), rs, History(map[], {})).value;
             h in e.0.handles && h !in e.1.moved
    ensures var e := Track(cfg, hash, State(fs, map[]), rs, History(map[], {})).value;
            && Run(cfg, hash, State(fs, map[]), rs) == Some(e.0) && h in e.1.births
            && var b := e.1.births[h];
            && h == hash(b.path, b.ino, b.fsid)
            && (GetFileAttrStep(e.0, h).status == OK <==> b.path in e.0.fs)
            && (GetFileAttrStep(e.0, h).status == OK && Names(e.0.fs, e.0.handles[h], b.ino, b.fsid) <==>
                Names(e.0.fs, b.path, b.ino, b.fsid))
  {
    FreshServer(cfg, hash, fs, rs);
  }

  const REPLACED: Fs := map["/e" := ROOT_DIR, "/e/a" := Inode(6)]

  /** The other case happens: a client looks up "a", "b" is renamed over it, and the handle of the old file answers for
      the new one. */
  lemma ReplacedFileIsServed(hash: Hash)
    requires MountHandle(DEMO, hash) != HandleOf(hash, "/e/a", Inode(5))
    ensures var root, h := MountHandle(DEMO, hash), HandleOf(hash, "/e/a", Inode(5));
            var start := State(map["/e" := ROOT_DIR, "/e/a" := Inode(5), "/e/b" := Inode(6)], map[]);
            var end := Run(DEMO, hash, start, [Mount("/e"), Lookup(root, "a"), Rename(root, "b", root, "a", Outcome(true, REPLACED))]);
            && end == Some(State(REPLACED, map[root := "/e", h := "/e/a"]))
            && GetFileAttrStep(end.value, h).status == OK && end.value.fs[end.value.handles[h]].ino == 6
  {
    var root, h := MountHandle(DEMO, hash), HandleOf(hash, "/e/a", Inode(5));
    var s0 := State(map["/e" := ROOT_DIR, "/e/a" := Inode(5), "/e/b" := Inode(6)], map[]);
    var s1 := s0.(handles := map[root := "/e"]);
    var s2 := s0.(handles := map[root := "/e", h := "/e/a"]);
    var s3 := State(REPLACED, s2.handles);
    var rs := [Mount("/e"), Lookup(root, "a"), Rename(root, "b", root, "a", Outcome(true, REPLACED))];
    assert Child("/e", "a") == "/e/a" && Child("/e", "b") == "/e/b";
    assert Step(DEMO, hash, s0, rs[0]).s == s1;
    assert Step(DEMO, hash, s1, rs[1]).s == s2;
    assert !IsSilly("a");
    assert Step(DEMO, hash, s2, rs[2]).s == s3;
    hide Step;
    RunCons(DEMO, hash, s2, rs[2], []);
    RunCons(DEMO, hash, s1, rs[1], [rs[2]]);
    RunCons(DEMO, hash, s0, rs[0], [rs[1], rs[2]]);
    assert rs == [rs[0]] + [rs[1], rs[2]];
  }
}

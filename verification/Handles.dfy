/** nfs3/allunix.go: the file-handle table as a state machine over an abstract filesystem.

    A handle is the hash of a path, an inode and a filesystem id; the hash is a parameter and may collide. The
    filesystem is the set of paths lstat succeeds on, with what it reports. Each request is one atomic step, except
    that a system call that changes files may leave any filesystem behind. */
module Handles {
  import opened Xdr

  type Path = string

  datatype Kind = Regular | Directory | Other

  datatype Attr = Attr(ino: nat, fsid: nat, kind: Kind)

  type Fs = map<Path, Attr>

  type Hash = (Path, nat, nat) -> nat

  type Table = map<nat, Path>

  datatype Config = Config(exportPath: Path, fid: nat, fsid: nat, writeaccess: bool)

  /** What becomes of a system call that changes files: whether it succeeds, and the filesystem afterwards. */
  datatype Outcome = Outcome(ok: bool, after: Fs)

  datatype Status = OK | STALE | ACCES | EXIST | INVAL | ROFS | NOT_SYNC | OsError

  datatype State = State(fs: Fs, handles: Table)

  /** log.Fatalf ends the server. */
  datatype Result = Done(s: State, status: Status, issued: Option<nat>) | Aborted

  datatype MakeKind = Mkdir | Create | SymLink

  datatype Request =
    | Mount(path: Path)
    | UnMount(path: Path)
    | GetFileAttr(h: nat)
    | ListDir(h: nat, ok: bool)
    | Lookup(h: nat, name: string)
    | Make(kind: MakeKind, h: nat, name: string, os: Outcome)
    | Modify(h: nat, write: bool, guardOk: bool, os: Outcome)
    | Remove(h: nat, name: string, rmdir: bool, os: Outcome)
    | Link(oldH: nat, dirH: nat, name: string, os: Outcome)
    | Rename(fromH: nat, fromName: string, toH: nat, toName: string, os: Outcome)
    | Environment(after: Fs)

  // ---------------------------------------------------------------- names

  predicate PlainName(name: string) { name != "" && '/' !in name }

  predicate StrictName(name: string) { PlainName(name) && name != "." && name != ".." }

  function Child(dir: Path, name: string): Path { dir + "/" + name }

  predicate IsSilly(name: string) { ".nfs" <= name }

  /** Rmdir tests its name with || where Remove has &&. */
  predicate RemovableName(name: string, rmdir: bool) {
    if rmdir then name != "" || ('/' !in name && name != "." && name != "..") else StrictName(name)
  }

  // ---------------------------------------------------------------- steps

  /** A handle is dropped when the path it stood for cannot be stat'ed. */
  function PostStat(fs: Fs, t: Table, h: nat, p: Path): Table { if p in fs then t else t - {h} }

  function MountHandle(cfg: Config, hash: Hash): nat { hash(cfg.exportPath, cfg.fid, cfg.fsid) }

  function HandleOf(hash: Hash, p: Path, a: Attr): nat { hash(p, a.ino, a.fsid) }

  /** Issue a handle for an existing path: a binding to another path is reset if that path is gone, else it is a collision. */
  function Bind(hash: Hash, fs: Fs, t: Table, p: Path): Option<Table>
    requires p in fs
  {
    var h := HandleOf(hash, p, fs[p]);
    if h !in t || t[h] == p || t[h] !in fs then Some(t[h := p]) else None
  }

  function Stay(s: State, status: Status): Result { Done(s, status, None) }

  function MountStep(cfg: Config, hash: Hash, s: State, p: Path): Result {
    if p != cfg.exportPath then Stay(s, ACCES)
    else
      var h := MountHandle(cfg, hash);
      Done(s.(handles := if h in s.handles then s.handles else s.handles[h := p]), OK, Some(h))
  }

  function UnMountStep(cfg: Config, hash: Hash, s: State, p: Path): Result {
    Stay(if p == cfg.exportPath then s.(handles := s.handles - {MountHandle(cfg, hash)}) else s, OK)
  }

  function GetFileAttrStep(s: State, h: nat): Result {
    if h !in s.handles then Stay(s, STALE)
    else if s.handles[h] in s.fs then Stay(s, OK)
    else Stay(s.(handles := s.handles - {h}), STALE)
  }

  /** ReadDir as far as the table goes; ok is whether the directory could be opened and read. */
  function ListDirStep(s: State, h: nat, ok: bool): Result {
    var d := GetFileAttrStep(s, h);
    if d.Done? && d.status == OK && !ok then Stay(s, OsError) else d
  }

  function LookupStep(cfg: Config, hash: Hash, s: State, h: nat, name: string): Result {
    if h !in s.handles then Stay(s, STALE)
    else
      var dir := s.handles[h];
      if dir !in s.fs then Stay(s.(handles := s.handles - {h}), STALE)
      else if !PlainName(name) then Stay(s, ACCES)
      else
        var p := Child(dir, if dir == cfg.exportPath && name == ".." then "." else name);
        if p !in s.fs then Stay(s, OsError)
        else
          match Bind(hash, s.fs, s.handles, p)
          case None => Aborted
          case Some(t) => Done(s.(handles := t), OK, Some(HandleOf(hash, p, s.fs[p])))
  }

  function BadNameStatus(kind: MakeKind, name: string): Status {
    if kind != Mkdir then INVAL else if PlainName(name) then EXIST else ACCES
  }

  /** Mkdir, Create and SymLink. */
  function MakeStep(cfg: Config, hash: Hash, s: State, kind: MakeKind, h: nat, name: string, os: Outcome): Result {
    if h !in s.handles then Stay(s, STALE)
    else
      var dir := s.handles[h];
      if dir !in s.fs then Stay(s.(handles := s.handles - {h}), STALE)
      else if !cfg.writeaccess then Stay(s, ROFS)
      else if !StrictName(name) then Stay(s, BadNameStatus(kind, name))
      else
        var p := Child(dir, name);
        if !os.ok then Stay(State(os.after, PostStat(os.after, s.handles, h, dir)), OsError)
        else if p !in os.after then
          Stay(State(os.after, PostStat(os.after, s.handles, h, dir)), if kind == SymLink then STALE else OsError)
        else
          match Bind(hash, os.after, s.handles, p)
          case None => Aborted
          case Some(t) =>
            Done(State(os.after, PostStat(os.after, t, h, dir)), OK, Some(HandleOf(hash, p, os.after[p])))
  }

  /** Setattr and Write: a stat, the change, and a stat. */
  function ModifyStep(cfg: Config, s: State, h: nat, write: bool, guardOk: bool, os: Outcome): Result {
    if h !in s.handles then Stay(s, STALE)
    else
      var p := s.handles[h];
      if p !in s.fs then Stay(s.(handles := s.handles - {h}), STALE)
      else if !cfg.writeaccess then Stay(s, ROFS)
      else if write && s.fs[p].kind != Regular then Stay(s, INVAL)
      else if !write && !guardOk then Stay(s, NOT_SYNC)
      else Stay(State(os.after, PostStat(os.after, s.handles, h, p)), if os.ok then OK else OsError)
  }

  /** Remove and Rmdir. */
  function RemoveStep(cfg: Config, s: State, h: nat, name: string, rmdir: bool, os: Outcome): Result {
    if h !in s.handles then Stay(s, STALE)
    else
      var dir := s.handles[h];
      if dir !in s.fs then Stay(s.(handles := s.handles - {h}), STALE)
      else if !cfg.writeaccess then Stay(s, ROFS)
      else if !RemovableName(name, rmdir) then Stay(s, INVAL)
      else Stay(State(os.after, PostStat(os.after, s.handles, h, dir)), if os.ok then OK else OsError)
  }

  /** Remove refuses the names that are not strict, and Rmdir refuses none: with a live directory and write access any
      name at all reaches the system call. */
  lemma RemoveRefusesIff(cfg: Config, s: State, h: nat, name: string, rmdir: bool, os: Outcome)
    requires cfg.writeaccess && h in s.handles && s.handles[h] in s.fs
    ensures var d := RemoveStep(cfg, s, h, name, rmdir, os);
            && (d == Done(s, INVAL, None) <==> !rmdir && !StrictName(name))
            && (rmdir || StrictName(name) ==> d.s.fs == os.after && d.status == if os.ok then OK else OsError)
  {
  }

  /** A failed request still stats the path of another handle. */
  function Probe(fs: Fs, t: Table, h: nat): Table {
    if h in t then PostStat(fs, t, h, t[h]) else t
  }

  /** The directory first; the old file only if the directory is still there. */
  function LinkPost(fs: Fs, t: Table, oldH: nat, oldName: Path, dirH: nat, dir: Path): Table {
    if dir in fs then PostStat(fs, t, oldH, oldName) else t - {dirH}
  }

  function LinkStep(cfg: Config, s: State, oldH: nat, dirH: nat, name: string, os: Outcome): Result {
    var t := s.handles;
    if dirH !in t then Stay(s.(handles := Probe(s.fs, t, oldH)), STALE)
    else if t[dirH] !in s.fs then Stay(s.(handles := Probe(s.fs, t - {dirH}, oldH)), STALE)
    else if oldH !in t then Stay(s, STALE)
    else if t[oldH] !in s.fs then Stay(s.(handles := t - {oldH}), STALE)
    else if !cfg.writeaccess then Stay(s, ROFS)
    else if !StrictName(name) then Stay(s, INVAL)
    else Stay(State(os.after, LinkPost(os.after, t, oldH, t[oldH], dirH, t[dirH])), if os.ok then OK else OsError)
  }

  /** After a silly rename the handle of the old name is made to point at the new one. */
  function Redirect(hash: Hash, fs: Fs, t: Table, from: Path, to: Path): Option<Table> {
    if to !in fs then Some(t)
    else
      var h := HandleOf(hash, from, fs[to]);
      if h !in t then Some(t) else if t[h] == from then Some(t[h := to]) else None
  }

  function RenameStep(cfg: Config, hash: Hash, s: State, fromH: nat, fromName: string, toH: nat, toName: string,
                      os: Outcome): Result {
    var t := s.handles;
    if fromH !in t then Stay(s.(handles := Probe(s.fs, t, toH)), STALE)
    else if t[fromH] !in s.fs then Stay(s.(handles := Probe(s.fs, t - {fromH}, toH)), STALE)
    else if toH !in t then Stay(s, STALE)
    else if t[toH] !in s.fs then Stay(s.(handles := t - {toH}), STALE)
    else if !cfg.writeaccess then Stay(s, ROFS)
    else if !StrictName(fromName) || !StrictName(toName) then Stay(s, INVAL)
    else
      var fromDir, toDir := t[fromH], t[toH];
      var redirected := if os.ok && IsSilly(toName)
                        then Redirect(hash, os.after, t, Child(fromDir, fromName), Child(toDir, toName))
                        else Some(t);
      match redirected
      case None => Aborted
      case Some(t1) =>
        var t2 := PostStat(os.after, t1, fromH, fromDir);
        Stay(State(os.after, PostStat(os.after, t2, toH, toDir)), if os.ok then OK else OsError)
  }

  function Step(cfg: Config, hash: Hash, s: State, r: Request): Result {
    match r
    case Mount(p) => MountStep(cfg, hash, s, p)
    case UnMount(p) => UnMountStep(cfg, hash, s, p)
    case GetFileAttr(h) => GetFileAttrStep(s, h)
    case ListDir(h, ok) => ListDirStep(s, h, ok)
    case Lookup(h, name) => LookupStep(cfg, hash, s, h, name)
    case Make(kind, h, name, os) => MakeStep(cfg, hash, s, kind, h, name, os)
    case Modify(h, write, guardOk, os) => ModifyStep(cfg, s, h, write, guardOk, os)
    case Remove(h, name, rmdir, os) => RemoveStep(cfg, s, h, name, rmdir, os)
    case Link(oldH, dirH, name, os) => LinkStep(cfg, s, oldH, dirH, name, os)
    case Rename(fromH, fromName, toH, toName, os) => RenameStep(cfg, hash, s, fromH, fromName, toH, toName, os)
    case Environment(after) => Stay(s.(fs := after), OK)
  }

  // ---------------------------------------------------------------- answers

  /** The handle is in the table and its path exists. */
  predicate Live(s: State, h: nat) { h in s.handles && s.handles[h] in s.fs }

  /** The path a Lookup or a creating request is about. */
  function Target(cfg: Config, s: State, r: Request): Path
    requires (r.Lookup? || r.Make?) && r.h in s.handles
  {
    s.handles[r.h] + "/" + if r.Lookup? && s.handles[r.h] == cfg.exportPath && r.name == ".." then "." else r.name
  }

  /** The request gets as far as the system call that changes files. */
  predicate Reaches(cfg: Config, s: State, r: Request) {
    match r
    case Make(_, h, name, _) => Live(s, h) && cfg.writeaccess && name != "" && '/' !in name && name != "." && name != ".."
    case Modify(h, write, guardOk, _) =>
      Live(s, h) && cfg.writeaccess && (if write then s.fs[s.handles[h]].kind == Regular else guardOk)
    case Remove(h, name, rmdir, _) =>
      Live(s, h) && cfg.writeaccess && (rmdir || (name != "" && '/' !in name && name != "." && name != ".."))
    case Link(oldH, dirH, name, _) =>
      Live(s, oldH) && Live(s, dirH) && cfg.writeaccess && name != "" && '/' !in name && name != "." && name != ".."
    case Rename(fromH, fromName, toH, toName, _) =>
      && Live(s, fromH) && Live(s, toH) && cfg.writeaccess
      && fromName != "" && '/' !in fromName && fromName != "." && fromName != ".."
      && toName != "" && '/' !in toName && toName != "." && toName != ".."
    case _ => false
  }

  /** The handles a request is given are all live. */
  predicate HandlesLive(s: State, r: Request) {
    match r
    case GetFileAttr(h) => Live(s, h)
    case ListDir(h, _) => Live(s, h)
    case Lookup(h, _) => Live(s, h)
    case Make(_, h, _, _) => Live(s, h)
    case Modify(h, _, _, _) => Live(s, h)
    case Remove(h, _, _, _) => Live(s, h)
    case Link(oldH, dirH, _, _) => Live(s, oldH) && Live(s, dirH)
    case Rename(fromH, _, toH, _, _) => Live(s, fromH) && Live(s, toH)
    case _ => true
  }

  predicate Changes(r: Request) { r.Make? || r.Modify? || r.Remove? || r.Link? || r.Rename? }

  /** Success, each condition written out. */
  predicate AnswersOk(cfg: Config, s: State, r: Request) {
    match r
    case Mount(p) => p == cfg.exportPath
    case ListDir(h, ok) => Live(s, h) && ok
    case Lookup(h, name) => Live(s, h) && name != "" && '/' !in name && Target(cfg, s, r) in s.fs
    case Make(_, h, _, os) => Reaches(cfg, s, r) && os.ok && Target(cfg, s, r) in os.after
    case UnMount(_) => true
    case GetFileAttr(h) => Live(s, h)
    case Environment(_) => true
    case _ => Reaches(cfg, s, r) && r.os.ok
  }

  /** What a request answers, and when: each status exactly under its own condition. */
  predicate StatusIs(cfg: Config, s: State, r: Request, status: Status) {
    && (status == OK <==> AnswersOk(cfg, s, r))
    && (status == STALE <==>
          !HandlesLive(s, r) ||
          (r.Make? && r.kind == SymLink && Reaches(cfg, s, r) && r.os.ok && Target(cfg, s, r) !in r.os.after))
    && (status == ROFS <==> Changes(r) && HandlesLive(s, r) && !cfg.writeaccess)
    && (status == NOT_SYNC <==> r.Modify? && Live(s, r.h) && cfg.writeaccess && !r.write && !r.guardOk)
    && (status == ACCES <==>
          || (r.Mount? && r.path != cfg.exportPath)
          || (r.Lookup? && Live(s, r.h) && (r.name == "" || '/' in r.name))
          || (r.Make? && r.kind == Mkdir && Live(s, r.h) && cfg.writeaccess && (r.name == "" || '/' in r.name)))
    && (status == EXIST <==>
          r.Make? && r.kind == Mkdir && Live(s, r.h) && cfg.writeaccess && (r.name == "." || r.name == ".."))
    && (status == INVAL <==>
          Changes(r) && HandlesLive(s, r) && cfg.writeaccess && !Reaches(cfg, s, r) &&
          !(r.Make? && r.kind == Mkdir) && !(r.Modify? && !r.write))
  }

  /** A handle is given out exactly on success of a Mount, a Lookup or a creating request: the hash of the path with what
      lstat says of it, or of the export path with its configured numbers. */
  predicate IssuedIs(cfg: Config, hash: Hash, s: State, r: Request, status: Status, issued: Option<nat>) {
    && (issued.Some? <==> (r.Mount? || r.Lookup? || r.Make?) && status == OK)
    && (r.Mount? && issued.Some? ==> issued.value == hash(cfg.exportPath, cfg.fid, cfg.fsid))
    && (r.Lookup? && issued.Some? ==>
          Live(s, r.h) && Target(cfg, s, r) in s.fs &&
          var p := Target(cfg, s, r); issued.value == hash(p, s.fs[p].ino, s.fs[p].fsid))
    && (r.Make? && issued.Some? ==>
          Live(s, r.h) && Target(cfg, s, r) in r.os.after &&
          var p := Target(cfg, s, r); issued.value == hash(p, r.os.after[p].ino, r.os.after[p].fsid))
  }

  /** The filesystem changes by the system call, if the request gets there, and by other processes. */
  predicate FilesAre(cfg: Config, s: State, r: Request, fs: Fs) {
    fs == if r.Environment? then r.after else if Reaches(cfg, s, r) then r.os.after else s.fs
  }

  /** The request takes the handle out of the table: the export's on UnMount, else a handle of the request whose path is
      gone when it is stat'ed, before a system call or after it. After a Link the old file is stat'ed only if the
      directory is still there. */
  predicate Drops(cfg: Config, hash: Hash, s: State, r: Request, g: nat)
    requires g in s.handles
  {
    var p := s.handles[g];
    match r
    case UnMount(path) => path == cfg.exportPath && g == hash(cfg.exportPath, cfg.fid, cfg.fsid)
    case GetFileAttr(h) => g == h && p !in s.fs
    case ListDir(h, _) => g == h && p !in s.fs
    case Lookup(h, _) => g == h && p !in s.fs
    case Make(_, h, _, os) => g == h && p !in (if Reaches(cfg, s, r) then os.after else s.fs)
    case Modify(h, _, _, os) => g == h && p !in (if Reaches(cfg, s, r) then os.after else s.fs)
    case Remove(h, _, _, os) => g == h && p !in (if Reaches(cfg, s, r) then os.after else s.fs)
    case Link(oldH, dirH, _, os) =>
      if Reaches(cfg, s, r) then p !in os.after && (g == dirH || (g == oldH && s.handles[dirH] in os.after))
      else (g == dirH || g == oldH) && p !in s.fs
    case Rename(fromH, _, toH, _, os) =>
      (g == fromH || g == toH) && p !in (if Reaches(cfg, s, r) then os.after else s.fs)
    case _ => false
  }

  /** A rename to a name that begins with ".nfs" succeeded, and the handle, bound to the old name, is the hash of that
      name with the inode the new one has. */
  predicate Follows(cfg: Config, hash: Hash, s: State, r: Request, g: nat)
    requires g in s.handles
  {
    && r.Rename? && Reaches(cfg, s, r) && r.os.ok
    && |r.toName| >= 4 && r.toName[0] == '.' && r.toName[1] == 'n' && r.toName[2] == 'f' && r.toName[3] == 's'
    && var from, to := s.handles[r.fromH] + "/" + r.fromName, s.handles[r.toH] + "/" + r.toName;
       to in r.os.after && s.handles[g] == from && g == hash(from, r.os.after[to].ino, r.os.after[to].fsid)
  }

  /** The path of a handle that stays in the table: the new name if it follows a rename, the path asked for if it was
      just given out for that, and else the one it had. */
  function Bound(cfg: Config, hash: Hash, s: State, r: Request, issued: Option<nat>, g: nat): Path
    requires g in s.handles
  {
    if Follows(cfg, hash, s, r, g) then s.handles[r.toH] + "/" + r.toName
    else if (r.Lookup? || r.Make?) && r.h in s.handles && issued == Some(g) then Target(cfg, s, r)
    else s.handles[g]
  }

  /** The table loses the dropped handles and gains the one given out. */
  predicate TableIs(cfg: Config, hash: Hash, s: State, r: Request, issued: Option<nat>, t: Table) {
    && (forall g :: g in s.handles ==> (g !in t <==> Drops(cfg, hash, s, r, g)))
    && (forall g :: g in s.handles && g in t ==> t[g] == Bound(cfg, hash, s, r, issued, g))
    && (forall g :: g in t && g !in s.handles ==> issued == Some(g))
    && (issued.Some? && issued.value !in s.handles ==> issued.value in t)
    && ((r.Lookup? || r.Make?) && issued.Some? && issued.value in t ==> Live(s, r.h) && t[issued.value] == Target(cfg, s, r))
    && (r.Mount? && issued.Some? && issued.value !in s.handles ==> issued.value in t && t[issued.value] == cfg.exportPath)
  }

  predicate Answered(cfg: Config, hash: Hash, s: State, r: Request, status: Status, issued: Option<nat>, s': State) {
    && StatusIs(cfg, s, r, status) && IssuedIs(cfg, hash, s, r, status, issued)
    && FilesAre(cfg, s, r, s'.fs) && TableIs(cfg, hash, s, r, issued, s'.handles)
  }

  lemma StepStatus(cfg: Config, hash: Hash, s: State, r: Request)
    requires Step(cfg, hash, s, r).Done?
    ensures StatusIs(cfg, s, r, Step(cfg, hash, s, r).status)
  {
  }

  lemma StepIssued(cfg: Config, hash: Hash, s: State, r: Request)
    requires Step(cfg, hash, s, r).Done?
    ensures var d := Step(cfg, hash, s, r); IssuedIs(cfg, hash, s, r, d.status, d.issued) && FilesAre(cfg, s, r, d.s.fs)
  {
  }

  lemma StepDrops(cfg: Config, hash: Hash, s: State, r: Request, g: nat)
    requires Step(cfg, hash, s, r).Done? && g in s.handles
    ensures g !in Step(cfg, hash, s, r).s.handles <==> Drops(cfg, hash, s, r, g)
  {
  }

  lemma StepBound(cfg: Config, hash: Hash, s: State, r: Request, g: nat)
    requires Step(cfg, hash, s, r).Done? && g in s.handles && g in Step(cfg, hash, s, r).s.handles
    ensures var d := Step(cfg, hash, s, r); d.s.handles[g] == Bound(cfg, hash, s, r, d.issued, g)
  {
  }

  lemma StepTable(cfg: Config, hash: Hash, s: State, r: Request)
    requires Step(cfg, hash, s, r).Done?
    ensures var d := Step(cfg, hash, s, r); TableIs(cfg, hash, s, r, d.issued, d.s.handles)
  {
    hide Drops, Reaches, Bound;
    forall g | g in s.handles && g in Step(cfg, hash, s, r).s.handles
      ensures Step(cfg, hash, s, r).s.handles[g] == Bound(cfg, hash, s, r, Step(cfg, hash, s, r).issued, g)
    {
      StepBound(cfg, hash, s, r, g);
    }
    forall g | g in s.handles ensures g !in Step(cfg, hash, s, r).s.handles <==> Drops(cfg, hash, s, r, g) {
      StepDrops(cfg, hash, s, r, g);
    }
  }

  /** Every request that does not abort is answered as described. */
  lemma StepAnswered(cfg: Config, hash: Hash, s: State, r: Request)
    ensures var d := Step(cfg, hash, s, r); d.Done? ==> Answered(cfg, hash, s, r, d.status, d.issued, d.s)
  {
    hide Step, StatusIs, IssuedIs, FilesAre, TableIs;
    if Step(cfg, hash, s, r).Done? {
      StepStatus(cfg, hash, s, r);
      StepIssued(cfg, hash, s, r);
      StepTable(cfg, hash, s, r);
    }
  }

  // ---------------------------------------------------------------- bindings

  /** The hash of this path with the inode it has now, or the export directory's configured handle. */
  predicate IssuedFor(cfg: Config, hash: Hash, fs: Fs, h: nat, p: Path) {
    || (p in fs && h == HandleOf(hash, p, fs[p]))
    || (p == cfg.exportPath && h == MountHandle(cfg, hash))
  }

  /** The request is a silly rename of one path to another. */
  predicate SillyRename(t: Table, r: Request, from: Path, to: Path) {
    && r.Rename? && r.os.ok && IsSilly(r.toName) && r.fromH in t && r.toH in t
    && from == Child(t[r.fromH], r.fromName) && to == Child(t[r.toH], r.toName)
  }

  /** How a binding h -> q of the new table came about. */
  datatype Origin = Kept | Issued | Reset | Moved

  predicate OriginIs(cfg: Config, hash: Hash, s: State, r: Request, s': State, h: nat, o: Origin)
    requires h in s'.handles
  {
    var q := s'.handles[h];
    match o
    case Kept => h in s.handles && s.handles[h] == q
    case Issued => h !in s.handles && IssuedFor(cfg, hash, s'.fs, h, q)
    case Reset => h in s.handles && s.handles[h] != q && s.handles[h] !in s'.fs && q in s'.fs && h == HandleOf(hash, q, s'.fs[q])
    case Moved => h in s.handles && SillyRename(s.handles, r, s.handles[h], q) && q in s'.fs &&
                  h == HandleOf(hash, s.handles[h], s'.fs[q])
  }

  ghost predicate HasOrigin(cfg: Config, hash: Hash, s: State, r: Request, s': State, h: nat)
    requires h in s'.handles
  {
    exists o :: OriginIs(cfg, hash, s, r, s', h, o)
  }

  /** In any step a handle keeps its path, or is new, or is reset from a path that is gone, or follows a silly rename.
      In every other case the server has aborted. */
  lemma StepBindings(cfg: Config, hash: Hash, s: State, r: Request, h: nat)
    requires Step(cfg, hash, s, r).Done? && h in Step(cfg, hash, s, r).s.handles
    ensures HasOrigin(cfg, hash, s, r, Step(cfg, hash, s, r).s, h)
  {
    var s' := Step(cfg, hash, s, r).s;
    if h in s.handles && s.handles[h] == s'.handles[h] {
      assert OriginIs(cfg, hash, s, r, s', h, Kept);
    } else if r.Rename? {
      assert OriginIs(cfg, hash, s, r, s', h, Moved);
    } else {
      assert r.Mount? || r.Lookup? || r.Make?;
      assert if h in s.handles then OriginIs(cfg, hash, s, r, s', h, Reset) else OriginIs(cfg, hash, s, r, s', h, Issued);
    }
  }

  /** A binding changes from p to q only when p is gone, or by a silly rename of p to q. */
  lemma RebindingIsJustified(cfg: Config, hash: Hash, s: State, r: Request, h: nat)
    requires Step(cfg, hash, s, r).Done? && h in s.handles && h in Step(cfg, hash, s, r).s.handles
    requires Step(cfg, hash, s, r).s.handles[h] != s.handles[h]
    ensures var s' := Step(cfg, hash, s, r).s;
            || s.handles[h] !in s'.fs
            || SillyRename(s.handles, r, s.handles[h], s'.handles[h])
  {
    StepBindings(cfg, hash, s, r, h);
  }
}

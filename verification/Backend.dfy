/** nfs3/allunix.go: the Backend object, whose methods stat and change files and update the handle table in place.
    Reply attributes are left out; every method is tied to its step in module Handles. */
module Backend {
  import opened Xdr
  import opened Handles
  import HandleRuns

  /** The operating system's files, as lstat shows them. */
  class FileSystem {
    var files: Fs

    constructor (files: Fs)
      ensures this.files == files
    {
      this.files := files;
    }

    method Lstat(p: Path) returns (found: bool, a: Attr)
      ensures found == (p in files) && (found ==> a == files[p])
    {
      found := p in files;
      a := if found then files[p] else Attr(0, 0, Other);
    }

    /** A system call that changes files. */
    method Apply(os: Outcome) returns (ok: bool)
      modifies this
      ensures files == os.after && ok == os.ok
    {
      files := os.after;
      ok := os.ok;
    }
  }

  class Server {
    const fs: FileSystem
    const config: Config
    const hash: Hash
    var fhandleMap: Table
    ghost var hist: HandleRuns.History

    constructor (fs: FileSystem, config: Config, hash: Hash)
      ensures this.fs == fs && this.config == config && this.hash == hash && fhandleMap == map[]
      ensures Valid() && hist == HandleRuns.History(map[], {})
    {
      this.fs, this.config, this.hash, fhandleMap := fs, config, hash, map[];
      hist := HandleRuns.History(map[], {});
    }

    /** Every handle is the hash of what the history says it was issued for, and names that path unless it was moved;
        every path lies under the export path. */
    ghost predicate Valid()
      reads this, fs
    {
      HandleRuns.Traced(hash, Now(), hist) && HandleRuns.PathsOk(config, fhandleMap)
    }

    ghost function Now(): State
      reads this, fs
    {
      State(fs.files, fhandleMap)
    }

    /** A method ended as its step says: aborted, or with this status, handle and state. */
    ghost predicate EndsAs(d: Result, aborted: bool, status: Status, issued: Option<nat>)
      reads this, fs
    {
      match d
      case Aborted => aborted
      case Done(s, st, h) => !aborted && Now() == s && status == st && issued == h
    }

    method GetValueFromHandle(fHandle: nat) returns (value: Path, found: bool)
      ensures found == (fHandle in fhandleMap) && (found ==> value == fhandleMap[fHandle])
    {
      found := fHandle in fhandleMap;
      value := if found then fhandleMap[fHandle] else "";
    }

    method SetValueForHandle(fHandle: nat, value: Path)
      modifies this`fhandleMap
      ensures fhandleMap == old(fhandleMap)[fHandle := value]
    {
      fhandleMap := fhandleMap[fHandle := value];
    }

    method DeleteHandle(fHandle: nat)
      modifies this`fhandleMap
      ensures fhandleMap == old(fhandleMap) - {fHandle}
    {
      fhandleMap := fhandleMap - {fHandle};
    }

    /** The stat for post-operation attributes: a path that cannot be stat'ed costs its handle. */
    method StatForPost(fHandle: nat, p: Path)
      modifies this`fhandleMap
      ensures fhandleMap == Handles.PostStat(fs.files, old(fhandleMap), fHandle, p)
    {
      var found, a := fs.Lstat(p);
      if !found {
        DeleteHandle(fHandle);
      }
    }

    method Mount(mntPoint: Path) returns (status: Status, issued: Option<nat>)
      modifies this`fhandleMap
      ensures EndsAs(MountStep(config, hash, old(Now()), mntPoint), false, status, issued)
      ensures Answered(config, hash, old(Now()), Request.Mount(mntPoint), status, issued, Now())
    {
      StepAnswered(config, hash, Now(), Request.Mount(mntPoint));
      hide Answered;
      status, issued := ACCES, None;
      if mntPoint == config.exportPath {
        var mountDirFHandle := hash(mntPoint, config.fid, config.fsid);
        var foundname, found := GetValueFromHandle(mountDirFHandle);
        if !found {
          SetValueForHandle(mountDirFHandle, mntPoint);
        }
        status, issued := OK, Some(mountDirFHandle);
      }
    }

    method UnMount(mntPoint: Path)
      modifies this`fhandleMap
      ensures EndsAs(UnMountStep(config, hash, old(Now()), mntPoint), false, OK, None)
      ensures Answered(config, hash, old(Now()), Request.UnMount(mntPoint), OK, None, Now())
    {
      StepAnswered(config, hash, Now(), Request.UnMount(mntPoint));
      hide Answered;
      if mntPoint == config.exportPath {
        var mountDirFHandle := hash(mntPoint, config.fid, config.fsid);
        var foundname, found := GetValueFromHandle(mountDirFHandle);
        if found {
          DeleteHandle(mountDirFHandle);
        } else {
          assert fhandleMap - {mountDirFHandle} == fhandleMap;
        }
      }
    }

    method GetFileAttr(fHandle: nat) returns (status: Status)
      modifies this`fhandleMap
      ensures EndsAs(GetFileAttrStep(old(Now()), fHandle), false, status, None)
      ensures Answered(config, hash, old(Now()), Request.GetFileAttr(fHandle), status, None, Now())
    {
      StepAnswered(config, hash, Now(), Request.GetFileAttr(fHandle));
      hide Answered;
      status := STALE;
      var fileName, found := GetValueFromHandle(fHandle);
      if found {
        var ok, a := fs.Lstat(fileName);
        if ok {
          status := OK;
        } else {
          DeleteHandle(fHandle);
        }
      }
    }

    /** ReadDir on the handle table: a directory that cannot be read is stat'ed again. */
    method ListDir(fHandle: nat, ok: bool) returns (status: Status)
      modifies this`fhandleMap
      ensures EndsAs(ListDirStep(old(Now()), fHandle, ok), false, status, None)
      ensures Answered(config, hash, old(Now()), Request.ListDir(fHandle, ok), status, None, Now())
    {
      StepAnswered(config, hash, Now(), Request.ListDir(fHandle, ok));
      hide Answered;
      status := STALE;
      var dirName, found := GetValueFromHandle(fHandle);
      if found {
        var there, a := fs.Lstat(dirName);
        if there {
          if ok {
            status := OK;
          } else {
            status := OsError;
            StatForPost(fHandle, dirName);
          }
        } else {
          DeleteHandle(fHandle);
        }
      }
    }

    /** The handle of a path just stat'ed, shared by Lookup, Mkdir, Create and SymLink. */
    method IssueHandle(p: Path, a: Attr) returns (newFHandle: nat, aborted: bool)
      requires p in fs.files && a == fs.files[p]
      modifies this`fhandleMap
      ensures newFHandle == HandleOf(hash, p, a)
      ensures match Bind(hash, fs.files, old(fhandleMap), p)
              case None => aborted
              case Some(t) => !aborted && fhandleMap == t
    {
      aborted := false;
      newFHandle := hash(p, a.ino, a.fsid);
      var foundname, found := GetValueFromHandle(newFHandle);
      if !found {
        SetValueForHandle(newFHandle, p);
      } else if foundname != p {
        var exists_, b := fs.Lstat(foundname);
        if !exists_ {
          SetValueForHandle(newFHandle, p);
        } else {
          aborted := true;
        }
      } else {
        assert fhandleMap[newFHandle := p] == fhandleMap;
      }
    }

    method Lookup(fHandle: nat, name: string) returns (status: Status, issued: Option<nat>, aborted: bool)
      modifies this`fhandleMap
      ensures EndsAs(LookupStep(config, hash, old(Now()), fHandle, name), aborted, status, issued)
      ensures !aborted ==> Answered(config, hash, old(Now()), Request.Lookup(fHandle, name), status, issued, Now())
    {
      StepAnswered(config, hash, Now(), Request.Lookup(fHandle, name));
      hide Answered;
      status, issued, aborted := STALE, None, false;
      var dirName, found := GetValueFromHandle(fHandle);
      if found {
        var ok, d := fs.Lstat(dirName);
        if ok {
          if name != "" && '/' !in name {
            var name' := name;
            if dirName == config.exportPath && name == ".." {
              name' := ".";
            }
            var lookupname := dirName + "/" + name';
            var there, a := fs.Lstat(lookupname);
            if there {
              var newFHandle;
              newFHandle, aborted := IssueHandle(lookupname, a);
              status, issued := OK, Some(newFHandle);
            } else {
              status := OsError;
              StatForPost(fHandle, dirName);
            }
          } else {
            status := ACCES;
            StatForPost(fHandle, dirName);
          }
        } else {
          DeleteHandle(fHandle);
        }
      }
    }

    /** Mkdir, Create and SymLink, which differ in the system call and in two status codes. */
    method MakeNode(kind: MakeKind, fHandle: nat, name: string, os: Outcome)
      returns (status: Status, issued: Option<nat>, aborted: bool)
      modifies this`fhandleMap, fs
      ensures EndsAs(MakeStep(config, hash, old(Now()), kind, fHandle, name, os), aborted, status, issued)
      ensures !aborted ==> Answered(config, hash, old(Now()), Make(kind, fHandle, name, os), status, issued, Now())
    {
      StepAnswered(config, hash, Now(), Make(kind, fHandle, name, os));
      hide Answered;
      status, issued, aborted := STALE, None, false;
      var parentname, found := GetValueFromHandle(fHandle);
      if found {
        var ok, d := fs.Lstat(parentname);
        if ok {
          if config.writeaccess == false {
            return ROFS, None, false;
          }
          if name != "" && '/' !in name {
            if name != "." && name != ".." {
              var newName := parentname + "/" + name;
              var done := fs.Apply(os);
              if done {
                var there, a := fs.Lstat(newName);
                if there {
                  var newFHandle;
                  newFHandle, aborted := IssueHandle(newName, a);
                  if aborted {
                    return;
                  }
                  issued := Some(newFHandle);
                  StatForPost(fHandle, parentname);
                  status := OK;
                } else {
                  status := if kind == SymLink then STALE else OsError;
                  StatForPost(fHandle, parentname);
                }
              } else {
                status := OsError;
                StatForPost(fHandle, parentname);
              }
            } else {
              status := if kind == Mkdir then EXIST else INVAL;
              StatForPost(fHandle, parentname);
            }
          } else {
            status := if kind == Mkdir then ACCES else INVAL;
            StatForPost(fHandle, parentname);
          }
        } else {
          DeleteHandle(fHandle);
        }
      }
    }

    /** Setattr (with its guard) and Write (with its file type check). */
    method ModifyFile(fHandle: nat, write: bool, guardOk: bool, os: Outcome) returns (status: Status)
      modifies this`fhandleMap, fs
      ensures EndsAs(ModifyStep(config, old(Now()), fHandle, write, guardOk, os), false, status, None)
      ensures Answered(config, hash, old(Now()), Modify(fHandle, write, guardOk, os), status, None, Now())
    {
      StepAnswered(config, hash, Now(), Modify(fHandle, write, guardOk, os));
      hide Answered;
      status := STALE;
      var fileName, found := GetValueFromHandle(fHandle);
      if found {
        var ok, a := fs.Lstat(fileName);
        if ok {
          if config.writeaccess == false {
            return ROFS;
          }
          if write && a.kind != Regular {
            status := INVAL;
            StatForPost(fHandle, fileName);
          } else if !write && !guardOk {
            status := NOT_SYNC;
            StatForPost(fHandle, fileName);
          } else {
            var done := fs.Apply(os);
            status := if done then OK else OsError;
            StatForPost(fHandle, fileName);
          }
        } else {
          DeleteHandle(fHandle);
        }
      }
    }

    /** Remove and Rmdir. */
    method RemoveNode(dirFHandle: nat, name: string, rmdir: bool, os: Outcome) returns (status: Status)
      modifies this`fhandleMap, fs
      ensures EndsAs(RemoveStep(config, old(Now()), dirFHandle, name, rmdir, os), false, status, None)
      ensures Answered(config, hash, old(Now()), Remove(dirFHandle, name, rmdir, os), status, None, Now())
    {
      StepAnswered(config, hash, Now(), Remove(dirFHandle, name, rmdir, os));
      hide Answered;
      status := STALE;
      var dirName, found := GetValueFromHandle(dirFHandle);
      if found {
        var ok, a := fs.Lstat(dirName);
        if ok {
          if config.writeaccess == false {
            return ROFS;
          }
          if RemovableName(name, rmdir) {
            var done := fs.Apply(os);
            status := if done then OK else OsError;
            StatForPost(dirFHandle, dirName);
          } else {
            status := INVAL;
            StatForPost(dirFHandle, dirName);
          }
        } else {
          DeleteHandle(dirFHandle);
        }
      }
    }

    /** The stat of the other handle of a two-handle request that has already failed. */
    method ProbeHandle(fHandle: nat)
      modifies this`fhandleMap
      ensures fhandleMap == Probe(fs.files, old(fhandleMap), fHandle)
    {
      var name, found := GetValueFromHandle(fHandle);
      if found {
        StatForPost(fHandle, name);
      }
    }

    method LinkNode(oldFHandle: nat, linkDirFHandle: nat, newName: string, os: Outcome) returns (status: Status)
      modifies this`fhandleMap, fs
      ensures EndsAs(LinkStep(config, old(Now()), oldFHandle, linkDirFHandle, newName, os), false, status, None)
      ensures Answered(config, hash, old(Now()), Link(oldFHandle, linkDirFHandle, newName, os), status, None, Now())
    {
      StepAnswered(config, hash, Now(), Link(oldFHandle, linkDirFHandle, newName, os));
      hide Answered;
      status := STALE;
      var linkDir, found := GetValueFromHandle(linkDirFHandle);
      if found {
        var ok, a := fs.Lstat(linkDir);
        if ok {
          var oldName, oldFound := GetValueFromHandle(oldFHandle);
          if oldFound {
            var oldOk, b := fs.Lstat(oldName);
            if oldOk {
              if config.writeaccess == false {
                return ROFS;
              }
              if StrictName(newName) {
                var done := fs.Apply(os);
                status := if done then OK else OsError;
                LinkStats(oldFHandle, oldName, linkDirFHandle, linkDir);
              } else {
                status := INVAL;
                LinkStats(oldFHandle, oldName, linkDirFHandle, linkDir);
              }
            } else {
              DeleteHandle(oldFHandle);
              StatForPost(linkDirFHandle, linkDir);
            }
          } else {
            StatForPost(linkDirFHandle, linkDir);
          }
        } else {
          DeleteHandle(linkDirFHandle);
          ProbeHandle(oldFHandle);
        }
      } else {
        ProbeHandle(oldFHandle);
      }
    }

    method LinkStats(oldFHandle: nat, oldName: Path, linkDirFHandle: nat, linkDir: Path)
      modifies this`fhandleMap
      ensures fhandleMap == LinkPost(fs.files, old(fhandleMap), oldFHandle, oldName, linkDirFHandle, linkDir)
    {
      var ok, a := fs.Lstat(linkDir);
      if ok {
        StatForPost(oldFHandle, oldName);
      } else {
        DeleteHandle(linkDirFHandle);
      }
    }

    /** The part of Rename that serves a client's silly rename. */
    method RedirectSilly(from: Path, to: Path) returns (aborted: bool)
      modifies this`fhandleMap
      ensures match Redirect(hash, fs.files, old(fhandleMap), from, to)
              case None => aborted
              case Some(t) => !aborted && fhandleMap == t
    {
      aborted := false;
      var ok, a := fs.Lstat(to);
      if ok {
        var fromFileHandle := hash(from, a.ino, a.fsid);
        var foundname, found := GetValueFromHandle(fromFileHandle);
        if found {
          if foundname == from {
            SetValueForHandle(fromFileHandle, to);
          } else {
            aborted := true;
          }
        }
      }
    }

    method RenameNode(fromFHandle: nat, fromName: string, toFHandle: nat, toName: string, os: Outcome)
      returns (status: Status, aborted: bool)
      modifies this`fhandleMap, fs
      ensures EndsAs(RenameStep(config, hash, old(Now()), fromFHandle, fromName, toFHandle, toName, os), aborted, status, None)
      ensures !aborted ==> Answered(config, hash, old(Now()), Rename(fromFHandle, fromName, toFHandle, toName, os), status, None, Now())
    {
      StepAnswered(config, hash, Now(), Rename(fromFHandle, fromName, toFHandle, toName, os));
      hide Answered;
      status, aborted := STALE, false;
      var fromDir, found := GetValueFromHandle(fromFHandle);
      if found {
        var ok, a := fs.Lstat(fromDir);
        if ok {
          var toDir, toFound := GetValueFromHandle(toFHandle);
          if toFound {
            var toOk, b := fs.Lstat(toDir);
            if toOk {
              if config.writeaccess == false {
                return ROFS, false;
              }
              if StrictName(fromName) && StrictName(toName) {
                var from, to := fromDir + "/" + fromName, toDir + "/" + toName;
                var done := fs.Apply(os);
                if done && IsSilly(toName) {
                  aborted := RedirectSilly(from, to);
                  if aborted {
                    return;
                  }
                }
                status := if done then OK else OsError;
                StatForPost(fromFHandle, fromDir);
                StatForPost(toFHandle, toDir);
              } else {
                status := INVAL;
                StatForPost(fromFHandle, fromDir);
                StatForPost(toFHandle, toDir);
              }
            } else {
              DeleteHandle(toFHandle);
              StatForPost(fromFHandle, fromDir);
            }
          } else {
            StatForPost(fromFHandle, fromDir);
          }
        } else {
          DeleteHandle(fromFHandle);
          ProbeHandle(toFHandle);
        }
      } else {
        ProbeHandle(toFHandle);
      }
    }

    /** One request, from the network or from another process on the same files. */
    method Handle(r: Request) returns (status: Status, issued: Option<nat>, aborted: bool)
      modifies this, fs
      ensures EndsAs(Step(config, hash, old(Now()), r), aborted, status, issued)
      ensures !aborted ==> hist == HandleRuns.Remember(config, hash, old(Now()), r, Now(), old(hist))
      ensures !aborted ==> Answered(config, hash, old(Now()), r, status, issued, Now())
    {
      StepAnswered(config, hash, Now(), r);
      hide Answered;
      status, issued, aborted := OK, None, false;
      match r {
        case Mount(p) => status, issued := Mount(p);
        case UnMount(p) => UnMount(p);
        case GetFileAttr(h) => status := GetFileAttr(h);
        case ListDir(h, ok) => status := ListDir(h, ok);
        case Lookup(h, name) => status, issued, aborted := Lookup(h, name);
        case Make(kind, h, name, os) => status, issued, aborted := MakeNode(kind, h, name, os);
        case Modify(h, write, guardOk, os) => status := ModifyFile(h, write, guardOk, os);
        case Remove(h, name, rmdir, os) => status := RemoveNode(h, name, rmdir, os);
        case Link(oldH, dirH, name, os) => status := LinkNode(oldH, dirH, name, os);
        case Rename(fromH, fromName, toH, toName, os) => status, aborted := RenameNode(fromH, fromName, toH, toName, os);
        case Environment(after) =>
          var ok := fs.Apply(Outcome(true, after));
      }
      hist := HandleRuns.Remember(config, hash, old(Now()), r, Now(), hist);
    }

    /** The server's life: requests one after the other until one of them aborts it. It does what the run says, and the
        history is that of the run, so what is proved of runs holds of the object. */
    method Serve(rs: seq<Request>) returns (aborted: bool)
      requires Valid()
      modifies this, fs
      ensures aborted <==> HandleRuns.Run(config, hash, old(Now()), rs).None?
      ensures !aborted ==> HandleRuns.Run(config, hash, old(Now()), rs) == Some(Now()) && Valid()
      ensures !aborted ==> HandleRuns.Track(config, hash, old(Now()), rs, old(hist)) == Some((Now(), hist))
      ensures !aborted && !config.writeaccess ==> fs.files == HandleRuns.EnvironmentFs(old(fs.files), rs)
    {
      aborted := false;
      assert rs[0..] == rs;
      for i := 0 to |rs|
        invariant !aborted
        invariant HandleRuns.Run(config, hash, old(Now()), rs) == HandleRuns.Run(config, hash, Now(), rs[i..])
        invariant HandleRuns.Track(config, hash, old(Now()), rs, old(hist)) == HandleRuns.Track(config, hash, Now(), rs[i..], hist)
      {
        var status, issued;
        assert rs[i..][0] == rs[i] && rs[i..][1..] == rs[i + 1..];
        status, issued, aborted := Handle(rs[i]);
        if aborted {
          return;
        }
      }
      HandleRuns.KeysAreHashes(config, hash, old(Now()), rs, old(hist));
      HandleRuns.PathsStayUnderExport(config, hash, old(Now()), rs);
      if !config.writeaccess {
        HandleRuns.ReadOnlyRun(config, hash, old(Now()), rs);
      }
    }
  }
}

/** The runtime layer of the hard-link emulation: link, unlink and rename-over as sequences of
    file-system calls with rollback, on an in-memory file system.

    Any one call that changes the file system may fail for an outside reason (`Fault`); the calls
    that only look (lstat, readlink, access) are reliable.  The count side file is updated by the
    injected atomic update_small. */
module L2sRuntime {
  import opened Wrappers
  import opened Text
  import opened L2sNames
  import opened L2sModel
  import R = L2sRelPath

  const PASSTHRU: int := -4096
  const EPERM: int := 1
  const ENOENT: int := 2
  const EEXIST: int := 17
  const EISDIR: int := 21
  const EINVAL: int := 22
  const ENOSPC: int := 28
  const EMLINK: int := 31
  const ERANGE: int := 34
  const ENAMETOOLONG: int := 36

  /** The call that fails for an outside reason: after so many more calls, or none at all.  Only
      the first failure of an operation is covered: a call that fails by itself ends the fault. */
  datatype Fault = NoFault | FaultIn(after: nat)

  function Tick(f: Fault): Fault {
    if f.FaultIn? && f.after > 0 then FaultIn(f.after - 1) else NoFault
  }

  predicate Hits(f: Fault) {
    f.FaultIn? && f.after == 0
  }

  predicate Errno(e: int) {
    0 < e < 4096
  }

  // ----- link targets -----

  /** From the intermediate to the data file: always in the same directory. */
  function FinalTarget(final: Path, mid: Path): Path {
    var r := R.RelPath(final, mid);
    if r.Some? then r.value else Base(final)
  }

  function MidTarget(mid: Path, at: Path): Path {
    var r := R.RelPath(mid, at);
    if r.Some? then r.value else mid
  }

  /** For the new name there is one more fallback: an absolute path when both are relative. */
  function NewTarget(cwd: Path, mid: Path, at: Path): Path {
    var r := R.RelPath(mid, at);
    if r.Some? then r.value
    else if !R.Absolute(mid) && !R.Absolute(at) && |cwd| + 1 + |mid| < PATH_MAX then cwd + "/" + mid
    else mid
  }

  lemma AbsoluteTargets(cwd: Path, final: Path, mid: Path, at: Path)
    requires R.Absolute(mid)
    ensures FinalTarget(final, mid) == Base(final)
    ensures MidTarget(mid, at) == mid && NewTarget(cwd, mid, at) == mid
  {
  }

  /** A file turned into a chain. */
  function Built(fs: Fs, a: Path, mid: Path, final: Path): Fs
    requires a in fs
  {
    var moved := Moved(fs, a, final);
    moved[mid := Link(FinalTarget(final, mid))][a := Link(MidTarget(mid, a))][final + CNT_SUFFIX := Count(2)]
  }

  /** What a whole first link() leaves, for any names. */
  function FirstLinkedAt(fs: Fs, cwd: Path, a: Path, b: Path, mid: Path, final: Path): Fs
    requires a in fs
  {
    Built(fs, a, mid, final)[b := Link(NewTarget(cwd, mid, b))]
  }

  /** For absolute names that is the model's first link. */
  lemma AbsoluteFirstLink(fs: Fs, cwd: Path, a: Path, b: Path, m: Path)
    requires a in fs && R.Absolute(m)
    ensures FirstLinkedAt(fs, cwd, a, b, m, FinalOf(m)) == FirstLinked(fs, a, b, m)
  {
    AbsoluteTargets(cwd, FinalOf(m), m, a);
    AbsoluteTargets(cwd, FinalOf(m), m, b);
  }

  predicate NameFree(fs: Fs, cwd: Path, a: Path, b: Path, mid: Path, final: Path)
    requires a in fs
  {
    b !in Built(fs, a, mid, final) && |NewTarget(cwd, mid, b)| > 0
  }

  predicate Distinct(a: Path, mid: Path, final: Path) {
    var cnt := final + CNT_SUFFIX;
    a != mid && a != final && a != cnt && mid != final && mid != cnt && final != cnt
  }

  class Runtime {
    var fs: Fs
    var errno: int
    var fault: Fault
    const cwd: Path

    constructor (cwd: Path)
      ensures fs == map[] && fault == NoFault && this.cwd == cwd
    {
      this.cwd := cwd;
      fs, errno, fault := map[], 0, NoFault;
    }

    // ----- the injected file-system calls -----

    method Symlink(target: Path, p: Path) returns (rc: int)
      modifies this
      ensures rc == 0 || (rc == -1 && errno == if p in old(fs) then EEXIST else ENOENT)
      ensures fs == if rc == 0 then old(fs)[p := Link(target)] else old(fs)
      ensures p in old(fs) ==> rc != 0
      ensures rc != 0 <==> Hits(old(fault)) || p in old(fs) || |target| == 0
      ensures fault == if rc == 0 then Tick(old(fault)) else NoFault
      ensures rc == 0 ==> errno == old(errno)
    {
      if Hits(fault) || p in fs || |target| == 0 {
        errno := if p in fs then EEXIST else ENOENT;
        fault := NoFault;
        return -1;
      }
      fs := fs[p := Link(target)];
      fault := Tick(fault);
      return 0;
    }

    /** Directories do not move in this model. */
    method Rename(a: Path, b: Path) returns (rc: int)
      modifies this
      ensures rc == 0 || (rc == -1 && Errno(errno))
      ensures rc == 0 <==> !Hits(old(fault)) && a in old(fs) && !old(fs)[a].Dir? && (b in old(fs) ==> !old(fs)[b].Dir?)
      ensures fs == if rc == 0 then Moved(old(fs), a, b) else old(fs)
      ensures fault == if rc == 0 then Tick(old(fault)) else NoFault
      ensures rc == 0 ==> errno == old(errno)
    {
      if Hits(fault) || a !in fs || fs[a].Dir? || (b in fs && fs[b].Dir?) {
        errno := if a !in fs then ENOENT else EISDIR;
        fault := NoFault;
        return -1;
      }
      fs := Moved(fs, a, b);
      fault := Tick(fault);
      return 0;
    }

    method Remove(p: Path) returns (rc: int)
      modifies this
      ensures rc == 0 || (rc == -1 && Errno(errno))
      ensures rc == 0 <==> !Hits(old(fault)) && p in old(fs) && !old(fs)[p].Dir?
      ensures fs == if rc == 0 then old(fs) - {p} else old(fs)
      ensures fault == if rc == 0 then Tick(old(fault)) else NoFault
      ensures rc == 0 ==> errno == old(errno)
    {
      if Hits(fault) || p !in fs || fs[p].Dir? {
        errno := if p !in fs then ENOENT else EISDIR;
        fault := NoFault;
        return -1;
      }
      fs := fs - {p};
      fault := Tick(fault);
      return 0;
    }

    method WriteSmall(p: Path, n: nat) returns (rc: int)
      modifies this
      ensures rc == 0 || (rc == -1 && Errno(errno))
      ensures rc == 0 <==> !Hits(old(fault)) && (p in old(fs) ==> old(fs)[p].Count?)
      ensures fs == if rc == 0 then old(fs)[p := Count(n)] else old(fs)
      ensures fault == if rc == 0 then Tick(old(fault)) else NoFault
    {
      if Hits(fault) || (p in fs && !fs[p].Count?) {
        errno := EISDIR;
        fault := NoFault;
        return -1;
      }
      fs := fs[p := Count(n)];
      fault := Tick(fault);
      return 0;
    }

    /** update_small: one atomic read-modify-write; a missing file counts from 0. */
    method UpdateSmall(p: Path, delta: int) returns (rc: int, n: nat)
      modifies this
      ensures rc <= 0
      ensures rc == 0 <==>
        !Hits(old(fault)) && (p in old(fs) ==> old(fs)[p].Count?) && 0 <= Counted(old(fs), p) + delta <= NLINK_MAX
      ensures rc == 0 ==> n == Counted(old(fs), p) + delta && fs == old(fs)[p := Count(n)]
      ensures rc != 0 ==> fs == old(fs)
      ensures rc == -EMLINK <==>
        !Hits(old(fault)) && (p in old(fs) ==> old(fs)[p].Count?) && Counted(old(fs), p) + delta > NLINK_MAX
      ensures fault == if rc == 0 then Tick(old(fault)) else NoFault
    {
      var v := Counted(fs, p) + delta;
      n := 0;
      if Hits(fault) || (p in fs && !fs[p].Count?) {
        fault := NoFault;
        return -EINVAL, 0;
      }
      if v < 0 || v > NLINK_MAX {
        fault := NoFault;
        return if v < 0 then -ERANGE else -EMLINK, 0;
      }
      n := v;
      fs := fs[p := Count(n)];
      fault := Tick(fault);
      return 0, n;
    }

    /** write_nlink: a side-file name that does not fit is an error of its own, without an errno. */
    method WriteNlink(final: Path, n: nat) returns (rc: int)
      modifies this
      ensures rc == 0 <==>
        && |final| + 4 + 1 <= PATH_MAX && !Hits(old(fault))
        && (final + CNT_SUFFIX in old(fs) ==> old(fs)[final + CNT_SUFFIX].Count?)
      ensures fs == if rc == 0 then old(fs)[final + CNT_SUFFIX := Count(n)] else old(fs)
      ensures rc == 0 ==> fault == Tick(old(fault))
      ensures rc != 0 ==> fault == NoFault
      ensures rc != 0 && Errno(old(errno)) ==> Errno(errno)
    {
      if |final| + 4 + 1 > PATH_MAX {
        fault := NoFault;
        return -ENAMETOOLONG;
      }
      rc := WriteSmall(final + CNT_SUFFIX, n);
    }

    method CntAdd(final: Path, delta: int) returns (rc: int, n: nat)
      modifies this
      ensures rc <= 0
      ensures rc == 0 <==>
        && |final| + 4 + 1 <= PATH_MAX && !Hits(old(fault))
        && (final + CNT_SUFFIX in old(fs) ==> old(fs)[final + CNT_SUFFIX].Count?)
        && 0 <= Counted(old(fs), final + CNT_SUFFIX) + delta <= NLINK_MAX
      ensures rc == 0 ==>
        n == Counted(old(fs), final + CNT_SUFFIX) + delta && fs == old(fs)[final + CNT_SUFFIX := Count(n)]
      ensures rc != 0 ==> fs == old(fs)
      ensures rc == -EMLINK <==>
        && |final| + 4 + 1 <= PATH_MAX && !Hits(old(fault))
        && (final + CNT_SUFFIX in old(fs) ==> old(fs)[final + CNT_SUFFIX].Count?)
        && Counted(old(fs), final + CNT_SUFFIX) + delta > NLINK_MAX
      ensures rc == 0 ==> fault == Tick(old(fault))
      ensures rc != 0 ==> fault == NoFault
    {
      if |final| + 4 + 1 > PATH_MAX {
        fault := NoFault;
        return -ENAMETOOLONG, 0;
      }
      rc, n := UpdateSmall(final + CNT_SUFFIX, delta);
    }

    // ----- link() -----

    /** Undo a chain of which everything but the side file stands. */
    method TearDown(a: Path, mid: Path, final: Path)
      requires fault.NoFault? && Distinct(a, mid, final)
      requires a in fs && fs[a].Link? && mid in fs && fs[mid].Link? && final in fs && !fs[final].Dir?
      modifies this
      ensures fs == Moved(old(fs) - {a} - {mid}, final, a) && fault.NoFault?
    {
      var r := Remove(a);
      r := Remove(mid);
      r := Rename(final, a);
    }

    /** Turn the file `a` into a chain with the count 2, or move it back; by then whatever lay at the
        data file's name is gone. */
    method BuildChain(a: Path, mid: Path, final: Path) returns (rc: int)
      requires a in fs && !fs[a].Dir? && Errno(errno) && Distinct(a, mid, final)
      modifies this
      ensures PASSTHRU < rc <= 0
      ensures rc == 0 ==> fs == Built(old(fs), a, mid, final) && RoomFor(old(fs), a, mid, final)
      ensures rc != 0 ==> fs == old(fs) || fs == old(fs) - {final}
      ensures rc != 0 ==> fault.NoFault?
      ensures old(fault).NoFault? ==> fault.NoFault?
      ensures old(fault).NoFault? && RoomFor(old(fs), a, mid, final) ==> rc == 0
      ensures old(fault).NoFault? && rc != 0 ==>
        fs == if final in old(fs) && old(fs)[final].Dir? then old(fs) else old(fs) - {final}
    {
      hide FinalTarget, MidTarget, Base;
      UndoMove(fs, a, final);
      var r := Rename(a, final);
      if r != 0 { return -errno; }
      ghost var s1 := fs;
      r := Symlink(FinalTarget(final, mid), mid);
      if r != 0 {
        rc := -errno;
        r := Rename(final, a);
        return;
      }
      ghost var s2 := fs;
      assert s2 - {mid} == s1;
      r := Symlink(MidTarget(mid, a), a);
      if r != 0 {
        rc := -errno;
        r := Remove(mid);
        r := Rename(final, a);
        return;
      }
      assert fs - {a} == s2;
      r := WriteNlink(final, 2);
      if r != 0 {
        rc := -errno;
        TearDown(a, mid, final);
        return;
      }
      return 0;
    }

    /** The first link of a file: build its chain, then add the name.  If a step fails the earlier
        ones are undone, and unless the data file's name or its side file was already taken
        nothing at all has changed. */
    method FirstLink(a: Path, b: Path, mid: Path, final: Path) returns (rc: int)
      requires a in fs && !fs[a].Dir? && Errno(errno) && Distinct(a, mid, final)
      modifies this
      ensures PASSTHRU < rc <= 0
      ensures rc == 0 ==> FirstLinkDone(old(fs), fs, cwd, a, b, Paths(mid, final)) && b !in old(fs)
      ensures rc != 0 ==> SameBut(old(fs), fs, {final, final + CNT_SUFFIX})
      ensures old(fault).NoFault? ==> fault.NoFault?
      ensures rc == 0 ==> RoomFor(old(fs), a, mid, final) && NameFree(old(fs), cwd, a, b, mid, final)
      ensures old(fault).NoFault? && RoomFor(old(fs), a, mid, final) && NameFree(old(fs), cwd, a, b, mid, final) ==>
        rc == 0
      ensures old(fault).NoFault? && rc != 0 ==> fs == Undone(old(fs), a, mid, final)
      ensures old(fault).NoFault? && RoomFor(old(fs), a, mid, final) && b in old(fs) ==> rc == -EEXIST
    {
      hide FinalTarget, MidTarget, NewTarget, Base;
      rc := BuildChain(a, mid, final);
      if rc != 0 { return; }
      var r := Symlink(NewTarget(cwd, mid, b), b);
      if r != 0 {
        rc := -errno;
        BuiltUndone(old(fs), a, mid, final);
        TearDown(a, mid, final);
        if |final| + 4 + 1 <= PATH_MAX { r := Remove(final + CNT_SUFFIX); }
        return;
      }
    }

    /** link(2): 0, a negative errno, or PASSTHRU for the runtime's own files. */
    method DoLink(a: Path, b: Path) returns (rc: int)
      modifies this
      ensures rc == PASSTHRU <==> HasPrefix(Base(a))
      ensures rc == PASSTHRU || rc <= 0
      ensures rc == 0 ==> LinkDone(old(fs), fs, cwd, a, b)
      ensures rc != 0 ==> fs == old(fs) || FirstLinkFailed(old(fs), fs, cwd, a) || CountAppeared(old(fs), fs, cwd, a)
      ensures old(fault).NoFault? ==> (rc == 0 <==> LinkWorks(old(fs), cwd, a, b))
      ensures old(fault).NoFault? && rc != 0 ==> LinkFailed(old(fs), fs, cwd, a)
      ensures old(fault).NoFault? && rc !in {0, PASSTHRU} ==> LinkError(old(fs), cwd, a, b, -rc)
      ensures old(fault).NoFault? ==> fault.NoFault?
    {
      hide Probe, Resolve, MakePaths, Accessible, NewTarget, Base, HasPrefix, IsFirstFree, Occupied;
      hide LinkError;
      hide FirstLinkDone, SameBut, RoomFor, NameFree, Undone, LinkDone, FirstLinkFailed, LinkWorks, LinkFailed;
      ghost var was := fs;
      LinkRefused(was, cwd, a, b);
      if HasPrefix(Base(a)) { return PASSTHRU; }
      StartErrors(was, cwd, a, b);
      if a !in fs {
        errno := ENOENT;
        return -ENOENT;
      }
      if fs[a].Dir? { return -EPERM; }
      var probed := Probe(fs, cwd, a);
      if probed.None? {
        if !fs[a].Link? && |Base(a)| == 0 {
          Unnamed(was, cwd, a, b);
          return -EINVAL;
        }
        var gen := PickGeneration(a, Occupied(fs));
        errno := ENOENT;      // left behind by the last access() that found nothing
        NoneChosen(was, cwd, a, b, if gen.Ok? then gen.value else 0);
        assert gen.Err? ==> NoGeneration(was, a);
        if gen.Err? { return if gen.error.OutOfRange? then -ENOSPC else -EINVAL; }
        var made := MakePaths(PREFIX, a, gen.value, 2);
        if made.Err? {
          FirstLinkError(was, cwd, a, b, gen.value, made, if made.error.NameTooLong? then ENAMETOOLONG else EINVAL);
          return if made.error.NameTooLong? then -ENAMETOOLONG else -EINVAL;
        }
        MadeDistinct(a, gen.value);
        rc := FirstLink(a, b, made.value.mid, made.value.final);
        FirstLinkError(was, cwd, a, b, gen.value, made, -rc);
        Chosen(was, fs, cwd, a, b, gen.value, made.value);
        return;
      }
      var mid := probed.value;
      var final := Resolve(fs, mid);
      LaterLink(was, cwd, a, b, mid);
      LaterLinkErrors(was, cwd, a, b, mid);
      if final.None? { return if mid !in fs then -ENOENT else -EINVAL; }
      var r, n := CntAdd(final.value, 1);
      if r != 0 { return if r == -EMLINK then -EMLINK else -EINVAL; }
      r := Symlink(NewTarget(cwd, mid, b), b);
      if r != 0 {
        rc := -errno;
        r, n := CntAdd(final.value, -1);
        return;
      }
      return 0;
    }

    // ----- unlink() -----

    /** The last name goes: the chain's three files go with it, or it stops at the first that
        cannot; a side file that cannot be removed is left behind. */
    method FreeChain(mid: Path, final: Path) returns (rc: int)
      modifies this
      ensures PASSTHRU < rc <= 0
      ensures SameElsewhere(old(fs), fs, {mid, final, final + CNT_SUFFIX})
      ensures old(fault).NoFault? ==> fault.NoFault?
      ensures FilesStand(old(fs), mid, final) ==>
        || (rc == 0 && fs == old(fs) - {mid, final, final + CNT_SUFFIX})
        || (fault.NoFault? && !old(fault).NoFault? && FreeingStopped(old(fs), fs, mid, final, rc))
    {
      rc := Remove(mid);
      if rc != 0 { return -errno; }
      rc := Remove(final);
      if rc != 0 { return -errno; }
      if |final| + 4 + 1 <= PATH_MAX { var r := Remove(final + CNT_SUFFIX); }
    }

    /** unlink(2) of a faked hard link; PASSTHRU for everything else. */
    method DoUnlink(p: Path) returns (rc: int)
      modifies this
      ensures rc == PASSTHRU <==> Probe(old(fs), cwd, p).None?
      ensures rc == PASSTHRU ==> fs == old(fs) && fault == old(fault)
      ensures old(fault).NoFault? ==> fault.NoFault?
      ensures SameElsewhere(old(fs), fs, UnlinkTouches(old(fs), cwd, p))
      ensures ChainBehind(old(fs), cwd, p) ==>
        UnlinkLeft(old(fs), fs, p, Probe(old(fs), cwd, p).value, Resolve(old(fs), Probe(old(fs), cwd, p).value).value,
          rc == 0)
      ensures ChainBehind(old(fs), cwd, p) && old(fault).NoFault? ==>
        var mid := Probe(old(fs), cwd, p).value;
        rc == 0 && fs == DroppedAt(old(fs), mid, Resolve(old(fs), mid).value) - {p}
      ensures Hits(old(fault)) && ChainBehind(old(fs), cwd, p) ==> rc == -EINVAL && fs == old(fs)
      ensures old(fault).NoFault? ==> BrokenUnlink(old(fs), fs, cwd, p, rc)
    {
      hide Probe, Resolve, UnlinkLeft, DroppedAt;
      StillThere(fs, p);
      ProbedIsLink(fs, cwd, p);
      var probed := Probe(fs, cwd, p);
      if probed.None? { return PASSTHRU; }
      var mid := probed.value;
      var final := Resolve(fs, mid);
      if final.None? {
        rc := Remove(p);
        return if rc != 0 then -errno else 0;
      }
      var r, count := CntAdd(final.value, -1);
      if r != 0 { return -EINVAL; }
      ghost var dec := fs;
      if count == 0 {
        rc := FreeChain(mid, final.value);
        UnlinkStopped(old(fs), dec, fs, p, mid, final.value, rc);
        if rc != 0 { return; }
      }
      ghost var freed := fs;
      rc := Remove(p);
      UnlinkFinished(old(fs), dec, freed, fs, p, mid, final.value, rc == 0);
      return if rc != 0 then -errno else 0;
    }

    // ----- rename() -----

    /** Before rename(2): 0 nothing to account for, 1 a name of some chain is about to go, 2 both
        names belong to one chain and rename must do nothing. */
    function Prepare(a: Path, b: Path): (r: (int, Path, Path))
      reads this
      ensures r.0 == 2 <==>
        Probe(fs, cwd, b).Some? && Resolve(fs, Probe(fs, cwd, b).value).Some? && Probe(fs, cwd, a) == Probe(fs, cwd, b)
      ensures r.0 == 0 <==> Probe(fs, cwd, b).None? || Resolve(fs, Probe(fs, cwd, b).value).None?
      ensures r.0 != 0 ==> Probe(fs, cwd, b) == Some(r.1) && Resolve(fs, r.1) == Some(r.2)
      ensures r.0 in {0, 1, 2}
    {
      var probed := Probe(fs, cwd, b);
      if probed.None? then (0, "", "")
      else
        var final := Resolve(fs, probed.value);
        if final.None? then (0, "", "")
        else if Probe(fs, cwd, a) == probed then (2, probed.value, final.value)
        else (1, probed.value, final.value)
    }

    /** After a successful rename(2): one name fewer for the chain. */
    method Commit(mid: Path, final: Path) returns (rc: int)
      modifies this
      ensures old(fault).NoFault? ==> fault.NoFault?
      ensures SameElsewhere(old(fs), fs, {mid, final, final + CNT_SUFFIX})
      ensures ChainStands(old(fs), mid, final) ==> CommitLeft(old(fs), fs, mid, final)
      ensures old(fault).NoFault? && ChainStands(old(fs), mid, final) ==>
        rc == 0 && fs == DroppedAt(old(fs), mid, final)
      ensures !HasCount(old(fs), final) ==> rc == -EINVAL && fs == old(fs)
    {
      var r, count := CntAdd(final, -1);
      if r != 0 { return -EINVAL; }
      if count > 0 { return 0; }
      LastSteps(old(fs), mid, mid, final);
      r := Remove(mid);
      r := Remove(final);
      if |final| + 4 + 1 <= PATH_MAX { r := Remove(final + CNT_SUFFIX); }
      return 0;
    }

    /** The guest's rename(2): prepare, the kernel's own rename, commit. */
    method DoRename(a: Path, b: Path) returns (rc: int)
      modifies this
      ensures rc == 0 || rc == -1
      ensures old(fault).NoFault? ==> fault.NoFault?
      ensures rc != 0 ==> fs == old(fs)
      ensures RenameDone(old(fs), fs, cwd, a, b, rc, old(fault).NoFault?)
    {
      hide Probe, Resolve;
      var pre := Prepare(a, b);
      if pre.0 == 2 { return 0; }
      rc := Rename(a, b);
      if rc == 0 && pre.0 == 1 {
        var r := Commit(pre.1, pre.2);
      }
    }

    // ----- stat() -----

    /** The entry and link count a guest sees: for a faked hard link, those of the data file.  The
        file type is reported apart: a faked hard link is always a regular file. */
    method Stat(p: Path) returns (found: bool, node: Node, nlink: nat, regular: bool)
      ensures found <==> p in fs
      ensures found && ReadsCount(fs, cwd, p) ==>
        var final := Resolve(fs, Probe(fs, cwd, p).value).value;
        nlink == Counted(fs, final + CNT_SUFFIX) && (final in fs ==> node == fs[final]) && regular
      ensures found && ReadsCount(fs, cwd, p) ==>
        (Resolve(fs, Probe(fs, cwd, p).value).value !in fs ==> node == fs[p])
      ensures found && !ReadsCount(fs, cwd, p) ==> node == fs[p] && nlink == 1 && (regular <==> fs[p].File?)
    {
      hide Probe, Resolve;
      if p !in fs { return false, Dir, 0, false; }
      found, node, nlink, regular := true, fs[p], 1, fs[p].File?;
      var mid := Probe(fs, cwd, p);
      if mid.None? { return; }
      var final := Resolve(fs, mid.value);
      if final.None? { return; }
      var cnt := final.value + CNT_SUFFIX;
      if |final.value| + 4 + 1 > PATH_MAX || cnt !in fs || !fs[cnt].Count? || fs[cnt].n < 1 ||
        fs[cnt].n > NLINK_MAX { return; }
      if final.value in fs { node := fs[final.value]; }
      nlink, regular := fs[cnt].n, true;
    }
  }

  /** The states agree except perhaps on the paths `q`, and agree everywhere when none of those
      existed. */
  ghost predicate SameBut(was: Fs, now: Fs, q: set<Path>) {
    (q !! was.Keys ==> now == was) && SameElsewhere(was, now, q)
  }

  ghost predicate SameElsewhere(was: Fs, now: Fs, q: set<Path>) {
    forall p :: p !in q ==> (p in now <==> p in was) && (p in now && p in was ==> now[p] == was[p])
  }

  /** The intermediate's name is free, and the other two can be written. */
  predicate RoomFor(fs: Fs, a: Path, mid: Path, final: Path) {
    var cnt := final + CNT_SUFFIX;
    && mid !in fs && (final in fs ==> !fs[final].Dir?) && (cnt in fs ==> fs[cnt].Count?)
    && |final| + 4 + 1 <= PATH_MAX && |FinalTarget(final, mid)| > 0 && |MidTarget(mid, a)| > 0
  }

  /** What a first link() that fails leaves, when nothing fails from outside. */
  function Undone(fs: Fs, a: Path, mid: Path, final: Path): Fs {
    if final in fs && fs[final].Dir? then fs
    else if RoomFor(fs, a, mid, final) then fs - {final} - {final + CNT_SUFFIX}
    else fs - {final}
  }

  lemma BuiltUndone(fs: Fs, a: Path, mid: Path, final: Path)
    requires a in fs && mid !in fs && Distinct(a, mid, final)
    ensures var cnt := final + CNT_SUFFIX;
      Moved(Built(fs, a, mid, final) - {a} - {mid}, final, a) - {cnt} == fs - {final} - {cnt}
  {
    hide FinalTarget, MidTarget;
    var cnt := final + CNT_SUFFIX;
    UndoMove(fs, a, final);
    assert Built(fs, a, mid, final) - {a} - {mid} == Moved(fs, a, final)[cnt := Count(2)];
    assert Moved(Moved(fs, a, final)[cnt := Count(2)], final, a) ==
      Moved(Moved(fs, a, final), final, a)[cnt := Count(2)];
  }

  /** Moving there and back loses only what was at the destination. */
  lemma UndoMove(fs: Fs, a: Path, b: Path)
    requires a in fs && a != b
    ensures Moved(Moved(fs, a, b), b, a) == fs - {b}
    ensures b !in fs ==> fs - {b} == fs
  {
  }

  function Occupied(fs: Fs): set<Path> {
    set p | p in fs && Accessible(fs, p, 40)
  }

  /** The chain a first link() makes. */
  ghost predicate FreshFor(fs: Fs, a: Path, p: Paths) {
    exists g :: IsFirstFree(a, Occupied(fs), g) && MakePaths(PREFIX, a, g, 2) == Ok(p)
  }

  lemma MadeDistinct(a: Path, g: nat)
    requires !HasPrefix(Base(a)) && MakePaths(PREFIX, a, g, 2).Ok?
    ensures Distinct(a, MakePaths(PREFIX, a, g, 2).value.mid, MakePaths(PREFIX, a, g, 2).value.final)
  {
    hide MakePaths, Base, DirOf, Digits4;
    MadePaths(PREFIX, a, g, 2);
    var p := MakePaths(PREFIX, a, g, 2).value;
    BaseOfSuffix(p.final, CNT_SUFFIX);
    assert PREFIX + Base(a) + Digits4(g) == PREFIX + (Base(a) + Digits4(g));
    assert Base(p.final) == PREFIX + (Base(a) + Digits4(g) + "." + Digits4(2));
    assert Base(p.final + CNT_SUFFIX) == PREFIX + (Base(a) + Digits4(g) + "." + Digits4(2) + CNT_SUFFIX);
  }

  /** What a successful link() has done. */
  ghost predicate LinkDone(was: Fs, now: Fs, cwd: Path, a: Path, b: Path) {
    && a in was && !was[a].Dir? && b !in was
    && match Probe(was, cwd, a)
       case None => exists p :: FreshFor(was, a, p) && FirstLinkDone(was, now, cwd, a, b, p)
       case Some(mid) => LaterLinkDone(was, now, cwd, b, mid)
  }

  ghost predicate FirstLinkDone(was: Fs, now: Fs, cwd: Path, a: Path, b: Path, p: Paths)
    requires a in was
  {
    && p.mid !in was && |p.final| + 4 + 1 <= PATH_MAX && NameFree(was, cwd, a, b, p.mid, p.final)
    && now == FirstLinkedAt(was, cwd, a, b, p.mid, p.final)
  }

  ghost predicate LaterLinkDone(was: Fs, now: Fs, cwd: Path, b: Path, mid: Path) {
    && Resolve(was, mid).Some?
    && var cnt := Resolve(was, mid).value + CNT_SUFFIX;
       Counted(was, cnt) < NLINK_MAX &&
         now == was[cnt := Count(Counted(was, cnt) + 1)][b := Link(NewTarget(cwd, mid, b))]
  }

  ghost predicate FirstLinkFailed(was: Fs, now: Fs, cwd: Path, a: Path) {
    && a in was && Probe(was, cwd, a).None?
    && exists p :: FreshFor(was, a, p) && SameBut(was, now, {p.final, p.final + CNT_SUFFIX})
  }

  /** A failed later link of a chain that had lost its side file leaves an empty count behind. */
  ghost predicate CountAppeared(was: Fs, now: Fs, cwd: Path, a: Path) {
    match Probe(was, cwd, a)
    case None => false
    case Some(mid) =>
      var final := Resolve(was, mid);
      final.Some? && final.value + CNT_SUFFIX !in was && now == was[final.value + CNT_SUFFIX := Count(0)]
  }

  /** Only one chain can be chosen. */
  lemma OneFresh(fs: Fs, a: Path)
    ensures forall p, q :: FreshFor(fs, a, p) && FreshFor(fs, a, q) ==> p == q
  {
    hide MakePaths, Occupied, Taken;
    forall p, q | FreshFor(fs, a, p) && FreshFor(fs, a, q) ensures p == q {
      var g :| IsFirstFree(a, Occupied(fs), g) && MakePaths(PREFIX, a, g, 2) == Ok(p);
      var h :| IsFirstFree(a, Occupied(fs), h) && MakePaths(PREFIX, a, h, 2) == Ok(q);
      assert g == h;
    }
  }

  /** What a link() that fails leaves, when nothing fails from outside. */
  ghost predicate LinkFailed(was: Fs, now: Fs, cwd: Path, a: Path) {
    if HasPrefix(Base(a)) || a !in was || was[a].Dir? then now == was
    else match Probe(was, cwd, a)
      case None =>
        && (forall p :: FreshFor(was, a, p) ==> now == Undone(was, a, p.mid, p.final))
        && ((forall p :: !FreshFor(was, a, p)) ==> now == was)
      case Some(mid) => now == LaterUndone(was, mid)
  }

  /** No generation can be chosen: none of them is free, or the names cannot be made. */
  ghost predicate NoGeneration(fs: Fs, a: Path) {
    forall g :: GEN_FIRST <= g <= GEN_LAST ==> !IsFirstFree(a, Occupied(fs), g)
  }

  /** The error of a link() that fails without an outside cause. */
  ghost predicate LinkError(was: Fs, cwd: Path, a: Path, b: Path, e: int) {
    if a !in was then e == ENOENT
    else if was[a].Dir? then e == EPERM
    else match Probe(was, cwd, a)
      case None =>
        if !was[a].Link? && |Base(a)| == 0 then e == EINVAL
        else
          && (NoGeneration(was, a) ==> e == ENOSPC)
          && (forall p :: FreshFor(was, a, p) && RoomFor(was, a, p.mid, p.final) && b in was ==> e == EEXIST)
      case Some(mid) =>
        if Resolve(was, mid).None? then e == if mid in was then EINVAL else ENOENT
        else LaterError(was, Resolve(was, mid).value, b, e)
  }

  /** The chain is full, its side file is none, or the name is taken. */
  predicate LaterError(was: Fs, final: Path, b: Path, e: int) {
    var cnt := final + CNT_SUFFIX;
    if |final| + 4 + 1 > PATH_MAX || (cnt in was && !was[cnt].Count?) then e == EINVAL
    else if Counted(was, cnt) >= NLINK_MAX then e == EMLINK
    else b in was ==> e == EEXIST
  }

  lemma StartErrors(was: Fs, cwd: Path, a: Path, b: Path)
    ensures a !in was ==> LinkError(was, cwd, a, b, ENOENT)
    ensures a in was && was[a].Dir? ==> LinkError(was, cwd, a, b, EPERM)
    ensures Linking(was, cwd, a) && !(!was[a].Link? && |Base(a)| == 0) && NoGeneration(was, a) ==>
      LinkError(was, cwd, a, b, ENOSPC)
  {
    hide Probe, Resolve, Base, HasPrefix, Occupied, MakePaths, RoomFor, IsFirstFree;
    if NoGeneration(was, a) {
      forall p ensures !FreshFor(was, a, p) { FreshInRange(was, a, p); }
    }
  }

  lemma FreshInRange(fs: Fs, a: Path, p: Paths)
    ensures FreshFor(fs, a, p) ==> !NoGeneration(fs, a)
  {
    hide Occupied, MakePaths, Taken;
  }

  /** A path that ends in a slash has no name to build on. */
  lemma Unnamed(was: Fs, cwd: Path, a: Path, b: Path)
    requires Linking(was, cwd, a) && !was[a].Link? && |Base(a)| == 0
    ensures LinkError(was, cwd, a, b, EINVAL) && !LinkWorks(was, cwd, a, b) && LinkFailed(was, was, cwd, a)
  {
    hide Probe, Resolve, HasPrefix, Occupied, RoomFor, NameFree, Undone, Base, IsFirstFree;
    forall p ensures !FreshFor(was, a, p) {
      forall g ensures MakePaths(PREFIX, a, g, 2).Err? { NoName(a, g); }
    }
  }

  lemma NoName(a: Path, g: nat)
    requires |Base(a)| == 0
    ensures MakePaths(PREFIX, a, g, 2).Err?
  {
    hide Base, LastSlash;
  }

  /** The error once a generation is chosen. */
  lemma FirstLinkError(was: Fs, cwd: Path, a: Path, b: Path, g: nat, made: Result<Paths, Error>, e: int)
    requires Linking(was, cwd, a) && (was[a].Link? || |Base(a)| > 0)
    requires IsFirstFree(a, Occupied(was), g) && MakePaths(PREFIX, a, g, 2) == made
    ensures (made.Ok? && RoomFor(was, a, made.value.mid, made.value.final) && b in was ==> e == EEXIST) ==>
      LinkError(was, cwd, a, b, e)
  {
    hide Probe, Resolve, MakePaths, Occupied, Base, HasPrefix, RoomFor, Taken;
    assert forall h :: IsFirstFree(a, Occupied(was), h) ==> h == g;
  }

  lemma LaterLinkErrors(was: Fs, cwd: Path, a: Path, b: Path, mid: Path)
    requires a in was && !was[a].Dir? && Probe(was, cwd, a) == Some(mid)
    ensures Resolve(was, mid).None? ==> LinkError(was, cwd, a, b, if mid in was then EINVAL else ENOENT)
    ensures Resolve(was, mid).Some? ==>
      forall e :: LaterError(was, Resolve(was, mid).value, b, e) ==> LinkError(was, cwd, a, b, e)
  {
    hide Probe, Resolve, Base, HasPrefix;
  }

  /** A chain that has lost its side file. */
  predicate Uncounted(fs: Fs, mid: Path) {
    var final := Resolve(fs, mid);
    final.Some? && final.value + CNT_SUFFIX !in fs && |final.value| + 4 + 1 <= PATH_MAX
  }

  /** When link() does not start. */
  lemma LinkRefused(fs: Fs, cwd: Path, a: Path, b: Path)
    ensures HasPrefix(Base(a)) || a !in fs || fs[a].Dir? ==> !LinkWorks(fs, cwd, a, b) && LinkFailed(fs, fs, cwd, a)
  {
    hide Probe, Resolve, FreshFor, Base, HasPrefix;
  }

  predicate Linking(fs: Fs, cwd: Path, a: Path) {
    !HasPrefix(Base(a)) && a in fs && !fs[a].Dir? && Probe(fs, cwd, a).None?
  }

  /** When no chain can be made. */
  lemma NoneChosen(fs: Fs, cwd: Path, a: Path, b: Path, g: nat)
    requires Linking(fs, cwd, a)
    ensures (forall h :: GEN_FIRST <= h <= GEN_LAST ==> !IsFirstFree(a, Occupied(fs), h)) ==>
      !LinkWorks(fs, cwd, a, b) && LinkFailed(fs, fs, cwd, a)
    ensures IsFirstFree(a, Occupied(fs), g) && MakePaths(PREFIX, a, g, 2).Err? ==>
      !LinkWorks(fs, cwd, a, b) && LinkFailed(fs, fs, cwd, a)
  {
    hide Probe, Resolve, MakePaths, Occupied, Base, HasPrefix, RoomFor, NameFree, Undone, Taken;
    if IsFirstFree(a, Occupied(fs), g) {
      assert forall h :: IsFirstFree(a, Occupied(fs), h) ==> h == g;
    }
  }

  /** What a first link() means once its chain is chosen. */
  lemma Chosen(was: Fs, now: Fs, cwd: Path, a: Path, b: Path, g: nat, p: Paths)
    requires Linking(was, cwd, a) && IsFirstFree(a, Occupied(was), g) && MakePaths(PREFIX, a, g, 2) == Ok(p)
    ensures FirstLinkDone(was, now, cwd, a, b, p) && b !in was ==> LinkDone(was, now, cwd, a, b)
    ensures SameBut(was, now, {p.final, p.final + CNT_SUFFIX}) ==> FirstLinkFailed(was, now, cwd, a)
    ensures LinkWorks(was, cwd, a, b) <==>
      RoomFor(was, a, p.mid, p.final) && NameFree(was, cwd, a, b, p.mid, p.final)
    ensures now == Undone(was, a, p.mid, p.final) ==> LinkFailed(was, now, cwd, a)
  {
    OneFresh(was, a);
    assert FreshFor(was, a, p);
    hide Probe, Resolve, FreshFor, Base, HasPrefix, RoomFor, NameFree, Undone, FirstLinkDone, SameBut;
  }

  /** What a later link() means once its chain is found. */
  lemma LaterLink(was: Fs, cwd: Path, a: Path, b: Path, mid: Path)
    requires !HasPrefix(Base(a)) && a in was && !was[a].Dir? && Probe(was, cwd, a) == Some(mid)
    ensures LinkWorks(was, cwd, a, b) <==> LaterLinkWorks(was, cwd, b, mid)
    ensures forall now :: b !in was && LaterLinkDone(was, now, cwd, b, mid) ==> LinkDone(was, now, cwd, a, b)
    ensures forall now :: now == LaterUndone(was, mid) ==> LinkFailed(was, now, cwd, a)
  {
    hide Probe, Resolve, Base, HasPrefix, LaterLinkWorks, LaterLinkDone;
  }

  function LaterUndone(fs: Fs, mid: Path): Fs {
    if Uncounted(fs, mid) then fs[Resolve(fs, mid).value + CNT_SUFFIX := Count(0)] else fs
  }

  /** Nothing can be lost: the move to the data file's name is refused, or that name is free, and so is
      the side file's, should the chain be built up to it. */
  predicate FailsClean(fs: Fs, a: Path, mid: Path, final: Path) {
    || (final in fs && fs[final].Dir?)
    || (final !in fs && (RoomFor(fs, a, mid, final) ==> final + CNT_SUFFIX !in fs))
  }

  ghost predicate LinkFailsClean(fs: Fs, cwd: Path, a: Path) {
    || HasPrefix(Base(a)) || a !in fs || fs[a].Dir?
    || match Probe(fs, cwd, a)
       case None => forall p :: FreshFor(fs, a, p) ==> FailsClean(fs, a, p.mid, p.final)
       case Some(mid) => !Uncounted(fs, mid)
  }

  lemma UndoneIsClean(fs: Fs, a: Path, mid: Path, final: Path)
    ensures Undone(fs, a, mid, final) == fs <==> FailsClean(fs, a, mid, final)
  {
    hide FinalTarget, MidTarget;
    var cnt := final + CNT_SUFFIX;
    assert final in fs ==> final !in fs - {final} && final !in fs - {final} - {cnt};
    assert cnt in fs ==> cnt !in fs - {final} - {cnt};
  }

  /** A link() that fails without an outside cause has changed nothing if and only if there was nothing
      to lose at the names it goes for, or the chain it goes for had its side file. */
  lemma FailedLinkIsClean(was: Fs, now: Fs, cwd: Path, a: Path)
    requires LinkFailed(was, now, cwd, a)
    ensures now == was <==> LinkFailsClean(was, cwd, a)
  {
    hide Probe, Resolve, FreshFor, FailsClean, Undone, Base, HasPrefix;
    if p :| FreshFor(was, a, p) {
      UndoneIsClean(was, a, p.mid, p.final);
      OneFresh(was, a);
    }
  }

  /** When link() has nothing to object to. */
  ghost predicate LinkWorks(fs: Fs, cwd: Path, a: Path, b: Path) {
    && !HasPrefix(Base(a)) && a in fs && !fs[a].Dir?
    && match Probe(fs, cwd, a)
       case None =>
         exists p :: FreshFor(fs, a, p) && RoomFor(fs, a, p.mid, p.final) && NameFree(fs, cwd, a, b, p.mid, p.final)
       case Some(mid) => LaterLinkWorks(fs, cwd, b, mid)
  }

  ghost predicate LaterLinkWorks(fs: Fs, cwd: Path, b: Path, mid: Path) {
    && Resolve(fs, mid).Some?
    && var final := Resolve(fs, mid).value;
       var cnt := final + CNT_SUFFIX;
       && |final| + 4 + 1 <= PATH_MAX && (cnt in fs ==> fs[cnt].Count?) && Counted(fs, cnt) < NLINK_MAX
       && b !in fs && b != cnt && |NewTarget(cwd, mid, b)| > 0
  }

  // ----- unlink and rename, for any names -----

  /** The chain's three files are where they belong. */
  predicate FilesStand(fs: Fs, mid: Path, final: Path) {
    var cnt := final + CNT_SUFFIX;
    && mid in fs && !fs[mid].Dir? && final in fs && !fs[final].Dir? && cnt in fs && fs[cnt].Count?
    && |final| + 4 + 1 <= PATH_MAX && mid != final && mid != cnt && final != cnt
  }

  /** And someone counts on them. */
  predicate ChainStands(fs: Fs, mid: Path, final: Path) {
    FilesStand(fs, mid, final) && 1 <= fs[final + CNT_SUFFIX].n <= NLINK_MAX
  }

  predicate ChainBehind(fs: Fs, cwd: Path, p: Path) {
    var mid := Probe(fs, cwd, p);
    && p in fs && !fs[p].Dir? && mid.Some? && Resolve(fs, mid.value).Some?
    && var final := Resolve(fs, mid.value).value;
       ChainStands(fs, mid.value, final) && p != mid.value && p != final && p != final + CNT_SUFFIX
  }

  function DroppedAt(fs: Fs, mid: Path, final: Path): Fs {
    var cnt := final + CNT_SUFFIX;
    if Counted(fs, cnt) > 1 then fs[cnt := Count(Counted(fs, cnt) - 1)] else fs - {mid, final, cnt}
  }

  /** Removing a whole chain, stopped by a call that fails. */
  predicate FreeingStopped(was: Fs, now: Fs, mid: Path, final: Path, rc: int) {
    if rc == 0 then now == was - {mid, final} else now == was || now == was - {mid}
  }

  /** All that unlink() can touch. */
  function UnlinkTouches(fs: Fs, cwd: Path, p: Path): set<Path> {
    var mid := Probe(fs, cwd, p);
    if mid.None? then {}
    else if Resolve(fs, mid.value).None? then {p}
    else {p, mid.value, Resolve(fs, mid.value).value, Resolve(fs, mid.value).value + CNT_SUFFIX}
  }

  /** Everything that unlink() of a faked hard link can leave when one call fails from outside: on
      success at worst an empty side file too many; on failure the name is still there. */
  predicate UnlinkLeft(was: Fs, now: Fs, p: Path, mid: Path, final: Path, ok: bool) {
    var cnt := final + CNT_SUFFIX;
    var n := Counted(was, cnt);
    n >= 1 &&
    if ok then
      now == DroppedAt(was, mid, final) - {p} || (n == 1 && now == (was - {p, mid, final})[cnt := Count(0)])
    else
      || now == was || now == was[cnt := Count(n - 1)]
      || (n == 1 && (now == (was - {mid})[cnt := Count(0)] || now == was - {mid, final, cnt}))
  }

  /** Everything that the accounting after a rename can leave when one call fails from outside. */
  predicate CommitLeft(was: Fs, now: Fs, mid: Path, final: Path) {
    var cnt := final + CNT_SUFFIX;
    || now == was || now == DroppedAt(was, mid, final)
    || (Counted(was, cnt) == 1
        && (now == was - {final, cnt} || now == was - {mid, cnt} || now == (was - {mid, final})[cnt := Count(0)]))
  }

  /** What is left of a chain whose count has become 0, file by file. */
  lemma LastSteps(fs: Fs, p: Path, mid: Path, final: Path)
    ensures var cnt := final + CNT_SUFFIX; var zero := fs[cnt := Count(0)];
      mid != final && mid != cnt && final != cnt && p != final && p != cnt ==>
      && zero - {mid} == (fs - {mid})[cnt := Count(0)]
      && zero - {mid} - {final} == (fs - {mid, final})[cnt := Count(0)] == zero - {mid, final}
      && zero - {mid, final} - {p} == (fs - {p, mid, final})[cnt := Count(0)]
      && zero - {mid} - {cnt} == fs - {mid, cnt} && zero - {final} - {cnt} == fs - {final, cnt}
      && zero - {mid} - {final} - {cnt} == fs - {mid, final, cnt} == zero - {mid, final, cnt}
  {
  }

  /** An unlink() whose count fails. */
  lemma StillThere(fs: Fs, p: Path)
    ensures forall mid, final :: ChainStands(fs, mid, final) ==> UnlinkLeft(fs, fs, p, mid, final, false)
  {
  }

  /** A name whose chain is broken is just removed, and one whose count is no count stays. */
  predicate BrokenUnlink(was: Fs, now: Fs, cwd: Path, p: Path, rc: int) {
    var mid := Probe(was, cwd, p);
    mid.Some? ==>
      if Resolve(was, mid.value).None? then rc == 0 && now == was - {p}
      else !HasCount(was, Resolve(was, mid.value).value) ==> rc == -EINVAL && now == was
  }

  predicate HasCount(fs: Fs, final: Path) {
    var cnt := final + CNT_SUFFIX;
    |final| + 4 + 1 <= PATH_MAX && (cnt in fs ==> fs[cnt].Count?) && 1 <= Counted(fs, cnt) <= NLINK_MAX + 1
  }

  /** What is probed is a link. */
  lemma ProbedIsLink(fs: Fs, cwd: Path, p: Path)
    ensures Probe(fs, cwd, p).Some? ==> p in fs && fs[p].Link?
  {
    hide Base, HasPrefix, DirOf, LastSlash;
  }

  predicate Counts(was: Fs, dec: Fs, p: Path, mid: Path, final: Path) {
    && ChainStands(was, mid, final) && p != mid && p != final && p != final + CNT_SUFFIX
    && dec == was[final + CNT_SUFFIX := Count(Counted(was, final + CNT_SUFFIX) - 1)]
  }

  /** An unlink() that stops while the chain is removed. */
  lemma UnlinkStopped(was: Fs, dec: Fs, now: Fs, p: Path, mid: Path, final: Path, rc: int)
    ensures (Counts(was, dec, p, mid, final) && Counted(was, final + CNT_SUFFIX) == 1
      && rc != 0 && FreeingStopped(dec, now, mid, final, rc)) ==> UnlinkLeft(was, now, p, mid, final, false)
  {
    LastSteps(was, p, mid, final);
  }

  /** An unlink() that gets as far as removing the name itself. */
  lemma UnlinkFinished(was: Fs, dec: Fs, freed: Fs, now: Fs, p: Path, mid: Path, final: Path, ok: bool)
    ensures (Counts(was, dec, p, mid, final) && Freed(was, dec, freed, mid, final, ok)
      && now == (if ok then freed - {p} else freed)) ==> UnlinkLeft(was, now, p, mid, final, ok)
    ensures (Counts(was, dec, p, mid, final) && now == freed - {p}
      && freed == (if Counted(was, final + CNT_SUFFIX) > 1 then dec else dec - {mid, final, final + CNT_SUFFIX}))
      ==> now == DroppedAt(was, mid, final) - {p}
  {
    LastSteps(was, p, mid, final);
  }

  predicate Freed(was: Fs, dec: Fs, freed: Fs, mid: Path, final: Path, ok: bool) {
    var cnt := final + CNT_SUFFIX;
    if Counted(was, cnt) > 1 then freed == dec
    else freed == dec - {mid, final, cnt} || (ok && freed == dec - {mid, final})
  }

  predicate Movable(fs: Fs, a: Path, b: Path) {
    a in fs && !fs[a].Dir? && (b in fs ==> !fs[b].Dir?)
  }

  /** What the guest's rename(2) has done; `calm` says that nothing failed from outside. */
  ghost predicate RenameDone(was: Fs, now: Fs, cwd: Path, a: Path, b: Path, rc: int, calm: bool) {
    var probed := Probe(was, cwd, b);
    if probed.None? || Resolve(was, probed.value).None? then
      && (rc == 0 ==> Movable(was, a, b)) && (calm && Movable(was, a, b) ==> rc == 0)
      && now == if rc == 0 then Moved(was, a, b) else was
    else if Probe(was, cwd, a) == probed then
      rc == 0 && now == was
    else
      && (rc == 0 ==> Movable(was, a, b)) && (calm && Movable(was, a, b) ==> rc == 0)
      && (rc != 0 ==> now == was)
      && (rc == 0 ==> Settled(Moved(was, a, b), now, probed.value, Resolve(was, probed.value).value, calm))
  }

  predicate Settled(moved: Fs, now: Fs, mid: Path, final: Path, calm: bool) {
    ChainStands(moved, mid, final) ==>
      && CommitLeft(moved, now, mid, final)
      && (calm ==> now == DroppedAt(moved, mid, final))
  }

  predicate ReadsCount(fs: Fs, cwd: Path, p: Path) {
    var mid := Probe(fs, cwd, p);
    && mid.Some? && Resolve(fs, mid.value).Some?
    && var final := Resolve(fs, mid.value).value;
       var cnt := final + CNT_SUFFIX;
       |final| + 4 + 1 <= PATH_MAX && cnt in fs && fs[cnt].Count? && 1 <= fs[cnt].n <= NLINK_MAX
  }
}

/** Whole runs of guest operations on the runtime, each a run of a file system with real hard
    links. */
module L2sRun {
  import opened Wrappers
  import opened Text
  import opened L2sNames
  import opened L2sModel
  import opened L2sRuntime
  import opened L2sFresh
  import opened L2sGuest

  datatype GuestOp =
    | CreateOp(p: Path, data: string)
    | SymlinkOp(p: Path, target: Path)
    | LinkOp(a: Path, b: Path)
    | UnlinkOp(p: Path)
    | RenameOp(a: Path, b: Path)

  predicate OpNames(op: GuestOp) {
    match op
    case LinkOp(a, b) => KindOf(a) == Guest && KindOf(b) == Guest
    case RenameOp(a, b) => KindOf(a) == Guest && KindOf(b) == Guest
    case _ => KindOf(op.p) == Guest
  }

  /** What a run stops at: the link of a guest's own symbolic link or of a file with an ambiguous
      name, and a symbolic link to a reserved name. */
  predicate Supported(fs: Fs, op: GuestOp) {
    match op
    case LinkOp(a, _) => LinkSource(fs, a)
    case SymlinkOp(_, target) => !HasPrefix(Base(target))
    case _ => true
  }

  /** One step of a file system with real hard links. */
  ghost predicate Applied(h: Fs, op: GuestOp, ok: bool, now: Fs) {
    && (!ok ==> now == h)
    && match op
       case CreateOp(p, data) =>
         (ok <==> p !in h) && (ok ==> exists ino :: FreshInode(h, ino) && now == h[p := File(ino, data)])
       case SymlinkOp(p, target) =>
         (ok <==> p !in h && 0 < |target| < PATH_MAX) && (ok ==> now == h[p := Link(target)])
       case LinkOp(a, b) => ok ==> a in h && h[a].File? && b !in h && now == h[b := h[a]]
       case UnlinkOp(p) => (ok <==> p in h && !h[p].Dir?) && (ok ==> now == h - {p})
       case RenameOp(a, b) => (ok <==> Movable(h, a, b)) && (ok ==> a in h && now == Renamed(h, a, b))
  }

  /** One step of the emulation: that of the file system with real hard links, from consistent state
      to consistent state, and a link() succeeds exactly when it can. */
  ghost predicate Stepped(was: Fs, op: GuestOp, ok: bool, now: Fs) {
    && WF(was) && WF(now) && Applied(Abs(was), op, ok, Abs(now))
    && (op.LinkOp? ==> (ok <==> Linkable(was, op.a, op.b)))
  }

  lemma {:induction false} InodeBound(inos: set<nat>) returns (n: nat)
    ensures forall i :: i in inos ==> i < n
    decreases |inos|
  {
    if inos == {} { return 0; }
    var i :| i in inos;
    n := InodeBound(inos - {i});
    assert forall j :: j in inos ==> j == i || j in inos - {i};
    n := if i < n then n else i + 1;
  }

  lemma SomeFreshInode(fs: Fs)
    ensures exists ino :: FreshInode(fs, ino)
  {
    var inos := set p | p in fs && fs[p].File? :: fs[p].ino;
    var n := InodeBound(inos);
    assert forall p :: p in fs && fs[p].File? ==> fs[p].ino in inos;
    assert FreshInode(fs, n);
  }

  /** Inodes fresh on disk are fresh for the guest. */
  lemma FreshForGuest(fs: Fs, ino: nat)
    requires FreshInode(fs, ino)
    ensures FreshInode(Abs(fs), ino)
  {
    hide KindOf, Base, FinalOf, IsFake;
  }

  /** What can be linked from a supported source is a file. */
  lemma SourceIsFile(fs: Fs, a: Path)
    requires WF(fs) && KindOf(a) == Guest && LinkSource(fs, a) && a in fs && !fs[a].Dir?
    ensures a in Abs(fs) && Abs(fs)[a].File?
  {
    hide KindOf, WF, IsFake, Abs, View, Ambiguous, Base;
    AbsKeys(fs, a);
    ViewIsDir(fs, a);
    GuestIsNoCount(fs, a);
  }

  method Step(r: Runtime, op: GuestOp) returns (ok: bool)
    requires WF(r.fs) && r.fault.NoFault? && OpNames(op) && Supported(r.fs, op)
    modifies r
    ensures r.fault.NoFault? && Stepped(old(r.fs), op, ok, r.fs)
  {
    hide KindOf, WF, Abs, IsFake, LinkSource, Base, Linkable, Movable, Renamed;
    MovableAnywhere(Abs(r.fs));
    var rc;
    match op
    case CreateOp(p, data) =>
      SomeFreshInode(r.fs);
      var ino: nat :| FreshInode(r.fs, ino);
      FreshForGuest(r.fs, ino);
      rc := GuestCreate(r, p, ino, data);
      ok := rc == 0;
    case SymlinkOp(p, target) =>
      rc := GuestSymlink(r, target, p);
      ok := rc == 0;
    case LinkOp(a, b) =>
      if Linkable(r.fs, a, b) {
        LinkableIsThere(r.fs, a, b);
        SourceIsFile(r.fs, a);
      }
      rc := GuestLink(r, a, b);
      ok := rc == 0;
    case UnlinkOp(p) =>
      rc := GuestUnlink(r, p);
      ok := rc == 0;
    case RenameOp(a, b) =>
      rc := GuestRename(r, a, b);
      ok := rc == 0;
  }

  lemma LinkableIsThere(fs: Fs, a: Path, b: Path)
    requires Linkable(fs, a, b)
    ensures a in fs && !fs[a].Dir?
  {
  }

  lemma MovableAnywhere(h: Fs)
    ensures forall a, b :: Movable(h, a, b) ==> a in h
  {
  }

  /** Every run of guest operations on a consistent state is a run of a file system with real hard
      links, as far as it is supported: no chain is ever without a name, every chain's count is its
      number of names, and links succeed exactly when they can. */
  method Run(r: Runtime, ops: seq<GuestOp>) returns (ok: seq<bool>, ghost hist: seq<Fs>)
    requires WF(r.fs) && r.fault.NoFault?
    requires forall i :: 0 <= i < |ops| ==> OpNames(ops[i])
    modifies r
    ensures WF(r.fs) && |ok| <= |ops| && |hist| == |ok| + 1 && hist[0] == old(r.fs) && hist[|ok|] == r.fs
    ensures forall i :: 0 <= i < |ok| ==> Stepped(hist[i], ops[i], ok[i], hist[i + 1])
    ensures |ok| < |ops| ==> !Supported(r.fs, ops[|ok|])
  {
    hide WF, Stepped, OpNames, Supported;
    ok, hist := [], [r.fs];
    var n := 0;
    while n < |ops| && Supported(r.fs, ops[n])
      invariant 0 <= n <= |ops| && |ok| == n && |hist| == n + 1
      invariant WF(r.fs) && r.fault.NoFault? && hist[0] == old(r.fs) && hist[n] == r.fs
      invariant forall i :: 0 <= i < n ==> Stepped(hist[i], ops[i], ok[i], hist[i + 1])
    {
      var done := Step(r, ops[n]);
      EndsConsistent(hist[n], ops[n], done, r.fs);
      ok, hist := ok + [done], hist + [r.fs];
      n := n + 1;
    }
  }

  lemma EndsConsistent(was: Fs, op: GuestOp, ok: bool, now: Fs)
    requires Stepped(was, op, ok, now)
    ensures WF(now)
  {
  }

  // ----- runs that never stop -----

  /** The names that may hold symbolic links after an operation, when these may before it. */
  function LinksAfter(links: set<Path>, op: GuestOp): set<Path> {
    match op
    case SymlinkOp(p, _) => links + {p}
    case RenameOp(a, b) => if a in links then links + {b} else links
    case _ => links
  }

  /** The same after the first `n` operations on an empty tree. */
  function LinksBefore(ops: seq<GuestOp>, n: nat): set<Path>
    requires n <= |ops|
  {
    if n == 0 then {} else LinksAfter(LinksBefore(ops, n - 1), ops[n - 1])
  }

  /** No symbolic link to a reserved name is made; nothing is linked that may be a symbolic link or that
      has an ambiguous name. */
  predicate PlainOp(op: GuestOp, links: set<Path>) {
    match op
    case SymlinkOp(_, target) => !HasPrefix(Base(target))
    case LinkOp(a, _) => !Ambiguous(Base(a)) && a !in links
    case _ => true
  }

  predicate PlainRun(ops: seq<GuestOp>) {
    forall i :: 0 <= i < |ops| ==> PlainOp(ops[i], LinksBefore(ops, i))
  }

  predicate LinksIn(h: Fs, links: set<Path>) {
    forall p :: p in h && h[p].Link? ==> p in links
  }

  lemma PlainIsSupported(fs: Fs, op: GuestOp, links: set<Path>)
    requires LinksIn(Abs(fs), links) && PlainOp(op, links) && OpNames(op)
    ensures Supported(fs, op)
  {
    hide KindOf, Ambiguous, Abs, HasPrefix, Base, FinalOf;
    if op.LinkOp? { AbsKeys(fs, op.a); }
  }

  lemma LinksStay(h: Fs, op: GuestOp, ok: bool, now: Fs, links: set<Path>)
    requires LinksIn(h, links) && Applied(h, op, ok, now)
    ensures LinksIn(now, LinksAfter(links, op))
  {
  }

  lemma {:induction false} LinksAlong(hist: seq<Fs>, ops: seq<GuestOp>, ok: seq<bool>, n: nat)
    requires n <= |ok| <= |ops| && |hist| == |ok| + 1 && LinksIn(Abs(hist[0]), {})
    requires forall i :: 0 <= i < |ok| ==> Stepped(hist[i], ops[i], ok[i], hist[i + 1])
    ensures LinksIn(Abs(hist[n]), LinksBefore(ops, n))
  {
    hide WF, Abs, LinksIn, Applied, Linkable, LinksAfter;
    if n > 0 {
      LinksAlong(hist, ops, ok, n - 1);
      assert Stepped(hist[n - 1], ops[n - 1], ok[n - 1], hist[n]);
      LinksStay(Abs(hist[n - 1]), ops[n - 1], ok[n - 1], Abs(hist[n]), LinksBefore(ops, n - 1));
    }
  }

  lemma EmptyStands()
    ensures WF(map[]) && Abs(map[]) == map[]
  {
  }

  /** From an empty directory tree, every list of operations on guest names that links neither symbolic
      links nor ambiguous names is such a run, to its end. */
  method RunFromEmpty(cwd: Path, ops: seq<GuestOp>) returns (r: Runtime, ok: seq<bool>, ghost hist: seq<Fs>)
    requires PlainRun(ops) && forall i :: 0 <= i < |ops| ==> OpNames(ops[i])
    ensures WF(r.fs) && |ok| == |ops| && |hist| == |ops| + 1 && hist[0] == map[] && hist[|ops|] == r.fs
    ensures forall i :: 0 <= i < |ops| ==> Stepped(hist[i], ops[i], ok[i], hist[i + 1])
  {
    hide WF, Abs, Stepped, OpNames, PlainOp, Supported, LinksBefore;
    r := new Runtime(cwd);
    EmptyStands();
    ok, hist := Run(r, ops);
    assert LinksIn(Abs(map[]), {});
    LinksAlong(hist, ops, ok, |ok|);
    if |ok| < |ops| { PlainIsSupported(r.fs, ops[|ok|], LinksBefore(ops, |ok|)); }
  }

  /** For instance: a file is created and linked, and both succeed. */
  method CreateAndLink(cwd: Path, a: Path, b: Path, data: string) returns (r: Runtime, nlink: nat)
    requires KindOf(a) == Guest && KindOf(b) == Guest && a != b && Fits(a) && !Ambiguous(Base(a))
    ensures WF(r.fs) && a in Abs(r.fs) && b in Abs(r.fs) && Abs(r.fs)[a] == Abs(r.fs)[b] && Abs(r.fs)[a].File?
    ensures nlink == |HardLinks(Abs(r.fs), a)| && HardLinks(Abs(r.fs), a) == {a, b}
  {
    hide KindOf, WF, Ambiguous, Base, Fits, Linkable, Supported;
    var ok; ghost var hist;
    var ops := [CreateOp(a, data), LinkOp(a, b)];
    r, ok, hist := RunFromEmpty(cwd, ops);
    assert Stepped(hist[0], ops[0], ok[0], hist[1]) && Stepped(hist[1], ops[1], ok[1], hist[2]);
    EmptyStands();
    OneFile(hist[1], a, b);
    var found, node, regular;
    found, node, nlink, regular := GuestStat(r, a);
  }

  lemma OneFile(fs: Fs, a: Path, b: Path)
    requires WF(fs) && KindOf(a) == Guest && KindOf(b) == Guest && a != b && Fits(a) && !Ambiguous(Base(a))
    requires Abs(fs).Keys == {a} && Abs(fs)[a].File?
    ensures Linkable(fs, a, b)
  {
    hide KindOf, WF, Abs, Linkable, IsFake, Ambiguous, Base, MakePaths, HasPrefix, FinalOf, CntOf, MidOf, View, Fits;
    AbsKeys(fs, a);
    LinkableMeans(fs, a, b);
    if IsFake(fs[a]) {
      OnlyMember({a}, a);
      assert HardLinks(Abs(fs), a) == {a};
    } else {
      ViewIsDir(fs, a);
      MadeFrom(a, GEN_FIRST, 2);
      FreshKinds(a, GEN_FIRST);
      if MidOf(a, GEN_FIRST) in fs {
        var u := SomeName(fs, MidOf(a, GEN_FIRST));
      }
    }
  }
}

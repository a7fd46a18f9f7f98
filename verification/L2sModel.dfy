/** Hard links faked with symbolic links, as states of a file system.

    A chain has one intermediate `m` (a symbolic link), one data file `FinalOf(m)` and one side
    file `CntOf(m)` with the link count; every guest name of the file is a symbolic link to `m`.
    This module says what a consistent state is (`WF`), which hard-link file system it stands for
    (`Abs`), and proves that each operation's effect on the former is the operation on the latter. */
module L2sModel {
  import opened Wrappers
  import opened L2sNames
  import opened Text

  type Path = string

  /** A directory entry.  `Count` is a `.cnt` side file, reduced to the number its text denotes. */
  datatype Node = File(ino: nat, data: string) | Link(target: Path) | Dir | Count(n: nat)

  type Fs = map<Path, Node>

  // ----- the kinds of path -----

  /** Guest: a name the guest may use.  The other kinds are reserved by the `.l2s.` prefix. */
  datatype PathKind = Guest | Mid | Data | Cnt | Reserved

  predicate HasPrefix(name: string) {
    PREFIX <= name
  }

  /** Absolute, with a usable last component and a single slash before it. */
  predicate GuestShaped(p: Path) {
    && 0 < |p| < PATH_MAX && p[0] == '/'
    && Split(p).Ok? && Head(Split(p).value.dir) == DirOf(p)
  }

  predicate EndsInCnt(name: string) {
    |name| >= 4 && name[|name| - 4..] == CNT_SUFFIX
  }

  function KindOf(p: Path): PathKind {
    var base := Base(p);
    if !HasPrefix(base) then (if GuestShaped(p) then Guest else Reserved)
    else match ParseName(base)
      case Ok(info) => if info.kind.Intermediate? then Mid else Data
      case Err(_) => if EndsInCnt(base) then Cnt else Reserved
  }

  const DATA_SUFFIX: string := ".0002"

  /** The data file of a chain: its first link() writes the count 2 into the name for good. */
  function FinalOf(m: Path): Path {
    m + DATA_SUFFIX
  }

  function CntOf(m: Path): Path {
    FinalOf(m) + CNT_SUFFIX
  }

  function StemOfData(f: Path): Path {
    if |f| < 5 then f else f[..|f| - 5]
  }

  function StemOfCnt(c: Path): Path {
    if |c| < 9 then c else c[..|c| - 9]
  }

  /** Everything the runtime builds from `m` fits its buffers. */
  predicate Sized(m: Path) {
    |m| > 0 && m[0] == '/' && |CntOf(m)| < PATH_MAX && NameFits(m)
  }

  predicate NameFits(m: Path) {
    |Base(m)| + 5 < NAME_MAX
  }

  lemma Suffixes(m: Path)
    ensures StemOfData(FinalOf(m)) == m && StemOfCnt(CntOf(m)) == m
    ensures |FinalOf(m)| == |m| + 5 && |CntOf(m)| == |m| + 9
  {
    assert FinalOf(m)[..|m|] == m;
    assert CntOf(m)[..|m|] == m;
  }

  lemma {:induction false} BaseOfSuffix(m: Path, s: string)
    requires Free(s, '/')
    ensures Base(m + s) == Base(m) + s && DirOf(m + s) == DirOf(m)
  {
    hide LastSlash;
    var d, b := DirOf(m), Base(m);
    assert m == d + b;
    assert d + b + s == d + (b + s);
    SlashOfJoin(d, b + s);
  }

  /** The three internal names of a chain are of three different kinds. */
  lemma ChainKinds(m: Path)
    requires KindOf(m) == Mid && NameFits(m)
    ensures KindOf(FinalOf(m)) == Data && KindOf(CntOf(m)) == Cnt
    ensures Base(FinalOf(m)) == Base(m) + DATA_SUFFIX && DirOf(FinalOf(m)) == DirOf(m)
    ensures StemOfData(FinalOf(m)) == m && StemOfCnt(CntOf(m)) == m
  {
    hide Base, DirOf, Value;
    Suffixes(m);
    BaseOfSuffix(m, DATA_SUFFIX);
    var s := DATA_SUFFIX + CNT_SUFFIX;
    assert CntOf(m) == m + s;
    BaseOfSuffix(m, s);
    ChainParses(Base(m));
  }

  lemma ChainParses(b: string)
    requires HasPrefix(b) && ParseName(b).Ok? && ParseName(b).value.kind.Intermediate? && |b| + 5 < NAME_MAX
    ensures ParseName(b + DATA_SUFFIX).Ok? && ParseName(b + DATA_SUFFIX).value.kind.Final?
    ensures ParseName(b + (DATA_SUFFIX + CNT_SUFFIX)).Err? && EndsInCnt(b + (DATA_SUFFIX + CNT_SUFFIX))
    ensures HasPrefix(b + DATA_SUFFIX) && HasPrefix(b + (DATA_SUFFIX + CNT_SUFFIX))
  {
    hide Value;
    var body := b[5..];
    var n := |body|;
    var f := b + DATA_SUFFIX;
    assert f[5..] == body + DATA_SUFFIX;
    var fb := body + DATA_SUFFIX;
    assert fb[n + 5 - 9..n + 5 - 5] == body[n - 4..];
    assert fb[n + 1..] == DATA_SUFFIX[1..];
    assert FinalTail(fb);
    var s := DATA_SUFFIX + CNT_SUFFIX;
    var c := b + s;
    assert c[5..] == body + s;
    var cb := body + s;
    assert !IsDigit(cb[|cb| - 1]);
    assert cb[|cb| - 4..][3] == cb[|cb| - 1];
    assert c[|c| - 4..] == CNT_SUFFIX;
  }

  /** The intermediate does not depend on the count. */
  lemma SameIntermediate(prefix: string, p: Path, g: nat, k: nat)
    requires MakePaths(prefix, p, g, k).Ok?
    ensures MakePaths(prefix, p, g, 1).Ok?
    ensures MakePaths(prefix, p, g, 1).value.mid == MakePaths(prefix, p, g, k).value.mid
  {
    hide Split, Head, Digits4;
  }

  lemma GuestFacts(p: Path)
    requires KindOf(p) == Guest
    ensures GuestShaped(p) && !HasPrefix(Base(p))
  {
    hide GuestShaped, Base, ParseName;
  }

  lemma DataSuffix(m: Path)
    ensures m + "." + Digits4(2) == FinalOf(m)
  {
    DigitsOfTwo();
    assert "." + "0002" == DATA_SUFFIX;
  }

  lemma DigitsOfTwo()
    ensures Digits4(2) == "0002"
  {
  }

  lemma AbsoluteDir(p: Path, q: Path)
    requires |p| > 0 && p[0] == '/' && DirOf(p) == DirOf(q)
    ensures |q| > 0 && q[0] == '/'
  {
    hide LastSlash;
    assert DirOf(p)[0] == '/';
    assert DirOf(q)[0] == q[0];
  }

  // ----- reading a chain, as the runtime does -----

  /** A symbolic link's target, resolved from the link's directory.  The map is keyed by canonical
      paths, so a relative target that is not a bare name leads nowhere here. */
  function Anchor(at: Path, target: Path): Path {
    if |target| > 0 && target[0] == '/' then target else DirOf(at) + target
  }

  /** access(F_OK): follows links, so a dangling one does not exist. */
  predicate Accessible(fs: Fs, p: Path, hops: nat)
    decreases hops
  {
    p in fs && (fs[p].Link? ==> hops > 0 && Accessible(fs, Anchor(p, fs[p].target), hops - 1))
  }

  function ReadLink(fs: Fs, p: Path): Path
    requires p in fs && fs[p].Link?
  {
    var t := fs[p].target;
    if |t| < PATH_MAX then t else t[..PATH_MAX - 1]
  }

  /** probe_fake_link: the intermediate a guest name points at, made resolvable from anywhere. */
  function Probe(fs: Fs, cwd: Path, p: Path): Option<Path> {
    if p !in fs || !fs[p].Link? then None
    else
      var t, dir := ReadLink(fs, p), DirOf(p);
      if |t| == 0 || !HasPrefix(Base(t)) then None
      else if LastSlash(t) >= 0 || |dir| == 0 then Some(t)
      else if p[0] != '/' then
        if |cwd| + 1 + |dir| + |t| >= PATH_MAX then None else Some(cwd + "/" + dir + t)
      else if |dir| + |t| >= PATH_MAX then None else Some(dir + t)
  }

  predicate DecodesFinal(p: Path) {
    && Split(p).Ok?
    && ParseName(Base(p)).Ok? && ParseName(Base(p)).value.kind.Final?
  }

  /** resolve_final: the data file behind an intermediate, or an error. */
  function Resolve(fs: Fs, mid: Path): Option<Path> {
    if mid !in fs || !fs[mid].Link? || |fs[mid].target| == 0 then None
    else
      var t, dir := ReadLink(fs, mid), DirOf(mid);
      if !DecodesFinal(t) then
        if t[0] != '/' && |dir| > 0 && |dir| + |t| < PATH_MAX && DecodesFinal(dir + t) then Some(dir + t) else None
      else if LastSlash(t) < 0 && 0 < |dir| && |dir| + |t| < PATH_MAX then Some(dir + t)
      else Some(t)
  }

  // ----- consistent states -----

  predicate IsFake(node: Node) {
    node.Link? && HasPrefix(Base(node.target))
  }

  /** The guest names of a chain. */
  function Users(fs: Fs, m: Path): set<Path> {
    set p | p in fs && KindOf(p) == Guest && fs[p] == Link(m)
  }

  predicate GuestOk(fs: Fs, node: Node) {
    && !node.Count?
    && (node.Link? ==> 0 < |node.target| < PATH_MAX)
    && (IsFake(node) ==> node.target in fs && KindOf(node.target) == Mid)
  }

  predicate MidOk(fs: Fs, m: Path, node: Node) {
    && Sized(m) && node == Link(Base(FinalOf(m)))
    && FinalOf(m) in fs && CntOf(m) in fs
  }

  predicate DataOk(fs: Fs, f: Path, node: Node) {
    var m := StemOfData(f);
    node.File? && f == FinalOf(m) && m in fs && KindOf(m) == Mid
  }

  /** The count is the number of guest names, and there is at least one. */
  predicate CntOk(fs: Fs, c: Path, node: Node) {
    var m := StemOfCnt(c);
    && c == CntOf(m) && m in fs && KindOf(m) == Mid
    && node.Count? && node.n == |Users(fs, m)| && 1 <= node.n <= NLINK_MAX
  }

  predicate NodeOk(fs: Fs, p: Path, node: Node) {
    match KindOf(p)
    case Guest => GuestOk(fs, node)
    case Mid => MidOk(fs, p, node)
    case Data => DataOk(fs, p, node)
    case Cnt => CntOk(fs, p, node)
    case Reserved => false
  }

  predicate OneFilePerInode(fs: Fs) {
    forall p, q {:trigger fs[p].ino, fs[q].ino} ::
      p in fs && q in fs && fs[p].File? && fs[q].File? && fs[p].ino == fs[q].ino ==> p == q
  }

  /** Nothing but guest entries and complete chains that some guest name uses. */
  predicate WF(fs: Fs) {
    (forall p {:trigger NodeOk(fs, p, fs[p])} :: p in fs ==> NodeOk(fs, p, fs[p])) && OneFilePerInode(fs)
  }

  // ----- the hard-link file system a state stands for -----

  /** What a guest entry really is: the data file, when it is a faked hard link. */
  function View(fs: Fs, p: Path): Node
    requires p in fs
  {
    if IsFake(fs[p]) && FinalOf(fs[p].target) in fs then fs[FinalOf(fs[p].target)] else fs[p]
  }

  /** Guest names only; two names are hard links of each other when they hold the same file. */
  function Abs(fs: Fs): Fs {
    map p | p in fs && KindOf(p) == Guest :: View(fs, p)
  }

  predicate SameFile(a: Node, b: Node) {
    a.File? && b.File? && a.ino == b.ino
  }

  function HardLinks(h: Fs, p: Path): set<Path>
    requires p in h
  {
    set q | q in h && SameFile(h[q], h[p])
  }

  // ----- the effects of the operations -----

  /** A first link(): the file moves to the data name and both names point at the intermediate. */
  function FirstLinked(fs: Fs, a: Path, b: Path, m: Path): Fs
    requires a in fs
  {
    (fs - {a})[FinalOf(m) := fs[a]][m := Link(Base(FinalOf(m)))][a := Link(m)][CntOf(m) := Count(2)][b := Link(m)]
  }

  function Counted(fs: Fs, c: Path): nat {
    if c in fs && fs[c].Count? then fs[c].n else 0
  }

  function MoreLinked(fs: Fs, m: Path, b: Path): Fs {
    fs[CntOf(m) := Count(Counted(fs, CntOf(m)) + 1)][b := Link(m)]
  }

  /** One name fewer: the count goes down, or the chain goes away. */
  function Dropped(fs: Fs, m: Path): Fs {
    if Counted(fs, CntOf(m)) > 1 then fs[CntOf(m) := Count(Counted(fs, CntOf(m)) - 1)]
    else fs - {m, FinalOf(m), CntOf(m)}
  }

  function Unlinked(fs: Fs, p: Path, m: Path): Fs {
    Dropped(fs, m) - {p}
  }

  function Moved(fs: Fs, a: Path, b: Path): Fs
    requires a in fs
  {
    (fs - {a})[b := fs[a]]
  }

  // ----- refinement -----

  /** A guest name of a consistent state is probed and resolved to its own chain. */
  lemma ProbeFinds(fs: Fs, cwd: Path, p: Path)
    requires WF(fs) && p in fs && KindOf(p) == Guest
    ensures Probe(fs, cwd, p) == if IsFake(fs[p]) then Some(fs[p].target) else None
    ensures IsFake(fs[p]) ==> var m := fs[p].target;
      && m in fs && KindOf(m) == Mid && MidOk(fs, m, fs[m]) && Resolve(fs, m) == Some(FinalOf(m))
      && DataOk(fs, FinalOf(m), fs[FinalOf(m)]) && CntOk(fs, CntOf(m), fs[CntOf(m)])
  {
    hide KindOf, Base, DirOf, Split, ParseName, FinalOf, CntOf, Users, StemOfData, StemOfCnt, LastSlash;
    assert NodeOk(fs, p, fs[p]);
    if IsFake(fs[p]) {
      var m := fs[p].target;
      assert NodeOk(fs, m, fs[m]);
      ChainResolves(fs, m);
      ChainParts(fs, m);
      HasSlash(m);
    }
  }

  lemma HasSlash(m: Path)
    requires |m| > 0 && m[0] == '/'
    ensures LastSlash(m) >= 0
  {
  }

  lemma ChainParts(fs: Fs, m: Path)
    requires WF(fs) && m in fs && KindOf(m) == Mid
    ensures MidOk(fs, m, fs[m])
    ensures DataOk(fs, FinalOf(m), fs[FinalOf(m)]) && CntOk(fs, CntOf(m), fs[CntOf(m)])
  {
    hide KindOf, Base, FinalOf, CntOf, Users, StemOfData, StemOfCnt;
    assert NodeOk(fs, m, fs[m]);
    ChainKinds(m);
    assert NodeOk(fs, FinalOf(m), fs[FinalOf(m)]);
    assert NodeOk(fs, CntOf(m), fs[CntOf(m)]);
  }

  lemma ChainResolves(fs: Fs, m: Path)
    requires m in fs && KindOf(m) == Mid && MidOk(fs, m, fs[m])
    ensures Resolve(fs, m) == Some(FinalOf(m))
  {
    hide KindOf, Base, DirOf, Split, ParseName, FinalOf, CntOf, LastSlash;
    var t := Base(FinalOf(m));
    ChainKinds(m);
    DataNameDecodes(m);
    assert FinalOf(m) == DirOf(FinalOf(m)) + t by { Whole(FinalOf(m)); }
    DirNotEmpty(m);
    Suffixes(m);
  }

  lemma Whole(p: Path)
    ensures p == DirOf(p) + Base(p)
  {
  }

  lemma DirNotEmpty(m: Path)
    requires |m| > 0 && m[0] == '/'
    ensures |DirOf(m)| > 0
  {
    hide LastSlash;
  }

  lemma DataNameDecodes(m: Path)
    requires KindOf(m) == Mid && Sized(m)
    ensures var t := Base(FinalOf(m)); |t| > 0 && t[0] != '/' && DecodesFinal(t) && LastSlash(t) < 0
  {
    hide KindOf, ParseName, FinalOf, CntOf, LastSlash;
    ChainKinds(m);
    var t := Base(FinalOf(m));
    BareName(FinalOf(m));
    DataKindDecodes(FinalOf(m));
    assert t == Base(m) + DATA_SUFFIX;
    assert t[|Base(m)| + 1] == '0';
  }

  lemma BareName(p: Path)
    ensures var t := Base(p); LastSlash(t) == -1 && Base(t) == t && DirOf(t) == "" && (|t| > 0 ==> t[0] != '/')
  {
    hide LastSlash;
  }

  lemma DataKindDecodes(f: Path)
    requires KindOf(f) == Data
    ensures ParseName(Base(f)).Ok? && ParseName(Base(f)).value.kind.Final?
  {
    hide ParseName, Base;
  }

  // ----- the proofs that the effects refine hard-link operations -----

  /** A chain keeps its files and its users from `fs` to `now`. */
  predicate ChainKept(fs: Fs, now: Fs, m: Path) {
    && (m in fs ==> m in now) && (FinalOf(m) in fs ==> FinalOf(m) in now) && (CntOf(m) in fs ==> CntOf(m) in now)
    && Users(now, m) == Users(fs, m)
  }

  /** An entry stays consistent when the chain it belongs to is kept. */
  lemma NodeKept(fs: Fs, now: Fs, p: Path)
    requires p in fs && NodeOk(fs, p, fs[p])
    requires KindOf(p) == Guest && IsFake(fs[p]) ==> fs[p].target in now
    requires KindOf(p) == Mid ==> ChainKept(fs, now, p)
    requires KindOf(p) == Data ==> ChainKept(fs, now, StemOfData(p))
    requires KindOf(p) == Cnt ==> ChainKept(fs, now, StemOfCnt(p))
    ensures NodeOk(now, p, fs[p])
  {
    hide KindOf, Base, FinalOf, CntOf, Users, StemOfData, StemOfCnt;
  }

  lemma MidIsReserved(m: Path)
    requires KindOf(m) == Mid
    ensures HasPrefix(Base(m)) && IsFake(Link(m))
  {
    hide ParseName, Base, GuestShaped;
  }

  /** Reserved and guest names never meet. */
  lemma ChainApart(m: Path, k: Path)
    requires KindOf(m) == Mid && Sized(m) && KindOf(k) == Mid && Sized(k) && m != k
    ensures FinalOf(m) != FinalOf(k) && CntOf(m) != CntOf(k)
  {
    hide KindOf, FinalOf, CntOf, StemOfData, StemOfCnt;
    ChainKinds(m);
    ChainKinds(k);
  }

  lemma AbsentChain(fs: Fs, m: Path)
    requires WF(fs) && KindOf(m) == Mid && NameFits(m) && m !in fs
    ensures FinalOf(m) !in fs && CntOf(m) !in fs && Users(fs, m) == {}
  {
    hide KindOf, Base, FinalOf, CntOf, StemOfData, StemOfCnt;
    ChainKinds(m);
    assert FinalOf(m) in fs ==> NodeOk(fs, FinalOf(m), fs[FinalOf(m)]);
    assert CntOf(m) in fs ==> NodeOk(fs, CntOf(m), fs[CntOf(m)]);
    MidIsReserved(m);
    assert forall p :: p in fs ==> NodeOk(fs, p, fs[p]);
  }

  /** The preconditions of a first link(): a plain file, a free name, a free intermediate. */
  predicate CanStart(fs: Fs, a: Path, b: Path, m: Path) {
    && WF(fs) && a in fs && KindOf(a) == Guest && fs[a].File?
    && KindOf(b) == Guest && b !in fs
    && KindOf(m) == Mid && Sized(m) && m !in fs
  }

  lemma FirstLinkUsers(fs: Fs, a: Path, b: Path, m: Path)
    requires CanStart(fs, a, b, m)
    ensures var now := FirstLinked(fs, a, b, m);
      Users(now, m) == {a, b} && forall k :: k != m ==> Users(now, k) == Users(fs, k)
  {
    hide KindOf, Base, FinalOf, CntOf, StemOfData, StemOfCnt, WF;
    var now := FirstLinked(fs, a, b, m);
    ChainKinds(m);
    AbsentChain(fs, m);
    assert Users(now, m) == {a, b};
    forall k | k != m ensures Users(now, k) == Users(fs, k) {
      assert forall p :: p in Users(now, k) <==> p in Users(fs, k);
    }
  }

  lemma FirstLinkNewNodes(fs: Fs, a: Path, b: Path, m: Path, p: Path)
    requires CanStart(fs, a, b, m) && p in {a, b, m, FinalOf(m), CntOf(m)}
    ensures var now := FirstLinked(fs, a, b, m); p in now && NodeOk(now, p, now[p])
  {
    hide KindOf, Base, FinalOf, CntOf, StemOfData, StemOfCnt, Users, WF, HasPrefix, IsFake;
    ChainKinds(m);
    AbsentChain(fs, m);
    MidIsReserved(m);
    MidShort(m);
    FirstLinkUsers(fs, a, b, m);
  }

  lemma MidShort(m: Path)
    requires Sized(m)
    ensures 0 < |m| < PATH_MAX
  {
    hide Base;
  }

  lemma FirstLinkKeepsWF(fs: Fs, a: Path, b: Path, m: Path)
    requires CanStart(fs, a, b, m)
    ensures WF(FirstLinked(fs, a, b, m))
  {
    hide KindOf, Base, FinalOf, CntOf, StemOfData, StemOfCnt, Users, IsFake;
    var now := FirstLinked(fs, a, b, m);
    ChainKinds(m);
    AbsentChain(fs, m);
    FirstLinkUsers(fs, a, b, m);
    forall p | p in now ensures NodeOk(now, p, now[p]) {
      if p in {a, b, m, FinalOf(m), CntOf(m)} {
        FirstLinkNewNodes(fs, a, b, m, p);
      } else {
        assert NodeOk(fs, p, fs[p]);
        NodeKept(fs, now, p);
      }
    }
  }

  lemma FirstLinkOldView(fs: Fs, a: Path, b: Path, m: Path, p: Path)
    requires CanStart(fs, a, b, m) && p in fs && KindOf(p) == Guest && p != a
    ensures var now := FirstLinked(fs, a, b, m); p in now && View(now, p) == View(fs, p)
  {
    hide KindOf, Base, FinalOf, CntOf, StemOfData, StemOfCnt, Users, HasPrefix;
    ChainKinds(m);
    AbsentChain(fs, m);
    assert NodeOk(fs, p, fs[p]);
    if IsFake(fs[p]) {
      var k := fs[p].target;
      ChainParts(fs, k);
      ChainApart(k, m);
      ChainKinds(k);
    }
  }

  lemma FirstLinkNewViews(fs: Fs, a: Path, b: Path, m: Path)
    requires CanStart(fs, a, b, m)
    ensures var now := FirstLinked(fs, a, b, m);
      a in now && b in now && View(now, a) == fs[a] && View(now, b) == fs[a] && View(fs, a) == fs[a]
  {
    hide KindOf, Base, FinalOf, CntOf, StemOfData, StemOfCnt, Users, HasPrefix, WF;
    ChainKinds(m);
    AbsentChain(fs, m);
    MidIsReserved(m);
  }

  /** First link(): the hard-link file system gains the name `b` for the file of `a`. */
  lemma FirstLinkRefines(fs: Fs, a: Path, b: Path, m: Path)
    requires CanStart(fs, a, b, m)
    ensures WF(FirstLinked(fs, a, b, m))
    ensures Abs(FirstLinked(fs, a, b, m)) == Abs(fs)[b := Abs(fs)[a]]
  {
    hide KindOf, FinalOf, CntOf, WF, View, Sized, FirstLinked, Abs;
    FirstLinkKeepsWF(fs, a, b, m);
    var now := FirstLinked(fs, a, b, m);
    FirstLinkNewViews(fs, a, b, m);
    forall p | p in fs && KindOf(p) == Guest ensures p in now && View(now, p) == View(fs, p) {
      if p != a { FirstLinkOldView(fs, a, b, m, p); }
    }
    FirstLinkGuests(fs, a, b, m);
    AbsGains(fs, now, a, b);
  }

  lemma FirstLinkGuests(fs: Fs, a: Path, b: Path, m: Path)
    requires CanStart(fs, a, b, m)
    ensures forall p :: p in FirstLinked(fs, a, b, m) && KindOf(p) == Guest ==> p in fs || p == b
  {
    hide KindOf, Base, FinalOf, CntOf, WF, NameFits;
    ChainKinds(m);
  }

  /** One more guest name, for the file `a` already names. */
  lemma AbsGains(fs: Fs, now: Fs, a: Path, b: Path)
    requires a in fs && KindOf(a) == Guest && KindOf(b) == Guest
    requires forall p :: p in fs && KindOf(p) == Guest ==> p in now && View(now, p) == View(fs, p)
    requires b in now && View(now, b) == View(fs, a)
    requires forall p :: p in now && KindOf(p) == Guest ==> p in fs || p == b
    requires b !in fs
    ensures Abs(now) == Abs(fs)[b := Abs(fs)[a]]
  {
    hide KindOf, View;
  }

  /** The preconditions of a later link(): `a` is a name of the chain `m`, `b` is free. */
  predicate CanExtend(fs: Fs, a: Path, b: Path, m: Path) {
    && WF(fs) && a in fs && KindOf(a) == Guest && fs[a] == Link(m) && KindOf(m) == Mid
    && KindOf(b) == Guest && b !in fs
    && Counted(fs, CntOf(m)) < NLINK_MAX
  }

  lemma ChainOfName(fs: Fs, a: Path, m: Path)
    requires WF(fs) && a in fs && KindOf(a) == Guest && fs[a] == Link(m) && KindOf(m) == Mid
    ensures m in fs && MidOk(fs, m, fs[m]) && DataOk(fs, FinalOf(m), fs[FinalOf(m)])
    ensures CntOk(fs, CntOf(m), fs[CntOf(m)])
    ensures KindOf(FinalOf(m)) == Data && KindOf(CntOf(m)) == Cnt && StemOfCnt(CntOf(m)) == m
    ensures StemOfData(FinalOf(m)) == m
    ensures Counted(fs, CntOf(m)) == |Users(fs, m)| && a in Users(fs, m)
  {
    hide KindOf, Base, FinalOf, CntOf, StemOfData, StemOfCnt;
    MidIsReserved(m);
    assert NodeOk(fs, a, fs[a]);
    ChainParts(fs, m);
    ChainKinds(m);
  }

  lemma MoreLinkUsers(fs: Fs, a: Path, b: Path, m: Path)
    requires CanExtend(fs, a, b, m)
    ensures var now := MoreLinked(fs, m, b);
      Users(now, m) == Users(fs, m) + {b} && forall k :: k != m ==> Users(now, k) == Users(fs, k)
  {
    hide KindOf, Base, FinalOf, CntOf, StemOfData, StemOfCnt, WF;
    var now := MoreLinked(fs, m, b);
    ChainOfName(fs, a, m);
    forall k | k != m ensures Users(now, k) == Users(fs, k) {
      assert forall p :: p in Users(now, k) <==> p in Users(fs, k);
    }
  }

  /** The two entries that a later link() writes. */
  lemma MoreLinkNewNodes(fs: Fs, a: Path, b: Path, m: Path)
    requires CanExtend(fs, a, b, m)
    ensures var now := MoreLinked(fs, m, b);
      NodeOk(now, CntOf(m), now[CntOf(m)]) && NodeOk(now, b, now[b])
  {
    hide KindOf, Base, FinalOf, CntOf, StemOfData, StemOfCnt, HasPrefix;
    var now := MoreLinked(fs, m, b);
    ChainOfName(fs, a, m);
    MidIsReserved(m);
    MoreLinkUsers(fs, a, b, m);
    assert b !in Users(fs, m);
    hide Users, WF;
    MidShort(m);
    assert now[CntOf(m)].n == |Users(fs, m) + {b}| == |Users(fs, m)| + 1;
  }

  lemma MoreLinkKeepsWF(fs: Fs, a: Path, b: Path, m: Path)
    requires CanExtend(fs, a, b, m)
    ensures WF(MoreLinked(fs, m, b))
  {
    hide KindOf, Base, FinalOf, CntOf, StemOfData, StemOfCnt, HasPrefix, Users;
    var now := MoreLinked(fs, m, b);
    ChainOfName(fs, a, m);
    MoreLinkUsers(fs, a, b, m);
    MoreLinkNewNodes(fs, a, b, m);
    hide NodeOk;
    forall p | p in now ensures NodeOk(now, p, now[p]) {
      if p != CntOf(m) && p != b {
        assert NodeOk(fs, p, fs[p]);
      }
    }
  }

  /** A later link(): one more name, one more count, nothing else. */
  lemma MoreLinkRefines(fs: Fs, a: Path, b: Path, m: Path)
    requires CanExtend(fs, a, b, m)
    ensures WF(MoreLinked(fs, m, b))
    ensures Abs(MoreLinked(fs, m, b)) == Abs(fs)[b := Abs(fs)[a]]
  {
    hide KindOf, Base, FinalOf, CntOf, StemOfData, StemOfCnt, HasPrefix, Users, WF;
    MoreLinkKeepsWF(fs, a, b, m);
    var now := MoreLinked(fs, m, b);
    ChainOfName(fs, a, m);
    MidIsReserved(m);
    SameViews(fs, now, CntOf(m));
    assert View(now, b) == View(now, a);
    AbsGains(fs, now, a, b);
  }

  /** Views do not depend on side files. */
  lemma SameViews(fs: Fs, now: Fs, c: Path)
    requires WF(fs) && KindOf(c) == Cnt
    requires forall q :: q in fs ==> q in now && (q != c ==> now[q] == fs[q])
    ensures forall p :: p in fs && KindOf(p) == Guest ==> now[p] == fs[p] && View(now, p) == View(fs, p)
  {
    hide KindOf, Base, FinalOf, CntOf, StemOfData, StemOfCnt, HasPrefix, Users;
    forall p | p in fs && KindOf(p) == Guest ensures now[p] == fs[p] && View(now, p) == View(fs, p) {
      assert NodeOk(fs, p, fs[p]);
      if IsFake(fs[p]) {
        ChainParts(fs, fs[p].target);
        ChainKinds(fs[p].target);
      }
    }
  }

  /** The precondition of an unlink() of a faked hard link. */
  predicate CanDrop(fs: Fs, p: Path, m: Path) {
    WF(fs) && p in fs && KindOf(p) == Guest && fs[p] == Link(m) && KindOf(m) == Mid
  }

  lemma OnlyMember<T>(s: set<T>, x: T)
    requires x in s
    ensures |s - {x}| == |s| - 1
    ensures |s| == 1 ==> s == {x}
  {
    if |s| == 1 {
      assert s == (s - {x}) + {x};
    }
  }

  lemma UnlinkUsers(fs: Fs, p: Path, m: Path)
    requires CanDrop(fs, p, m)
    ensures var now := Unlinked(fs, p, m);
      && Users(now, m) == Users(fs, m) - {p}
      && (Counted(fs, CntOf(m)) == 1 ==> Users(fs, m) == {p})
      && forall k :: k != m ==> Users(now, k) == Users(fs, k)
  {
    hide KindOf, Base, FinalOf, CntOf, StemOfData, StemOfCnt, WF;
    var now := Unlinked(fs, p, m);
    ChainOfName(fs, p, m);
    OnlyMember(Users(fs, m), p);
    assert forall q :: q in Users(now, m) <==> q in Users(fs, m) - {p};
    forall k | k != m ensures Users(now, k) == Users(fs, k) {
      assert forall q :: q in Users(now, k) <==> q in Users(fs, k);
    }
  }

  /** What unlink() leaves: every entry but `p` and, with the last name, the whole chain. */
  lemma UnlinkLeaves(fs: Fs, p: Path, m: Path, q: Path)
    requires CanDrop(fs, p, m) && q in Unlinked(fs, p, m)
    ensures q in fs && q != p
    ensures Counted(fs, CntOf(m)) == 1 ==> q !in {m, FinalOf(m), CntOf(m)}
    ensures q != CntOf(m) ==> Unlinked(fs, p, m)[q] == fs[q]
    ensures q == CntOf(m) ==> Unlinked(fs, p, m)[q] == Count(Counted(fs, CntOf(m)) - 1)
  {
    hide KindOf, Base, FinalOf, CntOf, StemOfData, StemOfCnt, WF, Users;
    ChainOfName(fs, p, m);
  }

  lemma UnlinkKeepsNode(fs: Fs, p: Path, m: Path, q: Path)
    requires CanDrop(fs, p, m) && q in Unlinked(fs, p, m)
    ensures NodeOk(Unlinked(fs, p, m), q, Unlinked(fs, p, m)[q])
  {
    hide KindOf, Base, FinalOf, CntOf, StemOfData, StemOfCnt, IsFake;
    var now := Unlinked(fs, p, m);
    ChainOfName(fs, p, m);
    UnlinkUsers(fs, p, m);
    UnlinkLeaves(fs, p, m, q);
    assert NodeOk(fs, q, fs[q]);
    if q == CntOf(m) {
      OnlyMember(Users(fs, m), p);
    } else if KindOf(q) == Guest && fs[q] == Link(m) {
      assert q in Users(fs, m);
    } else {
      hide Users;
      if KindOf(q) == Guest {
        if IsFake(fs[q]) { LinksAreLinks(fs[q]); OtherChain(fs, p, m, fs[q].target); }
      } else if KindOf(q) == Mid {
        if q != m { OtherChain(fs, p, m, q); }
      } else if KindOf(q) == Data {
        if StemOfData(q) != m { OtherChain(fs, p, m, StemOfData(q)); }
      } else if KindOf(q) == Cnt {
        OtherChain(fs, p, m, StemOfCnt(q));
      }
      if Counted(fs, CntOf(m)) != 1 && q in {m, FinalOf(m)} {
        SameChainKept(fs, p, m, q);
      } else {
        NodeKept(fs, now, q);
      }
    }
  }

  lemma LinksAreLinks(node: Node)
    requires IsFake(node)
    ensures node.Link?
  {
  }

  lemma UnlinkKeepsChain(fs: Fs, p: Path, m: Path)
    requires Counted(fs, CntOf(m)) > 1 && m in fs && FinalOf(m) in fs && p != m && p != FinalOf(m) && p != CntOf(m)
    ensures var now := Unlinked(fs, p, m); m in now && FinalOf(m) in now && CntOf(m) in now
  {
    hide FinalOf, CntOf;
  }

  /** The unlinked chain itself, while other names remain. */
  lemma SameChainKept(fs: Fs, p: Path, m: Path, q: Path)
    requires CanDrop(fs, p, m) && Counted(fs, CntOf(m)) != 1 && q in fs && (q == m || q == FinalOf(m))
    ensures NodeOk(Unlinked(fs, p, m), q, fs[q])
  {
    hide KindOf, Base, FinalOf, CntOf, StemOfData, StemOfCnt, WF, Users, NameFits, Unlinked, Counted, GuestOk;
    ChainOfName(fs, p, m);
    UnlinkKeepsChain(fs, p, m);
  }

  /** An entry outside the unlinked chain stays. */
  lemma UnlinkKeepsEntry(fs: Fs, p: Path, m: Path, q: Path)
    requires q in fs && q != p && q != m && q != FinalOf(m) && q != CntOf(m)
    ensures q in Unlinked(fs, p, m) && Unlinked(fs, p, m)[q] == fs[q]
  {
    hide FinalOf, CntOf;
  }

  /** Every other chain is untouched by an unlink(). */
  lemma OtherChain(fs: Fs, p: Path, m: Path, k: Path)
    requires CanDrop(fs, p, m) && k in fs && KindOf(k) == Mid && k != m
    ensures ChainKept(fs, Unlinked(fs, p, m), k) && k in Unlinked(fs, p, m)
    ensures FinalOf(k) in fs && FinalOf(k) in Unlinked(fs, p, m) && Unlinked(fs, p, m)[FinalOf(k)] == fs[FinalOf(k)]
  {
    UnlinkUsers(fs, p, m);
    ChainOfName(fs, p, m);
    ChainParts(fs, k);
    ChainKinds(k);
    ChainApart(m, k);
    hide KindOf, Base, FinalOf, CntOf, StemOfData, StemOfCnt, Users, IsFake, WF, Unlinked, Counted, NameFits;
    UnlinkKeepsEntry(fs, p, m, k);
    UnlinkKeepsEntry(fs, p, m, FinalOf(k));
    UnlinkKeepsEntry(fs, p, m, CntOf(k));
  }

  /** unlink() of a faked hard link: the name goes; the file stays as long as it has a name, and
      with its last name all three internal files go. */
  lemma UnlinkRefines(fs: Fs, p: Path, m: Path)
    requires CanDrop(fs, p, m)
    ensures WF(Unlinked(fs, p, m))
    ensures Abs(Unlinked(fs, p, m)) == Abs(fs) - {p}
    ensures |Users(fs, m)| == 1 ==>
      m !in Unlinked(fs, p, m) && FinalOf(m) !in Unlinked(fs, p, m) && CntOf(m) !in Unlinked(fs, p, m)
  {
    hide KindOf, Base, FinalOf, CntOf, StemOfData, StemOfCnt, Users, IsFake, Unlinked;
    var now := Unlinked(fs, p, m);
    ChainOfName(fs, p, m);
    forall q | q in now ensures q in fs && q != p && NodeOk(now, q, now[q]) && (now[q].File? ==> now[q] == fs[q]) {
      UnlinkKeepsNode(fs, p, m, q);
      UnlinkLeaves(fs, p, m, q);
    }
    forall q | q in fs && q != p && KindOf(q) == Guest ensures q in now && View(now, q) == View(fs, q) {
      UnlinkView(fs, p, m, q);
    }
    assert Abs(now).Keys == Abs(fs).Keys - {p};
    if |Users(fs, m)| == 1 { LastName(fs, p, m); }
  }

  lemma LastName(fs: Fs, p: Path, m: Path)
    requires CanDrop(fs, p, m) && |Users(fs, m)| == 1
    ensures m !in Unlinked(fs, p, m) && FinalOf(m) !in Unlinked(fs, p, m) && CntOf(m) !in Unlinked(fs, p, m)
  {
    hide KindOf, Base, FinalOf, CntOf, StemOfData, StemOfCnt, Users, WF;
    ChainOfName(fs, p, m);
  }

  lemma UnlinkView(fs: Fs, p: Path, m: Path, q: Path)
    requires CanDrop(fs, p, m) && q in fs && q != p && KindOf(q) == Guest
    ensures q in Unlinked(fs, p, m) && View(Unlinked(fs, p, m), q) == View(fs, q)
  {
    hide KindOf, Base, FinalOf, CntOf, StemOfData, StemOfCnt, HasPrefix, NameFits;
    ChainOfName(fs, p, m);
    UnlinkUsers(fs, p, m);
    assert NodeOk(fs, q, fs[q]);
    if IsFake(fs[q]) {
      if fs[q].target == m {
        assert q in Users(fs, m);
      } else {
        OtherChain(fs, p, m, fs[q].target);
      }
    }
  }

  /** Removing or adding an entry that is no faked hard link leaves every chain as it is. */
  lemma PlainUsers(fs: Fs, now: Fs, p: Path, k: Path)
    requires KindOf(p) == Guest && KindOf(k) == Mid
    requires p in fs ==> !IsFake(fs[p])
    requires p in now ==> !IsFake(now[p])
    requires forall q :: q != p ==> (q in fs <==> q in now) && (q in fs ==> now[q] == fs[q])
    ensures Users(now, k) == Users(fs, k)
  {
    hide KindOf, Base, HasPrefix;
    MidIsReserved(k);
    assert forall q :: q in Users(now, k) <==> q in Users(fs, k);
  }

  /** A change of one plain guest entry keeps every other entry consistent. */
  lemma PlainKeepsNode(fs: Fs, now: Fs, p: Path, q: Path)
    requires WF(fs) && KindOf(p) == Guest && q in fs && q != p
    requires p in fs ==> !IsFake(fs[p])
    requires p in now ==> !IsFake(now[p])
    requires forall r :: r != p ==> (r in fs <==> r in now) && (r in fs ==> now[r] == fs[r])
    ensures NodeOk(now, q, fs[q]) && (KindOf(q) == Guest ==> View(now, q) == View(fs, q))
  {
    hide KindOf, Base, FinalOf, CntOf, StemOfData, StemOfCnt, HasPrefix, Users;
    assert NodeOk(fs, q, fs[q]);
    var m := match KindOf(q)
      case Guest => if IsFake(fs[q]) then fs[q].target else q
      case Data => StemOfData(q)
      case Cnt => StemOfCnt(q)
      case _ => q;
    if m in fs && KindOf(m) == Mid {
      PlainUsers(fs, now, p, m);
      ChainParts(fs, m);
      ChainKinds(m);
      hide Sized;
    }
    NodeKept(fs, now, q);
  }

  /** Deleting a plain guest entry. */
  lemma RemovePlain(fs: Fs, p: Path)
    requires WF(fs) && p in fs && KindOf(p) == Guest && !IsFake(fs[p])
    ensures WF(fs - {p}) && Abs(fs - {p}) == Abs(fs) - {p}
  {
    hide KindOf, NodeOk, View, IsFake;
    var now := fs - {p};
    forall q | q in fs && q != p ensures NodeOk(now, q, fs[q]) && (KindOf(q) == Guest ==> View(now, q) == View(fs, q)) {
      PlainKeepsNode(fs, now, p, q);
    }
  }

  /** A new plain entry under a free guest name; a file has a fresh inode. */
  lemma AddPlain(fs: Fs, p: Path, node: Node)
    requires WF(fs) && p !in fs && KindOf(p) == Guest && !IsFake(node) && View(fs[p := node], p) == node
    requires NodeOk(fs[p := node], p, node)
    requires node.File? ==> forall q :: q in fs && fs[q].File? ==> fs[q].ino != node.ino
    ensures WF(fs[p := node]) && Abs(fs[p := node]) == Abs(fs)[p := node]
  {
    hide KindOf, View, IsFake, NodeOk, Abs;
    var now := fs[p := node];
    forall q | q in fs ensures NodeOk(now, q, fs[q]) && (KindOf(q) == Guest ==> View(now, q) == View(fs, q)) {
      PlainKeepsNode(fs, now, p, q);
    }
    AbsAdds(fs, now, p, node);
  }

  /** Creating a file under a free guest name, with a fresh inode. */
  lemma CreateRefines(fs: Fs, p: Path, ino: nat, data: string)
    requires WF(fs) && p !in fs && KindOf(p) == Guest
    requires forall q :: q in fs && fs[q].File? ==> fs[q].ino != ino
    ensures WF(fs[p := File(ino, data)]) && Abs(fs[p := File(ino, data)]) == Abs(fs)[p := File(ino, data)]
  {
    hide KindOf, View, IsFake, NodeOk, Abs, WF;
    PlainFile(fs[p := File(ino, data)], p);
    AddPlain(fs, p, File(ino, data));
  }

  /** A symbolic link of the guest's own, to a name that is not reserved. */
  lemma SymlinkRefines(fs: Fs, p: Path, target: Path)
    requires WF(fs) && p !in fs && KindOf(p) == Guest && 0 < |target| < PATH_MAX && !HasPrefix(Base(target))
    ensures WF(fs[p := Link(target)]) && Abs(fs[p := Link(target)]) == Abs(fs)[p := Link(target)]
  {
    hide KindOf, View, IsFake, NodeOk, Abs, WF, HasPrefix, Base;
    PlainSymlink(fs[p := Link(target)], p, target);
    AddPlain(fs, p, Link(target));
  }

  lemma PlainSymlink(fs: Fs, p: Path, target: Path)
    requires p in fs && KindOf(p) == Guest && fs[p] == Link(target) && 0 < |target| < PATH_MAX
    requires !HasPrefix(Base(target))
    ensures !IsFake(fs[p]) && View(fs, p) == fs[p] && NodeOk(fs, p, fs[p])
  {
    hide KindOf, Base, HasPrefix;
  }

  lemma PlainFile(fs: Fs, p: Path)
    requires p in fs && KindOf(p) == Guest && fs[p].File?
    ensures !IsFake(fs[p]) && View(fs, p) == fs[p] && NodeOk(fs, p, fs[p])
  {
    hide KindOf;
  }

  lemma AbsAdds(fs: Fs, now: Fs, p: Path, node: Node)
    requires KindOf(p) == Guest && p in now && View(now, p) == node && now.Keys == fs.Keys + {p}
    requires forall q :: q in fs && q != p && KindOf(q) == Guest ==> View(now, q) == View(fs, q)
    ensures Abs(now) == Abs(fs)[p := node]
  {
    hide KindOf, View;
    assert Abs(now).Keys == Abs(fs).Keys + {p};
  }

  lemma Exchanged<T>(s: set<T>, x: T, y: T)
    requires x in s && y !in s
    ensures |s - {x} + {y}| == |s|
  {
  }

  lemma MoveUsers(fs: Fs, a: Path, b: Path, k: Path)
    requires WF(fs) && a in fs && KindOf(a) == Guest && KindOf(b) == Guest && b !in fs && KindOf(k) == Mid
    ensures |Users(Moved(fs, a, b), k)| == |Users(fs, k)|
  {
    hide KindOf, WF;
    var now := Moved(fs, a, b);
    if fs[a] == Link(k) {
      assert Users(now, k) == Users(fs, k) - {a} + {b};
      Exchanged(Users(fs, k), a, b);
    } else {
      assert Users(now, k) == Users(fs, k);
    }
  }

  predicate CanMove(fs: Fs, a: Path, b: Path) {
    WF(fs) && a in fs && KindOf(a) == Guest && KindOf(b) == Guest && b !in fs
  }

  lemma MoveKeepsReserved(fs: Fs, a: Path, b: Path, q: Path)
    requires CanMove(fs, a, b) && q in fs && KindOf(q) != Guest
    ensures NodeOk(Moved(fs, a, b), q, fs[q])
  {
    hide KindOf, Base, FinalOf, CntOf, StemOfData, StemOfCnt, Users, NameFits;
    assert NodeOk(fs, q, fs[q]);
    var m := match KindOf(q)
      case Data => StemOfData(q)
      case Cnt => StemOfCnt(q)
      case _ => q;
    if m in fs && KindOf(m) == Mid {
      MoveUsers(fs, a, b, m);
      ChainParts(fs, m);
      ChainKinds(m);
    }
  }

  lemma MoveKeepsGuest(fs: Fs, now: Fs, a: Path, b: Path, q: Path, r: Path)
    requires CanMove(fs, a, b) && q in fs && KindOf(q) == Guest
    requires now == Moved(fs, a, b) && r == (if q == a then b else q) && r in now
    ensures NodeOk(now, r, fs[q]) && View(now, r) == View(fs, q)
  {
    hide KindOf, Base, FinalOf, CntOf, StemOfData, StemOfCnt, Users, HasPrefix, NameFits;
    assert NodeOk(fs, q, fs[q]);
    if IsFake(fs[q]) {
      ChainParts(fs, fs[q].target);
      ChainKinds(fs[q].target);
    }
  }

  /** rename() of any guest entry to a free name. */
  lemma MoveRefines(fs: Fs, a: Path, b: Path)
    requires WF(fs) && a in fs && KindOf(a) == Guest && KindOf(b) == Guest && b !in fs
    ensures WF(Moved(fs, a, b)) && Abs(Moved(fs, a, b)) == Moved(Abs(fs), a, b)
  {
    hide KindOf, NodeOk, View;
    var now := Moved(fs, a, b);
    forall q, r | q in fs && r == (if q == a then b else q)
      ensures r in now && NodeOk(now, r, fs[q]) && (KindOf(q) == Guest ==> View(now, r) == View(fs, q))
    {
      assert r in now;
      if KindOf(q) == Guest { MoveKeepsGuest(fs, now, a, b, q, r); } else { MoveKeepsReserved(fs, a, b, q); }
    }
    assert Abs(now).Keys == Abs(fs).Keys - {a} + {b};
  }

  // ----- rename over an existing name -----

  /** rename(2) between two names of a hard-link file system: nothing when they are the same file. */
  function Renamed(h: Fs, a: Path, b: Path): Fs
    requires a in h
  {
    if a == b || (b in h && SameFile(h[a], h[b])) then h else Moved(h, a, b)
  }

  /** Moving over a plain entry. */
  lemma ReplacePlainRefines(fs: Fs, a: Path, b: Path)
    requires WF(fs) && a in fs && b in fs && KindOf(a) == Guest && KindOf(b) == Guest && a != b && !IsFake(fs[b])
    ensures WF(Moved(fs, a, b)) && Abs(Moved(fs, a, b)) == Moved(Abs(fs), a, b)
  {
    hide KindOf, IsFake, WF, Abs;
    RemovePlain(fs, b);
    MoveRefines(fs - {b}, a, b);
    MovedOver(fs, a, b);
    AbsKeys(fs, a);
    MovedOver(Abs(fs), a, b);
  }

  lemma AbsKeys(fs: Fs, a: Path)
    ensures a in Abs(fs) <==> a in fs && KindOf(a) == Guest
    ensures a in Abs(fs) ==> Abs(fs)[a] == View(fs, a)
  {
    hide KindOf, View;
  }

  /** Moving over a name of another chain, and then accounting for that name: the same as dropping
      the name first and moving afterwards. */
  lemma ReplaceFakeRefines(fs: Fs, a: Path, b: Path, m: Path)
    requires CanDrop(fs, b, m) && a in fs && KindOf(a) == Guest && a != b && fs[a] != Link(m)
    ensures WF(Dropped(Moved(fs, a, b), m)) && Abs(Dropped(Moved(fs, a, b), m)) == Moved(Abs(fs), a, b)
  {
    hide KindOf, WF, Abs, FinalOf, CntOf, Moved, Dropped;
    InternalsApart(fs, b, m, a);
    UnlinkRefines(fs, b, m);
    UnlinkKeepsEntry(fs, b, m, a);
    MoveRefines(Unlinked(fs, b, m), a, b);
    DropCommutes(fs, a, b, m);
    AbsKeys(fs, a);
    MovedOver(Abs(fs), a, b);
  }

  /** A chain's three internal names are no guest names. */
  lemma InternalsApart(fs: Fs, b: Path, m: Path, a: Path)
    requires CanDrop(fs, b, m) && KindOf(a) == Guest
    ensures m !in {a, b} && FinalOf(m) !in {a, b} && CntOf(m) !in {a, b}
  {
    hide KindOf, WF, FinalOf, CntOf, StemOfData, StemOfCnt, NameFits, Users;
    ChainOfName(fs, b, m);
  }

  lemma MovedOver(h: Fs, a: Path, b: Path)
    requires a in h && a != b
    ensures Moved(h - {b}, a, b) == Moved(h, a, b)
  {
  }

  lemma DropCommutes(fs: Fs, a: Path, b: Path, m: Path)
    requires a in fs && b in fs && a != b && a in Unlinked(fs, b, m)
    requires m !in {a, b} && FinalOf(m) !in {a, b} && CntOf(m) !in {a, b}
    ensures Dropped(Moved(fs, a, b), m) == Moved(Unlinked(fs, b, m), a, b)
  {
    hide FinalOf, CntOf;
    assert Counted(Moved(fs, a, b), CntOf(m)) == Counted(fs, CntOf(m));
  }

  // ----- what stat() reports -----

  lemma FakeEntry(fs: Fs, p: Path)
    requires WF(fs) && p in fs && KindOf(p) == Guest && IsFake(fs[p])
    ensures fs[p].Link? && CanDrop(fs, p, fs[p].target)
  {
    hide KindOf, Base, HasPrefix, MidOk, DataOk, CntOk;
    assert NodeOk(fs, p, fs[p]);
  }

  lemma FakeLinkCount(fs: Fs, p: Path, m: Path)
    requires CanDrop(fs, p, m) && p in Abs(fs)
    ensures |HardLinks(Abs(fs), p)| == Counted(fs, CntOf(m))
  {
    hide KindOf, FinalOf, CntOf, StemOfData, StemOfCnt, NameFits, Base, WF, HardLinks, Users, Abs, Counted;
    ChainOfName(fs, p, m);
    forall q ensures q in HardLinks(Abs(fs), p) <==> q in Users(fs, m) { SameChainSameFile(fs, p, q, m); }
    assert HardLinks(Abs(fs), p) == Users(fs, m);
  }

  lemma PlainLinkCount(fs: Fs, p: Path)
    requires WF(fs) && p in fs && KindOf(p) == Guest && fs[p].File? && p in Abs(fs)
    ensures |HardLinks(Abs(fs), p)| == 1
  {
    hide KindOf, WF, HardLinks, Abs;
    forall q ensures q in HardLinks(Abs(fs), p) <==> q == p { PlainIsAlone(fs, p, q); }
    assert HardLinks(Abs(fs), p) == {p};
  }

  /** The count of a chain is the number of hard links of each of its names; every other file has
      exactly one. */
  lemma LinkCount(fs: Fs, p: Path)
    requires WF(fs) && p in fs && KindOf(p) == Guest && View(fs, p).File?
    ensures p in Abs(fs)
    ensures |HardLinks(Abs(fs), p)|
         == if IsFake(fs[p]) && fs[p].Link? then Counted(fs, CntOf(fs[p].target)) else 1
  {
    hide KindOf, WF, HardLinks, Abs, IsFake, CanDrop, CntOf, FinalOf, Counted;
    AbsKeys(fs, p);
    if IsFake(fs[p]) {
      FakeEntry(fs, p);
      FakeLinkCount(fs, p, fs[p].target);
    } else {
      PlainLinkCount(fs, p);
    }
  }

  lemma SameChainSameFile(fs: Fs, p: Path, q: Path, m: Path)
    requires CanDrop(fs, p, m) && p in Abs(fs)
    ensures q in HardLinks(Abs(fs), p) <==> q in Users(fs, m)
  {
    hide KindOf, FinalOf, CntOf, StemOfData, StemOfCnt, HasPrefix, NameFits, Base;
    AbsKeys(fs, q);
    AbsKeys(fs, p);
    ChainOfName(fs, p, m);
    MidIsReserved(m);
    if q in fs && KindOf(q) == Guest {
      assert NodeOk(fs, q, fs[q]);
      if IsFake(fs[q]) {
        ChainParts(fs, fs[q].target);
        ChainKinds(fs[q].target);
        if fs[q].target != m { ChainApart(fs[q].target, m); }
      }
    }
  }

  lemma PlainIsAlone(fs: Fs, p: Path, q: Path)
    requires WF(fs) && p in fs && KindOf(p) == Guest && fs[p].File? && p in Abs(fs)
    ensures q in HardLinks(Abs(fs), p) <==> q == p
  {
    hide KindOf, FinalOf, CntOf, StemOfData, StemOfCnt, HasPrefix, NameFits, Base;
    AbsKeys(fs, q);
    AbsKeys(fs, p);
    if q in fs && KindOf(q) == Guest {
      assert NodeOk(fs, q, fs[q]);
      if IsFake(fs[q]) {
        ChainParts(fs, fs[q].target);
        ChainKinds(fs[q].target);
      }
    }
  }
}

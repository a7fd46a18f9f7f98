/** What a link() makes of a guest's own symbolic link: a chain that is reported as a regular file,
    and that access() does not find while its target is missing. */
module L2sSymlink {
  import opened Wrappers
  import opened Text
  import opened L2sNames
  import opened L2sModel
  import opened L2sRuntime
  import opened L2sFresh
  import opened L2sGuest
  import opened L2sClobber
  import R = L2sRelPath

  /** A guest's own symbolic link. */
  predicate OwnLink(fs: Fs, a: Path) {
    a in fs && fs[a].Link? && !IsFake(fs[a]) && 0 < |fs[a].target| < PATH_MAX
  }

  /** Names of a chain whose data file is a symbolic link. */
  predicate LinkedLink(fs: Fs, a: Path, b: Path, m: Path, link: Node) {
    && a in fs && fs[a] == Link(m) && b in fs && fs[b] == Link(m) && m in fs && fs[m] == Link(Base(FinalOf(m)))
    && FinalOf(m) in fs && fs[FinalOf(m)] == link && CntOf(m) in fs && fs[CntOf(m)] == Count(2)
  }

  lemma ChainDecodes(a: Path, g: nat)
    requires KindOf(a) == Guest && MakePaths(PREFIX, a, g, 2).Ok?
    ensures g <= GEN_LAST && var m := MidOf(a, g); var t := Base(FinalOf(m));
      && DecodesFinal(t) && LastSlash(t) < 0 && |t| > 0 && t[0] != '/' && |t| < PATH_MAX && Free(t, '/')
      && DirOf(m) + t == FinalOf(m) && |DirOf(m)| > 0 && |FinalOf(m)| < PATH_MAX && 0 < |m| < PATH_MAX
      && HasPrefix(Base(m)) && R.Absolute(m) && FinalOf(m) + CNT_SUFFIX == CntOf(m)
      && DirOf(FinalOf(m)) == DirOf(m) == DirOf(a)
  {
    hide KindOf, Base, DirOf, MakePaths, ParseName, LastSlash, Digits4, Ambiguous, NameFits, FinalOf, Head;
    FreshKinds(a, g);
    MadePaths(PREFIX, a, g, 2);
    var m := MidOf(a, g);
    Whole(FinalOf(m));
    BareName(FinalOf(m));
    DataKindDecodes(FinalOf(m));
    DirNotEmpty(m);
    LastSlashFree(FinalOf(m));
    DataHasName(FinalOf(m));
    GuestFacts(a);
  }

  lemma ProbesThrough(fs: Fs, cwd: Path, a: Path, m: Path)
    requires a in fs && fs[a] == Link(m) && HasPrefix(Base(m)) && R.Absolute(m) && |m| < PATH_MAX
    ensures Probe(fs, cwd, a) == Some(m)
  {
    hide Base, DirOf;
    HasSlash(m);
  }

  /** Such a chain is probed, resolved and counted like any other, but access() finds it only while the
      symbolic link's own target is there. */
  lemma LinkedLinkMeans(fs: Fs, cwd: Path, a: Path, b: Path, o: Path, g: nat, link: Node)
    requires KindOf(o) == Guest && MakePaths(PREFIX, o, g, 2).Ok? && |FinalOf(MidOf(o, g))| + 5 <= PATH_MAX
    requires link.Link?
    requires LinkedLink(fs, a, b, MidOf(o, g), link)
    ensures var m := MidOf(o, g);
      && Probe(fs, cwd, a) == Some(m) && Probe(fs, cwd, b) == Some(m) && Resolve(fs, m) == Some(FinalOf(m))
      && FinalOf(m) + CNT_SUFFIX == CntOf(m)
      && (m in Occupied(fs) <==> Accessible(fs, Anchor(o, link.target), 38))
  {
    hide KindOf, Base, DirOf, MakePaths, DecodesFinal, LastSlash, FinalOf, CntOf, MidOf, HasPrefix;
    ChainDecodes(o, g);
    var m := MidOf(o, g);
    ProbesThrough(fs, cwd, a, m);
    ProbesThrough(fs, cwd, b, m);
    assert Anchor(m, fs[m].target) == FinalOf(m);
    assert Anchor(FinalOf(m), link.target) == Anchor(o, link.target);
    TwoHops(fs, m, FinalOf(m), Anchor(o, link.target));
  }

  lemma TwoHops(fs: Fs, m: Path, f: Path, t: Path)
    requires m in fs && fs[m].Link? && Anchor(m, fs[m].target) == f
    requires f in fs && fs[f].Link? && Anchor(f, fs[f].target) == t
    ensures m in Occupied(fs) <==> Accessible(fs, t, 38)
  {
    hide Anchor;
    assert Accessible(fs, m, 40) == Accessible(fs, f, 39) == Accessible(fs, t, 38);
  }

  /** A link() of a guest's own symbolic link that succeeds: both names are then reported as regular
      files with two links, while what they share is the symbolic link; and the chain counts as taken
      only while that link's target is there. */
  method LinkOwnSymlink(r: Runtime, a: Path, b: Path)
    returns (rc: int, node: Node, nlink: nat, regular: bool, ghost m: Path)
    requires WF(r.fs) && KindOf(a) == Guest && KindOf(b) == Guest && OwnLink(r.fs, a)
    modifies r
    ensures rc != 0 ==> r.fs == old(r.fs)
    ensures rc == 0 ==> m !in old(r.fs) && LinkedLink(r.fs, a, b, m, old(r.fs)[a]) && !WF(r.fs)
    ensures rc == 0 ==> SameElsewhere(old(r.fs), r.fs, {a, b, m, FinalOf(m), CntOf(m)})
    ensures rc == 0 ==> node == old(r.fs)[a] && nlink == 2 && regular
    ensures rc == 0 ==> (m in Occupied(r.fs) <==> Accessible(r.fs, Anchor(a, node.target), 38))
  {
    hide KindOf, WF, Probe, Resolve, Occupied, Accessible, FinalOf, CntOf, FreshFor, MidOf, MakePaths, Base, HasPrefix;
    hide FirstLinked, FirstLinkedAt, Unused, Ambiguous;
    ghost var was := r.fs;
    rc, node, nlink, regular, m := 0, r.fs[a], 0, false, "";
    OwnIsUnprobed(was, r.cwd, a);
    GuestHasNoPrefix(a);
    rc := r.DoLink(a, b);
    if rc == 0 {
      ghost var p :| FreshFor(was, a, p) && FirstLinkDone(was, r.fs, r.cwd, a, b, p);
      ghost var g := OwnLinkDone(was, r.fs, r.cwd, a, b, p);
      m := MidOf(a, g);
      LinkedLinkMeans(r.fs, r.cwd, a, b, a, g, was[a]);
      var found;
      found, node, nlink, regular := r.Stat(a);
    } else if r.fs != was {
      FailedLinkIsNothing(was, r.fs, r.cwd, a);
    }
  }

  lemma OwnLinkDone(was: Fs, now: Fs, cwd: Path, a: Path, b: Path, p: Paths) returns (g: nat)
    requires WF(was) && KindOf(a) == Guest && KindOf(b) == Guest && b !in was && OwnLink(was, a)
    requires FreshFor(was, a, p) && FirstLinkDone(was, now, cwd, a, b, p)
    ensures MakePaths(PREFIX, a, g, 2) == Ok(p) && GEN_FIRST <= g <= GEN_LAST
    ensures var m := MidOf(a, g);
      && m !in was && LinkedLink(now, a, b, m, was[a]) && !WF(now) && |FinalOf(m)| + 5 <= PATH_MAX
      && SameElsewhere(was, now, {a, b, m, FinalOf(m), CntOf(m)})
  {
    hide KindOf, WF, Probe, Occupied, FinalOf, CntOf, MidOf;
    hide MakePaths, Base, HasPrefix, FirstLinked, FirstLinkedAt, Ambiguous;
    g :| IsFirstFree(a, Occupied(was), g) && MakePaths(PREFIX, a, g, 2) == Ok(p);
    FreshKinds(a, g);
    OwnIsUnprobed(was, cwd, a);
    FreshIsFree(was, a, p);
    FirstLinkEffect(was, now, cwd, a, b, p);
    FirstLinkedMeans(was, a, b, p.mid);
  }

  // ----- a failed link that destroys a chain -----

  predicate Roles(a: Path, p: Path, q: Path, z: Path, target: Path) {
    && KindOf(a) == Guest && KindOf(p) == Guest && KindOf(q) == Guest && KindOf(z) == Guest && Fits(a)
    && a !in {p, q, z} && p !in {q, z} && q != z
    && KindOf(target) == Guest && target !in {a, p, q, z}
  }

  lemma PlainTarget(target: Path)
    requires KindOf(target) == Guest
    ensures R.Absolute(target) && 0 < |target| < PATH_MAX && !HasPrefix(Base(target))
  {
    hide Base, HasPrefix;
    GuestFacts(target);
  }

  /** The symbolic link `a` has been linked to `p` and renamed to `z`, and there is a new file `a`. */
  function Before(a: Path, p: Path, z: Path, m: Path, target: Path, data: string): Fs {
    Moved(FirstLinked(map[a := Link(target)], a, p, m), a, z)[a := File(0, data)]
  }

  lemma BeforeIs(a: Path, p: Path, z: Path, m: Path, f: Path, c: Path, target: Path, data: string)
    requires f == FinalOf(m) && c == CntOf(m)
    requires m !in {a, p, z} && f !in {a, p, z, m} && c !in {a, p, z, m, f} && a !in {p, z} && p != z
    ensures var one := FirstLinked(map[a := Link(target)], a, p, m);
      Movable(one, a, z) && z !in one && a !in Moved(one, a, z)
    ensures Before(a, p, z, m, target, data)
         == map[z := Link(m), p := Link(m), m := Link(Base(f)), f := Link(target), c := Count(2), a := File(0, data)]
  {
    hide Base, FinalOf, CntOf;
  }

  lemma NotThere(fs: Fs, cwd: Path, z: Path)
    requires z !in fs
    ensures Probe(fs, cwd, z).None?
  {
  }

  lemma Dangling(a: Path, p: Path, q: Path, z: Path, target: Path, data: string)
    requires Roles(a, p, q, z, target)
    ensures var m := MidOf(a, 1); var fs := Before(a, p, z, m, target, data);
      && Next(fs, a, 1) && m in fs && FinalOf(m) in fs && !fs[FinalOf(m)].Dir? && a in fs && fs[a].File? && q !in fs
      && z in fs && fs[z] == Link(m) && p in fs && fs[p] == Link(m) && FinalOf(m) !in {a, p, z}
  {
    hide KindOf, Fits, Accessible, MidOf, Base, DirOf, FinalOf;
    hide CntOf, Before, HasPrefix, MakePaths, DecodesFinal, LastSlash;
    var m := MidOf(a, 1);
    PlainTarget(target);
    MadeFrom(a, 1, 2);
    InternalNames(a, 1);
    ChainDecodes(a, 1);
    Suffixes(m);
    BeforeIs(a, p, z, m, FinalOf(m), CntOf(m), target, data);
    var fs := Before(a, p, z, m, target, data);
    TwoHops(fs, m, FinalOf(m), target);
    assert target !in fs;
    Missing(fs, target);
  }

  lemma Missing(fs: Fs, t: Path)
    requires t !in fs
    ensures !Accessible(fs, t, 38)
  {
  }

  method MakeSymlink(r: Runtime, p: Path, target: Path)
    requires p !in r.fs
    modifies r
    ensures r.fs == old(r.fs)[p := Link(target)] && r.fault == old(r.fault)
  {
    r.fs := r.fs[p := Link(target)];
  }

  /** A dangling symbolic link `a` is linked to `p` and renamed to `z`; a file `a` is created.  Linking
      that file then fails, and takes away what `p` and `z` were names of. */
  method DanglingRun(cwd: Path, a: Path, p: Path, q: Path, z: Path, target: Path, data: string)
    returns (r: Runtime, rc: int, ghost before: Fs)
    requires Roles(a, p, q, z, target)
    ensures var m := MidOf(a, 1);
      && rc != 0 && FinalOf(m) in before && before[FinalOf(m)] == Link(target) && r.fs == before - {FinalOf(m)}
      && p in r.fs && r.fs[p] == Link(m) && z in r.fs && r.fs[z] == Link(m)
  {
    hide KindOf, Fits, MidOf, FinalOf, CntOf, Next, Open, FirstLinked;
    hide Base, HasPrefix, Probe, Occupied, FreshFor, Before, DirOf, LinkWorks, LinkFailed;
    ghost var m := MidOf(a, 1);
    PlainTarget(target);
    Dangling(a, p, q, z, target, data);
    InternalNames(a, 1);
    Suffixes(m);
    BeforeIs(a, p, z, m, FinalOf(m), CntOf(m), target, data);
    r := new Runtime(cwd);
    MakeSymlink(r, a, target);
    ReadyLink(a, target);
    LinkNext(r, a, p, 1);
    NotThere(r.fs, cwd, z);
    rc := r.DoRename(a, z);
    CreateFile(r, a, 0, data);
    before := r.fs;
    BeforeUnfold(a, p, z, m, target, data);
    LosesFinal(before, cwd, a, q);
    rc := r.DoLink(a, q);
  }

  /** A first link() of a file whose intermediate is there although access() did not find it. */
  lemma LosesFinal(fs: Fs, cwd: Path, a: Path, q: Path)
    requires Next(fs, a, 1) && a in fs && fs[a].File?
    requires var m := MidOf(a, 1); m in fs && FinalOf(m) in fs && !fs[FinalOf(m)].Dir?
    ensures !HasPrefix(Base(a)) && !LinkWorks(fs, cwd, a, q)
    ensures forall now :: LinkFailed(fs, now, cwd, a) ==> now == fs - {FinalOf(MidOf(a, 1))}
  {
    hide KindOf, Fits, MidOf, FinalOf, Next, Base, HasPrefix, Probe, FreshFor, NameFree;
    NextIsGuest(fs, a, 1);
    NextIsFresh(fs, a, 1);
    PlainIsUnprobed(fs, cwd, a);
    GuestHasNoPrefix(a);
  }

  lemma BeforeUnfold(a: Path, p: Path, z: Path, m: Path, target: Path, data: string)
    ensures a in FirstLinked(map[a := Link(target)], a, p, m)
    ensures Before(a, p, z, m, target, data) ==
      Moved(FirstLinked(map[a := Link(target)], a, p, m), a, z)[a := File(0, data)]
  {
    hide FinalOf, CntOf;
  }

  lemma ReadyLink(a: Path, target: Path)
    requires KindOf(a) == Guest && Fits(a)
    ensures var fs: Fs := map[a := Link(target)]; Next(fs, a, 1) && Open(fs, MidOf(a, 1))
  {
    hide KindOf, Fits, Occupied, MidOf, Base, DirOf, FinalOf, CntOf;
    InternalNames(a, 1);
    NotFound(map[a := Link(target)], MidOf(a, 1));
  }

  /** There are such names. */
  lemma RolesAreMet()
    ensures Roles("/a", "/p", "/q", "/z", "/t")
  {
    hide KindOf, Fits;
    RootName("a");
    RootName("p");
    RootName("q");
    RootName("z");
    RootName("t");
    assert "/" + "a" == "/a" && "/" + "p" == "/p" && "/" + "q" == "/q" && "/" + "z" == "/z" && "/" + "t" == "/t";
  }
}

/** Where the hard-link emulation loses a file: only the intermediate's name is probed before a first
    link(), and a first link() is made of a guest's own symbolic link too. */
module L2sClobber {
  import opened Wrappers
  import opened Text
  import opened L2sNames
  import opened L2sModel
  import opened L2sRuntime
  import opened L2sFresh
  import opened L2sGuest
  import R = L2sRelPath

  // ----- which first links overwrite something -----

  /** Every entry but `a` is as it was. */
  ghost predicate Spared(was: Fs, now: Fs, a: Path) {
    forall q :: q in was && q != a ==> q in now && now[q] == was[q]
  }

  predicate NamesFree(fs: Fs, p: Paths) {
    p.final !in fs && (p.final + CNT_SUFFIX in fs ==> fs[p.final + CNT_SUFFIX] == Count(2))
  }

  lemma ClobbersOrNot(was: Fs, cwd: Path, a: Path, b: Path, p: Paths)
    requires a in was && was[a].File? && OneFilePerInode(was) && b !in was && p.mid !in was
    requires Distinct(a, p.mid, p.final)
    ensures Spared(was, FirstLinkedAt(was, cwd, a, b, p.mid, p.final), a) <==> NamesFree(was, p)
  {
    hide FinalTarget, MidTarget, NewTarget;
    var now, cnt := FirstLinkedAt(was, cwd, a, b, p.mid, p.final), p.final + CNT_SUFFIX;
    assert p.final in was ==> now[p.final] == was[a] && p.final != a;
    assert cnt in was ==> now[cnt] == Count(2);
  }

  /** A link() that succeeds as the first one of a file leaves all other entries as they were if and
      only if the data file's name is free and its side file is free or already says 2. */
  method FirstLinkClobbers(r: Runtime, a: Path, b: Path) returns (rc: int, ghost p: Paths)
    requires a in r.fs && r.fs[a].File? && OneFilePerInode(r.fs)
    modifies r
    ensures rc == 0 ==> FreshFor(old(r.fs), a, p) && (Spared(old(r.fs), r.fs, a) <==> NamesFree(old(r.fs), p))
  {
    hide MakePaths, FirstLinkedAt, Spared, NamesFree, Occupied, IsFirstFree;
    ghost var was := r.fs;
    PlainIsUnprobed(was, r.cwd, a);
    rc := r.DoLink(a, b);
    p := Paths("", "");
    if rc == 0 {
      p :| FreshFor(was, a, p) && FirstLinkDone(was, r.fs, r.cwd, a, b, p);
      ghost var g :| IsFirstFree(a, Occupied(was), g) && MakePaths(PREFIX, a, g, 2) == Ok(p);
      MadeDistinct(a, g);
      ClobbersOrNot(was, r.cwd, a, b, p);
    }
  }

  lemma PlainIsUnprobed(fs: Fs, cwd: Path, a: Path)
    ensures a in fs && !fs[a].Link? ==> Probe(fs, cwd, a).None?
  {
  }

  // ----- a name that is taken -----

  /** For every guest name, the second intermediate of a certain ambiguous name is its own first data
      file. */
  lemma NamesMeet(b: Path)
    requires KindOf(b) == Guest
    ensures var a := b + Digits4(1) + ".";
      Ambiguous(Base(a)) && DirOf(a) == DirOf(b) && MidOf(a, 2) == FinalOf(MidOf(b, 1))
  {
    hide Base, DirOf, Digits4;
    var d := Digits4(1);
    var s := d + ".";
    Regroup(b, d, ".", "");
    assert b + d + "." == b + s && b + s + "" == b + s;
    BaseOfSuffix(b, s);
    var n := Base(b) + s;
    BaseNotBlank(b);
    assert n[|n| - 5..|n| - 1] == d;
    DigitsOfTwo();
    MeetText(DirOf(b), Base(b), d);
  }

  lemma MeetText(dir: string, base: string, d: string)
    ensures dir + PREFIX + (base + (d + ".")) + "0002" == dir + PREFIX + base + d + DATA_SUFFIX
  {
    assert DATA_SUFFIX == "." + "0002";
  }

  lemma BaseNotBlank(b: Path)
    requires KindOf(b) == Guest
    ensures |Base(b)| > 0
  {
    hide Base, DirOf, Head, IsDots;
    GuestFacts(b);
  }

  // ----- a run that loses a file -----

  function Made(a: Path, g: nat): Paths
    requires g <= GEN_LAST
  {
    Paths(MidOf(a, g), FinalOf(MidOf(a, g)))
  }

  /** Every generation before this one is found, and this one is not. */
  predicate Next(fs: Fs, a: Path, g: nat) {
    && KindOf(a) == Guest && Fits(a) && GEN_FIRST <= g <= GEN_LAST
    && MidOf(a, g) !in Occupied(fs) && forall h :: GEN_FIRST <= h < g ==> MidOf(a, h) in Occupied(fs)
  }

  lemma NextIsChosen(fs: Fs, a: Path, g: nat, h: nat)
    requires Next(fs, a, g)
    ensures IsFirstFree(a, Occupied(fs), h) ==> h == g
    ensures h == g ==> IsFirstFree(a, Occupied(fs), h)
  {
    hide KindOf, Occupied, MidOf, MakePaths, Fits;
    forall k | GEN_FIRST <= k <= GEN_LAST ensures Taken(a, Occupied(fs), k) <==> MidOf(a, k) in Occupied(fs) {
      MadeFrom(a, k, 1);
      MadeFrom(a, k, 2);
      if MakePaths(PREFIX, a, k, 2).Ok? { SameIntermediate(PREFIX, a, k, 2); }
    }
    MadeFrom(a, g, 2);
    SameIntermediate(PREFIX, a, g, 2);
  }

  lemma NextIsFresh(fs: Fs, a: Path, g: nat)
    requires Next(fs, a, g)
    ensures FreshFor(fs, a, Made(a, g)) && |Made(a, g).final| + 5 <= PATH_MAX
    ensures forall p :: FreshFor(fs, a, p) ==> p == Made(a, g)
  {
    hide KindOf, Occupied, MidOf, MakePaths, Fits, Next, IsFirstFree;
    NextIsGuest(fs, a, g);
    NextIsChosen(fs, a, g, g);
    MadeFrom(a, g, 2);
    FreshKinds(a, g);
    forall p | FreshFor(fs, a, p) ensures p == Made(a, g) {
      var h :| IsFirstFree(a, Occupied(fs), h) && MakePaths(PREFIX, a, h, 2) == Ok(p);
      NextIsChosen(fs, a, g, h);
    }
  }

  /** Nothing stands in the way but perhaps an entry at the data file's name. */
  predicate Open(fs: Fs, m: Path) {
    && m !in fs && (FinalOf(m) in fs ==> !fs[FinalOf(m)].Dir?) && (CntOf(m) in fs ==> fs[CntOf(m)].Count?)
  }

  lemma InternalNames(a: Path, g: nat)
    requires KindOf(a) == Guest && Fits(a) && GEN_FIRST <= g <= GEN_LAST
    ensures var m := MidOf(a, g);
      && R.Absolute(m) && |m| == |a| + 9 && FinalOf(m) + CNT_SUFFIX == CntOf(m)
      && KindOf(m) != Guest && KindOf(FinalOf(m)) != Guest && KindOf(CntOf(m)) != Guest
      && DirOf(FinalOf(m)) == DirOf(m) && |Base(FinalOf(m))| > 0 && Free(Base(FinalOf(m)), '/')
  {
    hide KindOf, Fits, MakePaths, FinalOf, Base, DirOf, Ambiguous, NameFits, HasPrefix;
    MadeFrom(a, g, 2);
    FreshKinds(a, g);
    MadePaths(PREFIX, a, g, 2);
    Whole(a);
    DataHasName(FinalOf(MidOf(a, g)));
    LastSlashFree(FinalOf(MidOf(a, g)));
  }

  lemma LastSlashFree(p: Path)
    ensures Free(Base(p), '/')
  {
  }

  lemma RoomInOpen(fs: Fs, cwd: Path, a: Path, b: Path, g: nat)
    requires Next(fs, a, g) && Open(fs, MidOf(a, g)) && a in fs && KindOf(b) == Guest && b !in fs
    ensures var p := Made(a, g); RoomFor(fs, a, p.mid, p.final) && NameFree(fs, cwd, a, b, p.mid, p.final)
  {
    hide KindOf, Fits, FinalOf, Base, MidOf, Occupied, DirOf, CntOf;
    NextIsFresh(fs, a, g);
    InternalNames(a, g);
    var p := Made(a, g);
    AbsoluteTargets(cwd, p.final, p.mid, a);
    AbsoluteTargets(cwd, p.final, p.mid, b);
    hide FinalTarget, MidTarget, NewTarget;
  }

  /** link() of a plain file or symbolic link under the next generation. */
  method LinkNext(r: Runtime, a: Path, b: Path, ghost g: nat)
    requires r.fault.NoFault? && a in r.fs
    requires (r.fs[a].File? || (r.fs[a].Link? && !IsFake(r.fs[a]) && |r.fs[a].target| < PATH_MAX))
    requires Next(r.fs, a, g) && Open(r.fs, MidOf(a, g)) && KindOf(b) == Guest && b !in r.fs
    modifies r
    ensures r.fault.NoFault? && r.fs == FirstLinked(old(r.fs), a, b, MidOf(a, g))
  {
    hide Next, Open, KindOf, FreshFor, RoomFor, NameFree, FirstLinkedAt;
    hide FirstLinked, FinalOf, Probe, Base, HasPrefix, MidOf;
    ghost var was := r.fs;
    NextIsGuest(was, a, g);
    GuestHasNoPrefix(a);
    OwnIsUnprobed(was, r.cwd, a);
    NextIsFresh(was, a, g);
    RoomInOpen(was, r.cwd, a, b, g);
    InternalNames(a, g);
    AbsoluteFirstLink(was, r.cwd, a, b, MidOf(a, g));
    var rc := r.DoLink(a, b);
  }

  lemma NextIsGuest(fs: Fs, a: Path, g: nat)
    requires Next(fs, a, g)
    ensures KindOf(a) == Guest && Fits(a) && GEN_FIRST <= g <= GEN_LAST
  {
  }

  lemma OwnIsUnprobed(fs: Fs, cwd: Path, a: Path)
    requires a in fs && (fs[a].Link? ==> !IsFake(fs[a]) && |fs[a].target| < PATH_MAX)
    ensures Probe(fs, cwd, a).None?
  {
    hide Base, HasPrefix;
  }

  /** An intermediate whose data file is a file is found by access(). */
  lemma ChainIsFound(fs: Fs, m: Path)
    requires m in fs && fs[m] == Link(Base(FinalOf(m))) && FinalOf(m) in fs && fs[FinalOf(m)].File?
    requires DirOf(FinalOf(m)) == DirOf(m) && |Base(FinalOf(m))| > 0 && Free(Base(FinalOf(m)), '/')
    ensures m in Occupied(fs)
  {
    hide Base, DirOf, FinalOf;
    Whole(FinalOf(m));
    assert Anchor(m, fs[m].target) == FinalOf(m);
    assert Accessible(fs, FinalOf(m), 39);
  }

  /** A new file, by the kernel. */
  method CreateFile(r: Runtime, p: Path, ino: nat, data: string)
    requires p !in r.fs
    modifies r
    ensures r.fs == old(r.fs)[p := File(ino, data)] && r.fault == old(r.fault)
  {
    r.fs := r.fs[p := File(ino, data)];
  }

  /** Six different guest names; the first is the second one's name with `0001.` behind it. */
  predicate Cast(a: Path, b: Path, p: Path, q: Path, y: Path, z: Path) {
    && a == b + Digits4(1) + "." && Fits(a)
    && KindOf(a) == Guest && KindOf(b) == Guest && KindOf(p) == Guest && KindOf(q) == Guest && KindOf(y) == Guest &&
      KindOf(z) == Guest
    && b !in {p, q, y, z} && a !in {p, q, y, z} && p !in {q, y, z} && q !in {y, z} && y != z
  }

  /** The internal names of the three chains, all different but for one meeting. */
  lemma Stage(a: Path, b: Path, p: Path, q: Path, y: Path, z: Path)
    requires Cast(a, b, p, q, y, z)
    ensures var m1, m2, n := MidOf(a, 1), MidOf(a, 2), MidOf(b, 1);
      && FinalOf(n) == m2 && m1 != m2 && Fits(b) && |a| == |b| + 5
      && |n| == |b| + 9 && |m1| == |m2| == |b| + 14 && |CntOf(n)| == |b| + 18
      && |FinalOf(m1)| == |FinalOf(m2)| == |b| + 19 && |CntOf(m1)| == |CntOf(m2)| == |b| + 23
      && FinalOf(m1) != FinalOf(m2) && CntOf(m1) != CntOf(m2)
  {
    hide Base, DirOf, Fits, KindOf, Digits4;
    NamesMeet(b);
    var m1, m2, n := MidOf(a, 1), MidOf(a, 2), MidOf(b, 1);
    FitsShorter(a, b);
    InternalNames(a, 1);
    InternalNames(a, 2);
    InternalNames(b, 1);
    Suffixes(m1);
    Suffixes(m2);
    Suffixes(n);
    assert m1[|m1| - 4..] == Digits4(1) && m2[|m2| - 4..] == Digits4(2);
    if m1 == m2 { Digits4Injective(1, 2); }
  }

  lemma FitsShorter(a: Path, b: Path)
    requires a == b + Digits4(1) + "." && Fits(a) && KindOf(b) == Guest
    ensures Fits(b) && |a| == |b| + 5
  {
    hide Base, DirOf, KindOf;
    var s := Digits4(1) + ".";
    assert a == b + s;
    BaseOfSuffix(b, s);
  }

  /** The first three steps: `a` has been linked once, and its name is free again. */
  function Act1(a: Path, p: Path, z: Path, m1: Path, data: string): Fs {
    Moved(FirstLinked(map[a := File(0, data)], a, p, m1), a, z)
  }

  /** Then a new file of that name has been linked. */
  function Act2(a: Path, p: Path, q: Path, z: Path, m1: Path, m2: Path, data: string): Fs {
    FirstLinked(Act1(a, p, z, m1, data)[a := File(1, data)], a, q, m2)
  }

  /** Then a file of the other name has been linked. */
  function Act3(a: Path, b: Path, p: Path, q: Path, y: Path, z: Path, m1: Path, m2: Path, n: Path, data: string): Fs {
    FirstLinked(Act2(a, p, q, z, m1, m2, data)[b := File(2, data)], b, y, n)
  }

  lemma Act1Is(a: Path, p: Path, z: Path, m1: Path, f1: Path, c1: Path, data: string)
    requires f1 == FinalOf(m1) && c1 == CntOf(m1)
    requires m1 !in {a, p, z} && f1 !in {a, p, z, m1} && c1 !in {a, p, z, m1, f1} && a !in {p, z} && p != z
    ensures a in FirstLinked(map[a := File(0, data)], a, p, m1)
    ensures Act1(a, p, z, m1, data)
         == map[z := Link(m1), p := Link(m1), m1 := Link(Base(f1)), f1 := File(0, data), c1 := Count(2)]
  {
    hide Base, FinalOf, CntOf;
  }

  lemma Act2Is(a: Path, p: Path, q: Path, z: Path, m1: Path, m2: Path, f1: Path, c1: Path, f2: Path, c2: Path,
      data: string)
    requires f1 == FinalOf(m1) && c1 == CntOf(m1) && f2 == FinalOf(m2) && c2 == CntOf(m2)
    requires a !in {p, z, q} && p !in {z, q} && q != z
    requires m1 !in {a, p, q, z} && m2 !in {a, p, q, z} && f1 !in {a, p, q, z} && f2 !in {a, p, q, z}
    requires c1 !in {a, p, q, z} && c2 !in {a, p, q, z} && |m1| == |m2| < |f1| == |f2| < |c1| == |c2|
    requires m1 != m2 && f1 != f2 && c1 != c2
    ensures Act2(a, p, q, z, m1, m2, data)
         == map[z := Link(m1), p := Link(m1), m1 := Link(Base(f1)), f1 := File(0, data), c1 := Count(2),
                f2 := File(1, data), m2 := Link(Base(f2)), a := Link(m2), c2 := Count(2), q := Link(m2)]
  {
    Act1Is(a, p, z, m1, f1, c1, data);
    hide Base, FinalOf, CntOf, Act1;
    assert Act1(a, p, z, m1, data)[a := File(1, data)] - {a} == Act1(a, p, z, m1, data);
  }

  lemma Act3Is(a: Path, b: Path, p: Path, q: Path, y: Path, z: Path, m1: Path, m2: Path, n: Path, f1: Path, c1: Path,
      f2: Path, c2: Path, c: Path, data: string)
    requires f1 == FinalOf(m1) && c1 == CntOf(m1) && f2 == FinalOf(m2) && c2 == CntOf(m2) && m2 == FinalOf(n)
    requires c == CntOf(n)
    requires a !in {b, p, q, y, z} && b !in {p, q, y, z} && p !in {q, y, z} && q !in {y, z} && y != z
    requires m1 !in {a, b, p, q, y, z} && m2 !in {a, b, p, q, y, z} && f1 !in {a, b, p, q, y, z}
    requires f2 !in {a, b, p, q, y, z}
    requires c1 !in {a, b, p, q, y, z} && c2 !in {a, b, p, q, y, z} && n !in {a, b, p, q, y, z}
    requires c !in {a, b, p, q, y, z}
    requires |n| < |m1| == |m2| < |c| < |f1| == |f2| < |c1| == |c2|
    requires m1 != m2 && f1 != f2 && c1 != c2
    ensures Act3(a, b, p, q, y, z, m1, m2, n, data)
         == map[z := Link(m1), p := Link(m1), m1 := Link(Base(f1)), f1 := File(0, data), c1 := Count(2),
                a := Link(m2), q := Link(m2), m2 := File(2, data), f2 := File(1, data), c2 := Count(2),
                b := Link(n), y := Link(n), n := Link(Base(m2)), c := Count(2)]
  {
    Act2Is(a, p, q, z, m1, m2, f1, c1, f2, c2, data);
    hide Base, FinalOf, CntOf, Act2;
  }

  lemma NotFound(fs: Fs, m: Path)
    requires m !in fs
    ensures m !in Occupied(fs)
  {
  }

  lemma Ready1(a: Path, data: string)
    requires KindOf(a) == Guest && Fits(a)
    ensures var fs: Fs := map[a := File(0, data)]; Next(fs, a, 1) && Open(fs, MidOf(a, 1))
  {
    hide KindOf, Fits, Occupied, MidOf, Base, DirOf, FinalOf, CntOf;
    InternalNames(a, 1);
    NotFound(map[a := File(0, data)], MidOf(a, 1));
  }

  lemma Ready2(a: Path, b: Path, p: Path, q: Path, y: Path, z: Path, data: string)
    requires Cast(a, b, p, q, y, z)
    ensures a !in Act1(a, p, z, MidOf(a, 1), data)
    ensures var fs := Act1(a, p, z, MidOf(a, 1), data)[a := File(1, data)];
      Next(fs, a, 2) && Open(fs, MidOf(a, 2)) && q !in fs
  {
    hide KindOf, Fits, Occupied, MidOf, Base, DirOf, FinalOf, CntOf, Act1, Digits4;
    var m1, m2 := MidOf(a, 1), MidOf(a, 2);
    Stage(a, b, p, q, y, z);
    InternalNames(a, 1);
    InternalNames(a, 2);
    Act1Is(a, p, z, m1, FinalOf(m1), CntOf(m1), data);
    var fs := Act1(a, p, z, m1, data)[a := File(1, data)];
    ChainIsFound(fs, m1);
    NotFound(fs, m2);
  }

  lemma Ready3(a: Path, b: Path, p: Path, q: Path, y: Path, z: Path, data: string)
    requires Cast(a, b, p, q, y, z)
    ensures b !in Act2(a, p, q, z, MidOf(a, 1), MidOf(a, 2), data)
    ensures var fs := Act2(a, p, q, z, MidOf(a, 1), MidOf(a, 2), data)[b := File(2, data)];
      Next(fs, b, 1) && Open(fs, MidOf(b, 1)) && y !in fs
  {
    hide KindOf, Fits, Occupied, MidOf, Base, DirOf, FinalOf, CntOf, Act2, Digits4;
    var m1, m2, n := MidOf(a, 1), MidOf(a, 2), MidOf(b, 1);
    Stage(a, b, p, q, y, z);
    InternalNames(a, 1);
    InternalNames(a, 2);
    InternalNames(b, 1);
    Act2Is(a, p, q, z, m1, m2, FinalOf(m1), CntOf(m1), FinalOf(m2), CntOf(m2), data);
    NotFound(Act2(a, p, q, z, m1, m2, data)[b := File(2, data)], n);
  }

  /** No symbolic link leads to this entry. */
  ghost predicate Unreached(fs: Fs, f: Path) {
    forall e :: e in fs && fs[e].Link? ==> Anchor(e, fs[e].target) != f
  }

  /** A file is lost: names `a` and `q` still point at their intermediate `m`, where now the file of
      `b` lies; `m` leads nowhere any more, and nothing leads to the file they had. */
  ghost predicate Lost(fs: Fs, a: Path, q: Path, m: Path, data: string) {
    && a in fs && fs[a] == Link(m) && q in fs && fs[q] == Link(m)
    && m in fs && fs[m] == File(2, data) && Resolve(fs, m).None?
    && FinalOf(m) in fs && fs[FinalOf(m)] == File(1, data) && Unreached(fs, FinalOf(m))
  }

  lemma EndsLost(a: Path, b: Path, p: Path, q: Path, y: Path, z: Path, data: string)
    requires Cast(a, b, p, q, y, z)
    ensures Lost(Act3(a, b, p, q, y, z, MidOf(a, 1), MidOf(a, 2), MidOf(b, 1), data), a, q, MidOf(a, 2), data)
  {
    hide KindOf, Fits, Occupied, MidOf, Base, DirOf, FinalOf, CntOf, Act3, Digits4, R.Absolute;
    var m1, m2, n := MidOf(a, 1), MidOf(a, 2), MidOf(b, 1);
    Stage(a, b, p, q, y, z);
    InternalNames(a, 1);
    InternalNames(a, 2);
    InternalNames(b, 1);
    Act3Is(a, b, p, q, y, z, m1, m2, n, FinalOf(m1), CntOf(m1), FinalOf(m2), CntOf(m2), CntOf(n), data);
    AnchorMid(m2);
    AnchorMid(m1);
    AnchorMid(n);
    AnchorData(m1);
    AnchorData(n);
  }

  lemma AnchorMid(m: Path)
    requires R.Absolute(m)
    ensures forall e :: Anchor(e, m) == m
  {
  }

  lemma AnchorData(m: Path)
    requires DirOf(FinalOf(m)) == DirOf(m) && |Base(FinalOf(m))| > 0 && Free(Base(FinalOf(m)), '/')
    ensures Anchor(m, Base(FinalOf(m))) == FinalOf(m)
  {
    hide Base, DirOf, FinalOf;
    Whole(FinalOf(m));
  }

  /** A run on guest names alone that loses a file, without any failure: `a` is created, linked to
      `p` and renamed to `z`; a second `a` is created and linked to `q`; `b` is created and linked to
      `y`. */
  method LosingRun(cwd: Path, a: Path, b: Path, p: Path, q: Path, y: Path, z: Path, data: string) returns (r: Runtime)
    requires Cast(a, b, p, q, y, z)
    ensures Lost(r.fs, a, q, MidOf(a, 2), data)
  {
    hide KindOf, Fits, Next, Open, MidOf, Act1, Lost, Occupied, FirstLinked, Probe, Resolve, IsFake, FinalOf, CntOf;
    InternalNames(a, 1);
    FitsShorter(a, b);
    Ready1(a, data);
    Ready2(a, b, p, q, y, z, data);
    Ready3(a, b, p, q, y, z, data);
    EndsLost(a, b, p, q, y, z, data);
    r := new Runtime(cwd);
    CreateFile(r, a, 0, data);
    LinkNext(r, a, p, 1);
    FreeName(r.fs, cwd, a, z, p, MidOf(a, 1), data);
    var rc := r.DoRename(a, z);
    CreateFile(r, a, 1, data);
    LinkNext(r, a, q, 2);
    CreateFile(r, b, 2, data);
    LinkNext(r, b, y, 1);
  }

  lemma FreeName(fs: Fs, cwd: Path, a: Path, z: Path, p: Path, m: Path, data: string)
    requires fs == FirstLinked(map[a := File(0, data)], a, p, m) && z !in {a, p, m, FinalOf(m), CntOf(m)}
    ensures Probe(fs, cwd, z).None? && Movable(fs, a, z) && Moved(fs, a, z) == Act1(a, p, z, m, data)
  {
    hide FinalOf, CntOf, Base;
  }

  // ----- there are such names -----

  lemma RootName(s: string)
    requires 0 < |s| < 200 && Free(s, '/') && s[0] != '.'
    ensures KindOf("/" + s) == Guest && Fits("/" + s)
  {
    var p := "/" + s;
    assert p[0] == '/' && PREFIX[0] == '.';
    hide LastSlash, ParseName;
    SlashOfJoin("/", s);
    assert LastSlash(p) == 0 by { assert |DirOf(p)| == 1; }
  }

  /** Every file name gives a cast: its own ambiguous partner, and four more. */
  lemma CastIsMet(x: string)
    requires 0 < |x| < 190 && Free(x, '/') && x[0] != '.'
    ensures var b := "/" + x;
      Cast(b + Digits4(1) + ".", b, b + "p", b + "q", b + "y", b + "z")
  {
    hide KindOf, Fits, Digits4;
    var b, d := "/" + x, Digits4(1);
    assert "/" + (x + d + ".") == b + d + "." && "/" + (x + "p") == b + "p" && "/" + (x + "q") == b + "q";
    assert "/" + (x + "y") == b + "y" && "/" + (x + "z") == b + "z";
    RootName(x);
    RootName(x + d + ".");
    RootName(x + "p");
    RootName(x + "q");
    RootName(x + "y");
    RootName(x + "z");
    LastChars(b);
  }

  lemma LastChars(b: string)
    ensures b + "p" !in {b, b + "q", b + "y", b + "z"} && b + "q" !in {b, b + "y", b + "z"} && b + "y" !in {b, b + "z"}
    ensures b + "z" != b
  {
    var n := |b|;
    assert (b + "p")[n] == 'p' && (b + "q")[n] == 'q' && (b + "y")[n] == 'y' && (b + "z")[n] == 'z';
  }
}

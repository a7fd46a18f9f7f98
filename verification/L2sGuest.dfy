/** What the guest sees: its link, unlink and rename are those of a file system with real hard
    links, and whichever call fails, a failed link() or rename() has never happened. */
module L2sGuest {
  import opened Wrappers
  import opened Text
  import opened L2sNames
  import opened L2sModel
  import opened L2sRuntime
  import opened L2sFresh
  import R = L2sRelPath

  // ----- from the runtime's effects to the model's -----

  lemma GuestIsNoCount(fs: Fs, a: Path)
    requires WF(fs) && KindOf(a) == Guest && a in fs
    ensures !fs[a].Count?
  {
    hide KindOf, IsFake, MidOk, DataOk, CntOk;
    assert NodeOk(fs, a, fs[a]);
  }

  lemma FakeSource(fs: Fs, cwd: Path, a: Path, m: Path)
    requires WF(fs) && a in fs && KindOf(a) == Guest && Probe(fs, cwd, a) == Some(m)
    ensures CanDrop(fs, a, m) && Resolve(fs, m) == Some(FinalOf(m)) && FinalOf(m) + CNT_SUFFIX == CntOf(m)
    ensures m in fs && R.Absolute(m) && |FinalOf(m)| + 4 + 1 <= PATH_MAX
  {
    hide KindOf, Base, Probe, Resolve, HasPrefix, FinalOf, NameFits, Users, StemOfCnt, StemOfData;
    ProbeFinds(fs, cwd, a);
    FakeEntry(fs, a);
  }

  /** A completed link() is the hard-link operation, and keeps the state consistent except from a
      guest's own symbolic link or an ambiguous name. */
  lemma LinkRefines(was: Fs, now: Fs, cwd: Path, a: Path, b: Path)
    requires WF(was) && KindOf(a) == Guest && KindOf(b) == Guest && LinkDone(was, now, cwd, a, b)
    ensures a in Abs(was) && b !in Abs(was) && Abs(now) == Abs(was)[b := Abs(was)[a]]
    ensures WF(now) <==> LinkSource(was, a)
  {
    hide KindOf, WF, Abs, Probe, FirstLinkDone, LinkSource, LaterLinkDone;
    AbsKeys(was, a);
    AbsKeys(was, b);
    var probed := Probe(was, cwd, a);
    if probed.None? {
      var p :| FreshFor(was, a, p) && FirstLinkDone(was, now, cwd, a, b, p);
      FirstLinkEffect(was, now, cwd, a, b, p);
    } else {
      LaterLinkRefines(was, now, cwd, a, b, probed.value);
      FakeIsSource(was, cwd, a);
    }
  }

  lemma FakeIsSource(fs: Fs, cwd: Path, a: Path)
    requires WF(fs) && a in fs && KindOf(a) == Guest && Probe(fs, cwd, a).Some?
    ensures LinkSource(fs, a)
  {
    hide KindOf, WF, Probe, Base, HasPrefix, Ambiguous;
    ProbeFinds(fs, cwd, a);
    LinksAreLinks(fs[a]);
  }

  lemma FirstLinkEffect(was: Fs, now: Fs, cwd: Path, a: Path, b: Path, p: Paths)
    requires WF(was) && KindOf(a) == Guest && KindOf(b) == Guest && a in was && !was[a].Dir? && b !in was
    requires Probe(was, cwd, a).None? && FreshFor(was, a, p) && FirstLinkDone(was, now, cwd, a, b, p)
    ensures now == FirstLinked(was, a, b, p.mid) && Unused(was, p.mid)
    ensures Abs(now) == Abs(was)[b := Abs(was)[a]] && (WF(now) <==> LinkSource(was, a))
  {
    hide KindOf, WF, Abs, Probe, FinalOf, CntOf, Sized;
    hide Base, Ambiguous, FirstLinkedAt, FirstLinked, HasPrefix, FreshFor;
    AbsKeys(was, a);
    ProbeFinds(was, cwd, a);
    FreshIsFree(was, a, p);
    AbsoluteFirstLink(was, cwd, a, b, p.mid);
    FirstLinkViews(was, a, b, p.mid);
    GuestIsNoCount(was, a);
    if LinkSource(was, a) {
      FirstLinkRefines(was, a, b, p.mid);
    } else {
      OddSourceBreaks(was, a, b, p.mid);
    }
  }

  lemma LaterLinkRefines(was: Fs, now: Fs, cwd: Path, a: Path, b: Path, m: Path)
    requires WF(was) && a in was && KindOf(a) == Guest && KindOf(b) == Guest && b !in was
    requires Probe(was, cwd, a) == Some(m) && LaterLinkDone(was, now, cwd, b, m)
    ensures WF(now) && a in Abs(was) && Abs(now) == Abs(was)[b := Abs(was)[a]]
  {
    hide KindOf, WF, Abs, Probe, Resolve, FinalOf, CntOf, Sized, Base, Ambiguous, HasPrefix, NameFits, Counted;
    AbsKeys(was, a);
    FakeSource(was, cwd, a, m);
    AbsoluteTargets(cwd, FinalOf(m), m, b);
    MoreLinkRefines(was, a, b, m);
    assert now == MoreLinked(was, m, b);
  }

  /** A failed link() has changed nothing. */
  lemma FailedLinkIsNothing(was: Fs, now: Fs, cwd: Path, a: Path)
    requires WF(was) && KindOf(a) == Guest
    requires FirstLinkFailed(was, now, cwd, a) || CountAppeared(was, now, cwd, a)
    ensures now == was
  {
    hide KindOf, WF, Probe, Resolve, FinalOf, CntOf, Base, Ambiguous, HasPrefix, NameFits, FreshFor;
    if FirstLinkFailed(was, now, cwd, a) {
      var p :| FreshFor(was, a, p) && SameBut(was, now, {p.final, p.final + CNT_SUFFIX});
      FreshIsFree(was, a, p);
    } else {
      var m := Probe(was, cwd, a).value;
      ProbedExists(was, cwd, a);
      FakeSource(was, cwd, a, m);
      ChainOfName(was, a, m);
    }
  }

  /** What a link() needs in order to succeed when nothing fails from outside: a file or symbolic
      link, a free name, and either one more count below the limit or names that fit and a free
      generation. */
  ghost predicate Linkable(fs: Fs, a: Path, b: Path) {
    && a in fs && !fs[a].Dir? && b !in fs
    && if IsFake(fs[a]) then Counted(fs, CntOf(fs[a].target)) < NLINK_MAX else Fits(a) && SomeFree(fs, a)
  }

  ghost predicate SomeFree(fs: Fs, a: Path) {
    exists g :: GEN_FIRST <= g <= GEN_LAST && MidOf(a, g) !in fs
  }

  /** The same in the guest's terms: of a faked hard link, fewer than 9999 names of the file. */
  lemma LinkableMeans(fs: Fs, a: Path, b: Path)
    requires WF(fs) && KindOf(a) == Guest && KindOf(b) == Guest
    ensures Linkable(fs, a, b) <==>
      && a in Abs(fs) && !Abs(fs)[a].Dir? && b !in Abs(fs)
      && if IsFake(fs[a]) then |HardLinks(Abs(fs), a)| < NLINK_MAX else Fits(a) && SomeFree(fs, a)
  {
    hide KindOf, WF, Abs, IsFake, Counted, CntOf, HardLinks, SomeFree, Fits, View;
    AbsKeys(fs, a);
    AbsKeys(fs, b);
    if a in fs {
      ViewIsDir(fs, a);
      if IsFake(fs[a]) {
        LinksAreLinks(fs[a]);
        LinkCount(fs, a);
      }
    }
  }

  /** The first of the free generations is the one that is chosen. */
  lemma SomeFreeIsFresh(fs: Fs, a: Path)
    requires WF(fs) && KindOf(a) == Guest
    ensures Fits(a) && SomeFree(fs, a) <==> exists p :: FreshFor(fs, a, p) && |p.final| + 4 + 1 <= PATH_MAX
  {
    hide KindOf, WF, Occupied, MidOf, MakePaths, Fits;
    if Fits(a) && SomeFree(fs, a) {
      var g :| GEN_FIRST <= g <= GEN_LAST && MidOf(a, g) !in fs;
      var first := FirstFree(fs, a, g);
      MadeFrom(a, first, 2);
      assert FreshFor(fs, a, MakePaths(PREFIX, a, first, 2).value);
    }
    if p :| FreshFor(fs, a, p) && |p.final| + 4 + 1 <= PATH_MAX {
      FreshFits(fs, a, p);
      FreshIsFree(fs, a, p);
    }
  }

  lemma FreshFits(fs: Fs, a: Path, p: Paths)
    requires KindOf(a) == Guest && FreshFor(fs, a, p) && |p.final| + 4 + 1 <= PATH_MAX
    ensures Fits(a)
  {
    hide KindOf, Occupied, MidOf, MakePaths, Fits;
    var g :| IsFirstFree(a, Occupied(fs), g) && MakePaths(PREFIX, a, g, 2) == Ok(p);
    MadeFrom(a, g, 2);
  }

  lemma {:induction false} FirstFree(fs: Fs, a: Path, g: nat) returns (first: nat)
    requires WF(fs) && KindOf(a) == Guest && Fits(a) && GEN_FIRST <= g <= GEN_LAST && MidOf(a, g) !in fs
    ensures IsFirstFree(a, Occupied(fs), first)
    decreases g
  {
    hide KindOf, WF, Occupied, MidOf, MakePaths, Fits;
    if h :| GEN_FIRST <= h < g && MidOf(a, h) !in fs {
      first := FirstFree(fs, a, h);
    } else {
      first := g;
      forall h | GEN_FIRST <= h <= g ensures Taken(a, Occupied(fs), h) <==> h < g {
        MadeFrom(a, h, 1);
        MadeFrom(a, h, 2);
        MidOccupied(fs, a, h);
      }
      MadeFrom(a, g, 1);
    }
  }

  lemma GuestHasNoPrefix(a: Path)
    requires KindOf(a) == Guest
    ensures !HasPrefix(Base(a)) && R.Absolute(a)
  {
    hide Base;
    GuestFacts(a);
  }

  lemma FirstLinkWorks(fs: Fs, cwd: Path, a: Path, b: Path, p: Paths)
    requires WF(fs) && a in fs && KindOf(a) == Guest && KindOf(b) == Guest
    requires FreshFor(fs, a, p) && |p.final| + 4 + 1 <= PATH_MAX
    ensures RoomFor(fs, a, p.mid, p.final) && (b !in fs ==> NameFree(fs, cwd, a, b, p.mid, p.final))
  {
    hide KindOf, WF, FinalOf, CntOf, Base, HasPrefix, FreshFor;
    FreshIsFree(fs, a, p);
    UnusedAreReserved(fs, p.mid);
    AbsoluteTargets(cwd, p.final, p.mid, a);
    AbsoluteTargets(cwd, p.final, p.mid, b);
    DataHasName(p.final);
    hide FinalTarget, MidTarget, NewTarget;
  }

  lemma DataHasName(p: Path)
    requires KindOf(p) == Data
    ensures |Base(p)| > 0
  {
    hide Base, ParseName, GuestShaped;
  }

  lemma LinkableWorks(fs: Fs, cwd: Path, a: Path, b: Path)
    requires WF(fs) && KindOf(a) == Guest && KindOf(b) == Guest && Linkable(fs, a, b)
    ensures LinkWorks(fs, cwd, a, b)
  {
    hide KindOf, WF, Probe, Resolve, FinalOf, CntOf, Base, HasPrefix, NameFits, Counted, Users, NewTarget;
    hide FreshFor, RoomFor, NameFree, Fits, SomeFree;
    GuestHasNoPrefix(a);
    ProbeFinds(fs, cwd, a);
    if IsFake(fs[a]) {
      var m := fs[a].target;
      FakeSource(fs, cwd, a, m);
      AbsoluteTargets(cwd, FinalOf(m), m, b);
      ChainOfName(fs, a, m);
    } else {
      SomeFreeIsFresh(fs, a);
      var p :| FreshFor(fs, a, p) && |p.final| + 4 + 1 <= PATH_MAX;
      FirstLinkWorks(fs, cwd, a, b, p);
    }
  }

  lemma DoneWasLinkable(was: Fs, now: Fs, cwd: Path, a: Path, b: Path)
    requires WF(was) && KindOf(a) == Guest && LinkDone(was, now, cwd, a, b)
    ensures Linkable(was, a, b)
  {
    hide KindOf, WF, Probe, Resolve, FinalOf, Base, HasPrefix, NameFits, Counted, Users, NewTarget, FirstLinkedAt;
    hide FreshFor, Fits, SomeFree;
    ProbeFinds(was, cwd, a);
    if Probe(was, cwd, a).Some? {
      FakeSource(was, cwd, a, Probe(was, cwd, a).value);
    } else {
      SomeFreeIsFresh(was, a);
    }
  }

  /** Why a link(2) without an outside failure does not work, in the guest's terms. */
  ghost predicate GuestError(fs: Fs, a: Path, b: Path, e: int) {
    if a !in fs then e == ENOENT
    else if fs[a].Dir? then e == EPERM
    else if IsFake(fs[a]) && Counted(fs, CntOf(fs[a].target)) >= NLINK_MAX then e == EMLINK
    else (IsFake(fs[a]) || (Fits(a) && SomeFree(fs, a))) && b in fs ==> e == EEXIST
  }

  lemma GuestErrors(fs: Fs, cwd: Path, a: Path, b: Path, e: int)
    requires WF(fs) && KindOf(a) == Guest && KindOf(b) == Guest && LinkError(fs, cwd, a, b, e)
    ensures GuestError(fs, a, b, e)
  {
    hide KindOf, WF, Probe, Resolve, FinalOf, CntOf, Base, HasPrefix, NameFits, Counted, Users, NewTarget;
    hide FreshFor, RoomFor, NameFree, Fits, SomeFree, NoGeneration;
    if a in fs && !fs[a].Dir? {
      ProbeFinds(fs, cwd, a);
      if IsFake(fs[a]) {
        var m := fs[a].target;
        FakeSource(fs, cwd, a, m);
        ChainOfName(fs, a, m);
      } else if Fits(a) && SomeFree(fs, a) {
        SomeFreeIsFresh(fs, a);
        var p :| FreshFor(fs, a, p) && |p.final| + 4 + 1 <= PATH_MAX;
        FirstLinkWorks(fs, cwd, a, b, p);
        FreshIsNamed(fs, a, p);
      }
    }
  }

  lemma FreshIsNamed(fs: Fs, a: Path, p: Paths)
    requires FreshFor(fs, a, p)
    ensures |Base(a)| > 0
  {
    hide MakePaths, Occupied, IsFirstFree, Base;
    var g :| IsFirstFree(a, Occupied(fs), g) && MakePaths(PREFIX, a, g, 2) == Ok(p);
    BaseNotEmpty(PREFIX, a, g, 2);
  }

  /** The guest's link(2) of any entry: all or nothing, whichever step fails. */
  method GuestLink(r: Runtime, a: Path, b: Path) returns (rc: int)
    requires WF(r.fs) && KindOf(a) == Guest && KindOf(b) == Guest
    modifies r
    ensures rc == 0 ==>
      a in old(Abs(r.fs)) && b !in old(Abs(r.fs)) && Abs(r.fs) == old(Abs(r.fs))[b := old(Abs(r.fs))[a]]
    ensures rc == 0 ==> (WF(r.fs) <==> old(LinkSource(r.fs, a)))
    ensures rc != 0 ==> r.fs == old(r.fs)
    ensures rc == 0 ==> Linkable(old(r.fs), a, b)
    ensures old(r.fault).NoFault? && Linkable(old(r.fs), a, b) ==> rc == 0
    ensures old(r.fault).NoFault? && rc != 0 ==> GuestError(old(r.fs), a, b, -rc)
    ensures old(r.fault).NoFault? ==> r.fault.NoFault?
  {
    hide KindOf, WF, Abs, Linkable, LinkWorks, LinkDone, LinkSource, Base, HasPrefix, LinkError, GuestError;
    ghost var was := r.fs;
    GuestHasNoPrefix(a);
    if r.fault.NoFault? && Linkable(was, a, b) { LinkableWorks(was, r.cwd, a, b); }
    ghost var calm := r.fault.NoFault?;
    rc := r.DoLink(a, b);
    if calm && rc != 0 { GuestErrors(was, r.cwd, a, b, -rc); }
    if rc == 0 {
      LinkRefines(was, r.fs, r.cwd, a, b);
      DoneWasLinkable(was, r.fs, r.cwd, a, b);
    } else if r.fs != was {
      FailedLinkIsNothing(was, r.fs, r.cwd, a);
    }
  }

  // ----- unlink -----

  lemma ChainStandsThere(fs: Fs, p: Path, m: Path)
    requires CanDrop(fs, p, m)
    ensures ChainStands(fs, m, FinalOf(m)) && FinalOf(m) + CNT_SUFFIX == CntOf(m) && p !in {m, FinalOf(m), CntOf(m)}
    ensures DroppedAt(fs, m, FinalOf(m)) == Dropped(fs, m)
  {
    hide KindOf, WF, Base, NameFits, Users, StemOfCnt, StemOfData, FinalOf;
    ChainOfName(fs, p, m);
  }

  lemma FakeIsBehind(fs: Fs, cwd: Path, p: Path)
    requires WF(fs) && p in fs && KindOf(p) == Guest && Probe(fs, cwd, p).Some?
    ensures ChainBehind(fs, cwd, p) && CanDrop(fs, p, Probe(fs, cwd, p).value)
    ensures Resolve(fs, Probe(fs, cwd, p).value) == Some(FinalOf(Probe(fs, cwd, p).value))
  {
    hide KindOf, WF, Base, Probe, Resolve, ChainStands, FinalOf, CntOf;
    FakeSource(fs, cwd, p, Probe(fs, cwd, p).value);
    ChainStandsThere(fs, p, Probe(fs, cwd, p).value);
  }

  // What a chain's own files hold does not matter to the names outside it.

  /** Data files other than the chain's own are the same. */
  ghost predicate OtherData(was: Fs, now: Fs, m: Path) {
    forall d :: KindOf(d) == Data && d != FinalOf(m) ==>
      (d in now <==> d in was) && (d in now && d in was ==> now[d] == was[d])
  }

  /** A guest entry, wherever it stands now, still shows the same file. */
  lemma ViewSurvives(was: Fs, now: Fs, m: Path, o: Path, q: Path)
    requires WF(was) && o in was && KindOf(o) == Guest && m in was && KindOf(m) == Mid
    requires q in now && now[q] == was[o] && OtherData(was, now, m)
    requires was[o] == Link(m) ==> FinalOf(m) in was && FinalOf(m) in now && now[FinalOf(m)] == was[FinalOf(m)]
    ensures View(now, q) == View(was, o)
  {
    hide KindOf, WF, Base, HasPrefix, FinalOf, CntOf, CntOk, Users, StemOfData, StemOfCnt;
    if IsFake(was[o]) {
      FakeEntry(was, o);
      var k := was[o].target;
      ChainOfName(was, o, k);
      ChainParts(was, m);
      if k != m { ChainApart(k, m); }
    }
  }

  /** A name of a chain with only one name is its only one. */
  lemma OnlyName(fs: Fs, p: Path, m: Path, o: Path)
    requires CanDrop(fs, p, m) && Counted(fs, CntOf(m)) == 1 && o in fs && KindOf(o) == Guest && fs[o] == Link(m)
    ensures o == p
  {
    hide KindOf, WF, CntOf, FinalOf, StemOfCnt, StemOfData, NameFits, Base;
    ChainOfName(fs, p, m);
    OnlyMember(Users(fs, m), p);
    assert o in Users(fs, m) && Users(fs, m) == {p};
  }

  /** The three files of a chain, and what unlink() and rename() may do to them. */
  predicate ChainTouched(was: Fs, now: Fs, m: Path) {
    Counted(was, CntOf(m)) == 1 || (FinalOf(m) in was && FinalOf(m) in now && now[FinalOf(m)] == was[FinalOf(m)])
  }

  lemma ChainFiles(fs: Fs, p: Path, m: Path)
    requires CanDrop(fs, p, m)
    ensures m in fs && FinalOf(m) in fs && FinalOf(m) + CNT_SUFFIX == CntOf(m) && Counted(fs, CntOf(m)) >= 1
    ensures KindOf(FinalOf(m)) == Data && KindOf(CntOf(m)) == Cnt
  {
    hide KindOf, WF, Base, NameFits, Users, StemOfCnt, StemOfData, FinalOf;
    ChainOfName(fs, p, m);
  }

  /** Whatever an unlink() leaves, every other name shows its file. */
  lemma UnlinkSpares(was: Fs, now: Fs, p: Path, m: Path, ok: bool)
    requires CanDrop(was, p, m) && UnlinkLeft(was, now, p, m, FinalOf(m), ok)
    ensures ok <==> p !in now
    ensures forall q :: q != p && KindOf(q) == Guest ==>
      (q in now <==> q in was) && (q in was ==> View(now, q) == View(was, q))
    ensures Counted(was, CntOf(m)) > 1 && !ok ==> View(now, p) == View(was, p)
  {
    hide KindOf, WF, Base, FinalOf, CntOf, View, HasPrefix, IsFake;
    ChainFiles(was, p, m);
    assert ChainTouched(was, now, m) && OtherData(was, now, m);
    forall q | KindOf(q) == Guest && q in was && q in now && (q == p ==> Counted(was, CntOf(m)) > 1)
      ensures View(now, q) == View(was, q)
    {
      if q != p && was[q] == Link(m) && Counted(was, CntOf(m)) == 1 { OnlyName(was, p, m, q); }
      ViewSurvives(was, now, m, q, q);
    }
  }

  lemma UnlinkSparesAbs(was: Fs, now: Fs, p: Path, m: Path, ok: bool)
    requires CanDrop(was, p, m) && UnlinkLeft(was, now, p, m, FinalOf(m), ok)
    ensures Abs(now) - {p} == Abs(was) - {p} && (p in Abs(now) <==> !ok) && p in Abs(was)
    ensures ok ==> Abs(now) == Abs(was) - {p}
    ensures !ok && |HardLinks(Abs(was), p)| > 1 ==> Abs(now) == Abs(was)
  {
    hide KindOf, WF, FinalOf, CntOf, View, UnlinkLeft, HardLinks, Abs;
    UnlinkSpares(was, now, p, m, ok);
    AbsKeys(was, p);
    AbsKeys(now, p);
    FakeLinkCount(was, p, m);
    forall q
      ensures (q in Abs(now) - {p} <==> q in Abs(was) - {p}) && (q in Abs(was) - {p} ==> Abs(now)[q] == Abs(was)[q])
    {
      AbsKeys(was, q);
      AbsKeys(now, q);
    }
    assert !ok && Counted(was, CntOf(m)) > 1 ==> Abs(now)[p] == Abs(was)[p];
    JoinMaps(Abs(now), Abs(was), p);
  }

  lemma JoinMaps(x: Fs, y: Fs, p: Path)
    requires x - {p} == y - {p}
    ensures p in x && p in y && x[p] == y[p] ==> x == y
    ensures p !in x ==> x == y - {p}
  {
    assert p in x && p in y && x[p] == y[p] ==> x == (x - {p})[p := x[p]] && y == (y - {p})[p := y[p]];
  }

  /** The guest's unlink(2): what the runtime passes through, the kernel does.  When a call fails
      from outside no other name is affected, nor is this one while its file has another name. */
  method GuestUnlink(r: Runtime, p: Path) returns (rc: int)
    requires WF(r.fs) && KindOf(p) == Guest
    modifies r
    ensures old(r.fault).NoFault? ==> WF(r.fs) && r.fault.NoFault? && (rc != 0 ==> r.fs == old(r.fs))
    ensures rc == 0 ==> p in old(Abs(r.fs)) && !old(Abs(r.fs))[p].Dir? && Abs(r.fs) == old(Abs(r.fs)) - {p}
    ensures old(r.fault).NoFault? && p in old(Abs(r.fs)) && !old(Abs(r.fs))[p].Dir? ==> rc == 0
    ensures rc != 0 ==> Abs(r.fs) - {p} == old(Abs(r.fs)) - {p} && (p in Abs(r.fs) <==> p in old(Abs(r.fs)))
    ensures rc != 0 && p in old(Abs(r.fs)) && |HardLinks(old(Abs(r.fs)), p)| > 1 ==> Abs(r.fs) == old(Abs(r.fs))
  {
    hide KindOf, WF, Abs, Probe, Resolve, ChainBehind, CanDrop, FinalOf, CntOf, HasPrefix, Base, UnlinkLeft, HardLinks;
    ghost var was := r.fs;
    AbsKeys(was, p);
    if p in was { ViewIsDir(was, p); ProbeFinds(was, r.cwd, p); }
    if Probe(was, r.cwd, p).Some? {
      assert p in was by { ProbedExists(was, r.cwd, p); }
      FakeIsBehind(was, r.cwd, p);
      ChainStandsThere(was, p, Probe(was, r.cwd, p).value);
      UnlinkRefines(was, p, Probe(was, r.cwd, p).value);
    } else if p in was {
      RemovePlain(was, p);
    }
    rc := r.DoUnlink(p);
    if rc == PASSTHRU {
      rc := r.Remove(p);
    } else {
      UnlinkSparesAbs(was, r.fs, p, Probe(was, r.cwd, p).value, rc == 0);
    }
  }

  lemma ProbedExists(fs: Fs, cwd: Path, p: Path)
    requires Probe(fs, cwd, p).Some?
    ensures p in fs && fs[p].Link?
  {
    hide Base, DirOf, LastSlash;
  }

  lemma ViewIsDir(fs: Fs, p: Path)
    requires WF(fs) && p in fs && KindOf(p) == Guest
    ensures View(fs, p).Dir? <==> fs[p].Dir?
    ensures !IsFake(fs[p]) ==> View(fs, p) == fs[p]
    ensures IsFake(fs[p]) ==> View(fs, p).File?
  {
    hide KindOf, Base, HasPrefix, FinalOf, CntOf, NameFits, StemOfCnt, StemOfData, Users;
    assert NodeOk(fs, p, fs[p]);
    if IsFake(fs[p]) { ChainParts(fs, fs[p].target); }
  }

  // ----- rename -----

  /** Two guest names are the same file exactly when they are one name or names of one chain. */
  lemma SameFileMeans(fs: Fs, cwd: Path, a: Path, b: Path)
    requires WF(fs) && a in fs && b in fs && KindOf(a) == Guest && KindOf(b) == Guest && a != b
    ensures a in Abs(fs) && b in Abs(fs)
    ensures SameFile(Abs(fs)[a], Abs(fs)[b]) <==> Probe(fs, cwd, a).Some? && Probe(fs, cwd, a) == Probe(fs, cwd, b)
  {
    hide KindOf, WF, Probe, HasPrefix, Base, FinalOf, CntOf, View;
    AbsKeys(fs, a);
    AbsKeys(fs, b);
    ProbeFinds(fs, cwd, a);
    ProbeFinds(fs, cwd, b);
    ViewIsDir(fs, a);
    ViewIsDir(fs, b);
    if IsFake(fs[a]) {
      FakeEntry(fs, a);
      SameChainSameFile(fs, a, b, fs[a].target);
    } else if fs[a].File? {
      PlainIsAlone(fs, a, b);
    }
  }

  /** What the code before rename(2) decides, in the guest's terms: 2 when the two names are one
      faked file, 1 when the new name is a faked hard link that loses its file, 0 otherwise. */
  lemma PrepareMeans(r: Runtime, a: Path, b: Path)
    requires WF(r.fs) && KindOf(a) == Guest && KindOf(b) == Guest
    ensures var h, pre := Abs(r.fs), r.Prepare(a, b).0; var faked := b in r.fs && IsFake(r.fs[b]);
      && (pre == 0 <==> !faked)
      && (pre == 2 <==> faked && a in h && b in h && SameFile(h[a], h[b]))
  {
    hide KindOf, WF, Probe, Resolve, HasPrefix, Base, FinalOf, CntOf, View, Abs, IsFake;
    AbsKeys(r.fs, a);
    AbsKeys(r.fs, b);
    if Probe(r.fs, r.cwd, b).Some? { ProbedExists(r.fs, r.cwd, b); }
    if Probe(r.fs, r.cwd, a).Some? { ProbedExists(r.fs, r.cwd, a); }
    if b in r.fs {
      ProbeFinds(r.fs, r.cwd, b);
      ViewIsDir(r.fs, b);
      if a in r.fs && a != b { SameFileMeans(r.fs, r.cwd, a, b); }
    }
  }

  /** The guest's rename(2) is the hard-link file system's rename: over another name it drops that
      name, between two names of one file it does nothing.  This holds even when a call of the
      accounting fails. */
  lemma RenameRefines(was: Fs, now: Fs, cwd: Path, a: Path, b: Path, rc: int, calm: bool)
    requires WF(was) && KindOf(a) == Guest && KindOf(b) == Guest && RenameDone(was, now, cwd, a, b, rc, calm)
    ensures calm ==> WF(now)
    ensures rc == 0 ==> Movable(Abs(was), a, b) && Abs(now) == Renamed(Abs(was), a, b)
    ensures rc != 0 ==> now == was
    ensures calm && Movable(Abs(was), a, b) ==> rc == 0
  {
    hide KindOf, WF, Abs, Probe, Resolve, HasPrefix, Base, FinalOf, CntOf, View, Settled, SameFile, IsFake;
    AbsKeys(was, a);
    AbsKeys(was, b);
    if a in was { ViewIsDir(was, a); ProbeFinds(was, cwd, a); }
    if b in was { ViewIsDir(was, b); ProbeFinds(was, cwd, b); }
    if a in was && b in was && a != b { SameFileMeans(was, cwd, a, b); }
    if Probe(was, cwd, b).Some? {
      ProbedExists(was, cwd, b);
      FakeIsBehind(was, cwd, b);
      if Probe(was, cwd, a) == Probe(was, cwd, b) {
        ProbedExists(was, cwd, a);
      } else if rc == 0 {
        RenameOverFake(was, now, cwd, a, b, Probe(was, cwd, b).value, calm);
      }
    } else if rc == 0 {
      RenameOverPlain(was, a, b);
    }
  }

  lemma RenameOverPlain(was: Fs, a: Path, b: Path)
    requires WF(was) && a in was && KindOf(a) == Guest && KindOf(b) == Guest && (b in was ==> !IsFake(was[b]))
    ensures WF(Moved(was, a, b)) && a in Abs(was)
    ensures Abs(Moved(was, a, b)) == if a == b then Abs(was) else Moved(Abs(was), a, b)
  {
    hide KindOf, WF, Abs, IsFake;
    AbsKeys(was, a);
    if a == b {
      assert Moved(was, a, b) == was;
    } else if b in was {
      ReplacePlainRefines(was, a, b);
    } else {
      MoveRefines(was, a, b);
    }
  }

  lemma RenameOverFake(was: Fs, now: Fs, cwd: Path, a: Path, b: Path, m: Path, calm: bool)
    requires CanDrop(was, b, m) && a in was && KindOf(a) == Guest && a != b && !was[a].Dir?
    requires Probe(was, cwd, b) == Some(m) && Probe(was, cwd, a) != Some(m)
    requires Settled(Moved(was, a, b), now, m, FinalOf(m), calm)
    ensures a in Abs(was) && Abs(now) == Moved(Abs(was), a, b) && (calm ==> WF(now))
  {
    MovedStands(was, a, b, m);
    hide KindOf, WF, Abs, Probe, HasPrefix, Base, NameFits, Users, StemOfCnt, StemOfData, FinalOf, CntOf, ChainStands;
    hide Dropped, DroppedAt, Moved, MidOk, DataOk, CntOk, Resolve, CommitLeft, ChainTouched, OtherData;
    AbsKeys(was, a);
    ProbeFinds(was, cwd, a);
    MidIsReserved(m);
    ReplaceFakeRefines(was, a, b, m);
    CommitSpares(was, now, a, b, m);
  }

  /** Moving another name leaves a chain's files standing. */
  lemma MovedStands(was: Fs, a: Path, b: Path, m: Path)
    requires CanDrop(was, b, m) && a in was && KindOf(a) == Guest && a != b
    ensures var moved := Moved(was, a, b);
      ChainStands(moved, m, FinalOf(m)) && DroppedAt(moved, m, FinalOf(m)) == Dropped(moved, m)
  {
    hide KindOf, WF, Abs, Probe, HasPrefix, Base, NameFits, Users, StemOfCnt, StemOfData, FinalOf;
    ChainStandsThere(was, b, m);
    ChainOfName(was, b, m);
  }

  /** Whatever the accounting leaves, every name shows its file. */
  lemma CommitSpares(was: Fs, now: Fs, a: Path, b: Path, m: Path)
    requires CanDrop(was, b, m) && a in was && KindOf(a) == Guest && a != b && was[a] != Link(m) && a in Abs(was)
    requires CommitLeft(Moved(was, a, b), now, m, FinalOf(m))
    ensures Abs(now) == Moved(Abs(was), a, b)
  {
    hide KindOf, WF, Abs, FinalOf, CntOf, View, CommitLeft;
    CommitLeaves(was, now, a, b, m);
    ChainFiles(was, b, m);
    forall q ensures q in Abs(now) <==> q in Moved(Abs(was), a, b) {
      AbsKeys(was, q);
      AbsKeys(now, q);
    }
    forall q | q in Abs(now) ensures Abs(now)[q] == Moved(Abs(was), a, b)[q] {
      var o := if q == b then a else q;
      AbsKeys(was, o);
      AbsKeys(now, q);
      if was[o] == Link(m) && Counted(was, CntOf(m)) == 1 { OnlyName(was, b, m, o); }
      ViewSurvives(was, now, m, o, q);
    }
  }

  lemma CommitLeaves(was: Fs, now: Fs, a: Path, b: Path, m: Path)
    requires CanDrop(was, b, m) && a in was && KindOf(a) == Guest && a != b
    requires CommitLeft(Moved(was, a, b), now, m, FinalOf(m))
    ensures ChainTouched(was, now, m) && OtherData(was, now, m)
    ensures forall q :: KindOf(q) == Guest ==>
      (q in now <==> q in Moved(was, a, b)) && (q in now ==> now[q] == Moved(was, a, b)[q])
  {
    hide KindOf, WF, FinalOf, CntOf, Base;
    ChainFiles(was, b, m);
  }

  /** The guest's rename(2): an error changes nothing, success is the whole effect, whichever call
      fails. */
  method GuestRename(r: Runtime, a: Path, b: Path) returns (rc: int)
    requires WF(r.fs) && KindOf(a) == Guest && KindOf(b) == Guest
    modifies r
    ensures old(r.fault).NoFault? ==> WF(r.fs) && r.fault.NoFault?
    ensures rc == 0 ==> Movable(old(Abs(r.fs)), a, b) && Abs(r.fs) == Renamed(old(Abs(r.fs)), a, b)
    ensures rc != 0 ==> r.fs == old(r.fs)
    ensures old(r.fault).NoFault? && Movable(old(Abs(r.fs)), a, b) ==> rc == 0
  {
    hide KindOf, WF, Abs, RenameDone, Renamed, Movable;
    rc := r.DoRename(a, b);
    RenameRefines(old(r.fs), r.fs, r.cwd, a, b, rc, old(r.fault).NoFault?);
  }

  // ----- stat and create -----

  /** stat() on a guest name reports the file itself, its type and its number of hard links. */
  method GuestStat(r: Runtime, p: Path) returns (found: bool, node: Node, nlink: nat, regular: bool)
    requires WF(r.fs) && KindOf(p) == Guest
    ensures found <==> p in Abs(r.fs)
    ensures found ==> node == Abs(r.fs)[p] && (regular <==> node.File?)
    ensures found && node.File? ==> nlink == |HardLinks(Abs(r.fs), p)|
  {
    hide KindOf, WF, Abs, Probe, Resolve, HasPrefix, Base;
    hide FinalOf, CntOf, HardLinks, NameFits, Users, StemOfCnt, StemOfData;
    AbsKeys(r.fs, p);
    if p in r.fs {
      ViewIsDir(r.fs, p);
      ProbeFinds(r.fs, r.cwd, p);
      if IsFake(r.fs[p]) {
        FakeSource(r.fs, r.cwd, p, r.fs[p].target);
        ChainOfName(r.fs, p, r.fs[p].target);
      }
      if View(r.fs, p).File? { LinkCount(r.fs, p); }
    }
    found, node, nlink, regular := r.Stat(p);
  }

  predicate FreshInode(h: Fs, ino: nat) {
    forall p :: p in h && h[p].File? ==> h[p].ino != ino
  }

  /** A new file, which the kernel gives an inode no file has. */
  method GuestCreate(r: Runtime, p: Path, ino: nat, data: string) returns (rc: int)
    requires WF(r.fs) && KindOf(p) == Guest && FreshInode(r.fs, ino)
    modifies r
    ensures WF(r.fs) && r.fault == old(r.fault)
    ensures rc == 0 <==> p !in old(Abs(r.fs))
    ensures Abs(r.fs) == if rc == 0 then old(Abs(r.fs))[p := File(ino, data)] else old(Abs(r.fs))
  {
    hide KindOf, WF, Abs;
    AbsKeys(r.fs, p);
    if p in r.fs { return -EEXIST; }
    CreateRefines(r.fs, p, ino, data);
    r.fs := r.fs[p := File(ino, data)];
    return 0;
  }

  /** The guest's symlink(2): the kernel's. */
  method GuestSymlink(r: Runtime, target: Path, p: Path) returns (rc: int)
    requires WF(r.fs) && KindOf(p) == Guest && !HasPrefix(Base(target))
    modifies r
    ensures WF(r.fs) && (old(r.fault).NoFault? ==> r.fault.NoFault?)
    ensures rc == 0 ==>
      p !in old(Abs(r.fs)) && 0 < |target| < PATH_MAX && Abs(r.fs) == old(Abs(r.fs))[p := Link(target)]
    ensures rc != 0 ==> r.fs == old(r.fs)
    ensures old(r.fault).NoFault? && p !in old(Abs(r.fs)) && 0 < |target| < PATH_MAX ==> rc == 0
  {
    hide KindOf, WF, Abs, HasPrefix, Base;
    AbsKeys(r.fs, p);
    if |target| >= PATH_MAX { return -ENAMETOOLONG; }
    if p !in r.fs && |target| > 0 { SymlinkRefines(r.fs, p, target); }
    rc := r.Symlink(target, p);
  }

  /** With its last name a file's three internal names are gone: a consistent state without guest
      names is empty. */
  lemma NothingLeaks(fs: Fs)
    requires WF(fs) && Abs(fs) == map[]
    ensures fs == map[]
  {
    hide WF, Abs;
    if fs != map[] {
      var p :| p in fs;
      var u := SomeName(fs, p);
    }
  }

  /** Every entry, internal or not, is there for some guest name. */
  lemma SomeName(fs: Fs, p: Path) returns (u: Path)
    requires WF(fs) && p in fs
    ensures u in Abs(fs)
    ensures u == p || (fs[u].Link? && (p == fs[u].target || p == FinalOf(fs[u].target) || p == CntOf(fs[u].target)))
  {
    hide KindOf, Base, FinalOf, CntOf, StemOfData, StemOfCnt, NameFits;
    assert NodeOk(fs, p, fs[p]);
    u := p;
    if KindOf(p) != Guest {
      var m := match KindOf(p) case Data => StemOfData(p) case Cnt => StemOfCnt(p) case _ => p;
      ChainParts(fs, m);
      ChainKinds(m);
      assert |Users(fs, m)| >= 1;
      u :| u in Users(fs, m);
    }
  }
}

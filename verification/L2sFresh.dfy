/** The three names that a first link() makes: where they lie, that a consistent state has none of
    them, and what the guest sees once they are there, whatever the source is and is called. */
module L2sFresh {
  import opened Wrappers
  import opened Text
  import opened L2sNames
  import opened L2sModel
  import opened L2sRuntime
  import R = L2sRelPath

  // ----- the names -----

  function MidOf(a: Path, g: nat): Path
    requires g <= GEN_LAST
  {
    DirOf(a) + PREFIX + Base(a) + Digits4(g)
  }

  /** Everything a first link() of this name builds fits its buffers. */
  predicate Fits(a: Path) {
    |a| + 19 <= PATH_MAX && |Base(a)| + 15 <= NAME_MAX
  }

  lemma MadeFrom(a: Path, g: nat, k: nat)
    requires KindOf(a) == Guest && GEN_FIRST <= g <= GEN_LAST && 1 <= k <= NLINK_MAX
    ensures var made := MakePaths(PREFIX, a, g, k);
      && (Fits(a) <==> made.Ok? && |made.value.final| + 5 <= PATH_MAX)
      && (made.Ok? ==> made.value == Paths(MidOf(a, g), MidOf(a, g) + "." + Digits4(k)))
  {
    hide KindOf, Base, DirOf, Digits4, IsDots;
    GuestFacts(a);
    Whole(a);
    assert |MidOf(a, g) + "." + Digits4(k)| == |a| + 14;
  }

  /** What kind of path each of the three is. */
  lemma FreshKinds(a: Path, g: nat)
    requires KindOf(a) == Guest && MakePaths(PREFIX, a, g, 2).Ok?
    ensures g <= GEN_LAST
    ensures var m := MidOf(a, g);
      && MakePaths(PREFIX, a, g, 2).value == Paths(m, FinalOf(m)) && R.Absolute(m) && HasPrefix(Base(m))
      && KindOf(m) == (if Ambiguous(Base(a)) then Data else Mid) && KindOf(FinalOf(m)) == Data &&
        KindOf(CntOf(m)) == Cnt
      && (!Ambiguous(Base(a)) ==> NameFits(m)) && FinalOf(m) + CNT_SUFFIX == CntOf(m)
  {
    hide Split, ParseName, Ambiguous, Digits4, Base, DirOf, Head, IsDots, LastSlash, FinalOf, KindOf, MakePaths;
    assert GEN_FIRST <= g <= GEN_LAST by { MadeInRange(a, g); }
    var m := MidOf(a, g);
    MadeFrom(a, g, 2);
    DataSuffix(m);
    MadePaths(PREFIX, a, g, 2);
    assert Base(m) == PREFIX + Base(a) + Digits4(g);
    assert PREFIX + Base(a) + Digits4(g) == PREFIX + (Base(a) + Digits4(g));
    SameIntermediate(PREFIX, a, g, 2);
    IntermediateDecodes(PREFIX, a, g);
    FinalDecodes(PREFIX, a, g, 2);
    PrefixedKinds(m);
    GuestFacts(a);
    AbsoluteDir(a, m);
  }

  lemma MadeInRange(a: Path, g: nat)
    requires MakePaths(PREFIX, a, g, 2).Ok?
    ensures GEN_FIRST <= g <= GEN_LAST
  {
    hide Split;
  }

  /** Reserved names by what they decode to. */
  lemma PrefixedKinds(m: Path)
    requires HasPrefix(Base(m)) && ParseName(Base(m)).Ok?
    ensures KindOf(m) == if ParseName(Base(m)).value.kind.Intermediate? then Mid else Data
    ensures Base(FinalOf(m)) == Base(m) + DATA_SUFFIX && HasPrefix(Base(FinalOf(m)))
    ensures ParseName(Base(FinalOf(m))).Ok? && ParseName(Base(FinalOf(m))).value.kind.Final? ==>
      KindOf(FinalOf(m)) == Data
    ensures KindOf(CntOf(m)) == Cnt && HasPrefix(Base(CntOf(m)))
  {
    hide Base, DirOf, ParseName, GuestShaped;
    var s := DATA_SUFFIX + CNT_SUFFIX;
    assert CntOf(m) == m + s;
    BaseOfSuffix(m, DATA_SUFFIX);
    BaseOfSuffix(m, s);
    assert PREFIX <= Base(m) <= Base(m) + DATA_SUFFIX && Base(m) <= Base(m) + s;
    SideFileName(Base(m));
  }

  lemma SideFileName(b: string)
    requires HasPrefix(b)
    ensures ParseName(b + (DATA_SUFFIX + CNT_SUFFIX)).Err? && EndsInCnt(b + (DATA_SUFFIX + CNT_SUFFIX))
  {
    hide Value;
    var c := b + (DATA_SUFFIX + CNT_SUFFIX);
    assert MatchPrefix(c) == 5 && c[5..][|c| - 6] == c[|c| - 1] == 't';
    assert c[5..][|c| - 9..][3] == c[|c| - 1];
    assert c[|c| - 4..] == CNT_SUFFIX;
  }

  // ----- in a consistent state -----

  lemma MidIsAccessible(fs: Fs, m: Path)
    requires WF(fs) && m in fs && KindOf(m) == Mid
    ensures m in Occupied(fs)
  {
    hide KindOf, Base, DirOf, FinalOf, CntOf, StemOfData, StemOfCnt, NameFits, Users;
    ChainParts(fs, m);
    ChainKinds(m);
    DataNameDecodes(m);
    assert FinalOf(m) == DirOf(FinalOf(m)) + Base(FinalOf(m)) by { Whole(FinalOf(m)); }
    assert Anchor(m, fs[m].target) == FinalOf(m);
    assert Accessible(fs, FinalOf(m), 39);
  }

  /** A candidate intermediate is found by access() exactly when it exists. */
  lemma MidOccupied(fs: Fs, a: Path, g: nat)
    requires WF(fs) && KindOf(a) == Guest && MakePaths(PREFIX, a, g, 2).Ok?
    ensures g <= GEN_LAST && (MidOf(a, g) in fs <==> MidOf(a, g) in Occupied(fs))
  {
    hide KindOf, Base, MakePaths, FinalOf, CntOf, MidOf, NameFits, Ambiguous, Accessible, StemOfData, MidOk, CntOk;
    FreshKinds(a, g);
    var m := MidOf(a, g);
    if m in fs {
      assert NodeOk(fs, m, fs[m]);
      if KindOf(m) == Mid { MidIsAccessible(fs, m); } else { FilesAreAccessible(fs, m); }
    }
  }

  lemma FilesAreAccessible(fs: Fs, p: Path)
    requires p in fs && fs[p].File?
    ensures Accessible(fs, p, 40)
  {
  }

  /** No part of a chain stands without its intermediate. */
  lemma NoMidNoChain(fs: Fs, m: Path)
    requires WF(fs) && m !in fs && KindOf(FinalOf(m)) == Data && KindOf(CntOf(m)) == Cnt
    ensures FinalOf(m) !in fs && CntOf(m) !in fs
  {
    hide KindOf, Base, FinalOf, CntOf, StemOfData, StemOfCnt, Users;
    Suffixes(m);
    assert FinalOf(m) in fs ==> NodeOk(fs, FinalOf(m), fs[FinalOf(m)]);
    assert CntOf(m) in fs ==> NodeOk(fs, CntOf(m), fs[CntOf(m)]);
  }

  /** A chain about to be made. */
  predicate Unused(fs: Fs, m: Path) {
    && m !in fs && FinalOf(m) !in fs && CntOf(m) !in fs
    && R.Absolute(m) && HasPrefix(Base(m)) && FinalOf(m) + CNT_SUFFIX == CntOf(m)
  }

  /** The names made for a plain guest entry are nobody's, and their kinds depend on its name. */
  lemma FreshIsFree(fs: Fs, a: Path, p: Paths)
    requires WF(fs) && KindOf(a) == Guest && FreshFor(fs, a, p)
    ensures p.final == FinalOf(p.mid) && Unused(fs, p.mid) && KindOf(FinalOf(p.mid)) == Data
    ensures KindOf(CntOf(p.mid)) == Cnt
    ensures KindOf(p.mid) == if Ambiguous(Base(a)) then Data else Mid
    ensures |p.final| + 5 <= PATH_MAX && !Ambiguous(Base(a)) ==> Sized(p.mid)
    ensures exists g :: GEN_FIRST <= g <= GEN_LAST && p.mid == MidOf(a, g)
  {
    hide KindOf, Base, Ambiguous, MakePaths, WF, Occupied, MidOf, FinalOf, NameFits, HasPrefix;
    var g :| IsFirstFree(a, Occupied(fs), g) && MakePaths(PREFIX, a, g, 2) == Ok(p);
    FreshKinds(a, g);
    SameIntermediate(PREFIX, a, g, 2);
    MidOccupied(fs, a, g);
    NoMidNoChain(fs, p.mid);
  }

  // ----- what the guest sees -----

  /** The internal names are no guest names. */
  lemma UnusedAreReserved(fs: Fs, m: Path)
    requires Unused(fs, m)
    ensures KindOf(m) != Guest && KindOf(FinalOf(m)) != Guest && KindOf(CntOf(m)) != Guest
    ensures m != FinalOf(m) && m != CntOf(m) && FinalOf(m) != CntOf(m)
  {
    hide Base, ParseName, GuestShaped, DirOf;
    var s := DATA_SUFFIX + CNT_SUFFIX;
    assert CntOf(m) == m + s;
    BaseOfSuffix(m, DATA_SUFFIX);
    BaseOfSuffix(m, s);
    assert PREFIX <= Base(m) <= Base(m) + DATA_SUFFIX && Base(m) <= Base(m) + s;
    Suffixes(m);
  }

  /** A first link(), of any plain entry: the guest has one more name for it. */
  lemma FirstLinkViews(fs: Fs, a: Path, b: Path, m: Path)
    requires WF(fs) && a in fs && KindOf(a) == Guest && !IsFake(fs[a]) && KindOf(b) == Guest && b !in fs
    requires Unused(fs, m)
    ensures Abs(FirstLinked(fs, a, b, m)) == Abs(fs)[b := Abs(fs)[a]]
  {
    hide KindOf, WF, View, Base, FinalOf, CntOf, HasPrefix, FirstLinked, Abs;
    var now := FirstLinked(fs, a, b, m);
    UnusedAreReserved(fs, m);
    NewEntries(fs, a, b, m);
    forall p | p in fs && KindOf(p) == Guest ensures p in now && View(now, p) == View(fs, p) {
      if p == a { NewView(fs, a, b, m, a); } else { OldView(fs, a, b, m, p); }
    }
    NewView(fs, a, b, m, b);
    AbsGains(fs, now, a, b);
  }

  /** A first link() entry by entry. */
  lemma FirstLinkedMeans(fs: Fs, a: Path, b: Path, m: Path)
    requires a in fs && KindOf(a) == Guest && KindOf(b) == Guest && Unused(fs, m)
    ensures var now := FirstLinked(fs, a, b, m);
      && a in now && now[a] == Link(m) && b in now && now[b] == Link(m)
      && m in now && now[m] == Link(Base(FinalOf(m)))
      && FinalOf(m) in now && now[FinalOf(m)] == fs[a] && CntOf(m) in now && now[CntOf(m)] == Count(2)
    ensures SameElsewhere(fs, FirstLinked(fs, a, b, m), {a, b, m, FinalOf(m), CntOf(m)})
  {
    UnusedAreReserved(fs, m);
    hide KindOf, FinalOf, CntOf, Base, HasPrefix, Unused, SameElsewhere;
    FiveWrites(fs, a, b, m, FinalOf(m), CntOf(m), Link(Base(FinalOf(m))));
  }

  lemma FiveWrites(fs: Fs, a: Path, b: Path, m: Path, f: Path, c: Path, mid: Node)
    requires a in fs && m !in {a, b} && f !in {a, b, m} && c !in {a, b, m, f}
    ensures var now := (fs - {a})[f := fs[a]][m := mid][a := Link(m)][c := Count(2)][b := Link(m)];
      && a in now && now[a] == Link(m) && b in now && now[b] == Link(m) && m in now && now[m] == mid
      && f in now && now[f] == fs[a] && c in now && now[c] == Count(2) && SameElsewhere(fs, now, {a, b, m, f, c})
  {
  }

  lemma NewEntries(fs: Fs, a: Path, b: Path, m: Path)
    requires a in fs && KindOf(a) == Guest && KindOf(b) == Guest && Unused(fs, m)
    ensures forall p :: p in FirstLinked(fs, a, b, m) && KindOf(p) == Guest ==> p in fs || p == b
  {
    hide KindOf, FinalOf, CntOf, Base, FirstLinked, Unused;
    UnusedAreReserved(fs, m);
    FirstLinkedMeans(fs, a, b, m);
  }

  lemma NewView(fs: Fs, a: Path, b: Path, m: Path, p: Path)
    requires a in fs && !IsFake(fs[a]) && Unused(fs, m) && (p == a || p == b) && KindOf(a) == Guest
    requires KindOf(b) == Guest
    ensures p in FirstLinked(fs, a, b, m) && View(FirstLinked(fs, a, b, m), p) == View(fs, a) == fs[a]
  {
    hide KindOf, FinalOf, CntOf, Base, HasPrefix, FirstLinked;
    FirstLinkedMeans(fs, a, b, m);
  }

  lemma OldView(fs: Fs, a: Path, b: Path, m: Path, p: Path)
    requires WF(fs) && a in fs && KindOf(a) == Guest && KindOf(b) == Guest && b !in fs && Unused(fs, m)
    requires p in fs && KindOf(p) == Guest && p != a
    ensures p in FirstLinked(fs, a, b, m) && View(FirstLinked(fs, a, b, m), p) == View(fs, p)
  {
    hide KindOf, FinalOf, CntOf, Base, HasPrefix, StemOfData, StemOfCnt, NameFits, Users, FirstLinked, CntOk;
    UnusedAreReserved(fs, m);
    FirstLinkedMeans(fs, a, b, m);
    assert NodeOk(fs, p, fs[p]);
    if IsFake(fs[p]) {
      ChainParts(fs, fs[p].target);
      ChainKinds(fs[p].target);
    }
  }

  /** A link() whose chain is consistent afterwards: of a faked hard link, or a first one of a file
      whose name is not ambiguous.  The others are those of a guest's own symbolic link and of an
      ambiguous name. */
  predicate LinkSource(fs: Fs, a: Path) {
    a in fs ==>
      match fs[a]
      case File(_, _) => !Ambiguous(Base(a))
      case Link(_) => IsFake(fs[a])
      case _ => true
  }

  /** After any other first link() the state is not consistent: a data file is a symbolic link, or
      an intermediate reads as a data file. */
  lemma OddSourceBreaks(fs: Fs, a: Path, b: Path, m: Path)
    requires a in fs && KindOf(a) == Guest && KindOf(b) == Guest && Unused(fs, m) && KindOf(FinalOf(m)) == Data
    requires fs[a].Link? || KindOf(m) == Data
    ensures !WF(FirstLinked(fs, a, b, m))
  {
    hide KindOf, FinalOf, CntOf, Base, Unused, FirstLinked, GuestOk, MidOk, CntOk, StemOfData;
    FirstLinkedMeans(fs, a, b, m);
    var now := FirstLinked(fs, a, b, m);
    var p := if fs[a].Link? then FinalOf(m) else m;
    assert p in now && now[p].Link? && KindOf(p) == Data;
    assert !NodeOk(now, p, now[p]);
  }
}

/** px_merge_preload: our library in front of the libraries already listed, without a second copy
    of it.  A list is separated by spaces, colons or tabs. */
module Preload {
  import opened Text

  datatype Merge = Merged(text: string) | NoSpace | Invalid

  predicate IsSep(c: char) { c == ' ' || c == ':' || c == '\t' }

  predicate SepFree(s: string) { forall i :: 0 <= i < |s| ==> !IsSep(s[i]) }

  /** The length of the first segment. */
  function SegEnd(s: string): (k: nat)
    ensures k <= |s| && SepFree(s[..k]) && (k < |s| ==> IsSep(s[k]))
  {
    if |s| == 0 || IsSep(s[0]) then 0 else
    var k := 1 + SegEnd(s[1..]);
    assert forall i :: 1 <= i < k ==> s[i] == s[1..][..k - 1][i - 1];
    k
  }

  /** The nonempty segments of a list. */
  function Segs(s: string): (ss: seq<string>)
    ensures forall i :: 0 <= i < |ss| ==> |ss[i]| > 0 && SepFree(ss[i])
    decreases |s|
  {
    var k := SegEnd(s);
    var first := if k > 0 then [s[..k]] else [];
    if k == |s| then first else first + Segs(s[k + 1..])
  }

  /** The same library: the same path, or the same file name. */
  predicate Same(seg: string, ours: string) {
    seg == ours || Base(seg) == Base(ours)
  }

  /** The listed libraries other than ours. */
  function Others(segs: seq<string>, ours: string): seq<string> {
    if |segs| == 0 then []
    else if Same(segs[0], ours) then Others(segs[1..], ours) else [segs[0]] + Others(segs[1..], ours)
  }

  lemma {:induction false} OthersAre(segs: seq<string>, ours: string)
    ensures forall o :: o in Others(segs, ours) ==> !Same(o, ours) && o in segs
    decreases |segs|
  {
    hide Same;
    if |segs| > 0 {
      OthersAre(segs[1..], ours);
      assert segs == [segs[0]] + segs[1..];
    }
  }

  /** As many of them as fit, up to the first that does not. */
  function Fitting(os: seq<string>, used: nat, cap: nat): (fs: seq<string>)
    ensures |fs| <= |os| && fs == os[..|fs|]
  {
    if |os| == 0 || used + 1 + |os[0]| + 1 > cap then [] else [os[0]] + Fitting(os[1..], used + 1 + |os[0]|, cap)
  }

  /** The text of a list behind another text. */
  function Listed(front: string, ss: seq<string>): string
    decreases |ss|
  {
    if |ss| == 0 then front else Listed(front + " " + ss[0], ss[1..])
  }

  function MergeSpec(existing: string, ours: string, cap: nat): Merge {
    if cap == 0 then Invalid
    else if |ours| + 1 > cap then NoSpace
    else if |existing| == 0 || |ours| == 0 then Merged(ours)
    else Merged(Listed(ours, Fitting(Others(Segs(existing), ours), |ours|, cap)))
  }

  /** The segment ends at the next separator. */
  method EndOfSegment(p: string) returns (k: nat)
    ensures k == SegEnd(p)
  {
    k := 0;
    while k < |p| && !IsSep(p[k])
      invariant k <= |p| && SegEnd(p) == k + SegEnd(p[k..])
    {
      assert p[k..][1..] == p[k + 1..];
      k := k + 1;
    }
  }

  /** px_merge_preload; `existing` and `ours` are empty where the code has null. */
  method MergePreload(existing: string, ours: string, cap: nat) returns (r: Merge)
    ensures r == MergeSpec(existing, ours, cap)
    ensures r.Merged? ==> ours <= r.text && |r.text| < cap
  {
    hide Segs, Listed, SegEnd, Base, LastSlash, Others, Fitting, Same, SepFree, IsSep;
    if cap == 0 { return Invalid; }
    if |existing| == 0 || |ours| == 0 {
      if |ours| + 1 > cap { return NoSpace; }
      return Merged(ours);
    }
    if |ours| >= cap { return NoSpace; }
    var out, p := ours, existing;
    ghost var whole := Listed(ours, Fitting(Others(Segs(existing), ours), |ours|, cap));
    while true
      invariant ours <= out && |out| < cap
      invariant whole == Listed(out, Fitting(Others(Segs(p), ours), |out|, cap))
      decreases |p|
    {
      var k := EndOfSegment(p);
      var seg := p[..k];
      SegsUnfold(p);
      ghost var rest := if k == |p| then [] else Segs(p[k + 1..]);
      MergeStep(seg, rest, ours, out, cap);
      if k > 0 && !Same(seg, ours) {
        if |out| + 1 + k + 1 > cap { return Merged(out); }
        out := out + " " + seg;
      }
      if k == |p| {
        NothingListed(ours, out, cap);
        return Merged(out);
      }
      p := p[k + 1..];
    }
  }

  lemma SegsUnfold(p: string)
    ensures var k := SegEnd(p);
      Segs(p) == (if k > 0 then [p[..k]] else []) + (if k == |p| then [] else Segs(p[k + 1..]))
  {
    hide SegEnd;
  }

  lemma NothingListed(ours: string, out: string, cap: nat)
    ensures Listed(out, Fitting(Others([], ours), |out|, cap)) == out
  {
  }

  lemma MergeStep(seg: string, rest: seq<string>, ours: string, out: string, cap: nat)
    ensures var all := (if |seg| > 0 then [seg] else []) + rest;
      Listed(out, Fitting(Others(all, ours), |out|, cap)) ==
        if |seg| == 0 || Same(seg, ours) then Listed(out, Fitting(Others(rest, ours), |out|, cap))
        else if |out| + 1 + |seg| + 1 > cap then out
        else Listed(out + " " + seg, Fitting(Others(rest, ours), |out| + 1 + |seg|, cap))
  {
    hide Same;
    if |seg| == 0 {
      assert [] + rest == rest;
    } else {
      assert ([seg] + rest)[1..] == rest;
      var os := Others(rest, ours);
      assert ([seg] + os)[1..] == os;
      var fs := Fitting(os, |out| + 1 + |seg|, cap);
      assert ([seg] + fs)[1..] == fs;
    }
  }

  // ----- what the merged list is -----

  lemma {:induction false} SegEndIs(s: string, k: nat)
    requires k <= |s| && SepFree(s[..k]) && (k < |s| ==> IsSep(s[k]))
    ensures SegEnd(s) == k
  {
    hide IsSep;
    if k > 0 {
      assert s[..k][0] == s[0];
      assert s[1..][..k - 1] == s[..k][1..];
      SegEndIs(s[1..], k - 1);
    }
  }

  lemma SegEndOf(a: string, c: char, b: string)
    requires SepFree(a) && IsSep(c)
    ensures SegEnd(a + [c] + b) == |a| && SegEnd(a) == |a|
  {
    hide SegEnd;
    assert (a + [c] + b)[..|a|] == a && a[..|a|] == a;
    SegEndIs(a + [c] + b, |a|);
    SegEndIs(a, |a|);
  }

  /** One more segment at the end of a list. */
  lemma {:induction false} SegsAppend(s: string, seg: string)
    requires |seg| > 0 && SepFree(seg)
    ensures Segs(s + " " + seg) == Segs(s) + [seg]
    decreases |s|
  {
    hide SegEnd, Segs, IsSep;
    assert IsSep(' ') by { SpaceSeparates(); }
    var k := SegEnd(s);
    var t := s + " " + seg;
    SegsUnfold(s);
    SegsUnfold(t);
    assert t == s[..k] + [if k == |s| then ' ' else s[k]] + (if k == |s| then seg else s[k + 1..] + " " + seg) by {
      Resplit(s, seg, k);
    }
    SegEndOf(s[..k], if k == |s| then ' ' else s[k], if k == |s| then seg else s[k + 1..] + " " + seg);
    assert t[..k] == s[..k];
    if k == |s| {
      assert t[k + 1..] == seg;
      SegEndOf(seg, ' ', "");
      SegsUnfold(seg);
      assert seg[..|seg|] == seg;
      assert [seg] + [] == [seg];
    } else {
      assert t[k + 1..] == s[k + 1..] + " " + seg;
      SegsAppend(s[k + 1..], seg);
      assert (if k > 0 then [s[..k]] else []) + (Segs(s[k + 1..]) + [seg]) ==
        ((if k > 0 then [s[..k]] else []) + Segs(s[k + 1..])) + [seg];
    }
  }

  lemma SpaceSeparates()
    ensures IsSep(' ')
  {
  }

  lemma Resplit(s: string, seg: string, k: nat)
    requires k <= |s|
    ensures s + " " + seg ==
      s[..k] + [if k == |s| then ' ' else s[k]] + (if k == |s| then seg else s[k + 1..] + " " + seg)
  {
  }

  lemma {:induction false} SegsOfListed(front: string, ss: seq<string>)
    requires forall x :: x in ss ==> |x| > 0 && SepFree(x)
    ensures Segs(Listed(front, ss)) == Segs(front) + ss
    decreases |ss|
  {
    hide Segs, SegEnd;
    if |ss| == 0 {
      assert Segs(front) + [] == Segs(front);
    } else {
      SegsAppend(front, ss[0]);
      SegsOfListed(front + " " + ss[0], ss[1..]);
      assert (Segs(front) + [ss[0]]) + ss[1..] == Segs(front) + ss;
    }
  }

  lemma SegsOfOne(ours: string)
    requires |ours| > 0 && SepFree(ours)
    ensures Segs(ours) == [ours]
  {
    hide SegEnd;
    SpaceSeparates();
    SegEndOf(ours, ' ', "");
    assert ours[..|ours|] == ours;
  }

  lemma {:induction false} OthersOf(a: seq<string>, b: seq<string>, ours: string)
    ensures Others(a + b, ours) == Others(a, ours) + Others(b, ours)
  {
    hide Same;
    if |a| == 0 {
      assert a + b == b && [] + Others(b, ours) == Others(b, ours);
    } else {
      assert (a + b)[1..] == a[1..] + b;
      OthersOf(a[1..], b, ours);
    }
  }

  lemma {:induction false} OthersStay(os: seq<string>, ours: string)
    requires forall o :: o in os ==> !Same(o, ours)
    ensures Others(os, ours) == os
  {
    hide Same;
    if |os| > 0 {
      assert os[0] in os;
      OthersStay(os[1..], ours);
    }
  }

  /** A separator-free `ours` comes first; the other libraries follow in order, as many as fit, none
      of them ours under another spelling. */
  lemma MergedMeans(existing: string, ours: string, cap: nat)
    requires |ours| > 0 && SepFree(ours) && MergeSpec(existing, ours, cap).Merged?
    ensures var os := Others(Segs(existing), ours); var ss := Segs(MergeSpec(existing, ours, cap).text);
      && |ss| > 0 && ss[0] == ours && |ss| - 1 <= |os| && ss[1..] == os[..|ss| - 1]
      && (forall x :: x in ss[1..] ==> Base(x) != Base(ours) && x in Segs(existing))
  {
    SegsOfOne(ours);
    hide Segs, SegEnd, Base, LastSlash, SepFree, Listed;
    var os := Others(Segs(existing), ours);
    OthersAre(Segs(existing), ours);
    if |existing| > 0 {
      var fs := Fitting(os, |ours|, cap);
      FittedAreSegs(existing, ours, cap);
      SegsOfListed(ours, fs);
      assert ([ours] + fs)[1..] == fs;
    } else {
      assert [ours][1..] == [] == os[..0];
    }
  }

  /** What fits is part of what is listed, and none of it is ours. */
  lemma FittedAreSegs(existing: string, ours: string, cap: nat)
    ensures forall x :: x in Fitting(Others(Segs(existing), ours), |ours|, cap) ==>
      |x| > 0 && SepFree(x) && !Same(x, ours) && x in Segs(existing)
  {
    SegsForm(existing);
    hide Same, SepFree, Segs, Others;
    OthersAre(Segs(existing), ours);
    var os := Others(Segs(existing), ours);
    hide Fitting;
    assert forall x :: x in os[..|Fitting(os, |ours|, cap)|] ==> x in os;
  }

  lemma SegsForm(s: string)
    ensures forall x :: x in Segs(s) ==> |x| > 0 && SepFree(x)
  {
    hide Segs, SepFree;
  }

  /** When everything fits, nothing is lost. */
  lemma {:induction false} AllFits(os: seq<string>, front: string, cap: nat)
    requires |Listed(front, os)| < cap
    ensures Fitting(os, |front|, cap) == os
    decreases |os|
  {
    if |os| > 0 {
      ListedGrows(front + " " + os[0], os[1..]);
      AllFits(os[1..], front + " " + os[0], cap);
    }
  }

  lemma {:induction false} ListedGrows(front: string, ss: seq<string>)
    ensures |Listed(front, ss)| >= |front|
    ensures |ss| > 0 ==> |Listed(front, ss)| > |front|
    decreases |ss|
  {
    if |ss| > 0 { ListedGrows(front + " " + ss[0], ss[1..]); }
  }

  lemma {:induction false} FittingFits(os: seq<string>, front: string, cap: nat)
    requires |front| < cap
    ensures |Listed(front, Fitting(os, |front|, cap))| < cap
    decreases |os|
  {
    if |os| > 0 && |front| + 1 + |os[0]| + 1 <= cap {
      FittingFits(os[1..], front + " " + os[0], cap);
      var fs := Fitting(os[1..], |front + " " + os[0]|, cap);
      assert ([os[0]] + fs)[1..] == fs;
    }
  }

  lemma MergedFits(existing: string, ours: string, cap: nat)
    ensures MergeSpec(existing, ours, cap).Merged? ==> |MergeSpec(existing, ours, cap).text| < cap
    ensures cap > 0 ==> (MergeSpec(existing, ours, cap).Merged? <==> |ours| < cap)
  {
    if 0 < |ours| < cap { FittingFits(Others(Segs(existing), ours), ours, cap); }
  }

  /** What a merged list holds: the segments of `ours`, then the others that fitted. */
  lemma MergedHolds(existing: string, ours: string, cap: nat) returns (fs: seq<string>)
    requires MergeSpec(existing, ours, cap).Merged? && |ours| > 0
    ensures fs == Fitted(existing, ours, cap)
    ensures var once := MergeSpec(existing, ours, cap).text;
      once == Listed(ours, fs) && 0 < |once| < cap && Others(Segs(once), ours) == Others(Segs(ours), ours) + fs
    ensures forall x :: x in fs ==> |x| > 0 && SepFree(x)
  {
    hide Segs, Same, Listed, SepFree;
    ListedNothing(ours);
    fs := Fitted(existing, ours, cap);
    FittedAreSegs(existing, ours, cap);
    if |existing| == 0 { NoSegs(existing); }
    FittingFits(Others(Segs(existing), ours), ours, cap);
    ListedGrows(ours, fs);
    SegsOfListed(ours, fs);
    OthersOf(Segs(ours), fs, ours);
    OthersStay(fs, ours);
  }

  /** The other libraries that the first merging kept. */
  function Fitted(existing: string, ours: string, cap: nat): seq<string> {
    Fitting(Others(Segs(existing), ours), |ours|, cap)
  }

  /** Merging again changes nothing exactly when the segments of `ours` that are no spelling of it,
      followed by the others kept before, fit as those others alone; so if there are no such
      segments, as with any `ours` without separators. */
  lemma MergeAgain(existing: string, ours: string, cap: nat)
    requires MergeSpec(existing, ours, cap).Merged?
    ensures var once := MergeSpec(existing, ours, cap).text;
      var extra, fs := Others(Segs(ours), ours), Fitted(existing, ours, cap);
      && (MergeSpec(once, ours, cap) == Merged(once) <==> |ours| == 0 || Fitting(extra + fs, |ours|, cap) == fs)
      && (extra == [] ==> MergeSpec(once, ours, cap) == Merged(once))
    ensures |ours| > 0 && SepFree(ours) ==> Others(Segs(ours), ours) == []
  {
    if |ours| > 0 && SepFree(ours) { SegsOfOne(ours); }
    if |ours| > 0 {
      var fs := MergedHolds(existing, ours, cap);
      var extra := Others(Segs(ours), ours);
      OursAreSegs(ours);
      hide Segs, Same, Listed, Fitting, Others, SepFree;
      SameList(ours, Fitting(extra + fs, |ours|, cap), extra, fs);
      if extra == [] {
        assert extra + fs == fs;
        AllFits(fs, ours, cap);
      }
    }
  }

  /** It can change: an `ours` of two names is listed twice. */
  lemma MergeCanGrow(a: string, b: string, cap: nat)
    requires |a| > 0 && SepFree(a) && Free(a, '/') && |b| > 0 && SepFree(b) && Free(b, '/')
    requires 2 * (|a| + |b| + 2) <= cap
    ensures var ours := a + " " + b;
      && MergeSpec("", ours, cap) == Merged(ours)
      && MergeSpec(ours, ours, cap) == Merged(ours + " " + a + " " + b)
  {
    var ours := a + " " + b;
    SegsOfOne(a);
    SegsAppend(a, b);
    assert Segs(ours) == [a, b];
    BareBase(a); BareBase(b); BareBase(ours);
    TwoOthers(a, b, ours);
    TwoFit(a, b, |ours|, cap);
    TwoListed(ours, a, b);
  }

  lemma TwoOthers(a: string, b: string, ours: string)
    requires !Same(a, ours) && !Same(b, ours)
    ensures Others([a, b], ours) == [a, b]
  {
    hide Same;
    assert [a, b][1..] == [b] && [b][1..] == [];
    assert Others([], ours) == [];
    assert Others([b], ours) == [b];
  }

  lemma TwoFit(a: string, b: string, used: nat, cap: nat)
    requires used + |a| + |b| + 3 <= cap
    ensures Fitting([a, b], used, cap) == [a, b]
  {
    assert [a, b][1..] == [b] && [b][1..] == [];
    assert Fitting([b], used + 1 + |a|, cap) == [b];
  }

  lemma TwoListed(front: string, a: string, b: string)
    ensures Listed(front, [a, b]) == front + " " + a + " " + b
  {
    assert [a, b][1..] == [b] && [b][1..] == [];
    assert Listed(front + " " + a + " " + b, []) == front + " " + a + " " + b;
    assert Listed(front + " " + a, [b]) == front + " " + a + " " + b;
  }

  lemma BareBase(s: string)
    requires Free(s, '/')
    ensures Base(s) == s
  {
    hide LastSlash;
    assert LastSlash(s) == -1;
  }

  lemma OursAreSegs(ours: string)
    ensures forall x :: x in Others(Segs(ours), ours) ==> |x| > 0 && SepFree(x)
  {
    SegsForm(ours);
    hide Same, SepFree, Segs, Others;
    OthersAre(Segs(ours), ours);
  }

  /** A list shows its segments, so equal lists have equal segments. */
  lemma SameList(ours: string, gs: seq<string>, extra: seq<string>, fs: seq<string>)
    requires forall x :: x in extra || x in fs ==> |x| > 0 && SepFree(x)
    requires |gs| <= |extra + fs| && gs == (extra + fs)[..|gs|]
    ensures Listed(ours, gs) == Listed(ours, fs) <==> gs == fs
  {
    hide Segs, Listed, SepFree;
    assert forall x :: x in gs ==> x in extra + fs;
    SegsOfListed(ours, gs);
    SegsOfListed(ours, fs);
    if Listed(ours, gs) == Listed(ours, fs) {
      assert gs == (Segs(ours) + gs)[|Segs(ours)|..] && fs == (Segs(ours) + fs)[|Segs(ours)|..];
    }
  }

  lemma NoSegs(ours: string)
    requires |ours| == 0
    ensures Segs(ours) == [] && Others([], ours) == []
  {
  }

  lemma ListedNothing(front: string)
    ensures Listed(front, []) == front
  {
  }
}

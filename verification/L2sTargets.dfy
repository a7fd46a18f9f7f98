/** Where the link texts that link() stores lead: each is resolved from the directory of its own link,
    for absolute and for relative names. */
module L2sTargets {
  import opened Wrappers
  import opened Text
  import opened L2sNames
  import opened L2sModel
  import opened L2sRuntime
  import R = L2sRelPath

  // ----- following texts -----

  /** What a path names, for a process whose working directory is `root`, when nothing on the way is a
      link. */
  function Where(root: seq<string>, p: Path): seq<string> {
    R.Walk(if R.Absolute(p) then [] else root, Pieces(p, '/'))
  }

  /** The directory that the path's last component lies in. */
  function DirWhere(root: seq<string>, p: Path): seq<string> {
    R.Walk(if R.Absolute(p) then [] else root, Pieces(R.DirPart(p), '/'))
  }

  /** What a symbolic link at `at` with this text leads to. */
  function Followed(root: seq<string>, at: Path, text: Path): seq<string> {
    R.Walk(if R.Absolute(text) then [] else DirWhere(root, at), Pieces(text, '/'))
  }

  /** A working directory's own name leads to it. */
  predicate IsCwd(cwd: Path, root: seq<string>) {
    R.Absolute(cwd) && Where([], cwd) == root
  }

  lemma WhereIs(root: seq<string>, p: Path)
    ensures Where(root, p) == R.Walk(DirWhere(root, p), [Base(p)])
  {
    hide Pieces, LastSlash, R.Walk, R.Kept, R.DirPart, Base;
    var from := if R.Absolute(p) then [] else root;
    R.WalkOfPath(from, p);
    R.WalkKept(from, Pieces(R.DirPart(p), '/'));
  }

  lemma BareIs(root: seq<string>, at: Path, name: string)
    requires Free(name, '/')
    ensures Followed(root, at, name) == R.Walk(DirWhere(root, at), [name])
  {
    hide R.Walk, R.DirPart;
    PiecesOfFree(name, '/');
  }

  lemma SameDirPart(p: Path, q: Path)
    requires DirOf(p) == DirOf(q)
    ensures R.DirPart(p) == R.DirPart(q)
  {
    hide LastSlash;
    assert LastSlash(p) == |DirOf(p)| - 1 && LastSlash(q) == |DirOf(q)| - 1;
    if LastSlash(p) >= 0 {
      assert R.DirPart(p) == DirOf(p)[..LastSlash(p)];
    }
  }

  lemma SameDirWhere(root: seq<string>, p: Path, q: Path)
    requires DirOf(p) == DirOf(q) && |Base(p)| > 0 && |Base(q)| > 0
    ensures DirWhere(root, p) == DirWhere(root, q) && (R.Absolute(p) <==> R.Absolute(q))
  {
    hide LastSlash, R.Walk, Pieces;
    SameDirPart(p, q);
    SameFirst(p, q);
  }

  lemma SameFirst(p: Path, q: Path)
    requires DirOf(p) == DirOf(q) && |Base(p)| > 0 && |Base(q)| > 0
    ensures R.Absolute(p) <==> R.Absolute(q)
  {
    hide LastSlash;
    if |DirOf(p)| > 0 {
      assert DirOf(p)[0] == p[0] && DirOf(q)[0] == q[0];
    } else {
      assert LastSlash(p) < 0 && LastSlash(q) < 0;
    }
  }

  /** A path in the same directory, by its bare name. */
  lemma BareReaches(root: seq<string>, p: Path, at: Path)
    requires DirOf(p) == DirOf(at) && |Base(p)| > 0 && |Base(at)| > 0
    ensures Followed(root, at, Base(p)) == Where(root, p)
  {
    hide R.Walk, Base, DirOf, R.DirPart;
    WhereIs(root, p);
    R.PathParts(p);
    BareIs(root, at, Base(p));
    SameDirWhere(root, p, at);
  }

  /** For a path in the link's own directory the rewritten text is its bare name. */
  lemma RewrittenSame(p: Path, at: Path)
    requires DirOf(p) == DirOf(at) && |p| < R.BUF
    ensures R.RelPath(p, at) == if R.Absolute(p) || R.Absolute(at) then None else Some(Base(p))
  {
    hide R.Segs, R.Relative, LastSlash;
    SameDirPart(p, at);
    R.SameDirectory(p, at);
    assert |R.DirPart(p)| <= |p| && |Base(p)| <= |p|;
  }

  // ----- the intermediate and the data file -----

  lemma MadeDirs(a: Path, g: nat, p: Paths)
    requires MakePaths(PREFIX, a, g, 2) == Ok(p)
    ensures DirOf(p.mid) == DirOf(p.final) && |p.mid| < |p.final| < PATH_MAX && (R.Absolute(p.mid) <==> R.Absolute(a))
    ensures HasPrefix(Base(p.mid)) && |Base(p.final)| > 0 && |Base(a)| > 0
    ensures !R.Absolute(a) ==> DirOf(p.mid) == DirOf(a)
  {
    hide Digits4, Base, IsDots;
    MadePaths(PREFIX, a, g, 2);
    BaseNotEmpty(PREFIX, a, g, 2);
    assert Base(p.mid) == PREFIX + (Base(a) + Digits4(g));
    HeadOfSplit(a);
    FirstOfHead(a, p.mid);
  }

  /** A relative path's split directory, with its separator, is its directory part. */
  lemma HeadOfSplit(a: Path)
    requires Split(a).Ok?
    ensures !R.Absolute(a) ==> Head(Split(a).value.dir) == DirOf(a)
    ensures R.Absolute(a) ==> R.Absolute(Head(Split(a).value.dir))
  {
    hide LastSlash, IsDots;
    var k := LastSlash(a);
    if k >= 0 { assert a[..k + 1] == a[..k] + "/"; }
  }

  lemma FirstOfHead(a: Path, m: Path)
    requires Split(a).Ok? && DirOf(m) == Head(Split(a).value.dir) && |Base(m)| > 0
    ensures R.Absolute(m) <==> R.Absolute(a)
  {
    hide LastSlash, Split, Head;
    HeadOfSplit(a);
    if R.Absolute(a) {
      assert DirOf(m)[0] == m[0];
    } else {
      BasePart(a);
      SameFirst(m, a);
    }
  }

  lemma BasePart(a: Path)
    requires Split(a).Ok?
    ensures |Base(a)| > 0
  {
    hide LastSlash, IsDots;
  }

  /** The original name leads to the intermediate, and the intermediate to the data file, whatever the
      names are. */
  lemma ChainTargets(root: seq<string>, a: Path, g: nat, p: Paths)
    requires MakePaths(PREFIX, a, g, 2) == Ok(p)
    ensures Followed(root, a, MidTarget(p.mid, a)) == Where(root, p.mid)
    ensures Followed(root, p.mid, FinalTarget(p.final, p.mid)) == Where(root, p.final)
  {
    hide R.Walk, R.RelPath, Base, DirOf, MakePaths, HasPrefix, DirWhere, Pieces;
    MadeDirs(a, g, p);
    PrefixedHasName(p.mid);
    BareReaches(root, p.final, p.mid);
    RewrittenSame(p.final, p.mid);
    if R.Absolute(a) {
      RewrittenNever(p.mid, a);
    } else {
      RewrittenSame(p.mid, a);
      BareReaches(root, p.mid, a);
    }
  }

  lemma RewrittenNever(p: Path, at: Path)
    requires R.Absolute(p) || R.Absolute(at)
    ensures R.RelPath(p, at) == None
  {
  }

  lemma PrefixedHasName(m: Path)
    requires HasPrefix(Base(m))
    ensures |Base(m)| > 0 && R.Counts(Base(m)) && !R.IsUp(Base(m))
  {
    hide Base;
  }

  // ----- directory segments and lengths -----

  /** The directory segments of a path, empty ones and "." left out. */
  function Dirs(p: Path): seq<string> {
    R.Kept(Pieces(R.DirPart(p), '/'))
  }

  predicate AllDown(segs: seq<string>) {
    forall i :: 0 <= i < |segs| ==> !R.IsUp(segs[i])
  }

  lemma DirWhereIs(root: seq<string>, p: Path)
    requires AllDown(Dirs(p))
    ensures DirWhere(root, p) == (if R.Absolute(p) then [] else root) + Dirs(p)
  {
    hide Pieces, R.Kept, R.DirPart, R.Walk;
    var from := if R.Absolute(p) then [] else root;
    R.WalkKept(from, Pieces(R.DirPart(p), '/'));
    R.WalkDown(from, Dirs(p));
  }


  lemma {:induction false} KeptLength(ps: seq<string>)
    ensures |R.Downs(R.Kept(ps))| <= |R.Downs(ps)|
    decreases |ps|
  {
    if |ps| > 0 {
      var front, last := ps[..|ps| - 1], ps[|ps| - 1];
      KeptLength(front);
      assert front + [last] == ps;
      R.KeptStep(front, last);
      DownsStep(R.Kept(front), last);
      assert R.Kept(front) + [] == R.Kept(front);
    }
  }

  lemma DownsStep(segs: seq<string>, seg: string)
    ensures R.Downs(segs + [seg]) == R.Downs(segs) + seg + "/"
  {
    assert (segs + [seg])[..|segs|] == segs;
  }

  lemma {:induction false} DownsOfPieces(s: string)
    ensures |R.Downs(Pieces(s, '/'))| == |s| + 1
    decreases |s|
  {
    hide Pieces, R.Downs;
    PiecesUnfold(s, '/');
    var k := Find(s, '/');
    if k < |s| {
      DownsOfPieces(s[k + 1..]);
      DownsFront(s[..k], Pieces(s[k + 1..], '/'));
    } else {
      DownsFront(s, []);
      NoDowns();
      assert [s] + [] == [s];
    }
  }

  lemma {:induction false} DownsFront(seg: string, segs: seq<string>)
    ensures |R.Downs([seg] + segs)| == |seg| + 1 + |R.Downs(segs)|
    decreases |segs|
  {
    if |segs| == 0 {
      assert [seg] + segs == [seg] && [seg][..0] == [];
    } else {
      assert ([seg] + segs)[..|segs|] == [seg] + segs[..|segs| - 1];
      DownsFront(seg, segs[..|segs| - 1]);
    }
  }

  lemma {:induction false} DownsTail(segs: seq<string>, n: nat)
    requires n <= |segs|
    ensures |R.Downs(segs[n..])| <= |R.Downs(segs)|
    decreases n
  {
    if n == 0 {
      assert segs[0..] == segs;
    } else {
      assert segs == [segs[0]] + segs[1..] && segs[1..][n - 1..] == segs[n..];
      DownsFront(segs[0], segs[1..]);
      DownsTail(segs[1..], n - 1);
    }
  }

  /** The directory segments fit where the path's directory was. */
  lemma SegsLength(p: Path)
    ensures |R.Downs(R.Segs(R.DirPart(p)))| + |Base(p)| <= |p|
  {
    hide R.Kept, R.Downs, Pieces, LastSlash, Base, R.DirPart;
    var t := R.Segs(R.DirPart(p));
    KeptLength(Pieces(R.DirPart(p), '/'));
    DownsOfPieces(R.DirPart(p));
    R.DownsMonotone(Dirs(p), |t|);
    assert t == Dirs(p)[..|t|];
    R.PathParts(p);
    if LastSlash(p) < 0 {
      R.NoDir(p);
      PiecesOfFree("", '/');
      NoDirs();
      NoDowns();
    }
  }

  lemma NoDowns()
    ensures R.Downs([]) == ""
  {
  }

  /** A rewritten text is at most 64 steps up longer than the path. */
  lemma RelativeLength(p: Path, at: Path)
    ensures |R.Relative(p, at)| <= |p| + 3 * R.MAX_SEGS
  {
    hide R.Common, R.Downs, R.Ups, Base, R.DirPart, R.Kept, Pieces;
    var t, r := R.Segs(R.DirPart(p)), R.Segs(R.DirPart(at));
    var n := R.Common(t, r);
    SegsLength(p);
    DownsTail(t, n);
  }

  lemma NoDirs()
    ensures R.Kept([""]) == []
  {
    assert [""][..0] == [];
  }

  lemma {:induction false} UpsFirst(n: nat)
    requires n > 0
    ensures |R.Ups(n)| > 0 && R.Ups(n)[0] == '.'
  {
    if n > 1 { UpsFirst(n - 1); }
  }

  lemma {:induction false} DownsFirst(segs: seq<string>)
    requires |segs| > 0 && |segs[0]| > 0
    ensures |R.Downs(segs)| > 0 && R.Downs(segs)[0] == segs[0][0]
    decreases |segs|
  {
    if |segs| > 1 { DownsFirst(segs[..|segs| - 1]); }
  }

  /** A rewritten text is never absolute. */
  lemma RewrittenIsRelative(p: Path, at: Path)
    ensures !R.Absolute(R.Relative(p, at))
  {
    hide R.Common, R.Downs, R.Ups, R.DirPart, R.Kept, Pieces, Base;
    var t, r := R.Segs(R.DirPart(p)), R.Segs(R.DirPart(at));
    var n := R.Common(t, r);
    R.PathParts(p);
    PiecesAreFree(R.DirPart(p), '/');
    if |r| > n {
      UpsFirst(|r| - n);
    } else if n < |t| {
      assert t[n] == Dirs(p)[n];
      DownsFirst(t[n..]);
    } else {
      assert t[n..] == [];
      NoDowns();
    }
  }

  // ----- walks from different directories -----

  /** `dir` without its last `k` components; the top directory is above itself. */
  function Above(dir: seq<string>, k: nat): seq<string> {
    if k >= |dir| then [] else dir[..|dir| - k]
  }

  /** What segments do: how far they climb above where they start, and what they add there. */
  function Climb(segs: seq<string>): nat {
    if |segs| == 0 then 0
    else
      var front, last := segs[..|segs| - 1], segs[|segs| - 1];
      Climb(front) + (if R.IsUp(last) && |Added(front)| == 0 then 1 else 0)
  }

  function Added(segs: seq<string>): seq<string> {
    if |segs| == 0 then []
    else
      var front, last := segs[..|segs| - 1], segs[|segs| - 1];
      if !R.Counts(last) then Added(front)
      else if !R.IsUp(last) then Added(front) + [last]
      else if |Added(front)| == 0 then []
      else Added(front)[..|Added(front)| - 1]
  }

  lemma {:induction false} WalkForm(dir: seq<string>, segs: seq<string>)
    ensures R.Walk(dir, segs) == Above(dir, Climb(segs)) + Added(segs)
    decreases |segs|
  {
    if |segs| == 0 {
      assert dir + [] == dir;
    } else {
      hide R.Walk, Above, R.Counts, R.IsUp;
      var front, last := segs[..|segs| - 1], segs[|segs| - 1];
      WalkForm(dir, front);
      assert front + [last] == segs;
      R.WalkConcat(dir, front, [last]);
      FormStep(dir, Climb(front), Added(front), last);
    }
  }

  lemma FormStep(dir: seq<string>, k: nat, added: seq<string>, last: string)
    ensures R.Walk(Above(dir, k) + added, [last]) ==
      if !R.Counts(last) then Above(dir, k) + added
      else if !R.IsUp(last) then Above(dir, k) + (added + [last])
      else if |added| == 0 then Above(dir, k + 1) + []
      else Above(dir, k) + added[..|added| - 1]
  {
    hide R.Walk, R.Counts, R.IsUp, Above;
    var x := Above(dir, k);
    OneStep(x + added, last);
    if !R.Counts(last) {
    } else if !R.IsUp(last) {
      Assoc(x, added, [last]);
    } else if |added| == 0 {
      AboveTwice(dir, k, 1);
      NoMore(x, added);
      NoMore(Above(dir, k + 1), []);
    } else {
      OutOfAdded(x, added);
    }
  }

  lemma NoMore(a: seq<string>, b: seq<string>)
    requires |b| == 0
    ensures a + b == a
  {
  }

  lemma OneStep(dir: seq<string>, seg: string)
    ensures R.Walk(dir, [seg]) == if !R.Counts(seg) then dir else if !R.IsUp(seg) then dir + [seg] else Above(dir, 1)
  {
    assert [seg][1..] == [];
  }

  lemma OutOfAdded(dir: seq<string>, more: seq<string>)
    requires |more| > 0
    ensures Above(dir + more, 1) == dir + more[..|more| - 1]
  {
  }

  /** Two starting points lead to the same place exactly when they agree above what is climbed. */
  lemma SameWalk(x: seq<string>, y: seq<string>, segs: seq<string>)
    ensures R.Walk(x, segs) == R.Walk(y, segs) <==> Above(x, Climb(segs)) == Above(y, Climb(segs))
  {
    hide R.Walk, Above, Climb, Added;
    WalkForm(x, segs);
    WalkForm(y, segs);
    CutTail(Above(x, Climb(segs)), Above(y, Climb(segs)), Added(segs));
  }

  lemma CutTail<T>(a: seq<T>, b: seq<T>, c: seq<T>)
    ensures a + c == b + c ==> a == b
  {
    if a + c == b + c {
      assert |a + c| == |a| + |c| && |b + c| == |b| + |c|;
      assert a == (a + c)[..|a|] && b == (b + c)[..|a|];
    }
  }

  // ----- exactly when the new name leads to the intermediate -----

  /** A working directory and a relative path below it, as one absolute path. */
  lemma CwdReaches(root: seq<string>, cwd: Path, p: Path)
    requires IsCwd(cwd, root) && !R.Absolute(p)
    ensures R.Absolute(cwd + "/" + p) && Where(root, cwd + "/" + p) == Where(root, p)
  {
    hide R.Walk, Pieces;
    PiecesOfConcat(cwd, p, '/');
    R.WalkConcat([], Pieces(cwd, '/'), Pieces(p, '/'));
    assert cwd + "/" + p == cwd + ['/'] + p && (cwd + "/" + p)[0] == cwd[0];
  }

  lemma {:induction false} WalkOutOf(dir: seq<string>, n: nat, text: string)
    ensures R.Walk(dir, Pieces(R.Ups(n) + text, '/')) == R.Walk(Above(dir, n), Pieces(text, '/'))
    decreases n
  {
    hide Pieces, R.Walk;
    if n == 0 {
      assert R.Ups(n) + text == text;
      assert Above(dir, 0) == dir;
    } else {
      Assoc(R.Ups(n - 1), "../", text);
      WalkOutOf(dir, n - 1, "../" + text);
      assert "../" + text == ".." + ['/'] + text;
      PiecesFirst("..", text, '/');
      StepOut(Above(dir, n - 1), Pieces(text, '/'));
      AboveTwice(dir, n - 1, 1);
    }
  }

  lemma StepOut(dir: seq<string>, segs: seq<string>)
    ensures R.Walk(dir, [".."] + segs) == R.Walk(Above(dir, 1), segs)
  {
    assert ([".."] + segs)[1..] == segs;
  }

  /** A rewritten text leaves the link's directory as often as its own segments say, and then goes
      down to the path's. */
  lemma RewrittenWalk(dir: seq<string>, p: Path, at: Path)
    ensures var t, r := R.Segs(R.DirPart(p)), R.Segs(R.DirPart(at));
      var n := R.Common(t, r);
      R.Walk(dir, Pieces(R.Relative(p, at), '/')) == R.Walk(Above(dir, |r| - n), t[n..] + [Base(p)])
  {
    hide R.Common, R.Downs, R.Ups, R.DirPart, R.Kept, R.Walk, Above, Pieces, Base;
    var t, r := R.Segs(R.DirPart(p)), R.Segs(R.DirPart(at));
    var n := R.Common(t, r);
    Assoc(R.Ups(|r| - n), R.Downs(t[n..]), Base(p));
    WalkOutOf(dir, |r| - n, R.Downs(t[n..]) + Base(p));
    PiecesAreFree(R.DirPart(p), '/');
    R.PiecesOfDowns(t[n..], Base(p));
    R.PathParts(p);
    PiecesOfFree(Base(p), '/');
  }

  lemma WhereSegs(root: seq<string>, p: Path)
    requires !R.Absolute(p)
    ensures Where(root, p) == R.Walk(root, Dirs(p) + [Base(p)])
  {
    hide R.DirPart, R.Kept, R.Walk, Pieces, Base;
    R.WalkOfPath(root, p);
    R.WalkConcat(root, Dirs(p), [Base(p)]);
  }

  /** What a walk adds is as long as the walk only when nothing leads up. */
  lemma {:induction false} AddedLength(segs: seq<string>)
    requires forall i :: 0 <= i < |segs| ==> R.Counts(segs[i])
    ensures |Added(segs)| <= |segs|
    ensures |Added(segs)| == |segs| <==> AllDown(segs)
    ensures |Added(segs)| == |segs| ==> Climb(segs) == 0
    decreases |segs|
  {
    if |segs| > 0 {
      var front := segs[..|segs| - 1];
      AddedLength(front);
      assert forall i :: 0 <= i < |front| ==> front[i] == segs[i];
      assert AllDown(segs) <==> AllDown(front) && !R.IsUp(segs[|segs| - 1]);
    }
  }

  lemma AboveTwice(dir: seq<string>, j: nat, k: nat)
    ensures Above(Above(dir, j), k) == Above(dir, j + k)
  {
  }

  lemma AboveAdded(dir: seq<string>, more: seq<string>, k: nat)
    requires k >= |more|
    ensures Above(dir + more, k) == Above(dir, k - |more|)
  {
  }

  lemma AboveSame(dir: seq<string>, e: nat, k: nat)
    ensures Above(dir, e + k) == Above(dir, k) <==> e == 0 || |dir| <= k
  {
  }

  lemma ClimbName(segs: seq<string>, name: string)
    requires R.Counts(name) && !R.IsUp(name)
    ensures Climb(segs + [name]) == Climb(segs)
  {
    assert (segs + [name])[..|segs|] == segs;
  }

  lemma OutAgain(dir: seq<string>, segs: seq<string>) returns (e: nat)
    requires forall i :: 0 <= i < |segs| ==> R.Counts(segs[i])
    ensures Above(R.Walk(dir, segs), |segs|) == Above(dir, e)
    ensures e == 0 <==> AllDown(segs)
  {
    hide R.Walk, Above, Climb, Added, R.Counts, R.IsUp;
    WalkForm(dir, segs);
    AddedLength(segs);
    var c, s := Climb(segs), Added(segs);
    AboveAdded(Above(dir, c), s, |segs|);
    AboveTwice(dir, c, |segs| - |s|);
    e := c + (|segs| - |s|);
  }

  /** Going down `segs` and as many steps up comes back to the same directory only when no segment
      led up, or when what follows climbs to the top anyway. */
  lemma BackAgain(dir: seq<string>, segs: seq<string>, next: seq<string>)
    requires forall i :: 0 <= i < |segs| ==> R.Counts(segs[i])
    ensures R.Walk(Above(R.Walk(dir, segs), |segs|), next) == R.Walk(dir, next)
      <==> (AllDown(segs) || |dir| <= Climb(next))
  {
    hide R.Walk, Above, Climb, Added, R.Counts, AllDown;
    var e := OutAgain(dir, segs);
    SameWalk(Above(dir, e), dir, next);
    AboveTwice(dir, e, Climb(next));
    AboveSame(dir, e, Climb(next));
  }

  predicate Shallow(mid: Path, b: Path) {
    |Dirs(mid)| <= R.MAX_SEGS && |Dirs(b)| <= R.MAX_SEGS
  }

  /** No `..` in the directory of `b` past what it shares with the directory of `mid`. */
  predicate NoUpsPast(mid: Path, b: Path) {
    forall i :: R.Common(Dirs(mid), Dirs(b)) <= i < |Dirs(b)| ==> !R.IsUp(Dirs(b)[i])
  }

  /** Two lists of directories with a common start: out of the one as far as that start, then along the
      rest of the other. */
  lemma OutAndAlong(root: seq<string>, t: seq<string>, r: seq<string>, n: nat, name: string)
    requires n <= |t| && n <= |r| && t[..n] == r[..n] && forall i :: 0 <= i < |r| ==> R.Counts(r[i])
    requires R.Counts(name) && !R.IsUp(name)
    ensures R.Walk(Above(R.Walk(root, r), |r| - n), t[n..] + [name]) == R.Walk(root, t + [name]) <==>
      (AllDown(r[n..]) || |R.Walk(root, r[..n])| <= Climb(t[n..]))
  {
    hide R.Walk, Above, Climb, AllDown, R.Counts, R.IsUp;
    var next := t[n..] + [name];
    assert r == r[..n] + r[n..] && t + [name] == t[..n] + next;
    R.WalkConcat(root, r[..n], r[n..]);
    R.WalkConcat(root, t[..n], next);
    BackAgain(R.Walk(root, r[..n]), r[n..], next);
    ClimbName(t[n..], name);
  }

  lemma ShallowExactly(root: seq<string>, mid: Path, b: Path)
    requires Shallow(mid, b) && !R.Absolute(mid) && !R.Absolute(b)
    requires R.Counts(Base(mid)) && !R.IsUp(Base(mid))
    ensures var n := R.Common(Dirs(mid), Dirs(b));
      Followed(root, b, R.Relative(mid, b)) == Where(root, mid) <==>
        (NoUpsPast(mid, b) || |R.Walk(root, Dirs(b)[..n])| <= Climb(Dirs(mid)[n..]))
  {
    hide R.Walk, R.Relative, R.Common, R.DirPart, R.Kept, Pieces, Above, Climb, Base, NoUpsPast, AllDown, Where;
    hide R.Counts, R.IsUp;
    var t, r := Dirs(mid), Dirs(b);
    var n := R.Common(t, r);
    RewrittenIsRelative(mid, b);
    RewrittenWalk(DirWhere(root, b), mid, b);
    WhereSegs(root, mid);
    R.WalkKept(root, Pieces(R.DirPart(b), '/'));
    OutAndAlong(root, t, r, n, Base(mid));
    PastN(mid, b, n);
  }

  lemma PastN(mid: Path, b: Path, n: nat)
    requires n == R.Common(Dirs(mid), Dirs(b))
    ensures NoUpsPast(mid, b) <==> AllDown(Dirs(b)[n..])
  {
    hide Dirs, R.Common, R.IsUp;
    var r := Dirs(b);
    if AllDown(r[n..]) {
      forall i | n <= i < |r| ensures !R.IsUp(r[i]) { assert r[i] == r[n..][i - n]; }
    }
  }

  lemma SharedPast(t: seq<string>, r: seq<string>, m: nat)
    requires |t| > R.MAX_SEGS && |r| > R.MAX_SEGS && m <= |t| && m <= |r| && t[..m] == r[..m]
    requires m > R.Common(t[..R.MAX_SEGS], r[..R.MAX_SEGS])
    ensures R.Common(t[..R.MAX_SEGS], r[..R.MAX_SEGS]) == R.MAX_SEGS
  {
    hide R.Common;
    forall i | 0 <= i < m ensures t[i] == r[i] {
      assert t[..m][i] == r[..m][i];
    }
  }

  /** The segments beyond the 64th are lost on both sides, which does no harm only when the two
      directories are the same. */
  lemma DeepCut(t: seq<string>, r: seq<string>)
    requires |t| > R.MAX_SEGS || |r| > R.MAX_SEGS
    ensures var t', r' := Cut64(t), Cut64(r);
      var n := R.Common(t', r');
      r[..|r| - |r'| + n] + t'[n..] == t <==> t == r
  {
    hide R.Common;
    var t', r' := Cut64(t), Cut64(r);
    var n := R.Common(t', r');
    var m := |r| - |r'| + n;
    var got := r[..m] + t'[n..];
    if t == r {
      R.CommonUnique(t', t', |t'|);
      assert t'[|t'|..] == [] && r[..|r|] == r;
      assert got == t;
    }
    if got == t {
      assert |got| == m + |t'| - n;
      assert got[..m] == r[..m];
      SharedPast(t, r, m);
      assert t'[n..] == [] && r[..|r|] == r;
    }
  }

  function Cut64(segs: seq<string>): seq<string> {
    if |segs| <= R.MAX_SEGS then segs else segs[..R.MAX_SEGS]
  }

  lemma DeepExactly(root: seq<string>, mid: Path, b: Path)
    requires !Shallow(mid, b) && !R.Absolute(mid) && !R.Absolute(b) && AllDown(Dirs(mid)) && AllDown(Dirs(b))
    requires R.Counts(Base(mid)) && !R.IsUp(Base(mid))
    ensures Followed(root, b, R.Relative(mid, b)) == Where(root, mid) <==> Dirs(mid) == Dirs(b)
  {
    hide R.Walk, R.Relative, R.Common, R.DirPart, R.Kept, Pieces, Base;
    var t, r := Dirs(mid), Dirs(b);
    var t', r' := Cut64(t), Cut64(r);
    var n := R.Common(t', r');
    var m := |r| - |r'| + n;
    RewrittenIsRelative(mid, b);
    RewrittenWalk(DirWhere(root, b), mid, b);
    WhereSegs(root, mid);
    DirWhereIs(root, b);
    R.WalkDown(root, t + [Base(mid)]);
    assert Above(root + r, |r'| - n) == root + r[..m];
    R.WalkDown(root + r[..m], t'[n..] + [Base(mid)]);
    DeepCut(t, r);
    Tails(root, r[..m], t'[n..], t, Base(mid));
  }

  lemma Tails(root: seq<string>, a: seq<string>, b: seq<string>, t: seq<string>, name: string)
    ensures root + a + (b + [name]) == root + (t + [name]) <==> a + b == t
  {
    assert root + a + (b + [name]) == root + (a + b) + [name];
    assert root + (t + [name]) == root + t + [name];
    CutTail(root + (a + b), root + t, [name]);
    if root + (a + b) == root + t {
      assert (root + (a + b))[|root|..] == a + b && (root + t)[|root|..] == t;
    }
  }

  /** The rewritten text, with its terminator, fits the buffer: a step up for every directory to leave,
      every directory to enter, and the name. */
  predicate RewriteFits(mid: Path, b: Path) {
    var t, r := Cut64(Dirs(mid)), Cut64(Dirs(b));
    var n := R.Common(t, r);
    && !R.Absolute(mid) && !R.Absolute(b) && |R.DirPart(mid)| < R.BUF && |R.DirPart(b)| < R.BUF
    && 3 * (|r| - n) + |R.Downs(t[n..])| + |Base(mid)| < R.BUF
  }

  lemma FitsIsSome(mid: Path, b: Path)
    ensures R.RelPath(mid, b).Some? <==> RewriteFits(mid, b)
  {
    hide R.Common, R.Downs, R.Kept, Pieces, LastSlash, Base;
  }

  /** When the text stored for the new name leads from its directory to the intermediate. */
  predicate NewLeads(root: seq<string>, cwd: Path, mid: Path, b: Path) {
    if R.Absolute(mid) then true
    else if RewriteFits(mid, b) then
      if Shallow(mid, b) then
        var n := R.Common(Dirs(mid), Dirs(b));
        NoUpsPast(mid, b) || |R.Walk(root, Dirs(b)[..n])| <= Climb(Dirs(mid)[n..])
      else Dirs(mid) == Dirs(b)
    else
      || (!R.Absolute(b) && |cwd| + 1 + |mid| < PATH_MAX)
      || Above(DirWhere(root, b), Climb(Pieces(mid, '/'))) == Above(root, Climb(Pieces(mid, '/')))
  }

  lemma NewLeadsExactly(root: seq<string>, cwd: Path, mid: Path, b: Path)
    requires IsCwd(cwd, root) && HasPrefix(Base(mid))
    requires RewriteFits(mid, b) && !Shallow(mid, b) ==> AllDown(Dirs(mid)) && AllDown(Dirs(b))
    ensures Followed(root, b, NewTarget(cwd, mid, b)) == Where(root, mid) <==> NewLeads(root, cwd, mid, b)
  {
    hide R.Walk, R.Relative, R.Common, R.DirPart, R.Kept, Pieces, DirWhere, IsCwd, Base, HasPrefix, Climb, Above;
    hide NoUpsPast, AllDown, Shallow, RewriteFits;
    PrefixedHasName(mid);
    FitsIsSome(mid, b);
    if R.Absolute(mid) {
      RewrittenNever(mid, b);
    } else if R.RelPath(mid, b).Some? {
      if Shallow(mid, b) { ShallowExactly(root, mid, b); } else { DeepExactly(root, mid, b); }
    } else if !R.Absolute(b) && |cwd| + 1 + |mid| < PATH_MAX {
      CwdReaches(root, cwd, mid);
    } else {
      SameWalk(DirWhere(root, b), root, Pieces(mid, '/'));
    }
  }

  /** Names for which the new name leads to the intermediate: either the intermediate's path is
      absolute, or both are relative, not too deep, without `..` in the new name's directory past
      what the two share, and the rewritten text or the absolute one fits. */
  predicate Tame(cwd: Path, mid: Path, b: Path) {
    || R.Absolute(mid)
    || (&& !R.Absolute(b) && Shallow(mid, b) && NoUpsPast(mid, b)
        && ((|mid| + 3 * R.MAX_SEGS < R.BUF && |b| < R.BUF) || |cwd| + 1 + |mid| < PATH_MAX))
  }

  lemma TameLeads(root: seq<string>, cwd: Path, mid: Path, b: Path)
    requires Tame(cwd, mid, b)
    ensures NewLeads(root, cwd, mid, b)
  {
    hide R.Walk, R.Relative, Pieces, R.Kept, R.Common, LastSlash, Climb, Above, NoUpsPast, RewriteFits;
    RelativeLength(mid, b);
    FitsIsSome(mid, b);
  }

  predicate Plain(name: string) {
    R.Counts(name) && !R.IsUp(name) && Free(name, '/')
  }

  /** Where "/x" leads. */
  lemma TopDir(x: string)
    requires Plain(x)
    ensures Where([], ['/'] + x) == [x] && Pieces(['/'] + x, '/') == [""] + [x]
  {
    hide Pieces;
    PiecesFirst("", x, '/');
    PiecesOfFree(x, '/');
    assert "" + ['/'] + x == ['/'] + x && ([""] + [x])[1..] == [x];
    R.WalkDown([], [x]);
  }

  /** A new name that is absolute while the file's is relative: the relative text is stored as it
      is, and from /x it does not lead to the file in /w. */
  lemma AbsoluteNameDangles(w: string, x: string, g: string, mid: Path)
    requires Plain(w) && Plain(x) && w != x && Free(g, '/') && Free(mid, '/') && HasPrefix(mid)
    ensures var cwd, b := ['/'] + w, ['/'] + x + ['/'] + g;
      IsCwd(cwd, [w]) && !NewLeads([w], cwd, mid, b)
  {
    hide Pieces, LastSlash, Plain, HasPrefix, R.Walk, R.Relative;
    TopDir(w);
    TopDir(x);
    var dir, b := ['/'] + x + ['/'], ['/'] + x + ['/'] + g;
    SlashOfJoin(dir, g);
    assert R.DirPart(b) == ['/'] + x;
    SlashOfJoin("", mid);
    assert "" + mid == mid;
    PiecesOfFree(mid, '/');
    PrefixedHasName(mid);
    assert Climb([mid]) == 0 by { assert [mid][..0] == []; }
    assert R.Absolute(b) && DirWhere([w], b) == [x];
    assert Above([w], 0) == [w] && Above([x], 0) == [x];
  }

  function Nested(n: nat): (segs: seq<string>)
    ensures |segs| == n && forall i :: 0 <= i < n ==> segs[i] == "d"
  {
    if n == 0 then [] else Nested(n - 1) + ["d"]
  }

  lemma {:induction false} NestedText(n: nat)
    ensures |R.Downs(Nested(n))| == 2 * n && R.Kept(Nested(n)) == Nested(n) && !R.Absolute(R.Downs(Nested(n)))
    decreases n
  {
    hide R.Downs, R.Kept;
    if n == 0 {
      NoDowns();
      R.KeptNothing();
    } else {
      NestedText(n - 1);
      DownsStep(Nested(n - 1), "d");
      R.KeptStep(Nested(n - 1), "d");
    }
  }

  /** A file more than 64 directories deep, linked to a name beside the working directory: the text
      leads to a directory 64 deep. */
  lemma DeepNameMisses(root: seq<string>, cwd: Path, n: nat, name: string, b: Path)
    requires R.MAX_SEGS < n < 1000 && Free(name, '/') && |name| < 1000 && HasPrefix(name) && Free(b, '/')
    ensures !NewLeads(root, cwd, R.Downs(Nested(n)) + name, b)
  {
    hide Pieces, LastSlash, R.Downs, R.Kept, R.Relative, Climb, Above, R.Common, HasPrefix, RewriteFits;
    var dir := R.Downs(Nested(n));
    NestedText(n);
    NestedEnds(n);
    NestedDirs(n, name);
    BareDirs(b);
    RelativeLength(dir + name, b);
    FitsIsSome(dir + name, b);
    assert !R.Absolute(dir + name);
  }

  lemma NestedDirs(n: nat, name: string)
    requires n > 0 && Free(name, '/')
    ensures var p := R.Downs(Nested(n)) + name;
      Base(p) == name && |R.DirPart(p)| < |p| && Dirs(p) == Nested(n)
  {
    hide Pieces, LastSlash, R.Downs, R.Kept;
    var dir := R.Downs(Nested(n));
    NestedText(n);
    NestedEnds(n);
    SlashOfJoin(dir, name);
    R.PiecesOfDowns(Nested(n), name);
    R.PiecesOfPath(dir + name);
    PiecesOfFree(name, '/');
    CutTail(Pieces(R.DirPart(dir + name), '/'), Nested(n), [name]);
  }

  lemma BareDirs(b: Path)
    requires Free(b, '/')
    ensures Dirs(b) == [] && R.DirPart(b) == "" && !R.Absolute(b)
  {
    hide Pieces, R.Kept;
    assert LastSlash(b) < 0;
    PiecesOfFree("", '/');
    NoDirs();
  }

  lemma NestedEnds(n: nat)
    requires n > 0
    ensures var dir := R.Downs(Nested(n)); |dir| > 0 && dir[|dir| - 1] == '/'
  {
  }

  // ----- reading the texts back -----

  /** A text that is joined to the directory of its link leads where the kernel takes it. */
  lemma BelowDir(root: seq<string>, at: Path, text: Path)
    requires !R.Absolute(text) && |DirOf(at)| > 0
    ensures Where(root, DirOf(at) + text) == Followed(root, at, text)
    ensures R.Absolute(DirOf(at) + text) <==> R.Absolute(at)
  {
    hide R.Walk, Pieces, LastSlash;
    var part := R.DirPart(at);
    assert DirOf(at) == part + ['/'];
    PiecesOfConcat(part, text, '/');
    R.WalkConcat(if R.Absolute(at) then [] else root, Pieces(part, '/'), Pieces(text, '/'));
    assert (DirOf(at) + text)[0] == at[0];
  }

  lemma NoDirWhere(root: seq<string>, at: Path)
    requires |DirOf(at)| == 0
    ensures DirWhere(root, at) == root
  {
    hide LastSlash;
    R.NoDir(at);
    PiecesOfFree("", '/');
    assert [""][1..] == [];
  }

  /** Whether a text read from a link still leads to the same place when it is taken as a path. */
  predicate Portable(root: seq<string>, at: Path, text: Path) {
    R.Absolute(text) || Above(DirWhere(root, at), Climb(Pieces(text, '/'))) == Above(root, Climb(Pieces(text, '/')))
  }

  lemma PortableExactly(root: seq<string>, at: Path, text: Path)
    ensures Where(root, text) == Followed(root, at, text) <==> Portable(root, at, text)
    ensures |DirOf(at)| == 0 ==> Portable(root, at, text)
  {
    hide R.Walk, Pieces, DirWhere, Above, Climb, DirOf;
    if |DirOf(at)| == 0 { NoDirWhere(root, at); }
    SameWalk(DirWhere(root, at), root, Pieces(text, '/'));
  }

  /** The intermediate that a name is recognised by is where the name's link leads, except for a
      relative text with a slash in it: that one is taken as it is.  A bare text in another directory
      becomes an absolute path. */
  lemma ProbeReaches(fs: Fs, root: seq<string>, cwd: Path, p: Path)
    requires IsCwd(cwd, root) && Probe(fs, cwd, p).Some?
    ensures HasPrefix(Base(Probe(fs, cwd, p).value))
    ensures LastSlash(ReadLink(fs, p)) < 0 && |DirOf(p)| > 0 ==> R.Absolute(Probe(fs, cwd, p).value)
    ensures var text := ReadLink(fs, p);
      Where(root, Probe(fs, cwd, p).value) == Followed(root, p, text) <==>
        (LastSlash(text) < 0 || Portable(root, p, text))
  {
    hide R.Walk, Pieces, DirWhere, Above, Climb, LastSlash, IsCwd, HasPrefix, Portable, DirOf, Base;
    var text, dir := ReadLink(fs, p), DirOf(p);
    PortableExactly(root, p, text);
    if LastSlash(text) < 0 && |dir| > 0 {
      BelowDir(root, p, text);
      DirEnds(p);
      R.PathParts(text);
      SlashOfJoin(dir, text);
      if !R.Absolute(p) {
        CwdReaches(root, cwd, dir + text);
        assert cwd + "/" + dir + text == cwd + "/" + (dir + text) == (cwd + "/" + dir) + text;
        SlashOfJoin(cwd + "/" + dir, text);
      }
    }
  }

  lemma DirEnds(p: Path)
    ensures |DirOf(p)| <= |p| && (|DirOf(p)| > 0 ==> DirOf(p)[|DirOf(p)| - 1] == '/')
  {
    hide LastSlash;
  }

  /** The same for the data file behind an intermediate. */
  lemma ResolveReaches(fs: Fs, root: seq<string>, mid: Path)
    requires Resolve(fs, mid).Some?
    ensures var text, dir := ReadLink(fs, mid), DirOf(mid);
      Where(root, Resolve(fs, mid).value) == Followed(root, mid, text) <==>
        (|| (LastSlash(text) < 0 && |dir| + |text| < PATH_MAX) || !DecodesFinal(text)
        || Portable(root, mid, text))
  {
    hide R.Walk, Pieces, DirWhere, Above, Climb, LastSlash, Portable, DirOf, DecodesFinal;
    var text, dir := ReadLink(fs, mid), DirOf(mid);
    PortableExactly(root, mid, text);
    if |dir| > 0 && !R.Absolute(text) { BelowDir(root, mid, text); }
  }

  // ----- link() -----

  /** At `at` there is a symbolic link that leads where the path `p` does. */
  predicate Reaches(root: seq<string>, fs: Fs, at: Path, p: Path) {
    at in fs && fs[at].Link? && Followed(root, at, fs[at].target) == Where(root, p)
  }

  predicate NameReaches(root: seq<string>, fs: Fs, cwd: Path, b: Path, mid: Path) {
    && (Tame(cwd, mid, b) ==> Reaches(root, fs, b, mid))
    && (Shallow(mid, b) || (AllDown(Dirs(mid)) && AllDown(Dirs(b)))
        ==> (Reaches(root, fs, b, mid) <==> NewLeads(root, cwd, mid, b)))
  }

  /** After link(a, b): the chain's links lead on from each other when they are followed from their
      own directories, up to the file that `a` was. */
  ghost predicate ChainLeads(was: Fs, now: Fs, root: seq<string>, cwd: Path, a: Path, b: Path)
    requires a in was
  {
    match Probe(was, cwd, a)
    case None =>
      exists p ::
        && FreshFor(was, a, p) && Reaches(root, now, a, p.mid) && Reaches(root, now, p.mid, p.final)
        && p.final in now && now[p.final] == was[a] && NameReaches(root, now, cwd, b, p.mid)
    case Some(mid) => NameReaches(root, now, cwd, b, mid)
  }

  lemma NewNameReaches(root: seq<string>, fs: Fs, cwd: Path, b: Path, mid: Path)
    requires IsCwd(cwd, root) && HasPrefix(Base(mid)) && b in fs && fs[b] == Link(NewTarget(cwd, mid, b))
    ensures NameReaches(root, fs, cwd, b, mid)
  {
    hide IsCwd, HasPrefix, Base, Followed, Where, NewLeads, NewTarget, Shallow, Tame, AllDown;
    if Tame(cwd, mid, b) {
      TameLeads(root, cwd, mid, b);
      TameCovered(cwd, mid, b);
      NewLeadsExactly(root, cwd, mid, b);
    } else if Shallow(mid, b) || (AllDown(Dirs(mid)) && AllDown(Dirs(b))) {
      NewLeadsExactly(root, cwd, mid, b);
    }
  }

  lemma TameCovered(cwd: Path, mid: Path, b: Path)
    requires Tame(cwd, mid, b)
    ensures R.Absolute(mid) || Shallow(mid, b)
  {
  }

  lemma FirstLinkLeads(was: Fs, now: Fs, root: seq<string>, cwd: Path, a: Path, b: Path, p: Paths)
    requires IsCwd(cwd, root) && a in was && b !in was && !HasPrefix(Base(a))
    requires FreshFor(was, a, p) && FirstLinkDone(was, now, cwd, a, b, p)
    ensures Reaches(root, now, a, p.mid) && Reaches(root, now, p.mid, p.final)
    ensures p.final in now && now[p.final] == was[a] && NameReaches(root, now, cwd, b, p.mid)
  {
    hide IsCwd, HasPrefix, Base, Followed, Where, NameReaches, NewTarget, MidTarget, FinalTarget, MakePaths, Occupied;
    hide IsFirstFree;
    var g :| IsFirstFree(a, Occupied(was), g) && MakePaths(PREFIX, a, g, 2) == Ok(p);
    MadeDistinct(a, g);
    MadeDirs(a, g, p);
    ChainTargets(root, a, g, p);
    NewNameReaches(root, now, cwd, b, p.mid);
  }

  lemma LinkLeads(was: Fs, now: Fs, root: seq<string>, cwd: Path, a: Path, b: Path)
    requires IsCwd(cwd, root) && !HasPrefix(Base(a)) && LinkDone(was, now, cwd, a, b)
    ensures a in was && ChainLeads(was, now, root, cwd, a, b)
  {
    hide IsCwd, HasPrefix, Base, Probe, Resolve, FreshFor, FirstLinkDone, Reaches, NameReaches, NewTarget;
    match Probe(was, cwd, a)
    case None =>
      var p :| FreshFor(was, a, p) && FirstLinkDone(was, now, cwd, a, b, p);
      FirstLinkLeads(was, now, root, cwd, a, b, p);
    case Some(mid) =>
      ProbeReaches(was, root, cwd, a);
      NewNameReaches(root, now, cwd, b, mid);
  }

  /** link() of any names, absolute or relative, from any working directory. */
  method LinkAnywhere(r: Runtime, root: seq<string>, a: Path, b: Path) returns (rc: int)
    requires IsCwd(r.cwd, root)
    modifies r
    ensures rc == 0 ==> a in old(r.fs) && ChainLeads(old(r.fs), r.fs, root, r.cwd, a, b)
  {
    hide IsCwd, HasPrefix, Base, LinkDone, ChainLeads, FirstLinkFailed, CountAppeared, LinkWorks, LinkFailed;
    ghost var was := r.fs;
    rc := r.DoLink(a, b);
    if rc == 0 { LinkLeads(was, r.fs, root, r.cwd, a, b); }
  }
}

/** l2s_relpath: a symbolic link's target is resolved from the directory of the link, so a path
    that is relative to the working directory has to be rewritten before it is stored. */
module L2sRelPath {
  import opened Wrappers
  import opened Text

  const MAX_SEGS: nat := 64
  const BUF: nat := 4096

  /** Neither empty nor ".". */
  predicate Counts(seg: string) {
    |seg| > 1 || (|seg| == 1 && seg[0] != '.')
  }

  predicate IsUp(seg: string) {
    |seg| == 2 && seg[0] == '.' && seg[1] == '.'
  }

  function Kept(segs: seq<string>): (r: seq<string>)
    ensures forall i :: 0 <= i < |r| ==> Counts(r[i])
    ensures (forall i :: 0 <= i < |segs| ==> Free(segs[i], '/')) ==> forall i :: 0 <= i < |r| ==> Free(r[i], '/')
  {
    if |segs| == 0 then [] else Kept(segs[..|segs| - 1]) + (if Counts(segs[|segs| - 1]) then [segs[|segs| - 1]] else [])
  }

  /** The part before the last slash; nothing when there is none. */
  function DirPart(p: string): string {
    if LastSlash(p) < 0 then "" else p[..LastSlash(p)]
  }

  /** The directory segments the code keeps: the first MAX_SEGS that count. */
  function Segs(dir: string): seq<string> {
    var kept := Kept(Pieces(dir, '/'));
    if |kept| <= MAX_SEGS then kept else kept[..MAX_SEGS]
  }

  function Common(a: seq<string>, b: seq<string>): (n: nat)
    ensures n <= |a| && n <= |b| && a[..n] == b[..n]
    ensures n < |a| && n < |b| ==> a[n] != b[n]
  {
    if |a| == 0 || |b| == 0 || a[0] != b[0] then 0
    else
      var n := Common(a[1..], b[1..]);
      assert a[..n + 1] == [a[0]] + a[1..][..n] && b[..n + 1] == [b[0]] + b[1..][..n];
      n + 1
  }

  function Ups(n: nat): (s: string)
    ensures |s| == 3 * n
  {
    if n == 0 then "" else Ups(n - 1) + "../"
  }

  function Downs(segs: seq<string>): string {
    if |segs| == 0 then "" else Downs(segs[..|segs| - 1]) + segs[|segs| - 1] + "/"
  }

  function Relative(target: string, ref: string): string {
    var t, r := Segs(DirPart(target)), Segs(DirPart(ref));
    var n := Common(t, r);
    Ups(|r| - n) + Downs(t[n..]) + Base(target)
  }

  predicate Absolute(p: string) {
    |p| > 0 && p[0] == '/'
  }

  function RelPath(target: string, ref: string): Option<string> {
    if Absolute(target) || Absolute(ref) || |DirPart(target)| >= BUF || |DirPart(ref)| >= BUF then None
    else if |Relative(target, ref)| >= BUF then None
    else Some(Relative(target, ref))
  }

  // ----- the loops -----

  /** Cut a directory into segments, at most MAX_SEGS of them. */
  method CutSegs(dir: string) returns (segs: seq<string>)
    ensures segs == Segs(dir)
  {
    hide Pieces, Kept;
    segs := [];
    var rest := dir;
    var more := true;
    ghost var done: seq<string> := [];
    KeptNothing();
    while more && |segs| < MAX_SEGS
      invariant |segs| <= MAX_SEGS && segs == Kept(done)
      invariant Pieces(dir, '/') == if more then done + Pieces(rest, '/') else done
      decreases more, |rest|
    {
      var k := Find(rest, '/');
      var seg := rest[..k];
      KeptStep(done, seg);
      PiecesStep(done, rest);
      done := done + [seg];
      if Counts(seg) { segs := segs + [seg]; }
      if k == |rest| {
        more := false;
      } else {
        rest := rest[k + 1..];
      }
    }
    if more {
      KeptConcat(done, Pieces(rest, '/'));
      assert Kept(Pieces(dir, '/'))[..MAX_SEGS] == segs || |Kept(Pieces(rest, '/'))| == 0;
    }
  }

  lemma KeptNothing()
    ensures Kept([]) == []
  {
  }

  lemma KeptStep(done: seq<string>, seg: string)
    ensures Kept(done + [seg]) == Kept(done) + (if Counts(seg) then [seg] else [])
  {
    assert (done + [seg])[..|done|] == done;
  }

  lemma PiecesStep(done: seq<string>, rest: string)
    ensures var k := Find(rest, '/');
      done + Pieces(rest, '/') == done + [rest[..k]] + (if k < |rest| then Pieces(rest[k + 1..], '/') else [])
  {
    hide Pieces, Find;
    PiecesUnfold(rest, '/');
    var k := Find(rest, '/');
    if k == |rest| {
      assert rest[..k] == rest && [rest] + [] == [rest];
    } else {
      Assoc(done, [rest[..k]], Pieces(rest[k + 1..], '/'));
    }
  }

  lemma {:induction false} KeptConcat(a: seq<string>, b: seq<string>)
    ensures Kept(a + b) == Kept(a) + Kept(b)
    decreases |b|
  {
    if |b| == 0 {
      assert a + b == a;
    } else {
      assert (a + b)[..|a + b| - 1] == a + b[..|b| - 1];
      KeptConcat(a, b[..|b| - 1]);
    }
  }

  method Compute(target: string, ref: string) returns (r: Option<string>)
    ensures r == RelPath(target, ref)
  {
    hide Segs, Common, Ups, Downs, DirPart, Base;
    if Absolute(target) || Absolute(ref) { return None; }
    if |DirPart(target)| >= BUF || |DirPart(ref)| >= BUF { return None; }
    var t := CutSegs(DirPart(target));
    var s := CutSegs(DirPart(ref));
    var common := 0;
    while common < |t| && common < |s| && t[common] == s[common]
      invariant common <= |t| && common <= |s| && t[..common] == s[..common]
    {
      assert t[..common + 1] == t[..common] + [t[common]] && s[..common + 1] == s[..common] + [s[common]];
      common := common + 1;
    }
    CommonUnique(t, s, common);
    var out, fits := WriteUps(|s| - common);
    if !fits { return None; }
    out, fits := WriteDowns(out, t[common..]);
    if !fits { return None; }
    if |out| + |Base(target)| + 1 > BUF { return None; }
    out := out + Base(target);
    return Some(out);
  }

  /** One "../" per directory level to leave. */
  method WriteUps(n: nat) returns (out: string, fits: bool)
    ensures fits <==> |Ups(n)| < BUF
    ensures fits ==> out == Ups(n)
  {
    out := "";
    var i := 0;
    while i < n
      invariant i <= n && out == Ups(i) && |out| < BUF
    {
      if |out| + 3 >= BUF { return out, false; }
      out := out + "../";
      i := i + 1;
    }
    fits := true;
  }

  /** Then each remaining segment of the target, with its slash. */
  method WriteDowns(ups: string, segs: seq<string>) returns (out: string, fits: bool)
    requires |ups| < BUF
    ensures fits <==> |ups| + |Downs(segs)| < BUF
    ensures fits ==> out == ups + Downs(segs)
  {
    out := ups;
    var i := 0;
    while i < |segs|
      invariant i <= |segs| && out == ups + Downs(segs[..i]) && |out| < BUF
    {
      assert segs[..i + 1][..i] == segs[..i];
      if |out| + |segs[i]| + 1 >= BUF {
        DownsMonotone(segs, i + 1);
        return out, false;
      }
      assert ups + Downs(segs[..i]) + segs[i] + "/" == ups + Downs(segs[..i + 1]);
      out := out + segs[i] + "/";
      i := i + 1;
    }
    assert segs[..i] == segs;
    fits := true;
  }

  lemma {:induction false} CommonUnique(a: seq<string>, b: seq<string>, n: nat)
    requires n <= |a| && n <= |b| && a[..n] == b[..n] && (n < |a| && n < |b| ==> a[n] != b[n])
    ensures n == Common(a, b)
    decreases n
  {
    if n > 0 {
      assert a[..n][0] == a[0] && b[..n][0] == b[0];
      assert a[1..][..n - 1] == a[..n][1..] && b[1..][..n - 1] == b[..n][1..];
      CommonUnique(a[1..], b[1..], n - 1);
    }
  }

  lemma {:induction false} DownsMonotone(segs: seq<string>, k: nat)
    requires k <= |segs|
    ensures |Downs(segs[..k])| <= |Downs(segs)|
    decreases |segs|
  {
    if k < |segs| {
      assert segs[..|segs| - 1][..k] == segs[..k];
      DownsMonotone(segs[..|segs| - 1], k);
    } else {
      assert segs[..k] == segs;
    }
  }

  // ----- what the result means -----

  /** Following segments from a directory, as the kernel does when nothing on the way is a link. */
  function Walk(dir: seq<string>, segs: seq<string>): seq<string>
    decreases |segs|
  {
    if |segs| == 0 then dir
    else
      var seg := segs[0];
      var next := if !Counts(seg) then dir
                  else if IsUp(seg) then (if |dir| == 0 then dir else dir[..|dir| - 1])
                  else dir + [seg];
      Walk(next, segs[1..])
  }

  lemma {:induction false} WalkConcat(dir: seq<string>, a: seq<string>, b: seq<string>)
    ensures Walk(dir, a + b) == Walk(Walk(dir, a), b)
    decreases |a|
  {
    if |a| == 0 {
      assert a + b == b;
    } else {
      assert (a + b)[1..] == a[1..] + b;
      var one := [a[0]];
      WalkConcat(Walk(dir, one), a[1..], b);
      assert Walk(dir, one) == Walk(Walk(dir, one), []);
    }
  }

  lemma {:induction false} WalkKept(dir: seq<string>, segs: seq<string>)
    ensures Walk(dir, segs) == Walk(dir, Kept(segs))
    decreases |segs|
  {
    if |segs| > 0 {
      var a, b := segs[..|segs| - 1], [segs[|segs| - 1]];
      assert segs == a + b;
      WalkConcat(dir, a, b);
      WalkKept(dir, a);
      WalkConcat(dir, Kept(a), if Counts(b[0]) then b else []);
    }
  }

  lemma {:induction false} WalkDown(dir: seq<string>, segs: seq<string>)
    requires forall i :: 0 <= i < |segs| ==> Counts(segs[i]) && !IsUp(segs[i])
    ensures Walk(dir, segs) == dir + segs
    decreases |segs|
  {
    if |segs| > 0 {
      WalkDown(dir + [segs[0]], segs[1..]);
      assert dir + [segs[0]] + segs[1..] == dir + segs;
    } else {
      assert dir + segs == dir;
    }
  }

  lemma WalkUp(dir: seq<string>, segs: seq<string>)
    requires |dir| > 0
    ensures Walk(dir, [".."] + segs) == Walk(dir[..|dir| - 1], segs)
  {
    assert ([".."] + segs)[1..] == segs;
  }

  lemma {:induction false} WalkUps(dir: seq<string>, tail: seq<string>, n: nat, text: string)
    requires n == |tail|
    ensures Walk(dir + tail, Pieces(Ups(n) + text, '/')) == Walk(dir, Pieces(text, '/'))
    decreases n
  {
    hide Pieces, Walk;
    if n == 0 {
      assert dir + tail == dir;
      assert Ups(n) + text == text;
    } else {
      Assoc(Ups(n - 1), "../", text);
      WalkUps(dir + [tail[0]], tail[1..], n - 1, "../" + text);
      assert dir + [tail[0]] + tail[1..] == dir + tail;
      assert "../" + text == ".." + ['/'] + text;
      PiecesFirst("..", text, '/');
      WalkUp(dir + [tail[0]], Pieces(text, '/'));
      assert (dir + [tail[0]])[..|dir|] == dir;
    }
  }

  lemma {:induction false} PiecesOfDowns(segs: seq<string>, base: string)
    requires forall i :: 0 <= i < |segs| ==> Free(segs[i], '/')
    ensures Pieces(Downs(segs) + base, '/') == segs + Pieces(base, '/')
    decreases |segs|
  {
    hide Pieces;
    if |segs| == 0 {
      assert Downs(segs) + base == base;
    } else {
      var a, last := segs[..|segs| - 1], segs[|segs| - 1];
      Assoc(Downs(a) + last, "/", base);
      Assoc(Downs(a), last, "/" + base);
      Assoc(last, "/", base);
      PiecesOfDowns(a, last + ['/'] + base);
      PiecesFirst(last, base, '/');
      assert segs == a + [last];
    }
  }

  lemma PiecesOfPath(p: string)
    ensures LastSlash(p) < 0 ==> Pieces(p, '/') == [Base(p)]
    ensures LastSlash(p) >= 0 ==> Pieces(p, '/') == Pieces(DirPart(p), '/') + [Base(p)]
  {
    hide Pieces, LastSlash, DirPart, Base;
    PathParts(p);
    PiecesOfFree(Base(p), '/');
    if LastSlash(p) >= 0 {
      PiecesOfConcat(DirPart(p), Base(p), '/');
    }
  }

  lemma PathParts(p: string)
    ensures Free(Base(p), '/')
    ensures p == if LastSlash(p) < 0 then Base(p) else DirPart(p) + ['/'] + Base(p)
  {
    hide LastSlash;
  }

  lemma NoDir(p: string)
    requires LastSlash(p) < 0
    ensures DirPart(p) == ""
  {
  }

  lemma WalkOfPath(root: seq<string>, p: string)
    ensures Walk(root, Pieces(p, '/')) == Walk(Walk(root, Kept(Pieces(DirPart(p), '/'))), [Base(p)])
  {
    hide Pieces, LastSlash, Walk, Kept, DirPart, Base;
    PiecesOfPath(p);
    KeptNothing();
    KeptStep([], "");
    assert [] + [""] == [""];
    var dirs := if LastSlash(p) < 0 then [] else Pieces(DirPart(p), '/');
    assert Pieces(p, '/') == dirs + [Base(p)];
    WalkConcat(root, dirs, [Base(p)]);
    WalkKept(root, dirs);
    if LastSlash(p) < 0 {
      PiecesOfFree("", '/');
      assert DirPart(p) == "" by { NoDir(p); }
    }
  }

  /** Resolving the computed target from the directory of the link reaches what the original path
      reaches, provided neither directory is deeper than MAX_SEGS and the link's own directory has
      no ".." past the common part. */
  lemma RelativeResolves(root: seq<string>, target: string, ref: string)
    requires |Kept(Pieces(DirPart(target), '/'))| <= MAX_SEGS && |Kept(Pieces(DirPart(ref), '/'))| <= MAX_SEGS
    requires var t, r := Segs(DirPart(target)), Segs(DirPart(ref));
      forall i :: Common(t, r) <= i < |r| ==> !IsUp(r[i])
    ensures Walk(Walk(root, Pieces(DirPart(ref), '/')), Pieces(Relative(target, ref), '/'))
         == Walk(root, Pieces(target, '/'))
  {
    hide Pieces, LastSlash, Walk, Kept, Common, DirPart, Base, Ups, Downs;
    var t, r := Segs(DirPart(target)), Segs(DirPart(ref));
    var n := Common(t, r);
    var here := Walk(root, r[..n]);
    WalkKept(root, Pieces(DirPart(ref), '/'));
    assert r == r[..n] + r[n..] && t == t[..n] + t[n..];
    WalkConcat(root, r[..n], r[n..]);
    WalkDown(here, r[n..]);
    WalkConcat(root, t[..n], t[n..]);
    var text := Downs(t[n..]) + Base(target);
    assert Relative(target, ref) == Ups(|r| - n) + text;
    WalkUps(here, r[n..], |r| - n, text);
    PiecesAreFree(DirPart(target), '/');
    PiecesOfDowns(t[n..], Base(target));
    PathParts(target);
    PiecesOfFree(Base(target), '/');
    WalkConcat(here, t[n..], [Base(target)]);
    WalkOfPath(root, target);
  }

  /** For two paths in one directory the target is the bare name. */
  lemma SameDirectory(target: string, ref: string)
    requires Segs(DirPart(target)) == Segs(DirPart(ref))
    ensures Relative(target, ref) == Base(target)
  {
    var t := Segs(DirPart(target));
    CommonUnique(t, t, |t|);
    assert t[|t|..] == [];
  }
}

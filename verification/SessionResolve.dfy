/** bx_session_to_host and its helpers as they run, on text: proved equal to the walk on components. */
module SessionResolve {
  import opened Wrappers
  import opened Text
  import opened GuestPath
  import opened GuestText
  import S = Session

  const NAME_PROC: string := ['p', 'r', 'o', 'c']
  const NAME_SYS: string := ['s', 'y', 's']
  const NAME_DEV: string := ['d', 'e', 'v']

  function StateOf(s: S.BxSession): S.State
    reads s
  {
    S.State(s.kvs, s.binds)
  }

  // ----- binds -----

  /** `bi` is the first of the deepest matching binds among the first `n`. */
  ghost predicate BestOf(binds: seq<S.Bind>, cs: Comps, n: nat, bi: nat, depth: nat)
    requires n <= |binds|
  {
    && bi < n && 0 < depth <= |cs| && binds[bi].guest == Shown(cs[..depth])
    && forall j, k :: 0 <= j < n && 0 < k <= |cs| && binds[j].guest == Shown(cs[..k]) ==>
      k < depth || (k == depth && bi <= j)
  }

  ghost predicate NoneOf(binds: seq<S.Bind>, cs: Comps, n: nat)
    requires n <= |binds|
  {
    forall j, k :: 0 <= j < n && 0 < k <= |cs| ==> binds[j].guest != Shown(cs[..k])
  }

  /** Does bind `guest` serve `g`, and if so at which depth; the root serves itself alone. */
  lemma Serves(cs: Comps, guest: string) returns (k: nat)
    requires Named(cs) && |guest| > 0 && guest[0] == '/'
    ensures k <= |cs|
    ensures k > 0 ==>
      guest == Shown(cs[..k]) && |guest| > 1 && PrefixOf(Shown(cs), guest) && guest <= Shown(cs) &&
      Shown(cs)[|guest|..] == Rest(cs[k..])
    ensures forall j :: 0 < j <= |cs| && guest == Shown(cs[..j]) ==> j == k
    ensures k == 0 && |guest| > 1 ==> !PrefixOf(Shown(cs), guest)
  {
    hide Shown;
    PrefixMeans(cs, guest);
    k := SpelledDepth(guest, cs);
    if k > 0 {
      SpelledDepthSpells(guest, cs);
      SpelledIsLong(cs, k);
    }
    forall j | 0 < j <= |cs| && guest == Shown(cs[..j]) ensures j == k { SpelledDepthIs(guest, cs, j); }
  }

  /** The loop over the binds: the first longest match, by length of its guest path. */
  method BestBind(s: S.BxSession, g: string, ghost cs: Comps) returns (bi: int, ghost depth: nat)
    requires s.Valid() && Named(cs) && g == Shown(cs)
    ensures -1 <= bi < |s.binds|
    ensures |cs| > 0 && bi >= 0 ==> BestOf(s.binds, cs, |s.binds|, bi, depth)
    ensures |cs| > 0 && bi < 0 ==> NoneOf(s.binds, cs, |s.binds|)
    ensures |cs| == 0 ==>
      (bi < 0 <==> BindAt(s.binds, Shown([])) == |s.binds|) && (bi >= 0 ==> bi == BindAt(s.binds, Shown([])))
  {
    hide Shown, PrefixOf, Rest, SpelledDepth, Named;
    var best, i := 0, 0;
    bi, depth := -1, 0;
    RootText();
    while i < |s.binds|
      invariant 0 <= i <= |s.binds| && -1 <= bi < i && (bi >= 0 ==> best == |s.binds[bi].guest|)
      invariant |cs| > 0 && bi >= 0 ==> BestOf(s.binds, cs, i, bi, depth)
      invariant |cs| > 0 && bi < 0 ==> NoneOf(s.binds, cs, i)
      invariant |cs| == 0 && bi < 0 ==> forall j :: 0 <= j < i ==> s.binds[j].guest != Shown([])
      invariant |cs| == 0 && bi >= 0 ==>
        s.binds[bi].guest == Shown([]) && forall j :: 0 <= j < bi ==> s.binds[j].guest != Shown([])
    {
      var guest := s.binds[i].guest;
      assert S.BindOk(s.binds[i]);
      var n := |guest|;
      ghost var k := Serves(cs, guest);
      RootServes(cs, guest);
      if PrefixOf(g, guest) && (!(n == 1) || |g| == 1) && (bi < 0 || n > best) {
        if |cs| > 0 && bi >= 0 { ShownDepth(cs, depth, k); }
        best, bi, depth := n, i, k;
      } else if |cs| > 0 && bi >= 0 && k > 0 {
        ShownDepth(cs, k, depth);
        ShownDepth(cs, depth, k);
      }
      i := i + 1;
    }
  }

  /** The root as a guest path, and as what is looked up. */
  lemma RootServes(cs: Comps, guest: string)
    requires Named(cs) && |guest| > 0 && guest[0] == '/'
    ensures |guest| == 1 <==> guest == Shown([])
    ensures |Shown(cs)| == 1 <==> |cs| == 0
    ensures |cs| == 0 ==> (PrefixOf(Shown(cs), guest) <==> guest == Shown([]))
  {
    RootText();
    if |guest| == 1 { assert guest == ['/']; }
    if |cs| > 0 { GlueStarts(cs); }
  }

  method JoinMap(base: string, suffix: string, cap: nat) returns (r: Result<string, Errno>)
    ensures r == Fit(JoinText(base, suffix), cap)
  {
    var t := suffix;
    while |t| > 0 && t[0] == '/'
      invariant SkipSlashes(t) == SkipSlashes(suffix)
    {
      t := t[1..];
    }
    if |t| == 0 { return Fit(base, cap); }
    return Fit(base + (if |base| == 1 && base[0] == '/' then "" else "/") + t, cap);
  }

  /** map_plain: where a resolved guest path lives on the host. */
  method MapPlain(s: S.BxSession, g: string, ghost cs: Comps, cap: nat) returns (r: Result<string, Errno>)
    requires s.Valid() && Named(cs) && g == Shown(cs)
    ensures r == MapGuest(StateOf(s), cs, cap)
  {
    hide Shown, PrefixOf, JoinText, Joined, Rest, Above, Unbound, IsSpecial;
    var bi; ghost var depth;
    bi, depth := BestBind(s, g, cs);
    if bi >= 0 {
      var guest := s.binds[bi].guest;
      BoundText(s.binds, cs, bi, depth);
      r := JoinMap(s.binds[bi].host, if |guest| == 1 then g else g[|guest|..], cap);
    } else {
      r := MapUnbound(s, g, cs, cap);
    }
  }

  /** The winning bind's guest path leaves the right suffix. */
  lemma BoundText(binds: seq<S.Bind>, cs: Comps, bi: nat, depth: nat)
    requires Named(cs) && bi < |binds| && |binds[bi].guest| > 0 && binds[bi].guest[0] == '/'
    requires if |cs| > 0 then BestOf(binds, cs, |binds|, bi, depth) else BindAt(binds, Shown([])) == bi
    ensures var b := binds[bi]; var d := BoundDepth(binds, cs);
      && (|b.guest| == 1 <==> |cs| == 0) && |b.guest| <= |Shown(cs)| && BindAt(binds, Shown(cs[..d])) == bi &&
        (d > 0 <==> |cs| > 0)
      && (|cs| == 0 ==> JoinText(b.host, Shown(cs)) == b.host)
      && (|cs| > 0 ==> JoinText(b.host, Shown(cs)[|b.guest|..]) == Joined(b.host, cs[d..]))
  {
    hide Shown, PrefixOf, JoinText, Rest;
    var b := binds[bi];
    RootServes(cs, b.guest);
    var k := Serves(cs, b.guest);
    if |cs| > 0 {
      assert b.guest == Shown(cs[..depth]);
      JoinIsJoined(b.host, cs[depth..]);
    } else {
      JoinIsJoined(b.host, cs);
    }
  }

  method MapUnbound(s: S.BxSession, g: string, ghost cs: Comps, cap: nat) returns (r: Result<string, Errno>)
    requires Named(cs) && g == Shown(cs)
    ensures r == Unbound(s.kvs, cs, cap)
  {
    hide Shown, PrefixOf, JoinText, Joined, Rest, Above, IsSpecial;
    var sh := s.Get(SHM_HOST);
    var sg := s.Get(SHM_GUEST);
    if sh.Some? && sg.Some? {
      PrefixMeans(cs, sg.value);
      if PrefixOf(g, sg.value) {
        BelowText(cs, sg.value, sh.value);
        r := JoinMap(sh.value, g[|sg.value|..], cap);
        return;
      }
    }
    SpecialText(cs);
    if PrefixOf(g, ['/'] + NAME_PROC) || PrefixOf(g, ['/'] + NAME_SYS) || PrefixOf(g, ['/'] + NAME_DEV) {
      return Fit(g, cap);
    }
    var root := s.Get(S.ROOTFS);
    if root.None? || |root.value| == 0 || root.value[0] != '/' { return Err(EINVAL); }
    JoinIsJoined(root.value, cs);
    r := JoinMap(root.value, g, cap);
  }

  lemma SpecialText(cs: Comps)
    requires Named(cs)
    ensures IsSpecial(cs) <==>
      PrefixOf(Shown(cs), ['/'] + NAME_PROC) || PrefixOf(Shown(cs), ['/'] + NAME_SYS) ||
      PrefixOf(Shown(cs), ['/'] + NAME_DEV)
    ensures IsProc(cs) <==> PrefixOf(Shown(cs), ['/'] + NAME_PROC)
  {
    hide Shown, PrefixOf;
    FirstComponent(cs, NAME_PROC);
    FirstComponent(cs, NAME_SYS);
    FirstComponent(cs, NAME_DEV);
  }

  /** Below shared memory's guest path, whichever way it is spelled. */
  lemma BelowText(cs: Comps, sg: string, base: string)
    requires Named(cs) && Above(sg, cs)
    ensures |sg| <= |Shown(cs)| && JoinText(base, Shown(cs)[|sg|..]) == Joined(base, cs[SpelledDepth(sg, cs)..])
  {
    PrefixMeans(cs, sg);
    var d := SpelledDepth(sg, cs);
    if d > 0 {
      JoinIsJoined(base, cs[d..]);
    } else {
      JoinIsJoined(base, cs);
      assert cs[0..] == cs && Shown(cs)[0..] == Shown(cs);
    }
  }

  // ----- the remaining text -----

  /** The pieces still to walk, while the text is consumed. */
  function Todo(r: string): seq<string> {
    if |r| == 0 then [] else Pieces(r, '/')
  }

  /** The pieces behind a component; `t` is empty or starts with a slash. */
  function Behind(t: string): seq<string> {
    if |t| == 0 then [] else Pieces(t[1..], '/')
  }

  lemma TodoSlash(r: string)
    requires |r| > 0 && r[0] == '/'
    ensures Todo(r) == [""] + Behind(r) && (|r| > 1 ==> Behind(r) == Todo(r[1..])) && (|r| == 1 ==> Behind(r) == [""])
  {
    assert r == "" + ['/'] + r[1..];
    PiecesFirst("", r[1..], '/');
    PiecesOfFree("", '/');
  }

  lemma TodoName(r: string, k: nat)
    requires 0 < k <= |r| && Free(r[..k], '/') && (k < |r| ==> r[k] == '/')
    ensures Todo(r) == [r[..k]] + Behind(r[k..])
  {
    if k < |r| {
      assert r == r[..k] + ['/'] + r[k + 1..];
      assert r[k..][1..] == r[k + 1..];
      PiecesFirst(r[..k], r[k + 1..], '/');
    } else {
      assert r[..k] == r;
      PiecesOfFree(r, '/');
    }
  }

  lemma {:induction false} PiecesLength(s: string)
    ensures TailLength(Pieces(s, '/')) == |s| + 1
    decreases |s|
  {
    hide Pieces;
    var k := Find(s, '/');
    PiecesUnfold(s, '/');
    if k < |s| {
      PiecesLength(s[k + 1..]);
      assert ([s[..k]] + Pieces(s[k + 1..], '/'))[1..] == Pieces(s[k + 1..], '/');
    }
  }

  lemma BehindLength(t: string)
    requires |t| > 0 ==> t[0] == '/'
    ensures TailLength(Behind(t)) == |t|
  {
    hide Pieces;
    if |t| > 0 { PiecesLength(t[1..]); }
  }

  /** A link's text in front of the remaining text. */
  lemma TodoLink(text: string, t: string)
    requires |t| > 0 ==> t[0] == '/'
    ensures Pieces(text + t, '/') == Pieces(text, '/') + Behind(t)
  {
    if |t| > 0 {
      assert text + t == text + ['/'] + t[1..];
      PiecesOfConcat(text, t[1..], '/');
    } else {
      assert text + t == text && Pieces(text, '/') + [] == Pieces(text, '/');
    }
  }

  // ----- the lexical form -----

  lemma LexicalSkips(cs: Comps, r: string)
    requires |r| > 0 && r[0] == '/'
    ensures Lexical(cs, Todo(r)) == Lexical(cs, Todo(r[1..])) == Lexical(cs, Behind(r))
  {
    TodoSlash(r);
    hide Todo, Behind;
    assert ([""] + Behind(r))[1..] == Behind(r);
    if |r| == 1 { NoTodo(); assert [""][1..] == []; assert r[1..] == ""; }
  }

  lemma NoTodo()
    ensures Todo("") == [] && Behind("") == []
  {
  }

  lemma LexicalTakes(cs: Comps, r: string, k: nat)
    requires 0 < k <= |r| && Free(r[..k], '/') && (k < |r| ==> r[k] == '/')
    ensures var c := r[..k];
      Lexical(cs, Todo(r)) ==
        Lexical(if IsDot(c) then cs else if IsDotDot(c) then Parent(cs) else cs + [c], Todo(r[k..]))
  {
    TodoName(r, k);
    var c := r[..k];
    assert ([c] + Behind(r[k..]))[1..] == Behind(r[k..]);
    var now := if IsDot(c) then cs else if IsDotDot(c) then Parent(cs) else cs + [c];
    if k < |r| { LexicalSkips(now, r[k..]); } else { NoTodo(); assert r[k..] == ""; }
  }

  /** The next component of a text that does not start with a slash. */
  method NextName(r: string) returns (k: nat)
    requires |r| > 0 && r[0] != '/'
    ensures 0 < k <= |r| && Free(r[..k], '/') && (k < |r| ==> r[k] == '/')
  {
    k := 0;
    while k < |r| && r[k] != '/'
      invariant 0 <= k <= |r| && Free(r[..k], '/') && (k == 0 ==> r[0] != '/')
    {
      k := k + 1;
    }
  }

  /** Cut the last component off, as strrchr does it. */
  method CutLast(p: string, ghost cs: Comps) returns (q: string)
    requires p == Shown(cs) && Named(cs)
    ensures q == Shown(Parent(cs))
  {
    ParentText(cs);
    return UpText(p);
  }

  /** normalized: the lexical form of an absolute path, or of one behind a working directory. */
  method Normalized(path: string, cwd: Option<string>, cap: nat) returns (r: Result<string, Errno>)
    requires cap >= 2
    ensures r.Ok? ==> |path| > 0 && (path[0] == '/' || cwd.Some?)
    ensures r.Ok? ==>
      |r.value| < cap &&
      r.value == Shown(Lexical([], Pieces(if path[0] == '/' then path else cwd.value + "/" + path, '/')))
    ensures r.Err? ==> r.error == (if |path| == 0 || (path[0] != '/' && cwd.None?) then EINVAL else ENAMETOOLONG)
    ensures |path| > 0 && (path[0] == '/' || cwd.Some?) ==>
      var text := if path[0] == '/' then path else cwd.value + "/" + path;
      (|text| < S.PATH_SIZE && |text| + 3 <= cap ==> r.Ok?)
  {
    hide Shown, Lexical, Pieces, Todo;
    if |path| == 0 || (cwd.None? && path[0] != '/') { return Err(EINVAL); }
    var p := if path[0] == '/' then path else cwd.value + "/" + path;
    if |p| >= S.PATH_SIZE { return Err(ENAMETOOLONG); }
    ghost var text := p;
    ghost var cs: Comps := [];
    var out := "/";
    RootText();
    assert Todo(p) == Pieces(text, '/') by { TodoIs(p); }
    while |p| > 0
      invariant out == Shown(cs) && Named(cs) && |out| < cap
      invariant Lexical(cs, Todo(p)) == Lexical([], Pieces(text, '/'))
      invariant |out| + |p| <= |text| + (if |out| > 1 && |p| > 0 && p[0] != '/' then 0 else 1)
      decreases |p|
    {
      if p[0] == '/' {
        LexicalSkips(cs, p);
        p := p[1..];
      } else {
        var k := NextName(p);
        var c := p[..k];
        LexicalTakes(cs, p, k);
        p := p[k..];
        if IsDot(c) {
        } else if IsDotDot(c) {
          ShrinksUp(cs);
          out := CutLast(out, cs);
          cs := Parent(cs);
        } else {
          if |out| + |c| + 2 > cap { return Err(ENAMETOOLONG); }
          ShownAppend(cs, c);
          RootOnly(cs);
          out := (if |out| > 1 then out + "/" else out) + c;
          cs := cs + [c];
        }
      }
    }
    assert Lexical(cs, Todo(p)) == cs by { LexicalEnd(cs, p); }
    return Ok(out);
  }

  lemma TodoIs(p: string)
    requires |p| > 0
    ensures Todo(p) == Pieces(p, '/')
  {
  }

  lemma LexicalEnd(cs: Comps, p: string)
    requires |p| == 0
    ensures Lexical(cs, Todo(p)) == cs
  {
  }

  lemma RootOnly(cs: Comps)
    requires Named(cs)
    ensures |Shown(cs)| > 1 <==> |cs| > 0
    ensures |Shown(cs)| == 1 ==> Shown(cs) == ['/']
  {
    if |cs| > 0 { GlueStarts(cs); }
  }

  lemma ShrinksUp(cs: Comps)
    requires Named(cs)
    ensures |Shown(Parent(cs))| <= |Shown(cs)| && Named(Parent(cs))
  {
    if |cs| > 0 { ShownGrows(cs, |cs| - 1); }
  }

  // ----- resolution -----

  lemma WalkSkips(st: S.State, host: Host, cs: Comps, r: string, links: nat)
    requires links <= MAX_LINKS && |r| > 0 && r[0] == '/'
    ensures Walk(st, host, cs, Todo(r), 0, links) == Walk(st, host, cs, Todo(r[1..]), 0, links) ==
      Walk(st, host, cs, Behind(r), 0, links)
  {
    TodoSlash(r);
    hide Todo, Behind, Enter, Shown;
    assert ([""] + Behind(r))[1..] == Behind(r);
    if |r| == 1 { NoTodo(); assert [""][1..] == []; assert r[1..] == ""; }
  }

  /** Walking what is behind a component is walking the text from there. */
  lemma WalkBehind(st: S.State, host: Host, cs: Comps, t: string, links: nat)
    requires links <= MAX_LINKS && (|t| > 0 ==> t[0] == '/')
    ensures Walk(st, host, cs, Behind(t), 0, links) == Walk(st, host, cs, Todo(t), 0, links)
  {
    if |t| > 0 { WalkSkips(st, host, cs, t, links); }
  }

  /** One component of the text is one step of the walk. */
  lemma WalkTakes(st: S.State, host: Host, cs: Comps, r: string, k: nat, links: nat)
    requires links <= MAX_LINKS && 0 < k <= |r| && Free(r[..k], '/') && (k < |r| ==> r[k] == '/')
    ensures var c, t := r[..k], r[k..];
      Walk(st, host, cs, Todo(r), 0, links) ==
        if IsDot(c) then Walk(st, host, cs, Todo(t), 0, links)
        else if IsDotDot(c) then Walk(st, host, Parent(cs), Todo(t), 0, links)
        else if |Shown(cs)| + |c| + 2 >= S.PATH_SIZE then Err(ENAMETOOLONG)
        else
          match Enter(st, host, cs + [c], |t| > 0)
          case Stop(e) => Err(e)
          case Stay => Walk(st, host, cs + [c], Todo(t), 0, links)
          case Follow(text) =>
            if links == MAX_LINKS then Err(ELOOP)
            else if |text| + |t| >= S.PATH_SIZE then Err(ENAMETOOLONG)
            else Walk(st, host,
              if |text| > 0 && text[0] == '/' then [] else cs, Pieces(text, '/') + Behind(t), 0, links + 1)
  {
    var c, t := r[..k], r[k..];
    TodoName(r, k);
    BehindLength(t);
    hide Todo, Behind, Enter, Shown, Pieces, Walk, IsDot, IsDotDot, Free;
    WalkUnfold(st, host, cs, c, Behind(t), 0, links);
    WalkBehind(st, host, cs, t, links);
    WalkBehind(st, host, Parent(cs), t, links);
    WalkBehind(st, host, cs + [c], t, links);
  }

  lemma WalkLink(st: S.State, host: Host, cs: Comps, text: string, t: string, links: nat)
    requires links <= MAX_LINKS && (|t| > 0 ==> t[0] == '/')
    ensures Walk(st, host, cs, Pieces(text, '/') + Behind(t), 0, links) == Walk(st, host, cs, Todo(text + t), 0, links)
  {
    TodoLink(text, t);
    if |text + t| == 0 {
      hide Enter;
      assert text + t == "";
      PiecesOfFree("", '/');
      assert [""][1..] == [];
    }
  }

  /** Is this exact guest path bound. */
  method IsBound(s: S.BxSession, cur: string) returns (b: bool)
    ensures b <==> BindAt(s.binds, cur) < |s.binds|
  {
    var i := 0;
    while i < |s.binds|
      invariant 0 <= i <= |s.binds| && forall j :: 0 <= j < i ==> s.binds[j].guest != cur
    {
      if s.binds[i].guest == cur { return true; }
      i := i + 1;
    }
    return false;
  }

  /** What the host says about the component just appended to `cur`. */
  method LookAt(s: S.BxSession, host: Host, cur: string, ghost cs: Comps, more: bool) returns (e: Pass)
    requires s.Valid() && Named(cs) && cur == Shown(cs)
    ensures e == Enter(StateOf(s), host, cs, more)
  {
    hide Shown, PrefixOf, MapGuest, IsSpecial;
    var backing := MapPlain(s, cur, cs, S.PATH_SIZE);
    if backing.Err? { return Stop(backing.error); }
    SpecialText(cs);
    if PrefixOf(cur, ['/'] + NAME_PROC) { return Stay; }
    var node := Seen(host, backing.value);
    var bound := IsBound(s, cur);
    if bound {
      return if more then MustBeDirectory(node.stat) else Stay;
    }
    match node.link {
      case NoLink(saved) =>
        if saved == ENOTDIR || (saved == ENOENT && more) { return Stop(saved); }
        if saved != EINVAL && saved != ENOENT { return Stop(saved); }
        return if more then MustBeDirectory(node.stat) else Stay;
      case Target(text) =>
        return Follow(if |text| > S.PATH_SIZE - 1 then text[..S.PATH_SIZE - 1] else text);
    }
  }

  /** The loop of bx_session_to_host: `cur` stays an absolute normal path, the links are counted, and
      the text that remains is walked exactly as the specification walks its pieces. */
  method WalkText(s: S.BxSession, host: Host, text: string) returns (error: Option<Errno>, cur: string, ghost cs: Comps)
    requires s.Valid() && |text| > 0
    ensures match Walk(StateOf(s), host, [], Pieces(text, '/'), 0, 0)
      case Err(e) => error == Some(e)
      case Ok(p) => error.None? && cur == Shown(p.0) && Normal(p.0) && cs == p.0
  {
    hide Shown, Pieces, Todo, Walk, Enter, Behind, IsDot, IsDotDot, Free;
    ghost var st := StateOf(s);
    var r, links := text, 0;
    cs, cur, error := [], "/", None;
    RootText();
    TodoIs(text);
    ghost var goal := Walk(st, host, [], Pieces(text, '/'), 0, 0);
    while |r| > 0
      invariant links <= MAX_LINKS && cur == Shown(cs) && Normal(cs)
      invariant Walk(st, host, cs, Todo(r), 0, links) == goal
      decreases MAX_LINKS - links, |r|
    {
      if r[0] == '/' {
        WalkSkips(st, host, cs, r, links);
        r := r[1..];
        continue;
      }
      var k := NextName(r);
      var c, t := r[..k], r[k..];
      WalkTakes(st, host, cs, r, k, links);
      NormalIsNamed(cs);
      if IsDot(c) {
        r := t;
      } else if IsDotDot(c) {
        cur := CutLast(cur, cs);
        cs := Parent(cs);
        r := t;
      } else {
        if |cur| + |c| + 2 >= S.PATH_SIZE { return Some(ENAMETOOLONG), cur, cs; }
        ghost var next := cs + [c];
        ShownAppend(cs, c);
        RootOnly(cs);
        cur := (if |cur| > 1 then cur + "/" else cur) + c;
        var e := LookAt(s, host, cur, next, |t| > 0);
        match e {
          case Stop(why) => return Some(why), cur, cs;
          case Stay =>
            cs := next;
            r := t;
          case Follow(target) =>
            if links == MAX_LINKS { return Some(ELOOP), cur, cs; }
            links := links + 1;
            if |target| + |t| >= S.PATH_SIZE { return Some(ENAMETOOLONG), cur, cs; }
            if |target| > 0 && target[0] == '/' {
              cur, cs := "/", [];
            } else {
              cur := CutLast(cur, next);
            }
            WalkLink(st, host, cs, target, t, links);
            r := target + t;
        }
      }
    }
    WalkEnd(st, host, cs, r, links);
  }

  lemma WalkEnd(st: S.State, host: Host, cs: Comps, r: string, links: nat)
    requires |r| == 0 && links <= MAX_LINKS
    ensures Walk(st, host, cs, Todo(r), 0, links) == Ok((cs, links))
  {
  }

  /** bx_session_to_host: exactly the specified resolution, errors included. */
  method SessionToHost(s: S.BxSession, host: Host, path: string, cwd: Option<string>, cap: nat)
    returns (r: Result<string, Errno>)
    requires s.Valid()
    ensures r == ToHost(StateOf(s), host, path, cwd, cap)
  {
    hide Walk, MapGuest, Pieces, Shown;
    if |path| == 0 { return Err(ENOENT); }
    var rest := path;
    if path[0] == '/' {
      if |path| >= S.PATH_SIZE { return Err(ENAMETOOLONG); }
    } else if cwd.None? || |cwd.value| == 0 || cwd.value[0] != '/' || |cwd.value| + 1 + |path| >= S.PATH_SIZE {
      return Err(ENAMETOOLONG);
    } else {
      rest := cwd.value + "/" + path;
    }
    var error, cur; ghost var cs;
    error, cur, cs := WalkText(s, host, rest);
    if error.Some? { return Err(error.value); }
    NormalIsNamed(cs);
    r := MapPlain(s, cur, cs, cap);
  }

  /** On a tree without links a path resolves exactly when its text fits and every name on the way can
      be entered, and then to its lexical form; so where there are directories all along. */
  lemma ResolvedIsNormalized(st: S.State, host: Host, path: string, cwd: Option<string>)
    requires LinkFree(host)
    ensures var r, start := Resolve(st, host, path, cwd), StartText(path, cwd);
      && (r.Ok? <==> start.Ok? && AllEnter(st, host, [], Pieces(start.value, '/'), 0))
      && (r.Ok? ==> r.value == Lexical([], Pieces(start.value, '/')))
      && (start.Ok? && Reachable(st, host, Pieces(start.value, '/')) ==> r.Ok?)
  {
    hide AllEnter, Walk, Lexical, Pieces, LinkFree, Reachable;
    var start := StartText(path, cwd);
    if start.Ok? {
      LinkFreeIsLexical(st, host, [], Pieces(start.value, '/'), 0, 0);
      if Reachable(st, host, Pieces(start.value, '/')) { ReachableEnters(st, host, Pieces(start.value, '/')); }
    }
  }

  /** On such a tree resolving a reachable path maps the components that its normalized text spells. */
  method NormalizeAndResolve(s: S.BxSession, host: Host, path: string, cwd: Option<string>, cap: nat)
    returns (n: Result<string, Errno>, r: Result<string, Errno>)
    requires s.Valid() && LinkFree(host) && StartText(path, cwd).Ok?
    requires Reachable(StateOf(s), host, Pieces(StartText(path, cwd).value, '/'))
    ensures var cs := Lexical([], Pieces(StartText(path, cwd).value, '/'));
      && (n.Ok? ==> n.value == Shown(cs)) && r == MapGuest(StateOf(s), cs, cap)
  {
    hide Shown, Lexical, Pieces, Reachable, LinkFree, MapGuest, Walk, AllEnter;
    ResolvedIsNormalized(StateOf(s), host, path, cwd);
    n := Normalized(path, cwd, S.PATH_SIZE);
    r := SessionToHost(s, host, path, cwd, cap);
  }

  /** Every resolved path is absolute and free of `.`, `..` and `//`. */
  lemma ResolvedIsNormal(st: S.State, host: Host, path: string, cwd: Option<string>)
    ensures Resolve(st, host, path, cwd).Ok? ==> Normal(Resolve(st, host, path, cwd).value)
  {
    if StartText(path, cwd).Ok? {
      var todo := Pieces(StartText(path, cwd).value, '/');
      PiecesSlashFree(StartText(path, cwd).value);
      WalkNormal(st, host, [], todo, 0, 0);
    }
  }
}

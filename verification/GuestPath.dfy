/** Guest path resolution, as a specification on components: symbolic links are followed in the
    guest's view, binds are applied by deepest ancestor, and `..` is applied only after the links
    before it (POSIX.1-2017 XBD section 4.13, "Pathname Resolution"). */
module GuestPath {
  import opened Wrappers
  import opened Text
  import S = Session

  const MAX_LINKS: nat := 40

  datatype Errno = ENOENT | EINVAL | ENAMETOOLONG | ENOTDIR | ELOOP | EACCES | EIO

  /** What reading a link and looking at a file answer for one host path. */
  datatype LinkSeen = Target(text: string) | NoLink(why: Errno)
  datatype StatSeen = Directory | NonDirectory | Failed(why: Errno)
  datatype Node = Node(link: LinkSeen, stat: StatSeen)

  /** The host's file system; a path that is not there is missing. */
  type Host = map<string, Node>

  function Seen(host: Host, path: string): Node {
    if path in host then host[path] else Node(NoLink(ENOENT), Failed(ENOENT))
  }

  type Comps = seq<string>

  predicate IsDot(c: string) { |c| == 1 && c[0] == '.' }

  predicate IsDotDot(c: string) { |c| == 2 && c[0] == '.' && c[1] == '.' }

  /** A component that names something. */
  predicate Proper(c: string) { |c| > 0 && Free(c, '/') && !IsDot(c) && !IsDotDot(c) }

  predicate Normal(cs: Comps) { forall i :: 0 <= i < |cs| ==> Proper(cs[i]) }

  /** The absolute path that these components spell. */
  function Shown(cs: Comps): (p: string)
    ensures |p| > 0 && p[0] == '/'
  {
    ['/'] + Glue(cs, '/')
  }

  function Parent(cs: Comps): (ps: Comps)
    ensures Normal(cs) ==> Normal(ps)
  {
    if |cs| == 0 then [] else cs[..|cs| - 1]
  }

  // ----- binds -----

  /** The first bind whose guest path is exactly this one. */
  function BindAt(binds: seq<S.Bind>, guest: string): (k: nat)
    ensures k <= |binds| && (k < |binds| ==> binds[k].guest == guest)
    ensures forall i :: 0 <= i < k ==> binds[i].guest != guest
  {
    if |binds| == 0 || binds[0].guest == guest then 0 else 1 + BindAt(binds[1..], guest)
  }

  /** How many leading components the deepest bound ancestor of `cs` has, or 0. */
  function BoundDepth(binds: seq<S.Bind>, cs: Comps): (d: nat)
    ensures d <= |cs| && (d > 0 ==> BindAt(binds, Shown(cs[..d])) < |binds|)
    ensures forall k :: d < k <= |cs| ==> BindAt(binds, Shown(cs[..k])) == |binds|
  {
    if |cs| == 0 then 0
    else
      assert cs[..|cs|] == cs;
      if BindAt(binds, Shown(cs)) < |binds| then |cs|
      else
        var up := cs[..|cs| - 1];
        assert forall k :: 0 <= k <= |up| ==> up[..k] == cs[..k];
        BoundDepth(binds, up)
  }

  /** A host directory and the components below it. */
  function Joined(base: string, cs: Comps): string {
    if |cs| == 0 then base else base + (if |base| == 1 && base[0] == '/' then "" else "/") + Glue(cs, '/')
  }

  function Fit(p: string, cap: nat): Result<string, Errno> {
    if |p| >= cap then Err(ENAMETOOLONG) else Ok(p)
  }

  const SHM_HOST: string := "_SHM_HOST"
  const SHM_GUEST: string := "_SHM_GUEST"

  /** How many leading components `text` spells of `cs`, if it spells any. */
  function SpelledDepth(text: string, cs: Comps): (d: nat)
    ensures d <= |cs|
  {
    if |cs| == 0 then 0 else if text == Shown(cs) then |cs| else SpelledDepth(text, cs[..|cs| - 1])
  }

  /** An empty guest path and the root are above everything. */
  predicate Above(text: string, cs: Comps) {
    |text| == 0 || (|text| == 1 && text[0] == '/') || SpelledDepth(text, cs) > 0
  }

  /** The kernel's own trees are the host's. */
  predicate IsSpecial(cs: Comps) {
    |cs| > 0 && (IsProc(cs) || cs[0] == ['s', 'y', 's'] || cs[0] == ['d', 'e', 'v'])
  }

  predicate IsProc(cs: Comps) { |cs| > 0 && cs[0] == ['p', 'r', 'o', 'c'] }

  /** The host path of a resolved guest path: the deepest bound ancestor's host directory; a bind of
      `/` serves `/` alone; then shared memory, the kernel's trees, and the root file system. */
  function MapGuest(st: S.State, cs: Comps, cap: nat): Result<string, Errno> {
    var d := BoundDepth(st.binds, cs);
    if d > 0 then Fit(Joined(st.binds[BindAt(st.binds, Shown(cs[..d]))].host, cs[d..]), cap)
    else if |cs| == 0 && BindAt(st.binds, Shown([])) < |st.binds| then
      Fit(st.binds[BindAt(st.binds, Shown([]))].host, cap)
    else Unbound(st.kvs, cs, cap)
  }

  function Unbound(kvs: seq<S.Kv>, cs: Comps, cap: nat): Result<string, Errno> {
    var sh, sg, root := S.Lookup(kvs, SHM_HOST), S.Lookup(kvs, SHM_GUEST), S.Lookup(kvs, S.ROOTFS);
    if sh.Some? && sg.Some? && Above(sg.value, cs) then Fit(Joined(sh.value, cs[SpelledDepth(sg.value, cs)..]), cap)
    else if IsSpecial(cs) then Fit(Shown(cs), cap)
    else if root.None? || |root.value| == 0 || root.value[0] != '/' then Err(EINVAL)
    else Fit(Joined(root.value, cs), cap)
  }

  // ----- the walk -----

  /** The length of the text that spells the remaining pieces, each after its slash. */
  function TailLength(ps: seq<string>): nat {
    if |ps| == 0 then 0 else 1 + |ps[0]| + TailLength(ps[1..])
  }

  datatype Pass = Stay | Follow(text: string) | Stop(why: Errno)

  /** What the host says about the component just entered; `more` text follows it. */
  function Enter(st: S.State, host: Host, cs: Comps, more: bool): Pass {
    match MapGuest(st, cs, S.PATH_SIZE)
    case Err(e) => Stop(e)
    case Ok(backing) =>
      var node := Seen(host, backing);
      if IsProc(cs) then Stay
      else if BindAt(st.binds, Shown(cs)) < |st.binds| then (if more then MustBeDirectory(node.stat) else Stay)
      else match node.link
        case Target(text) => Follow(if |text| > S.PATH_SIZE - 1 then text[..S.PATH_SIZE - 1] else text)
        case NoLink(why) =>
          if why == ENOTDIR || (why == ENOENT && more) then Stop(why)
          else if why != EINVAL && why != ENOENT then Stop(why)
          else if more then MustBeDirectory(node.stat) else Stay
  }

  function MustBeDirectory(stat: StatSeen): Pass {
    match stat
    case Failed(why) => Stop(why)
    case NonDirectory => Stop(ENOTDIR)
    case Directory => Stay
  }

  /** Walk the pieces `todo` from the directory `cur`; `after` is the length of the text behind them. */
  function Walk(st: S.State, host: Host, cur: Comps, todo: seq<string>, after: nat,
      links: nat): (r: Result<(Comps, nat), Errno>)
    requires links <= MAX_LINKS
    ensures r.Ok? ==> links <= r.value.1 <= MAX_LINKS
    decreases MAX_LINKS - links, |todo|
  {
    if |todo| == 0 then Ok((cur, links)) else
    var c, rest := todo[0], todo[1..];
    if |c| == 0 || IsDot(c) then Walk(st, host, cur, rest, after, links)
    else if IsDotDot(c) then Walk(st, host, Parent(cur), rest, after, links)
    else if |Shown(cur)| + |c| + 2 >= S.PATH_SIZE then Err(ENAMETOOLONG)
    else
      match Enter(st, host, cur + [c], TailLength(rest) + after > 0)
      case Stop(e) => Err(e)
      case Stay => Walk(st, host, cur + [c], rest, after, links)
      case Follow(t) =>
        if links == MAX_LINKS then Err(ELOOP)
        else if |t| + TailLength(rest) + after >= S.PATH_SIZE then Err(ENAMETOOLONG)
        else Walk(st, host, if |t| > 0 && t[0] == '/' then [] else cur, Pieces(t, '/') + rest, after, links + 1)
  }

  /** The text a path starts from: itself when absolute, else behind the working directory. */
  function StartText(path: string, cwd: Option<string>): Result<string, Errno> {
    if |path| == 0 then Err(ENOENT)
    else if path[0] == '/' then Fit(path, S.PATH_SIZE)
    else if cwd.None? || |cwd.value| == 0 || cwd.value[0] != '/' ||
      |cwd.value| + 1 + |path| >= S.PATH_SIZE
    then Err(ENAMETOOLONG)
    else Ok(cwd.value + "/" + path)
  }

  function Resolve(st: S.State, host: Host, path: string, cwd: Option<string>): Result<Comps, Errno> {
    match StartText(path, cwd)
    case Err(e) => Err(e)
    case Ok(text) =>
      match Walk(st, host, [], Pieces(text, '/'), 0, 0)
      case Err(e) => Err(e)
      case Ok(p) => Ok(p.0)
  }

  function ToHost(st: S.State, host: Host, path: string, cwd: Option<string>, cap: nat): Result<string, Errno> {
    match Resolve(st, host, path, cwd)
    case Err(e) => Err(e)
    case Ok(cs) => MapGuest(st, cs, cap)
  }

  // ----- what every walk keeps -----

  predicate SlashFree(ps: seq<string>) { forall i :: 0 <= i < |ps| ==> Free(ps[i], '/') }

  lemma PiecesSlashFree(s: string)
    ensures SlashFree(Pieces(s, '/'))
  {
    PiecesAreFree(s, '/');
  }

  /** The walk ends at an absolute path free of `.`, `..` and empty components. */
  lemma {:induction false} WalkNormal(st: S.State, host: Host, cur: Comps, todo: seq<string>, after: nat, links: nat)
    requires links <= MAX_LINKS && Normal(cur) && SlashFree(todo)
    ensures Walk(st, host, cur, todo, after, links).Ok? ==> Normal(Walk(st, host, cur, todo, after, links).value.0)
    decreases MAX_LINKS - links, |todo|
  {
    hide Enter, Shown, IsDot, IsDotDot, Free, Pieces;
    if |todo| > 0 {
      var c, rest := todo[0], todo[1..];
      if |c| == 0 || IsDot(c) {
        WalkNormal(st, host, cur, rest, after, links);
      } else if IsDotDot(c) {
        WalkNormal(st, host, Parent(cur), rest, after, links);
      } else {
        var e := Enter(st, host, cur + [c], TailLength(rest) + after > 0);
        if e.Stay? {
          WalkNormal(st, host, cur + [c], rest, after, links);
        } else if e.Follow? && links < MAX_LINKS {
          PiecesSlashFree(e.text);
          WalkNormal(st, host,
            if |e.text| > 0 && e.text[0] == '/' then [] else cur, Pieces(e.text, '/') + rest, after, links + 1);
        }
      }
    }
  }

  lemma {:induction false} TailLengthSum(a: seq<string>, b: seq<string>)
    ensures TailLength(a + b) == TailLength(a) + TailLength(b)
  {
    if |a| > 0 {
      assert (a + b)[1..] == a[1..] + b;
      TailLengthSum(a[1..], b);
    } else {
      assert a + b == b;
    }
  }

  /** One step of the walk, for proofs that hide it. */
  lemma WalkUnfold(st: S.State, host: Host, cur: Comps, c: string, rest: seq<string>, after: nat, links: nat)
    requires links <= MAX_LINKS
    ensures Walk(st, host, cur, [c] + rest, after, links) ==
      if |c| == 0 || IsDot(c) then Walk(st, host, cur, rest, after, links)
      else if IsDotDot(c) then Walk(st, host, Parent(cur), rest, after, links)
      else if |Shown(cur)| + |c| + 2 >= S.PATH_SIZE then Err(ENAMETOOLONG)
      else
        match Enter(st, host, cur + [c], TailLength(rest) + after > 0)
        case Stop(e) => Err(e)
        case Stay => Walk(st, host, cur + [c], rest, after, links)
        case Follow(t) =>
          if links == MAX_LINKS then Err(ELOOP)
          else if |t| + TailLength(rest) + after >= S.PATH_SIZE then Err(ENAMETOOLONG)
          else Walk(st, host, if |t| > 0 && t[0] == '/' then [] else cur, Pieces(t, '/') + rest, after, links + 1)
  {
    hide Enter, Shown, IsDot, IsDotDot, Pieces;
    assert ([c] + rest)[1..] == rest;
  }

  /** Walking two stretches is walking the first, then the second from where it ended: whatever
      comes later, `..` included, is applied after the links of the first. */
  lemma {:induction false} WalkComposes(st: S.State, host: Host, cur: Comps, a: seq<string>, b: seq<string>, after: nat,
      links: nat)
    requires links <= MAX_LINKS
    ensures Walk(st, host, cur, a + b, after, links) ==
      match Walk(st, host, cur, a, TailLength(b) + after, links)
      case Err(e) => Err(e)
      case Ok(p) => Walk(st, host, p.0, b, after, p.1)
    decreases MAX_LINKS - links, |a|
  {
    hide Enter, Shown, IsDot, IsDotDot, Free, Pieces;
    if |a| == 0 {
      assert a + b == b;
    } else {
      hide Walk;
      var c, rest := a[0], a[1..];
      assert a + b == [c] + (rest + b) && a == [c] + rest;
      WalkUnfold(st, host, cur, c, rest + b, after, links);
      WalkUnfold(st, host, cur, c, rest, TailLength(b) + after, links);
      TailLengthSum(rest, b);
      if |c| == 0 || IsDot(c) {
        WalkComposes(st, host, cur, rest, b, after, links);
      } else if IsDotDot(c) {
        WalkComposes(st, host, Parent(cur), rest, b, after, links);
      } else {
        var e := Enter(st, host, cur + [c], TailLength(rest) + TailLength(b) + after > 0);
        if e.Stay? {
          WalkComposes(st, host, cur + [c], rest, b, after, links);
        } else if e.Follow? && links < MAX_LINKS {
          assert Pieces(e.text, '/') + (rest + b) == (Pieces(e.text, '/') + rest) + b;
          WalkComposes(st, host,
            if |e.text| > 0 && e.text[0] == '/' then [] else cur, Pieces(e.text, '/') + rest, b, after, links + 1);
        }
      }
    }
  }

  lemma LastDotDot(st: S.State, host: Host)
    ensures TailLength([".."]) == 3
    ensures forall cur, links: nat :: links <= MAX_LINKS ==>
      Walk(st, host, cur, [".."], 0, links) == Ok((Parent(cur), links))
  {
    hide Enter, Shown, Parent;
    assert [".."][1..] == [];
  }

  /** `..` leaves the directory that the text before it resolves to. */
  lemma DotDotAfterLinks(st: S.State, host: Host, cur: Comps, a: seq<string>, links: nat)
    requires links <= MAX_LINKS
    ensures var before := Walk(st, host, cur, a, 3, links);
      Walk(st, host, cur, a + [".."], 0, links) ==
        match before case Err(e) => Err(e) case Ok(p) => Ok((Parent(p.0), p.1))
  {
    LastDotDot(st, host);
    hide Walk;
    WalkComposes(st, host, cur, a, [".."], 0, links);
  }

  // ----- trees without links -----

  ghost predicate LinkFree(host: Host) {
    forall p :: p in host ==> host[p].link.NoLink?
  }

  /** The lexical reading of the pieces. */
  function Lexical(cur: Comps, todo: seq<string>): Comps
    decreases |todo|
  {
    if |todo| == 0 then cur
    else if |todo[0]| == 0 || IsDot(todo[0]) then Lexical(cur, todo[1..])
    else if IsDotDot(todo[0]) then Lexical(Parent(cur), todo[1..])
    else Lexical(cur + [todo[0]], todo[1..])
  }

  predicate IsName(c: string) { |c| > 0 && !IsDot(c) && !IsDotDot(c) }

  /** The component `c` can be entered from `cur`: the path fits, and the host does not stop there. */
  predicate Enters(st: S.State, host: Host, cur: Comps, c: string, more: bool) {
    |Shown(cur)| + |c| + 2 < S.PATH_SIZE && Enter(st, host, cur + [c], more).Stay?
  }

  /** Every name among the pieces can be entered from the lexical form of what is before it. */
  predicate AllEnter(st: S.State, host: Host, cur: Comps, todo: seq<string>, after: nat) {
    forall i :: 0 <= i < |todo| && IsName(todo[i]) ==>
      Enters(st, host, Lexical(cur, todo[..i]), todo[i], TailLength(todo[i + 1..]) + after > 0)
  }

  /** One piece further. */
  function Onward(cur: Comps, c: string): Comps {
    if |c| == 0 || IsDot(c) then cur else if IsDotDot(c) then Parent(cur) else cur + [c]
  }

  lemma AllEnterUnfold(st: S.State, host: Host, cur: Comps, todo: seq<string>, after: nat)
    requires |todo| > 0
    ensures var c, rest := todo[0], todo[1..];
      AllEnter(st, host, cur, todo, after) <==>
        (IsName(c) ==> Enters(st, host, cur, c, TailLength(rest) + after > 0)) &&
        AllEnter(st, host, Onward(cur, c), rest, after)
  {
    hide Enters, IsDot, IsDotDot, Parent, TailLength;
    var c, rest := todo[0], todo[1..];
    assert todo[..0] == [] && todo[0 + 1..] == rest;
    forall i | 0 <= i < |rest|
      ensures rest[i] == todo[i + 1] && rest[i + 1..] == todo[i + 1 + 1..]
      ensures Lexical(cur, todo[..i + 1]) == Lexical(Onward(cur, c), rest[..i])
    {
      assert todo[..i + 1][1..] == rest[..i];
    }
    if AllEnter(st, host, cur, todo, after) {
      forall i | 0 <= i < |rest| && IsName(rest[i])
        ensures Enters(st, host, Lexical(Onward(cur, c), rest[..i]), rest[i], TailLength(rest[i + 1..]) + after > 0)
      {
        assert IsName(todo[i + 1]);
      }
    }
  }

  /** On a tree without links a walk ends at the lexical form, or where a name cannot be entered. */
  lemma {:induction false} LinkFreeIsLexical(st: S.State, host: Host, cur: Comps, todo: seq<string>, after: nat,
      links: nat)
    requires links <= MAX_LINKS && LinkFree(host)
    ensures var r := Walk(st, host, cur, todo, after, links);
      (r.Ok? <==> AllEnter(st, host, cur, todo, after)) && (r.Ok? ==> r.value == (Lexical(cur, todo), links))
    decreases |todo|
  {
    hide Enter, Shown, IsDot, IsDotDot, LinkFree;
    if |todo| > 0 {
      hide Walk, AllEnter;
      var c, rest := todo[0], todo[1..];
      assert todo == [c] + rest;
      WalkUnfold(st, host, cur, c, rest, after, links);
      NeverFollows(st, host, cur + [c], TailLength(rest) + after > 0);
      AllEnterUnfold(st, host, cur, todo, after);
      LinkFreeIsLexical(st, host, Onward(cur, c), rest, after, links);
    }
  }

  /** A directory of the guest's, on the host, that is no link. */
  predicate DirectoryAt(st: S.State, host: Host, cs: Comps) {
    var backing := MapGuest(st, cs, S.PATH_SIZE);
    backing.Ok? && Seen(host, backing.value) == Node(NoLink(EINVAL), Directory)
  }

  /** Something that is no link, or nothing. */
  predicate PlainAt(st: S.State, host: Host, cs: Comps) {
    var backing := MapGuest(st, cs, S.PATH_SIZE);
    backing.Ok? && Seen(host, backing.value).link in {NoLink(EINVAL), NoLink(ENOENT)}
  }

  /** Directories all along, short enough, and at the end anything that is no link. */
  predicate Reachable(st: S.State, host: Host, todo: seq<string>) {
    forall i :: 0 <= i < |todo| && IsName(todo[i]) ==>
      var cur := Lexical([], todo[..i]);
      && |Shown(cur)| + |todo[i]| + 2 < S.PATH_SIZE
      && (DirectoryAt(st, host, cur + [todo[i]]) || (i == |todo| - 1 && PlainAt(st, host, cur + [todo[i]])))
  }

  lemma StaysAt(st: S.State, host: Host, cs: Comps, more: bool)
    ensures DirectoryAt(st, host, cs) || (!more && PlainAt(st, host, cs)) ==> Enter(st, host, cs, more).Stay?
  {
    hide MapGuest, Shown, IsProc;
  }

  lemma ReachableEnters(st: S.State, host: Host, todo: seq<string>)
    requires Reachable(st, host, todo)
    ensures AllEnter(st, host, [], todo, 0)
  {
    hide DirectoryAt, PlainAt, Enter, Shown, Lexical, IsName;
    forall i | 0 <= i < |todo| && IsName(todo[i])
      ensures Enters(st, host, Lexical([], todo[..i]), todo[i], TailLength(todo[i + 1..]) + 0 > 0)
    {
      assert i == |todo| - 1 ==> todo[i + 1..] == [];
      StaysAt(st, host, Lexical([], todo[..i]) + [todo[i]], TailLength(todo[i + 1..]) + 0 > 0);
    }
  }

  lemma NeverFollows(st: S.State, host: Host, cs: Comps, more: bool)
    requires LinkFree(host)
    ensures !Enter(st, host, cs, more).Follow?
  {
    hide MapGuest, Shown;
  }

  // ----- the link budget -----

  /** A component that is a link to itself exhausts the budget, from any count of links. */
  lemma {:induction false} SelfLinkLoops(st: S.State, host: Host, cur: Comps, c: string, links: nat)
    requires links <= MAX_LINKS && Proper(c) && |Shown(cur)| + |c| + 2 < S.PATH_SIZE
    requires Enter(st, host, cur + [c], false) == Follow(c)
    ensures Walk(st, host, cur, [c], 0, links) == Err(ELOOP)
    decreases MAX_LINKS - links
  {
    PiecesOfFree(c, '/');
    hide Enter, Shown, Pieces;
    assert |c| < S.PATH_SIZE && TailLength([]) == 0 && [c][1..] == [];
    if links < MAX_LINKS {
      assert Pieces(c, '/') + [] == [c];
      SelfLinkLoops(st, host, cur, c, links + 1);
    }
  }
}

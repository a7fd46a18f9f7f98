/** What resolution makes of one component behind a directory, said on the host's own nodes: a
    symbolic link stands for its text, anything else is entered or refused. */
module GuestLinks {
  import opened Wrappers
  import opened Text
  import S = Session
  import opened GuestPath
  import opened SessionResolve

  /** The text `dir`, with `behind` more bytes of text after it, leads to `cs` over `links` links. */
  predicate Leads(st: S.State, host: Host, dir: string, behind: nat, cs: Comps, links: nat) {
    Walk(st, host, [], Pieces(dir, '/'), behind, 0) == Ok((cs, links))
  }

  /** How many links an absolute path is resolved over. */
  function LinksOf(st: S.State, host: Host, text: string): nat {
    var r := Walk(st, host, [], Pieces(text, '/'), 0, 0);
    if r.Ok? then r.value.1 else 0
  }

  /** Nothing, or text that starts at a separator. */
  predicate Following(rest: string) { |rest| > 0 ==> rest[0] == '/' }

  /** A directory's text, without or with its trailing slash; "" is the root's as well. */
  predicate DirText(dir: string) { |dir| > 0 ==> dir[0] == '/' }

  // ----- the two budgets -----

  /** `s` is `r` with `d` more links counted, if the budget takes them. */
  predicate Shifted(r: Result<(Comps, nat), Errno>, s: Result<(Comps, nat), Errno>, d: nat) {
    && (r.Ok? ==> s == if r.value.1 + d <= MAX_LINKS then Ok((r.value.0, r.value.1 + d)) else Err(ELOOP))
    && (r.Err? ==> s == r || s == Err(ELOOP))
  }

  lemma ShiftedEnds(cs: Comps, e: Errno, l: nat, m: nat)
    requires l <= m <= MAX_LINKS
    ensures Shifted(Ok((cs, l)), Ok((cs, m)), m - l) && Shifted(Err(e), Err(e), m - l)
  {
  }

  lemma ShiftedOver(r: Result<(Comps, nat), Errno>, l: nat)
    requires l < MAX_LINKS && (r.Ok? ==> l + 1 <= r.value.1)
    ensures Shifted(r, Err(ELOOP), MAX_LINKS - l)
  {
  }

  /** Starting with more links used only spends the budget earlier. */
  lemma {:induction false} BudgetShift(st: S.State, host: Host, cur: Comps, todo: seq<string>, after: nat, l: nat,
      m: nat)
    requires l <= m <= MAX_LINKS
    ensures Shifted(Walk(st, host, cur, todo, after, l), Walk(st, host, cur, todo, after, m), m - l)
    decreases MAX_LINKS - l, |todo|
  {
    hide Enter, Shown, IsDot, IsDotDot, Pieces, Shifted, Walk, TailLength, Parent;
    if |todo| == 0 {
      WalkNothing(st, host, cur, after, l);
      WalkNothing(st, host, cur, after, m);
      ShiftedEnds(cur, ELOOP, l, m);
      assert todo == [];
    } else {
      var c, rest := todo[0], todo[1..];
      assert todo == [c] + rest;
      WalkUnfold(st, host, cur, c, rest, after, l);
      WalkUnfold(st, host, cur, c, rest, after, m);
      if |c| == 0 || IsDot(c) {
        BudgetShift(st, host, cur, rest, after, l, m);
      } else if IsDotDot(c) {
        BudgetShift(st, host, Parent(cur), rest, after, l, m);
      } else if |Shown(cur)| + |c| + 2 >= S.PATH_SIZE {
        ShiftedEnds(cur, ENAMETOOLONG, l, m);
      } else {
        match Enter(st, host, cur + [c], TailLength(rest) + after > 0)
        case Stop(e) => ShiftedEnds(cur, e, l, m);
        case Stay => BudgetShift(st, host, cur + [c], rest, after, l, m);
        case Follow(t) => ShiftFollow(st, host, if |t| > 0 && t[0] == '/' then [] else cur, t, rest, after, l, m);
      }
    }
  }

  lemma ShiftFollow(st: S.State, host: Host, from: Comps, t: string, rest: seq<string>, after: nat, l: nat, m: nat)
    requires l <= m <= MAX_LINKS
    ensures Shifted(Next(st, host, from, t, rest, after, l), Next(st, host, from, t, rest, after, m), m - l)
    decreases MAX_LINKS - l, 0
  {
    hide Enter, Shown, Pieces, Shifted, Walk, TailLength;
    if l == MAX_LINKS {
      ShiftedEnds(from, ELOOP, l, m);
    } else if |t| + TailLength(rest) + after >= S.PATH_SIZE {
      ShiftedEnds(from, ENAMETOOLONG, l, m);
      if m == MAX_LINKS { ShiftedLate(ENAMETOOLONG, m - l); }
    } else if m == MAX_LINKS {
      ShiftedOver(Walk(st, host, from, Pieces(t, '/') + rest, after, l + 1), l);
    } else {
      BudgetShift(st, host, from, Pieces(t, '/') + rest, after, l + 1, m + 1);
    }
  }

  lemma ShiftedLate(e: Errno, d: nat)
    ensures Shifted(Err(e), Err(ELOOP), d)
  {
  }

  /** Where a followed link takes the walk. */
  function Next(st: S.State, host: Host, from: Comps, t: string, rest: seq<string>, after: nat, links: nat)
    : Result<(Comps, nat), Errno>
    requires links <= MAX_LINKS
  {
    if links == MAX_LINKS then Err(ELOOP)
    else if |t| + TailLength(rest) + after >= S.PATH_SIZE then Err(ENAMETOOLONG)
    else Walk(st, host, from, Pieces(t, '/') + rest, after, links + 1)
  }

  /** With less text behind a walk that succeeded still does. */
  lemma {:induction false} LessBehind(st: S.State, host: Host, cur: Comps, todo: seq<string>, n: nat, less: nat, l: nat)
    requires l <= MAX_LINKS && 0 < less <= n && Walk(st, host, cur, todo, n, l).Ok?
    ensures Walk(st, host, cur, todo, less, l) == Walk(st, host, cur, todo, n, l)
    decreases MAX_LINKS - l, |todo|
  {
    hide Enter, Shown, IsDot, IsDotDot, Pieces;
    if |todo| > 0 {
      hide Walk;
      var c, rest := todo[0], todo[1..];
      assert todo == [c] + rest;
      WalkUnfold(st, host, cur, c, rest, n, l);
      WalkUnfold(st, host, cur, c, rest, less, l);
      if |c| == 0 || IsDot(c) {
        LessBehind(st, host, cur, rest, n, less, l);
      } else if IsDotDot(c) {
        LessBehind(st, host, Parent(cur), rest, n, less, l);
      } else {
        var e := Enter(st, host, cur + [c], TailLength(rest) + n > 0);
        if e.Stay? {
          LessBehind(st, host, cur + [c], rest, n, less, l);
        } else if e.Follow? && l < MAX_LINKS {
          LessBehind(st, host, if |e.text| > 0 && e.text[0] == '/' then [] else cur, Pieces(e.text, '/') + rest,
            n, less, l + 1);
        }
      }
    }
  }

  // ----- a component behind a directory -----

  lemma PiecesBehind(dir: string, name: string, rest: string)
    requires Following(rest)
    ensures Pieces(dir + "/" + name + rest, '/') == Pieces(dir, '/') + (Pieces(name, '/') + Behind(rest))
    ensures TailLength(Pieces(name, '/') + Behind(rest)) == 1 + |name| + |rest|
  {
    hide Pieces, Behind, TailLength;
    TodoLink(name, rest);
    Assoc(dir + "/", name, rest);
    PiecesOfConcat(dir, name + rest, '/');
    TailBehind(name, rest);
  }

  lemma TailBehind(name: string, rest: string)
    requires Following(rest)
    ensures TailLength(Pieces(name, '/') + Behind(rest)) == 1 + |name| + |rest|
  {
    hide Pieces, Behind, TailLength;
    BehindLength(rest);
    PiecesLength(name);
    TailLengthSum(Pieces(name, '/'), Behind(rest));
  }

  /** Resolving a component behind a directory goes on from where the directory's text leads. */
  lemma FromDir(st: S.State, host: Host, dir: string, name: string, rest: string, cs: Comps, links: nat)
    requires DirText(dir) && Following(rest) && |dir| + 1 + |name| + |rest| < S.PATH_SIZE && links <= MAX_LINKS
    requires Leads(st, host, dir, 1 + |name| + |rest|, cs, links)
    ensures Walk(st, host, [], Pieces(dir + "/" + name + rest, '/'), 0, 0) ==
      Walk(st, host, cs, Pieces(name, '/') + Behind(rest), 0, links)
    ensures StartText(dir + "/" + name + rest, None) == Ok(dir + "/" + name + rest)
  {
    hide Pieces, Walk;
    PiecesBehind(dir, name, rest);
    WalkComposes(st, host, [], Pieces(dir, '/'), Pieces(name, '/') + Behind(rest), 0, 0);
  }

  /** The host has a symbolic link with this text where the guest's component `cs` is served from, and
      it is one that resolution follows: no bind's own path and nothing below /proc.  Reading it gives no
      more than the buffer takes. */
  predicate LinkAt(st: S.State, host: Host, cs: Comps, text: string) {
    && BindAt(st.binds, Shown(cs)) == |st.binds| && !IsProc(cs)
    && MapGuest(st, cs, S.PATH_SIZE).Ok?
    && var backing := MapGuest(st, cs, S.PATH_SIZE).value;
       backing in host && host[backing].link.Target?
         && text <= host[backing].link.text && |text| < S.PATH_SIZE
         && (text == host[backing].link.text || |text| == S.PATH_SIZE - 1)
  }

  lemma LinkIsFollowed(st: S.State, host: Host, cs: Comps, text: string, more: bool)
    requires LinkAt(st, host, cs, text)
    ensures Enter(st, host, cs, more) == Follow(text)
  {
    hide MapGuest, Shown, IsProc;
  }

  /** The longer of the two, for what may stand behind the directory. */
  function Longer(a: string, b: string): nat { if |a| > |b| then |a| else |b| }

  /** A link with any text behind it stands for its own text: from the root when that is absolute, from
      the link's directory when it is not.  All that differs is the number of links followed. */
  lemma LinkStandsForText(st: S.State, host: Host, dir: string, c: string, rest: string, text: string, cs: Comps,
      links: nat)
    requires DirText(dir) && Following(rest) && Proper(c) && links <= MAX_LINKS
    requires |dir| + 1 + |c| + |rest| < S.PATH_SIZE && |Shown(cs)| + |c| + 2 < S.PATH_SIZE
    requires Leads(st, host, dir, 1 + Longer(c, text) + |rest|, cs, links) && LinkAt(st, host, cs + [c], text)
    ensures var absolute, r := |text| > 0 && text[0] == '/', Resolve(st, host, dir + "/" + c + rest, None);
      if links == MAX_LINKS then r == Err(ELOOP)
      else if |text| + |rest| >= S.PATH_SIZE then r == Err(ENAMETOOLONG)
      else if absolute then SameUpTo(st, host, r, text + rest, links + 1)
      else |dir| + 1 + |text| + |rest| < S.PATH_SIZE ==> SameUpTo(st, host, r, dir + "/" + text + rest, 1)
  {
    hide Pieces, Walk, MapGuest, Shown, IsProc, Enter, Free, LinkAt, Behind, TailLength, SameUpTo;
    var n := 1 + Longer(c, text) + |rest|;
    LessBehind(st, host, [], Pieces(dir, '/'), n, 1 + |c| + |rest|, 0);
    LessBehind(st, host, [], Pieces(dir, '/'), n, 1 + |text| + |rest|, 0);
    AtLink(st, host, dir, c, rest, text, cs, links);
    if links < MAX_LINKS && |text| + |rest| < S.PATH_SIZE {
      if |text| > 0 && text[0] == '/' {
        FromRoot(st, host, dir + "/" + c + rest, text, rest, links);
      } else if |dir| + 1 + |text| + |rest| < S.PATH_SIZE {
        FromHere(st, host, dir + "/" + c + rest, dir, text, rest, cs, links);
      }
    }
  }

  lemma AtLink(st: S.State, host: Host, dir: string, c: string, rest: string, text: string, cs: Comps, links: nat)
    requires DirText(dir) && Following(rest) && Proper(c) && links <= MAX_LINKS
    requires |dir| + 1 + |c| + |rest| < S.PATH_SIZE && |Shown(cs)| + |c| + 2 < S.PATH_SIZE
    requires Leads(st, host, dir, 1 + |c| + |rest|, cs, links) && LinkAt(st, host, cs + [c], text)
    ensures var path := dir + "/" + c + rest;
      StartText(path, None) == Ok(path) && Walk(st, host, [], Pieces(path, '/'), 0, 0) ==
        Next(st, host, if |text| > 0 && text[0] == '/' then [] else cs, text, Behind(rest), 0, links)
    ensures TailLength(Behind(rest)) == |rest|
  {
    hide Pieces, Walk, MapGuest, Shown, IsProc, Enter, Free, LinkAt, Behind, TailLength;
    LinkIsFollowed(st, host, cs + [c], text, |rest| > 0);
    FromDir(st, host, dir, c, rest, cs, links);
    PiecesOfFree(c, '/');
    BehindLength(rest);
    WalkUnfold(st, host, cs, c, Behind(rest), 0, links);
  }

  lemma FromRoot(st: S.State, host: Host, path: string, text: string, rest: string, links: nat)
    requires StartText(path, None) == Ok(path) && Following(rest) && links < MAX_LINKS
    requires |text| > 0 && text[0] == '/' && |text| + |rest| < S.PATH_SIZE
    requires Walk(st, host, [], Pieces(path, '/'), 0, 0) ==
      Walk(st, host, [], Pieces(text, '/') + Behind(rest), 0, links + 1)
    ensures SameUpTo(st, host, Resolve(st, host, path, None), text + rest, links + 1)
  {
    hide Pieces, Walk, Behind;
    TodoLink(text, rest);
    BudgetShift(st, host, [], Pieces(text, '/') + Behind(rest), 0, 0, links + 1);
  }

  lemma FromHere(st: S.State, host: Host, path: string, dir: string, text: string, rest: string, cs: Comps, links: nat)
    requires StartText(path, None) == Ok(path) && DirText(dir) && Following(rest) && links < MAX_LINKS
    requires |dir| + 1 + |text| + |rest| < S.PATH_SIZE && Leads(st, host, dir, 1 + |text| + |rest|, cs, links)
    requires Walk(st, host, [], Pieces(path, '/'), 0, 0) ==
      Walk(st, host, cs, Pieces(text, '/') + Behind(rest), 0, links + 1)
    ensures SameUpTo(st, host, Resolve(st, host, path, None), dir + "/" + text + rest, 1)
  {
    hide Pieces, Walk, Behind;
    FromDir(st, host, dir, text, rest, cs, links);
    BudgetShift(st, host, cs, Pieces(text, '/') + Behind(rest), 0, links, links + 1);
  }

  /** `r` is what `text` resolves to, unless `more` further links exceed the budget. */
  predicate SameUpTo(st: S.State, host: Host, r: Result<Comps, Errno>, text: string, more: nat) {
    var s := Resolve(st, host, text, None);
    && (s.Ok? ==> r == if LinksOf(st, host, text) + more <= MAX_LINKS then s else Err(ELOOP))
    && (s.Err? ==> r == s || r == Err(ELOOP))
  }

  // ----- what is no link -----

  /** The host's answers with which a component that is no link is entered; `more` text follows it. */
  predicate Settles(st: S.State, host: Host, cs: Comps, more: bool) {
    && MapGuest(st, cs, S.PATH_SIZE).Ok?
    && var node := Seen(host, MapGuest(st, cs, S.PATH_SIZE).value);
       || IsProc(cs)
       || (BindAt(st.binds, Shown(cs)) < |st.binds| && (more ==> node.stat == Directory))
       || (node.link == NoLink(EINVAL) && (more ==> node.stat == Directory))
       || (node.link == NoLink(ENOENT) && !more)
  }

  /** A component of /proc, a bind's own path, a directory, and at the end of the text anything that is
      no link or missing, is where the text with it leads; no link is followed there. */
  lemma SettledLeads(st: S.State, host: Host, dir: string, c: string, behind: nat, cs: Comps, links: nat)
    requires Proper(c) && links <= MAX_LINKS && |Shown(cs)| + |c| + 2 < S.PATH_SIZE
    requires Leads(st, host, dir, 1 + |c| + behind, cs, links) && Settles(st, host, cs + [c], behind > 0)
    ensures Leads(st, host, dir + "/" + c, behind, cs + [c], links)
  {
    hide Pieces, Walk, MapGuest, Shown, IsProc, Enter, Free, Settles, TailLength;
    SettlesMeans(st, host, cs + [c], behind > 0);
    PiecesBehind(dir, c, "");
    assert dir + "/" + c + "" == dir + "/" + c && |c| + |""| == |c|;
    PiecesOfFree(c, '/');
    assert [c] + Behind("") == [c] + [] == [c];
    WalkComposes(st, host, [], Pieces(dir, '/'), [c], behind, 0);
    WalkUnfold(st, host, cs, c, [], behind, links);
    WalkNothing(st, host, cs + [c], behind, links);
  }

  lemma WalkNothing(st: S.State, host: Host, cs: Comps, after: nat, links: nat)
    requires links <= MAX_LINKS
    ensures Walk(st, host, cs, [], after, links) == Ok((cs, links)) && TailLength([]) == 0
  {
  }

  lemma SettlesMeans(st: S.State, host: Host, cs: Comps, more: bool)
    requires Settles(st, host, cs, more)
    ensures Enter(st, host, cs, more) == Stay
  {
    hide MapGuest, Shown, IsProc;
  }

  /** Why a component that is neither entered nor a link to follow ends the resolution. */
  function WhyNot(node: Node, bound: bool): Errno {
    if !bound && node.link.NoLink? && node.link.why != EINVAL then node.link.why
    else if node.stat.Failed? then node.stat.why
    else ENOTDIR
  }

  /** Anything else ends the resolution, with the error the host gave. */
  lemma OthersFail(st: S.State, host: Host, dir: string, c: string, rest: string, cs: Comps, links: nat)
    requires DirText(dir) && Following(rest) && Proper(c) && links <= MAX_LINKS
    requires |dir| + 1 + |c| + |rest| < S.PATH_SIZE && |Shown(cs)| + |c| + 2 < S.PATH_SIZE
    requires Leads(st, host, dir, 1 + |c| + |rest|, cs, links) && !Settles(st, host, cs + [c], |rest| > 0)
    requires forall text :: !LinkAt(st, host, cs + [c], text)
    ensures var backing := MapGuest(st, cs + [c], S.PATH_SIZE);
      Resolve(st, host, dir + "/" + c + rest, None) ==
        if backing.Err? then Err(backing.error)
        else Err(WhyNot(Seen(host, backing.value), BindAt(st.binds, Shown(cs + [c])) < |st.binds|))
  {
    hide Pieces, Walk, MapGuest, Shown, IsProc, Enter, Free, Behind, TailLength, WhyNot;
    FromDir(st, host, dir, c, rest, cs, links);
    PiecesOfFree(c, '/');
    BehindLength(rest);
    WalkUnfold(st, host, cs, c, Behind(rest), 0, links);
    EnterFails(st, host, cs + [c], |rest| > 0);
  }

  lemma EnterFails(st: S.State, host: Host, cs: Comps, more: bool)
    requires !Settles(st, host, cs, more) && forall text :: !LinkAt(st, host, cs, text)
    ensures var backing := MapGuest(st, cs, S.PATH_SIZE);
      Enter(st, host, cs, more) ==
        if backing.Err? then Stop(backing.error)
        else Stop(WhyNot(Seen(host, backing.value), BindAt(st.binds, Shown(cs)) < |st.binds|))
  {
    hide MapGuest, Shown, IsProc;
    var backing := MapGuest(st, cs, S.PATH_SIZE);
    if backing.Ok? && backing.value in host && host[backing.value].link.Target? {
      var full := host[backing.value].link.text;
      assert !LinkAt(st, host, cs, if |full| > S.PATH_SIZE - 1 then full[..S.PATH_SIZE - 1] else full);
    }
  }

  // ----- where a text leads, by resolving it -----

  function Slashes(n: nat): string { if n == 0 then "" else Slashes(n - 1) + "/" }

  lemma {:induction false} SlashesWalk(st: S.State, host: Host, dir: string, n: nat, after: nat)
    ensures Walk(st, host, [], Pieces(dir + Slashes(n), '/'), after, 0) ==
      Walk(st, host, [], Pieces(dir, '/'), after + n, 0)
  {
    hide Pieces, Walk, Enter;
    if n == 0 {
      assert dir + Slashes(0) == dir;
    } else {
      var shorter := dir + Slashes(n - 1);
      assert dir + Slashes(n) == shorter + "/" + "" + "";
      PiecesBehind(shorter, "", "");
      PiecesOfFree("", '/');
      assert [""] + Behind("") == [""];
      WalkComposes(st, host, [], Pieces(shorter, '/'), [""], after, 0);
      SlashesWalk(st, host, dir, n - 1, after + 1);
      WalkBlank(st, host, after);
    }
  }

  lemma WalkBlank(st: S.State, host: Host, after: nat)
    ensures forall cs, links: nat :: links <= MAX_LINKS ==> Walk(st, host, cs, [""], after, links) == Ok((cs, links))
  {
    assert [""][1..] == [];
  }

  /** A text leads to `cs` with `n` bytes behind it exactly when it resolves to `cs` with `n` separators
      behind it. */
  lemma LeadsIsResolve(st: S.State, host: Host, dir: string, n: nat, cs: Comps)
    requires DirText(dir) && 0 < |dir| + n < S.PATH_SIZE
    ensures (exists k :: Leads(st, host, dir, n, cs, k)) <==> Resolve(st, host, dir + Slashes(n), None) == Ok(cs)
  {
    hide Pieces, Walk;
    SlashesWalk(st, host, dir, n, 0);
    SlashesText(n);
    var r := Walk(st, host, [], Pieces(dir, '/'), n, 0);
    if r.Ok? && r.value.0 == cs { assert Leads(st, host, dir, n, cs, r.value.1); }
  }

  lemma {:induction false} SlashesText(n: nat)
    ensures |Slashes(n)| == n && (n > 0 ==> Slashes(n)[0] == '/')
  {
    if n > 0 { SlashesText(n - 1); }
  }

  /** A relative path resolves as the text behind its absolute working directory, when that fits; an
      absolute one without it. */
  lemma StartsAtCwd(st: S.State, host: Host, path: string, cwd: Option<string>)
    ensures |path| > 0 && path[0] == '/' ==> Resolve(st, host, path, cwd) == Resolve(st, host, path, None)
    ensures |path| > 0 && path[0] != '/' ==>
      if cwd.Some? && |cwd.value| > 0 && cwd.value[0] == '/'
      then Resolve(st, host, path, cwd) == Resolve(st, host, cwd.value + "/" + path, None)
      else Resolve(st, host, path, cwd) == Err(ENAMETOOLONG)
    ensures |path| >= S.PATH_SIZE ==> Resolve(st, host, path, None) == Err(ENAMETOOLONG)
    ensures |path| == 0 ==> Resolve(st, host, path, cwd) == Err(ENOENT)
  {
    hide Walk, Pieces;
  }
}

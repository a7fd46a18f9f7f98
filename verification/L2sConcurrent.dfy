/** One chain under concurrent link() and unlink() calls from any number of threads.

    A call is a sequence of separate steps; only update_small, the read-modify-write of the count,
    is atomic.  The steps of all threads interleave freely.  As in the code's own setting, calls
    unlink distinct names and no call links from a name that another call is unlinking. */
module L2sConcurrent {
  import L2sNames

  type Name = string
  type Tid = nat

  /** Where a thread stands in its call. */
  datatype Pc =
    | Linking(src: Name, dst: Name)       // resolved the chain, count not yet raised
    | Counted(src: Name, dst: Name)       // count raised, name not yet there
    | Undoing(src: Name, dst: Name)       // the name could not be made, count not yet lowered
    | Unlinking(name: Name)               // resolved the chain, count not yet lowered
    | Freeing(name: Name, files: nat)     // saw the count reach 0; so many files removed
    | Leaving(name: Name)                 // only the name itself is left to remove
    | Finished

  datatype State = State(
    cnt: int,
    names: set<Name>,
    threads: map<Tid, Pc>,
    mid: bool, final: bool, side: bool,
    zeros: nat)                           // how many unlink calls have seen the count reach 0

  predicate Links(pc: Pc) { pc.Linking? || pc.Counted? || pc.Undoing? }

  predicate Unlinks(pc: Pc) { pc.Unlinking? || pc.Freeing? || pc.Leaving? }

  /** Past the decrement: the name no longer counts. */
  predicate Released(pc: Pc) { pc.Freeing? || pc.Leaving? }

  /** Between the increment and the name. */
  predicate Pending(pc: Pc) { pc.Counted? || pc.Undoing? }

  predicate Idle(s: State, t: Tid) {
    t in s.threads ==> s.threads[t].Finished?
  }

  predicate BeingUnlinked(s: State, n: Name) {
    exists t :: t in s.threads && Unlinks(s.threads[t]) && s.threads[t].name == n
  }

  predicate LinkedFrom(s: State, n: Name) {
    exists t :: t in s.threads && Links(s.threads[t]) && s.threads[t].src == n
  }

  datatype Event =
    | StartLink(src: Name, dst: Name)
    | Increment
    | AddName(works: bool)
    | Undo
    | StartUnlink(name: Name)
    | Decrement
    | FreeFile
    | RemoveName

  predicate Enabled(s: State, t: Tid, e: Event) {
    match e
    case StartLink(src, _) => Idle(s, t) && src in s.names && !BeingUnlinked(s, src)
    case StartUnlink(n) => Idle(s, t) && n in s.names && !BeingUnlinked(s, n) && !LinkedFrom(s, n)
    case Increment => t in s.threads && s.threads[t].Linking?
    case AddName(works) => t in s.threads && s.threads[t].Counted? && (works ==> s.threads[t].dst !in s.names)
    case Undo => t in s.threads && s.threads[t].Undoing?
    case Decrement => t in s.threads && s.threads[t].Unlinking?
    case FreeFile => t in s.threads && s.threads[t].Freeing? && s.threads[t].files < 3
    case RemoveName => t in s.threads && (s.threads[t].Leaving? || (s.threads[t].Freeing? && s.threads[t].files == 3))
  }

  function Go(s: State, t: Tid, pc: Pc): State {
    s.(threads := s.threads[t := pc])
  }

  /** The steps.  update_small refuses to leave 0..NLINK_MAX and the call then ends. */
  function Next(s: State, t: Tid, e: Event): State
    requires Enabled(s, t, e)
  {
    match e
    case StartLink(src, dst) => Go(s, t, Linking(src, dst))
    case StartUnlink(n) => Go(s, t, Unlinking(n))
    case Increment =>
      if s.cnt + 1 > L2sNames.NLINK_MAX then Go(s, t, Finished)
      else Go(s.(cnt := s.cnt + 1), t, Counted(s.threads[t].src, s.threads[t].dst))
    case AddName(works) =>
      if works then Go(s.(names := s.names + {s.threads[t].dst}), t, Finished)
      else Go(s, t, Undoing(s.threads[t].src, s.threads[t].dst))
    case Undo =>
      if s.cnt - 1 < 0 then Go(s, t, Finished) else Go(s.(cnt := s.cnt - 1), t, Finished)
    case Decrement =>
      if s.cnt - 1 < 0 then Go(s, t, Finished)
      else if s.cnt - 1 == 0 then Go(s.(cnt := 0, zeros := s.zeros + 1), t, Freeing(s.threads[t].name, 0))
      else Go(s.(cnt := s.cnt - 1), t, Leaving(s.threads[t].name))
    case FreeFile =>
      var k := s.threads[t].files;
      var freed := if k == 0 then s.(mid := false) else if k == 1 then s.(final := false) else s.(side := false);
      Go(freed, t, Freeing(s.threads[t].name, k + 1))
    case RemoveName =>
      Go(s.(names := s.names - {s.threads[t].name}), t, Finished)
  }

  // ----- the invariant -----

  /** The names some unlink has already taken off the count. */
  function ReleasedNames(s: State): set<Name> {
    set t | t in s.threads && Released(s.threads[t]) :: s.threads[t].name
  }

  /** The names that still count. */
  function Held(s: State): set<Name> {
    s.names - ReleasedNames(s)
  }

  function PendingLinks(s: State): set<Tid> {
    set t | t in s.threads && Pending(s.threads[t])
  }

  predicate CallsApart(s: State) {
    && (forall t :: t in s.threads && Unlinks(s.threads[t]) ==> s.threads[t].name in s.names)
    && (forall t, u :: t in s.threads && u in s.threads && t != u && Unlinks(s.threads[t]) && Unlinks(s.threads[u])
          ==> s.threads[t].name != s.threads[u].name)
    && (forall t, u :: t in s.threads && u in s.threads && Links(s.threads[t]) && Unlinks(s.threads[u])
          ==> s.threads[t].src != s.threads[u].name)
    && (forall t :: t in s.threads && Links(s.threads[t]) ==> s.threads[t].src in s.names)
  }

  predicate Frees(s: State, t: Tid) {
    t in s.threads && s.threads[t].Freeing?
  }

  predicate FilesMatch(s: State, k: nat) {
    k <= 3 && s.mid == (k < 1) && s.final == (k < 2) && s.side == (k < 3)
  }

  /** The files disappear in order, by the one thread that frees them. */
  ghost predicate FilesFollow(s: State) {
    && (s.zeros == 0 ==> s.mid && s.final && s.side)
    && (forall t, u :: Frees(s, t) && Frees(s, u) ==> t == u)
    && (forall t :: Frees(s, t) ==> s.zeros == 1 && FilesMatch(s, s.threads[t].files))
    && (s.zeros > 0 && (s.mid || s.final || s.side) ==> exists t :: Frees(s, t))
  }

  ghost predicate Inv(s: State) {
    CallsApart(s) && Exact(s) && FilesFollow(s)
  }

  // ----- preservation -----

  lemma Members<T>(s: set<T>, x: T)
    ensures x in s ==> |s - {x}| == |s| - 1
    ensures x !in s ==> |s + {x}| == |s| + 1
  {
  }

  /** A link call's moves release no name; they change only whether it is pending. */
  lemma LinkMoves(s: State, now: State, t: Tid, pc: Pc)
    requires CallsApart(s) && now.threads == s.threads[t := pc]
    requires !Released(pc) && (t in s.threads ==> !Released(s.threads[t]))
    ensures ReleasedNames(now) == ReleasedNames(s) <= s.names
    ensures Pending(pc) ==> PendingLinks(now) == PendingLinks(s) + {t}
    ensures !Pending(pc) ==> PendingLinks(now) == PendingLinks(s) - {t}
    ensures t in PendingLinks(s) <==> t in s.threads && Pending(s.threads[t])
  {
    MovesReleased(s, now, t, pc);
    hide CallsApart, ReleasedNames;
  }

  /** An unlink call's later moves pend nothing. */
  lemma UnlinkMoves(s: State, now: State, t: Tid, pc: Pc)
    requires CallsApart(s) && now.threads == s.threads[t := pc]
    requires t in s.threads && Unlinks(s.threads[t]) && (pc.Finished? || (Released(pc) && pc.name == s.threads[t].name))
    ensures PendingLinks(now) == PendingLinks(s)
    ensures Released(pc) ==> ReleasedNames(now) == ReleasedNames(s) + {s.threads[t].name}
    ensures !Released(pc) && Released(s.threads[t]) ==> ReleasedNames(now) == ReleasedNames(s) - {s.threads[t].name}
    ensures !Released(pc) && !Released(s.threads[t]) ==> ReleasedNames(now) == ReleasedNames(s)
    ensures Released(s.threads[t]) ==> s.threads[t].name in ReleasedNames(s)
  {
    MovesReleased(s, now, t, pc);
    hide CallsApart;
  }

  lemma MovesReleased(s: State, now: State, t: Tid, pc: Pc)
    requires CallsApart(s) && now.threads == s.threads[t := pc]
    ensures ReleasedNames(now) ==
      (if t in s.threads && Released(s.threads[t]) then ReleasedNames(s) - {s.threads[t].name} else ReleasedNames(s))
                                 + (if Released(pc) then {pc.name} else {})
    ensures ReleasedNames(s) <= s.names
  {
    var gone := if t in s.threads && Released(s.threads[t]) then ReleasedNames(s) - {s.threads[t].name}
      else ReleasedNames(s);
    var more := if Released(pc) then {pc.name} else {};
    forall n | n in gone ensures n in ReleasedNames(now) {
      var u :| u in s.threads && Released(s.threads[u]) && s.threads[u].name == n;
      assert u != t && now.threads[u] == s.threads[u];
    }
    forall n | n in more ensures n in ReleasedNames(now) {
      assert now.threads[t].name == n;
    }
    forall n | n in ReleasedNames(now) ensures n in gone + more {
      var u :| u in now.threads && Released(now.threads[u]) && now.threads[u].name == n;
      if u != t { assert s.threads[u] == now.threads[u]; }
    }
  }

  lemma SourceIsHeld(s: State, t: Tid)
    requires CallsApart(s) && t in s.threads && Links(s.threads[t])
    ensures s.threads[t].src in Held(s) && |Held(s)| >= 1
  {
    Members(Held(s), s.threads[t].src);
  }

  lemma UnlinkedIsHeld(s: State, t: Tid)
    requires CallsApart(s) && t in s.threads && s.threads[t].Unlinking?
    ensures s.threads[t].name in Held(s) && |Held(s)| >= 1
  {
    Members(Held(s), s.threads[t].name);
  }

  /** A thread may take up a call that fits in with the others. */
  lemma CallFits(s: State, t: Tid, pc: Pc)
    requires CallsApart(s)
    requires Unlinks(pc) ==> pc.name in s.names
    requires Unlinks(pc) ==> forall u :: u in s.threads && u != t ==>
      (Unlinks(s.threads[u]) ==> s.threads[u].name != pc.name) && (Links(s.threads[u]) ==> s.threads[u].src != pc.name)
    requires Links(pc) ==> pc.src in s.names
    requires Links(pc) ==> forall u :: u in s.threads && u != t && Unlinks(s.threads[u]) ==> s.threads[u].name != pc.src
    ensures CallsApart(Go(s, t, pc))
  {
  }

  /** Names may come and go as long as no call is about them. */
  lemma NamesFit(s: State, names: set<Name>)
    requires CallsApart(s)
    requires forall t :: t in s.threads && Unlinks(s.threads[t]) && s.threads[t].name in s.names ==>
      s.threads[t].name in names
    requires forall t :: t in s.threads && Links(s.threads[t]) && s.threads[t].src in s.names ==>
      s.threads[t].src in names
    ensures CallsApart(s.(names := names))
  {
  }

  lemma CallsStayApart(s: State, t: Tid, e: Event)
    requires CallsApart(s) && Enabled(s, t, e)
    ensures CallsApart(Next(s, t, e))
  {
    hide CallsApart, BeingUnlinked, LinkedFrom;
    match e
    case StartLink(src, dst) => StartLinkFits(s, t, src, dst);
    case StartUnlink(n) => StartUnlinkFits(s, t, n);
    case AddName(works) =>
      var s1 := s.(names := s.names + {s.threads[t].dst});
      NamesFit(s, s1.names);
      ContinueFits(s1, t, Finished);
      if !works { ContinueFits(s, t, Undoing(s.threads[t].src, s.threads[t].dst)); }
    case RemoveName =>
      var n := s.threads[t].name;
      ContinueFits(s, t, Finished);
      RemovedFits(s, t, n);
    case _ =>
      var now := Next(s, t, e);
      ContinueFits(s, t, now.threads[t]);
      CallsOnly(Go(s, t, now.threads[t]), now);
  }

  lemma CallsOnly(s: State, now: State)
    requires CallsApart(s) && now.threads == s.threads && now.names == s.names
    ensures CallsApart(now)
  {
  }

  lemma ContinueFits(s: State, t: Tid, pc: Pc)
    requires CallsApart(s) && t in s.threads
    requires pc.Finished? || (Links(s.threads[t]) && Links(pc) && pc.src == s.threads[t].src)
          || (Unlinks(s.threads[t]) && Unlinks(pc) && pc.name == s.threads[t].name)
    ensures CallsApart(Go(s, t, pc))
  {
    CallFits(s, t, pc);
  }

  lemma StartLinkFits(s: State, t: Tid, src: Name, dst: Name)
    requires CallsApart(s) && Enabled(s, t, StartLink(src, dst))
    ensures CallsApart(Go(s, t, Linking(src, dst)))
  {
    CallFits(s, t, Linking(src, dst));
  }

  lemma StartUnlinkFits(s: State, t: Tid, n: Name)
    requires CallsApart(s) && Enabled(s, t, StartUnlink(n))
    ensures CallsApart(Go(s, t, Unlinking(n)))
  {
    CallFits(s, t, Unlinking(n));
  }

  lemma RemovedFits(s: State, t: Tid, n: Name)
    requires CallsApart(s) && t in s.threads && Unlinks(s.threads[t]) && s.threads[t].name == n
    ensures CallsApart(Go(s.(names := s.names - {n}), t, Finished))
  {
    var s1 := Go(s, t, Finished);
    CallFits(s, t, Finished);
    NamesFit(s1, s.names - {n});
  }

  /** The count and the number of threads that saw 0 agree with the sets. */
  predicate Exact(s: State) {
    s.cnt == |Held(s)| + |PendingLinks(s)| && s.zeros == (if s.cnt == 0 then 1 else 0)
  }

  /** The same count when both sets are as large as before. */
  lemma SameSizes(s: State, now: State)
    requires Exact(s) && Held(now) == Held(s) && PendingLinks(now) == PendingLinks(s) && now.cnt == s.cnt
    requires now.zeros == s.zeros
    ensures Exact(now)
  {
    hide Held, PendingLinks;
  }

  lemma SameHeld(s: State, now: State)
    requires now.names == s.names && ReleasedNames(now) == ReleasedNames(s)
    ensures Held(now) == Held(s)
  {
    hide ReleasedNames;
  }

  /** The arithmetic of the count: each set changes by exactly one member or not at all. */
  lemma Recount(s: State, now: State, names: int, links: int)
    requires Exact(s) && |Held(now)| == |Held(s)| + names && |PendingLinks(now)| == |PendingLinks(s)| + links
    requires now.cnt == s.cnt + names + links && s.cnt > 0
    requires now.zeros == if now.cnt == 0 then s.zeros + 1 else s.zeros
    ensures Exact(now)
  {
    hide Held, PendingLinks;
  }

  lemma PositiveCount(s: State)
    requires Exact(s) && |Held(s)| >= 1
    ensures s.cnt > |PendingLinks(s)|
  {
    hide Held, PendingLinks;
  }

  lemma IncrementExact(s: State, t: Tid)
    requires CallsApart(s) && Exact(s) && Enabled(s, t, Increment)
    ensures Exact(Next(s, t, Increment))
  {
    hide CallsApart, ReleasedNames, PendingLinks, Held, Exact;
    assert s.cnt > 0 by { SourceIsHeld(s, t); PositiveCount(s); }
    var now := Next(s, t, Increment);
    LinkMoves(s, now, t, now.threads[t]);
    SameHeld(s, now);
    Members(PendingLinks(s), t);
    SourceIsHeld(s, t);
    Recount(s, now, 0, if now.threads[t].Counted? then 1 else 0);
  }

  lemma AddNameExact(s: State, t: Tid, works: bool)
    requires CallsApart(s) && Exact(s) && Enabled(s, t, AddName(works))
    ensures Exact(Next(s, t, AddName(works)))
  {
    hide CallsApart, ReleasedNames, PendingLinks;
    var now := Next(s, t, AddName(works));
    LinkMoves(s, now, t, now.threads[t]);
    Members(PendingLinks(s), t);
    SourceIsHeld(s, t);
    var dst := s.threads[t].dst;
    if works {
      assert Held(now) == Held(s) + {dst};
      Members(Held(s), dst);
    } else {
      SameHeld(s, now);
      assert PendingLinks(now) == PendingLinks(s);
      SameSizes(s, now);
    }
  }

  lemma UndoExact(s: State, t: Tid)
    requires CallsApart(s) && Exact(s) && Enabled(s, t, Undo)
    ensures Exact(Next(s, t, Undo))
  {
    hide CallsApart, ReleasedNames, PendingLinks, Held, Exact;
    SourceIsHeld(s, t);
    PositiveCount(s);
    var now := Next(s, t, Undo);
    LinkMoves(s, now, t, now.threads[t]);
    SameHeld(s, now);
    Members(PendingLinks(s), t);
    Recount(s, now, 0, -1);
  }

  lemma DecrementExact(s: State, t: Tid)
    requires CallsApart(s) && Exact(s) && Enabled(s, t, Decrement)
    ensures Exact(Next(s, t, Decrement))
  {
    hide CallsApart, ReleasedNames, PendingLinks, Exact;
    assert s.cnt > 0 by { UnlinkedIsHeld(s, t); PositiveCount(s); }
    var now := Next(s, t, Decrement);
    UnlinkedIsHeld(s, t);
    UnlinkMoves(s, now, t, now.threads[t]);
    var n := s.threads[t].name;
    assert Held(now) == Held(s) - {n};
    Members(Held(s), n);
    Recount(s, now, -1, 0);
  }

  lemma StartExact(s: State, t: Tid, e: Event)
    requires CallsApart(s) && Exact(s) && Enabled(s, t, e) && (e.StartLink? || e.StartUnlink?)
    ensures Exact(Next(s, t, e))
  {
    hide CallsApart, ReleasedNames, PendingLinks, BeingUnlinked, LinkedFrom, Held, Exact;
    var now := Next(s, t, e);
    LinkMoves(s, now, t, now.threads[t]);
    SameHeld(s, now);
    assert PendingLinks(now) == PendingLinks(s);
    SameSizes(s, now);
  }

  lemma CleanUpExact(s: State, t: Tid, e: Event)
    requires CallsApart(s) && Exact(s) && Enabled(s, t, e) && (e.FreeFile? || e.RemoveName?)
    ensures Exact(Next(s, t, e))
  {
    hide CallsApart, ReleasedNames, PendingLinks, Exact;
    var now := Next(s, t, e);
    UnlinkMoves(s, now, t, now.threads[t]);
    assert Held(now) == Held(s);
    SameSizes(s, now);
  }

  lemma StaysExact(s: State, t: Tid, e: Event)
    requires CallsApart(s) && Exact(s) && Enabled(s, t, e)
    ensures Exact(Next(s, t, e))
  {
    hide CallsApart, Exact, Next, Enabled;
    match e
    case Increment => IncrementExact(s, t);
    case AddName(works) => AddNameExact(s, t, works);
    case Undo => UndoExact(s, t);
    case Decrement => DecrementExact(s, t);
    case FreeFile => CleanUpExact(s, t, e);
    case RemoveName => CleanUpExact(s, t, e);
    case _ => StartExact(s, t, e);
  }

  /** A step that touches no file and no freeing thread. */
  lemma FilesUntouched(s: State, now: State, t: Tid)
    requires FilesFollow(s) && now.zeros == s.zeros && now.mid == s.mid && now.final == s.final && now.side == s.side
    requires !Frees(s, t) && !Frees(now, t)
    requires forall u :: u != t ==>
      (u in s.threads <==> u in now.threads) && (u in s.threads ==> now.threads[u] == s.threads[u])
    ensures FilesFollow(now)
  {
    forall u | u != t ensures Frees(now, u) <==> Frees(s, u) {}
  }

  lemma FreeFileFollows(s: State, t: Tid)
    requires FilesFollow(s) && Enabled(s, t, FreeFile)
    ensures FilesFollow(Next(s, t, FreeFile))
  {
    var now := Next(s, t, FreeFile);
    assert Frees(s, t) && Frees(now, t);
    forall u | u != t ensures Frees(now, u) <==> Frees(s, u) {}
  }

  lemma LastFileFollows(s: State, t: Tid)
    requires FilesFollow(s) && Enabled(s, t, RemoveName)
    ensures FilesFollow(Next(s, t, RemoveName))
  {
    var now := Next(s, t, RemoveName);
    forall u | u != t ensures Frees(now, u) <==> Frees(s, u) {}
    if !Frees(s, t) { FilesUntouched(s, now, t); } else { assert FilesMatch(s, 3); }
  }

  lemma DecrementFollows(s: State, t: Tid)
    requires CallsApart(s) && Exact(s) && FilesFollow(s) && Enabled(s, t, Decrement)
    ensures FilesFollow(Next(s, t, Decrement))
  {
    hide CallsApart, Held, PendingLinks;
    var now := Next(s, t, Decrement);
    UnlinkedIsHeld(s, t);
    assert s.zeros == 0;
    if now.threads[t].Freeing? {
      assert Frees(now, t) && FilesMatch(s, 0);
      forall u | u != t ensures !Frees(now, u) { assert Frees(now, u) ==> Frees(s, u); }
    } else {
      FilesUntouched(s, now, t);
    }
  }

  lemma FilesStillFollow(s: State, t: Tid, e: Event)
    requires CallsApart(s) && Exact(s) && FilesFollow(s) && Enabled(s, t, e)
    ensures FilesFollow(Next(s, t, e))
  {
    hide CallsApart, Exact, FilesFollow, FilesMatch, BeingUnlinked, LinkedFrom;
    match e
    case FreeFile => FreeFileFollows(s, t);
    case RemoveName => LastFileFollows(s, t);
    case Decrement => DecrementFollows(s, t);
    case _ => FilesUntouched(s, Next(s, t, e), t);
  }

  lemma StepKeepsInv(s: State, t: Tid, e: Event)
    requires Inv(s) && Enabled(s, t, e)
    ensures Inv(Next(s, t, e))
  {
    hide CallsApart, Exact, FilesFollow, Next, Enabled;
    CallsStayApart(s, t, e);
    StaysExact(s, t, e);
    FilesStillFollow(s, t, e);
  }

  // ----- whole runs -----

  predicate Start(s: State) {
    && s.threads == map[] && s.names != {} && s.cnt == |s.names| && s.zeros == 0
    && s.mid && s.final && s.side
  }

  predicate IsRun(run: seq<State>, moves: seq<(Tid, Event)>) {
    && |run| == |moves| + 1 && Start(run[0])
    && forall i :: 0 <= i < |moves| ==>
         Enabled(run[i], moves[i].0, moves[i].1) && run[i + 1] == Next(run[i], moves[i].0, moves[i].1)
  }

  lemma {:induction false} RunKeepsInv(run: seq<State>, moves: seq<(Tid, Event)>, n: nat)
    requires IsRun(run, moves) && n <= |moves|
    ensures Inv(run[n])
    decreases n
  {
    if n == 0 {
      assert ReleasedNames(run[0]) == {} && PendingLinks(run[0]) == {};
      assert Held(run[0]) == run[0].names;
      Members(run[0].names, var x :| x in run[0].names; x);
    } else {
      RunKeepsInv(run, moves, n - 1);
      StepKeepsInv(run[n - 1], moves[n - 1].0, moves[n - 1].1);
    }
  }

  /** In every interleaving: the count is the names that still count plus the links under way; at
      most one unlink sees 0, and exactly one once nothing counts any more; the data file is never
      removed while any name still counts. */
  lemma Interleavings(run: seq<State>, moves: seq<(Tid, Event)>, n: nat)
    requires IsRun(run, moves) && n <= |moves|
    ensures var s := run[n];
      && s.cnt == |Held(s)| + |PendingLinks(s)|
      && s.zeros <= 1 && (s.zeros == 1 <==> Held(s) == {} && PendingLinks(s) == {})
      && (Held(s) != {} ==> s.mid && s.final && s.side)
  {
    RunKeepsInv(run, moves, n);
  }

  /** When every call has returned, a chain with names is complete and a chain without is gone. */
  lemma Quiescent(run: seq<State>, moves: seq<(Tid, Event)>, n: nat)
    requires IsRun(run, moves) && n <= |moves|
    requires forall t :: t in run[n].threads ==> run[n].threads[t].Finished?
    ensures var s := run[n];
      && s.cnt == |s.names|
      && (if s.names == {} then !s.mid && !s.final && !s.side else s.mid && s.final && s.side)
  {
    RunKeepsInv(run, moves, n);
    var s := run[n];
    hide IsRun, CallsApart;
    assert ReleasedNames(s) == {} && PendingLinks(s) == {};
    assert Held(s) == s.names;
  }
}

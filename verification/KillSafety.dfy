/** Kill safety over histories: what one reap guarantees until the pid is added again. */
module KillSafety {
  import opened Wrappers
  import opened LedgerTable
  import opened Powers
  import opened Ledger

  /** No entry of `p`, in either dimension, claims a live process. */
  predicate Safe(m: map<Key, Entry>, p: int) {
    !IsLive(m, Key(p, Pid)) && !IsLive(m, Key(p, Pgid))
  }

  /** A step that may make `p` killable again. */
  predicate Revives(e: Event, p: int) {
    e.AddEvent? && e.ok && e.key.pid == p
  }

  /** Every operation but a successful addition of `p` keeps `p` safe: insertions of others with
      the compaction, growth and eviction they cause, reaping, removal and clearing included. */
  lemma StepKeepsSafe(m: map<Key, Entry>, e: Event, now: map<Key, Entry>, p: int)
    requires Safe(m, p) && Steps(m, e, now) && !Revives(e, p)
    ensures Safe(now, p)
  {
    if e.AddEvent? {
    } else if e.EvictEvent? {
      var gone :| Evicted(m, gone) && now == m - gone;
    }
  }

  ghost predicate History(ms: seq<map<Key, Entry>>, es: seq<Event>) {
    |ms| == |es| + 1 && forall i :: 0 <= i < |es| ==> Steps(ms[i], es[i], ms[i + 1])
  }

  lemma {:induction false} HistoryKeepsSafe(ms: seq<map<Key, Entry>>, es: seq<Event>, p: int)
    requires History(ms, es) && Safe(ms[0], p)
    requires forall e :: e in es ==> !Revives(e, p)
    ensures Safe(ms[|es|], p)
    decreases |es|
  {
    if |es| > 0 {
      var n := |es| - 1;
      HistoryKeepsSafe(ms[..|es|], es[..n], p);
      StepKeepsSafe(ms[n], es[n], ms[n + 1], p);
    }
  }

  /** Exactly when a safe pid may still be signalled under the default policy. */
  lemma SafeVerdicts(m: map<Key, Entry>, sys: SysView, self: int, p: int, sig: int)
    requires Safe(m, p) && p > 0
    ensures Judge(m, false, DEFAULT_POLICY, sys, self, p, sig) == Pass <==>
      sig == SIGCHLD || (self == p) || (Key(p, Pid) !in m && self > 0 && sys.ppid == Some(p))
    ensures Judge(m, false, DEFAULT_POLICY, sys, self, -p, sig) == Pass <==>
      sig == SIGCHLD || (p != 1 && sys.pgrp == Some(p))
  {
  }

  /** After a reap, and through any history without a successful addition of `p`, neither `kill(p)`
      nor `kill(-p)` passes; self, parent, own group and SIGCHLD aside. */
  lemma ReapedStaysDenied(ms: seq<map<Key, Entry>>, es: seq<Event>, sys: SysView, self: int, p: int, sig: int)
    requires History(ms, es) && |es| > 0 && es[0] == ReapEvent(p) && p > 0
    requires forall i :: 0 < i < |es| ==> !Revives(es[i], p)
    requires sig != SIGCHLD && self != p && sys.ppid != Some(p) && sys.pgrp != Some(p)
    ensures Judge(ms[|es|], false, DEFAULT_POLICY, sys, self, p, sig) == Deny
    ensures Judge(ms[|es|], false, DEFAULT_POLICY, sys, self, -p, sig) == Deny
  {
    assert Steps(ms[0], es[0], ms[1]);
    assert Safe(ms[1], p);
    HistoryKeepsSafe(ms[1..], es[1..], p);
    SafeVerdicts(ms[|es|], sys, self, p, sig);
  }

  /** Adding `p` again under the caller's own fork or spawn always makes it killable; under any
      other tag, only when the ledger had forgotten it. */
  lemma WhenAddingRevives(m: map<Key, Entry>, ppid: int, tag: nat, clock: nat, p: int)
    requires Safe(m, p)
    ensures var now := Stored(m, Key(p, Pid), ppid, tag, clock);
      Safe(now, p) <==> Key(p, Pid) in m && tag != TAG_FORK && tag != TAG_SPAWN
  {
  }

  /** On the ledger: below its limit and with memory, adding a reaped pid keeps it protected exactly
      when the ledger still knows it and the tag is neither fork nor spawn. */
  method AddAfterReap(l: PxLedger, p: int, ppid: int, tag: nat) returns (rc: Rc)
    requires l.Valid() && !l.disabled && p > 0 && Safe(l.m, p) && l.memory >= 2 && l.slots.Length < MAX_SLOTS
    modifies l, l.slots
    ensures l.Valid() && rc == OK
    ensures Safe(l.m, p) <==> Key(p, Pid) in old(l.m) && tag != TAG_FORK && tag != TAG_SPAWN
  {
    hide Stored, Safe, Sound, Agrees, PowerOfTwo, Added;
    rc := l.Add(p, ppid, tag);
    WhenAddingRevives(old(l.m), ppid, tag, l.clock, p);
  }

  // ----- the verdicts by what the ledger knows -----

  /** The process that `p` names lives, as far as the ledger knows. */
  predicate Alive(m: map<Key, Entry>, p: int) { IsLive(m, Key(p, Pid)) }

  /** An entry of `p` lives, as a process or as a group, and none is reaped. */
  predicate GroupAlive(m: map<Key, Entry>, p: int) {
    && (IsLive(m, Key(p, Pid)) || IsLive(m, Key(p, Pgid)))
    && !IsReaped(m, Key(p, Pid)) && !IsReaped(m, Key(p, Pgid))
  }

  /** kill(p) under any policy: a live process may always be signalled; a reaped one only by itself; an
      unknown one by itself or as the parent. */
  lemma PidVerdict(m: map<Key, Entry>, disabled: bool, pol: Policy, sys: SysView, self: int, p: int, sig: int)
    requires p > 0
    ensures var always := disabled || sig == SIGCHLD || (pol.protectSelf && self == p);
      Judge(m, disabled, pol, sys, self, p, sig) == Pass <==>
        if Alive(m, p) then true
        else if Key(p, Pid) in m then always
        else always || (pol.allowParent && self > 0 && sys.ppid == Some(p))
  {
  }

  /** kill(-p), kill(-1) and kill(0) under any policy: a group that lives may be signalled when groups may
      be at all; any other only as the caller's own; everyone at once only by an explicit choice. */
  lemma GroupVerdict(m: map<Key, Entry>, disabled: bool, pol: Policy, sys: SysView, self: int, p: int, sig: int)
    requires p >= 0
    ensures Judge(m, disabled, pol, sys, self, -p, sig) == Pass <==>
      || disabled || sig == SIGCHLD
      || (if p <= 1 then pol.allowBroadcast else pol.allowGroup && (GroupAlive(m, p) || sys.pgrp == Some(p)))
  {
  }

  // ----- what an addition guarantees -----

  /** A step that may end what an addition of `p` allowed. */
  predicate Ends(e: Event, p: int) {
    e == ReapEvent(p) || (e.RemoveEvent? && e.key.pid == p) || e.ClearEvent?
  }

  /** A successful addition that makes the entry live: of a new key, of a live one, or by the caller's
      own fork or spawn. */
  predicate Enlivens(m: map<Key, Entry>, e: Event, k: Key) {
    e.AddEvent? && e.ok && e.key == k && (k !in m || IsLive(m, k) || e.tag == TAG_FORK || e.tag == TAG_SPAWN)
  }

  lemma AddedIsAlive(m: map<Key, Entry>, e: Event, now: map<Key, Entry>, k: Key)
    requires Steps(m, e, now) && Enlivens(m, e, k)
    ensures IsLive(now, k)
    ensures forall j :: j != k && IsReaped(now, j) ==> IsReaped(m, j)
  {
    var gone, clock :| AddedAt(m, k, e.ppid, e.tag, e.ok, now, gone, clock);
  }

  /** No other operation ends it: neither later additions of any pid with the compaction, growth and
      eviction they cause, nor eviction itself, nor anything done to another pid. */
  lemma StepKeepsAlive(m: map<Key, Entry>, e: Event, now: map<Key, Entry>, p: int)
    requires Steps(m, e, now) && !Ends(e, p)
    ensures Alive(m, p) ==> Alive(now, p)
    ensures GroupAlive(m, p) ==> GroupAlive(now, p)
  {
    if e.AddEvent? {
      var gone, clock :| AddedAt(m, e.key, e.ppid, e.tag, e.ok, now, gone, clock);
    } else if e.EvictEvent? {
      var gone :| Evicted(m, gone) && now == m - gone;
    }
  }

  lemma {:induction false} HistoryKeepsAlive(ms: seq<map<Key, Entry>>, es: seq<Event>, p: int)
    requires History(ms, es) && forall e :: e in es ==> !Ends(e, p)
    ensures Alive(ms[0], p) ==> Alive(ms[|es|], p)
    ensures GroupAlive(ms[0], p) ==> GroupAlive(ms[|es|], p)
    decreases |es|
  {
    if |es| > 0 {
      var n := |es| - 1;
      HistoryKeepsAlive(ms[..|es|], es[..n], p);
      StepKeepsAlive(ms[n], es[n], ms[n + 1], p);
    }
  }

  /** After an addition that makes it live, and through any history that neither reaps nor removes `p` nor
      clears the ledger, `kill(p)` passes under every policy, and `kill(-p)` wherever groups may be
      signalled at all, unless the other dimension was reaped. */
  lemma AddedStaysPassed(ms: seq<map<Key, Entry>>, es: seq<Event>, p: int, kind: Kind, disabled: bool, pol: Policy,
      sys: SysView, self: int, sig: int)
    requires History(ms, es) && |es| > 0 && Enlivens(ms[0], es[0], Key(p, kind)) && p > 1
    requires forall i :: 0 < i < |es| ==> !Ends(es[i], p)
    ensures kind.Pid? ==> Judge(ms[|es|], disabled, pol, sys, self, p, sig) == Pass
    ensures !IsReaped(ms[0], Key(p, if kind.Pid? then Pgid else Pid)) ==>
      (Judge(ms[|es|], disabled, pol, sys, self, -p, sig) == Pass <==> disabled || sig == SIGCHLD || pol.allowGroup)
  {
    assert Steps(ms[0], es[0], ms[1]);
    AddedIsAlive(ms[0], es[0], ms[1], Key(p, kind));
    HistoryKeepsAlive(ms[1..], es[1..], p);
    PidVerdict(ms[|es|], disabled, pol, sys, self, p, sig);
    GroupVerdict(ms[|es|], disabled, pol, sys, self, p, sig);
  }

  // ----- the same over runs of the ledger itself -----

  datatype Command =
    | AddPid(pid: int, ppid: int, tag: nat)
    | AddGroup(pgid: int, tag: nat)
    | DoReap(pid: int)
    | DoRemove(pid: int, kind: Kind)
    | DoEvict(n: nat)
    | DoClear
    | SetDisabled(disabled: bool)
    | SetEviction(eviction: bool)

  /** A command that reaps or removes `p`, or clears the ledger. */
  predicate EndsIt(c: Command, p: int) {
    c == DoReap(p) || (c.DoRemove? && c.pid == p) || c.DoClear?
  }

  /** Run one command on the ledger; `revived` says whether it was a successful addition of `p`. */
  method Perform(l: PxLedger, c: Command, p: int) returns (revived: bool, ghost e: Event)
    requires l.Valid()
    modifies l, l.slots
    ensures l.Valid() && (l.slots == old(l.slots) || fresh(l.slots))
    ensures Steps(old(l.m), e, l.m) && (Revives(e, p) ==> revived)
    ensures revived ==> (c.AddPid? && c.pid == p) || (c.AddGroup? && c.pgid == p)
    ensures Ends(e, p) ==> EndsIt(c, p)
  {
    hide Added, Sound, Agrees, PowerOfTwo, ReapedPid;
    revived, e := false, QuietEvent;
    match c {
      case AddPid(pid, ppid, tag) =>
        var rc := l.Add(pid, ppid, tag);
        revived := rc == OK && pid == p;
        e := if l.disabled || pid <= 0 then QuietEvent else AddEvent(Key(pid, Pid), ppid, tag, rc == OK);
      case AddGroup(pgid, tag) =>
        var rc := l.AddPgid(pgid, tag);
        revived := rc == OK && pgid == p;
        e := if l.disabled || pgid <= 0 then QuietEvent else AddEvent(Key(pgid, Pgid), 0, tag, rc == OK);
      case DoReap(pid) =>
        var rc := l.Reap(pid);
        e := if l.disabled || pid <= 0 then QuietEvent else ReapEvent(pid);
      case DoRemove(pid, kind) =>
        var rc := l.Forget(pid, kind);
        e := if l.disabled then QuietEvent else RemoveEvent(Key(pid, kind));
      case DoEvict(n) =>
        var done, gone := l.Evict(n);
        assert Evicted(old(l.m), gone);
        e := EvictEvent;
      case DoClear =>
        l.Clear();
        e := ClearEvent;
      case SetDisabled(b) =>
        l.disabled := b;
      case SetEviction(b) =>
        l.eviction := b;
    }
  }

  /** Reap `p`, run any commands, then ask: if no addition of `p` succeeded meanwhile and the ledger
      is enabled, both forms of the kill are denied. */
  method ReapThenKill(l: PxLedger, p: int, cmds: seq<Command>, sys: SysView, self: int, sig: int)
    returns (revived: bool, one: Verdict, group: Verdict)
    requires l.Valid() && !l.disabled && p > 0
    requires sig != SIGCHLD && self != p && sys.ppid != Some(p) && sys.pgrp != Some(p)
    modifies l, l.slots
    ensures l.Valid()
    ensures !revived && !l.disabled ==> one == Deny && group == Deny
    ensures (forall c :: c in cmds ==> !(c.AddPid? && c.pid == p) && !(c.AddGroup? && c.pgid == p)) ==> !revived
  {
    hide Added, Sound, Agrees, PowerOfTwo, Passes, Judge;
    var rc := l.Reap(p);
    revived := false;
    var i := 0;
    while i < |cmds|
      invariant 0 <= i <= |cmds| && l.Valid() && (l.slots == old(l.slots) || fresh(l.slots))
      invariant !revived ==> Safe(l.m, p)
      invariant (forall c :: c in cmds ==> !(c.AddPid? && c.pid == p) && !(c.AddGroup? && c.pgid == p)) ==> !revived
    {
      ghost var was := l.m;
      var again, e := Perform(l, cmds[i], p);
      if !revived && !again { StepKeepsSafe(was, e, l.m, p); }
      revived := revived || again;
      i := i + 1;
    }
    one := l.CheckKill(DEFAULT_POLICY, sys, self, p, sig);
    group := l.CheckKill(DEFAULT_POLICY, sys, self, -p, sig);
    if !revived { SafeVerdicts(l.m, sys, self, p, sig); }
  }

  /** Add `p`, run any commands, then ask: when the addition made it live and no command reaped or removed
      `p` or cleared the ledger, the kill passes, and so does the group's unless groups may not be
      signalled or the group was reaped before. */
  method AddThenKill(l: PxLedger, p: int, ppid: int, tag: nat, cmds: seq<Command>, pol: Policy, sys: SysView,
      self: int, sig: int) returns (rc: Rc, one: Verdict, group: Verdict)
    requires l.Valid() && !l.disabled && p > 1
    requires Key(p, Pid) !in l.m || IsLive(l.m, Key(p, Pid)) || tag == TAG_FORK || tag == TAG_SPAWN
    modifies l, l.slots
    ensures l.Valid()
    ensures old(l.memory) >= 2 && old(l.slots.Length) < MAX_SLOTS ==> rc == OK
    ensures rc == OK && (forall c :: c in cmds ==> !EndsIt(c, p)) ==> one == Pass
    ensures rc == OK && (forall c :: c in cmds ==> !EndsIt(c, p)) && !IsReaped(old(l.m), Key(p, Pgid)) ==>
      (group == Pass <==> l.disabled || sig == SIGCHLD || pol.allowGroup)
  {
    hide Added, Sound, Agrees, PowerOfTwo, Passes, Judge, Alive, GroupAlive, Enlivens;
    ghost var was := l.m;
    rc := l.Add(p, ppid, tag);
    ghost var kept := rc == OK && forall c :: c in cmds ==> !EndsIt(c, p);
    if rc == OK { AliveNow(was, l.m, p, ppid, tag); }
    var i := 0;
    while i < |cmds|
      invariant 0 <= i <= |cmds| && l.Valid() && (l.slots == old(l.slots) || fresh(l.slots))
      invariant kept ==> Alive(l.m, p) && (!IsReaped(was, Key(p, Pgid)) ==> GroupAlive(l.m, p))
    {
      ghost var before := l.m;
      var again, e := Perform(l, cmds[i], p);
      if kept { StepKeepsAlive(before, e, l.m, p); }
      i := i + 1;
    }
    one := l.CheckKill(pol, sys, self, p, sig);
    group := l.CheckKill(pol, sys, self, -p, sig);
    PidVerdict(l.m, l.disabled, pol, sys, self, p, sig);
    GroupVerdict(l.m, l.disabled, pol, sys, self, p, sig);
  }

  lemma AliveNow(was: map<Key, Entry>, now: map<Key, Entry>, p: int, ppid: int, tag: nat)
    requires Added(was, Key(p, Pid), ppid, tag, true, now)
    requires Key(p, Pid) !in was || IsLive(was, Key(p, Pid)) || tag == TAG_FORK || tag == TAG_SPAWN
    ensures Alive(now, p) && (!IsReaped(was, Key(p, Pgid)) ==> GroupAlive(now, p))
  {
    hide Added;
    AddedIsAlive(was, AddEvent(Key(p, Pid), ppid, tag, true), now, Key(p, Pid));
  }
}

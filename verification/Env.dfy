/** Rebuilding a child's environment: the entries that are kept, and the ones that are forced. */
module Env {
  import opened Wrappers
  import P = Preload

  const ENVP_MAX: nat := 4096
  const PRELOAD_MAX: nat := 16384
  const NAME_MAX: nat := 32
  const ENTRY_MAX: nat := PRELOAD_MAX + NAME_MAX
  const PASSTHRU_MAX: nat := 32 * 4096
  const BUDGET: nat := 2 * 1024 * 1024

  datatype Mode = Set | MergePreload

  datatype Forced = Forced(name: Option<string>, value: Option<string>, mode: Mode)

  datatype Policy = Policy(forced: seq<Forced>, drop: seq<string>, maxEntries: nat, maxBytes: nat)

  datatype Rc = OK | ENOMEM | ETOOLONG | ENOSPC

  // ----- lookup -----

  /** Exactly `NAME=`, never a longer name. */
  predicate Matches(entry: string, name: string) {
    |name| > 0 && |name| < |entry| && entry[..|name|] == name && entry[|name|] == '='
  }

  function Entry(name: string, value: string): string { name + ['='] + value }

  /** The last entry of that name wins. */
  function Lookup(envp: seq<string>, name: string): Option<string> {
    if |envp| == 0 then None
    else if Matches(envp[|envp| - 1], name) then Some(envp[|envp| - 1][|name| + 1..])
    else Lookup(envp[..|envp| - 1], name)
  }

  function Visible(envp: seq<string>): seq<string> {
    if |envp| > ENVP_MAX then envp[..ENVP_MAX] else envp
  }

  method EnvLookup(envp: seq<string>, name: string) returns (hit: Option<string>)
    ensures hit == Lookup(Visible(envp), name)
  {
    hit := None;
    var i := 0;
    while i < ENVP_MAX && i < |envp|
      invariant i <= |Visible(envp)| && hit == Lookup(envp[..i], name)
    {
      assert envp[..i + 1][..i] == envp[..i];
      if Matches(envp[i], name) { hit := Some(envp[i][|name| + 1..]); }
      i := i + 1;
    }
    assert envp[..i] == Visible(envp);
  }

  /** A name that can name a variable. */
  predicate Plain(name: string) { |name| > 0 && forall i :: 0 <= i < |name| ==> name[i] != '=' }

  lemma EntryMatches(name: string, value: string, other: string)
    requires Plain(name) && Plain(other)
    ensures Matches(Entry(name, value), other) <==> other == name
    ensures Entry(name, value)[|name| + 1..] == value
  {
    var e := Entry(name, value);
    assert e[..|name|] == name && e[|name|] == '=';
    assert forall i :: 0 <= i < |name| ==> e[i] == name[i];
    assert Matches(e, other) ==> forall i :: 0 <= i < |other| ==> other[i] == e[i];
  }

  lemma {:induction false} LookupConcat(a: seq<string>, b: seq<string>, name: string)
    ensures Lookup(a + b, name) == if Lookup(b, name).Some? then Lookup(b, name) else Lookup(a, name)
    decreases |b|
  {
    hide Matches;
    if |b| == 0 {
      assert a + b == a;
    } else {
      assert (a + b)[..|a + b| - 1] == a + b[..|b| - 1];
      LookupConcat(a, b[..|b| - 1], name);
    }
  }

  lemma {:induction false} LookupMisses(envp: seq<string>, name: string)
    ensures Lookup(envp, name).None? <==> forall e :: e in envp ==> !Matches(e, name)
  {
    hide Matches;
    if |envp| > 0 { LookupMisses(envp[..|envp| - 1], name); }
  }

  // ----- what is carried over -----

  predicate Dropped(pol: Policy, e: string) { exists d :: d in pol.drop && Matches(e, d) }

  predicate IsForced(pol: Policy, e: string) {
    exists i :: 0 <= i < |pol.forced| && pol.forced[i].name.Some? && Matches(e, pol.forced[i].name.value)
  }

  /** Neither empty, nor dropped, nor about to be written by us. */
  predicate Eligible(pol: Policy, e: string) { |e| > 0 && !Dropped(pol, e) && !IsForced(pol, e) }

  /** Bytes with terminators. */
  function Size(es: seq<string>): nat {
    if |es| == 0 then 0 else Size(es[..|es| - 1]) + |es[|es| - 1]| + 1
  }

  /** The entries kept so far, the eligible ones lost, and how many of those were too long or over
      the budget. */
  datatype Kept = Kept(entries: seq<string>, lost: seq<string>, long: nat, over: nat)

  function Take(k: Kept, pol: Policy, limit: nat, half: nat, e: string): Kept {
    if !Eligible(pol, e) then k
    else if |k.entries| >= limit then k.(lost := k.lost + [e])
    else if |e| > PASSTHRU_MAX then k.(lost := k.lost + [e], long := k.long + 1)
    else if Size(k.entries) + |e| + 1 > half then k.(lost := k.lost + [e], over := k.over + 1)
    else k.(entries := k.entries + [e])
  }

  function Carry(envp: seq<string>, pol: Policy, limit: nat, half: nat): Kept {
    if |envp| == 0 then Kept([], [], 0, 0)
    else Take(Carry(envp[..|envp| - 1], pol, limit, half), pol, limit, half, envp[|envp| - 1])
  }

  lemma SizeSnoc(es: seq<string>, e: string)
    ensures Size(es + [e]) == Size(es) + |e| + 1
  {
    assert (es + [e])[..|es|] == es;
  }

  predicate Bounded(k: Kept, limit: nat, half: nat) {
    && Size(k.entries) <= half && |k.entries| <= limit
    && k.long + k.over <= |k.lost| && (|k.entries| < limit ==> |k.lost| == k.long + k.over)
  }

  /** Kept entries are eligible ones of the input, and every eligible one is kept or lost. */
  predicate Accounted(k: Kept, envp: seq<string>, pol: Policy) {
    && (forall e :: e in k.entries ==> Eligible(pol, e) && e in envp && |e| <= PASSTHRU_MAX)
    && (forall e :: e in envp && Eligible(pol, e) ==> e in k.entries || e in k.lost)
  }

  lemma TakeAccounts(k: Kept, envp: seq<string>, pol: Policy, limit: nat, half: nat, e: string)
    requires Accounted(k, envp, pol)
    ensures Accounted(Take(k, pol, limit, half, e), envp + [e], pol)
  {
    hide Eligible, Size;
    var now := Take(k, pol, limit, half, e);
    assert forall x :: x in envp + [e] <==> x in envp || x == e;
    assert forall x :: x in k.entries + [e] <==> x in k.entries || x == e;
    assert forall x :: x in k.lost + [e] <==> x in k.lost || x == e;
  }

  lemma TakeBounded(k: Kept, pol: Policy, limit: nat, half: nat, e: string)
    requires Bounded(k, limit, half)
    ensures Bounded(Take(k, pol, limit, half, e), limit, half)
  {
    SizeSnoc(k.entries, e);
    hide Eligible, Size;
  }

  lemma CarryUnfold(envp: seq<string>, pol: Policy, limit: nat, half: nat)
    requires |envp| > 0
    ensures Carry(envp, pol, limit, half) ==
      Take(Carry(envp[..|envp| - 1], pol, limit, half), pol, limit, half, envp[|envp| - 1])
  {
    hide Take;
  }

  lemma CarryNothing(envp: seq<string>, pol: Policy, limit: nat, half: nat)
    requires |envp| == 0
    ensures Bounded(Carry(envp, pol, limit, half), limit, half) && Accounted(Carry(envp, pol, limit, half), envp, pol)
  {
    hide Take, Eligible;
  }

  /** The first pass stays within its half of the budget, keeps only eligible entries, and accounts
      for every eligible one: kept, or lost; below the limit each loss is counted. */
  lemma {:induction false} CarryKeeps(envp: seq<string>, pol: Policy, limit: nat, half: nat)
    ensures Bounded(Carry(envp, pol, limit, half), limit, half) && Accounted(Carry(envp, pol, limit, half), envp, pol)
  {
    hide Eligible, Accounted, Bounded, Take, Size, Carry;
    if |envp| == 0 {
      CarryNothing(envp, pol, limit, half);
    } else {
      var e, rest := envp[|envp| - 1], envp[..|envp| - 1];
      var k := Carry(rest, pol, limit, half);
      CarryKeeps(rest, pol, limit, half);
      CarryUnfold(envp, pol, limit, half);
      TakeBounded(k, pol, limit, half, e);
      TakeAccounts(k, rest, pol, limit, half, e);
      assert envp == rest + [e];
    }
  }

  /** What is carried over is named by neither list, and is not empty. */
  lemma CarriedMeans(envp: seq<string>, pol: Policy, limit: nat, half: nat, e: string)
    requires e in Carry(envp, pol, limit, half).entries
    ensures e in envp && e != "" && forall d :: d in pol.drop ==> !Matches(e, d)
    ensures forall f :: f in pol.forced && f.name.Some? ==> !Matches(e, f.name.value)
  {
    hide Carry, Matches;
    CarryKeeps(envp, pol, limit, half);
  }

  // ----- which entries are lost -----

  /** The entries that are marked, in their order. */
  function Chosen(envp: seq<string>, kept: seq<bool>): seq<string>
    requires |kept| == |envp|
  {
    if |envp| == 0 then []
    else
      var n := |envp| - 1;
      Chosen(envp[..n], kept[..n]) + (if kept[n] then [envp[n]] else [])
  }

  /** Entry `i` comes when the limit is already reached. */
  predicate Late(envp: seq<string>, kept: seq<bool>, limit: nat, i: nat)
    requires |kept| == |envp| && i < |envp|
  {
    |Chosen(envp[..i], kept[..i])| >= limit
  }

  predicate Long(e: string) { |e| > PASSTHRU_MAX }

  /** Entry `i` does not fit half the budget behind what was kept before it. */
  predicate Over(envp: seq<string>, kept: seq<bool>, half: nat, i: nat)
    requires |kept| == |envp| && i < |envp|
  {
    Size(Chosen(envp[..i], kept[..i])) + |envp[i]| + 1 > half
  }

  /** An eligible entry is lost if and only if it is late, too long, or over the budget. */
  predicate Rightly(envp: seq<string>, kept: seq<bool>, pol: Policy, limit: nat, half: nat) {
    |kept| == |envp| && forall i :: 0 <= i < |envp| ==>
      (kept[i] <==> (&& Eligible(pol, envp[i]) && !Late(envp, kept, limit, i)
                     && !Long(envp[i]) && !Over(envp, kept, half, i)))
  }

  /** How many eligible entries, not late, are too long; and how many others are over the budget. */
  function LongOnes(envp: seq<string>, kept: seq<bool>, pol: Policy, limit: nat): nat
    requires |kept| == |envp|
  {
    if |envp| == 0 then 0
    else
      var n := |envp| - 1;
      LongOnes(envp[..n], kept[..n], pol, limit) +
        (if Eligible(pol, envp[n]) && !Late(envp, kept, limit, n) && Long(envp[n]) then 1 else 0)
  }

  function OverOnes(envp: seq<string>, kept: seq<bool>, pol: Policy, limit: nat, half: nat): nat
    requires |kept| == |envp|
  {
    if |envp| == 0 then 0
    else
      var n := |envp| - 1;
      OverOnes(envp[..n], kept[..n], pol, limit, half) +
        (if Eligible(pol, envp[n]) && !Late(envp, kept, limit, n) && !Long(envp[n]) && Over(envp, kept, half, n)
         then 1 else 0)
  }

  lemma RightlyMore(envp: seq<string>, kept: seq<bool>, pol: Policy, limit: nat, half: nat, e: string, keep: bool)
    requires Rightly(envp, kept, pol, limit, half)
    requires keep <==> (&& Eligible(pol, e) && |Chosen(envp, kept)| < limit
                        && !Long(e) && Size(Chosen(envp, kept)) + |e| + 1 <= half)
    ensures Rightly(envp + [e], kept + [keep], pol, limit, half)
  {
    hide Eligible, Chosen, Size, Long;
    var es, ks := envp + [e], kept + [keep];
    forall i | 0 <= i < |envp| ensures es[..i] == envp[..i] && ks[..i] == kept[..i] {}
    assert es[..|envp|] == envp && ks[..|envp|] == kept;
  }

  /** What the first pass keeps, loses and counts, entry by entry. */
  lemma {:induction false} CarryChooses(envp: seq<string>, pol: Policy, limit: nat, half: nat) returns (kept: seq<bool>)
    ensures Rightly(envp, kept, pol, limit, half)
    ensures var k := Carry(envp, pol, limit, half);
      && k.entries == Chosen(envp, kept)
      && k.long == LongOnes(envp, kept, pol, limit) && k.over == OverOnes(envp, kept, pol, limit, half)
    decreases |envp|
  {
    hide Eligible, Size, Rightly, Carry;
    if |envp| == 0 {
      kept := [];
      NothingChosen(envp, pol, limit, half);
    } else {
      var n := |envp| - 1;
      var e, rest := envp[n], envp[..n];
      var before := CarryChooses(rest, pol, limit, half);
      RightlyLength(rest, before, pol, limit, half);
      CarryUnfold(envp, pol, limit, half);
      var chosen := Chosen(rest, before);
      var keep := Eligible(pol, e) && |chosen| < limit && !Long(e) && Size(chosen) + |e| + 1 <= half;
      kept := before + [keep];
      RightlyMore(rest, before, pol, limit, half, e, keep);
      assert rest + [e] == envp && kept[..n] == before;
    }
  }

  lemma RightlyLength(envp: seq<string>, kept: seq<bool>, pol: Policy, limit: nat, half: nat)
    requires Rightly(envp, kept, pol, limit, half)
    ensures |kept| == |envp|
  {
  }

  lemma NothingChosen(envp: seq<string>, pol: Policy, limit: nat, half: nat)
    requires |envp| == 0
    ensures Rightly(envp, [], pol, limit, half) && Carry(envp, pol, limit, half) == Kept([], [], 0, 0)
  {
  }

  /** The eligible entries, in their order. */
  function EligibleOf(envp: seq<string>, pol: Policy): seq<string> {
    if |envp| == 0 then []
    else EligibleOf(envp[..|envp| - 1], pol) + (if Eligible(pol, envp[|envp| - 1]) then [envp[|envp| - 1]] else [])
  }

  predicate Small(envp: seq<string>, limit: nat, half: nat) {
    |envp| <= limit && Size(envp) <= half && forall e :: e in envp ==> |e| <= PASSTHRU_MAX
  }

  /** From an input within the limit, half the budget and the entry length nothing is lost. */
  lemma {:induction false} SmallIsKept(envp: seq<string>, pol: Policy, limit: nat, half: nat)
    requires Small(envp, limit, half)
    ensures Carry(envp, pol, limit, half) == Kept(EligibleOf(envp, pol), [], 0, 0)
    ensures |EligibleOf(envp, pol)| <= |envp| && Size(EligibleOf(envp, pol)) <= Size(envp)
    decreases |envp|
  {
    hide Eligible, Carry;
    if |envp| == 0 {
      NothingChosen(envp, pol, limit, half);
    } else {
      var e, rest := envp[|envp| - 1], envp[..|envp| - 1];
      CarryUnfold(envp, pol, limit, half);
      SmallIsKept(rest, pol, limit, half);
      SizeSnoc(EligibleOf(rest, pol), e);
      assert EligibleOf(rest, pol) + [] == EligibleOf(rest, pol);
    }
  }

  /** A name none of whose entries is dropped, forced or lost reads the same after the first pass. */
  lemma {:induction false} CarryLooksUp(envp: seq<string>, pol: Policy, limit: nat, half: nat, name: string)
    requires forall e :: e in envp && Matches(e, name) ==> Eligible(pol, e)
    requires forall e :: e in Carry(envp, pol, limit, half).lost ==> !Matches(e, name)
    ensures Lookup(Carry(envp, pol, limit, half).entries, name) == Lookup(envp, name)
  {
    hide Eligible, Matches;
    if |envp| > 0 {
      var e, rest := envp[|envp| - 1], envp[..|envp| - 1];
      var k := Carry(rest, pol, limit, half);
      var now := Carry(envp, pol, limit, half);
      assert forall x :: x in k.lost ==> x in now.lost;
      CarryLooksUp(rest, pol, limit, half, name);
      assert e in k.lost + [e];
      assert (k.entries + [e])[..|k.entries|] == k.entries;
    }
  }

  /** A dropped name is not there afterwards. */
  lemma DroppedIsGone(envp: seq<string>, pol: Policy, limit: nat, half: nat, name: string)
    requires name in pol.drop || exists i :: 0 <= i < |pol.forced| && pol.forced[i].name == Some(name)
    ensures Lookup(Carry(envp, pol, limit, half).entries, name) == None
  {
    CarryKeeps(envp, pol, limit, half);
    LookupMisses(Carry(envp, pol, limit, half).entries, name);
  }

  /** Once full, the first pass keeps and counts nothing more. */
  lemma {:induction false} CarryFull(envp: seq<string>, i: nat, pol: Policy, limit: nat, half: nat)
    requires i <= |envp| && |Carry(envp[..i], pol, limit, half).entries| >= limit
    ensures var a, b := Carry(envp[..i], pol, limit, half), Carry(envp, pol, limit, half);
      b.entries == a.entries && b.long == a.long && b.over == a.over
    decreases |envp|
  {
    hide Eligible;
    if i == |envp| {
      assert envp[..i] == envp;
    } else {
      assert envp[..|envp| - 1][..i] == envp[..i];
      CarryFull(envp[..|envp| - 1], i, pol, limit, half);
    }
  }

  // ----- what is forced -----

  datatype Forcing = Going(entries: seq<string>) | Stopped(entries: seq<string>) | Failed(rc: Rc)

  function TextOf(v: Option<string>): string { if v.Some? then v.value else "" }

  function PushKv(es: seq<string>, name: string, value: string): Forcing {
    if |name| + 1 + |value| > ENTRY_MAX then Failed(ETOOLONG) else Going(es + [Entry(name, value)])
  }

  function ForceOne(es: seq<string>, envp: seq<string>, limit: nat, budget: nat, f: Forced): Forcing {
    if f.name.None? then Going(es) else
    var name := f.name.value;
    if f.mode == MergePreload then
      match P.MergeSpec(TextOf(Lookup(Visible(envp), name)), TextOf(f.value), PRELOAD_MAX)
      case Merged(text) => PushKv(es, name, text)
      case _ => Failed(ENOSPC)
    else if |es| >= limit then Stopped(es)
    else if Size(es) + |name| + 1 + |TextOf(f.value)| + 1 > budget then Failed(ENOSPC)
    else PushKv(es, name, TextOf(f.value))
  }

  function Force(es: seq<string>, envp: seq<string>, limit: nat, budget: nat, forced: seq<Forced>): Forcing {
    if |forced| == 0 then Going(es) else
    var before := Force(es, envp, limit, budget, forced[..|forced| - 1]);
    if before.Going? then ForceOne(before.entries, envp, limit, budget, forced[|forced| - 1]) else before
  }

  /** What forcing writes for one item, when it is written. */
  function Written(envp: seq<string>, f: Forced): seq<string> {
    if f.name.None? then [] else
    var name := f.name.value;
    if f.mode == MergePreload then
      match P.MergeSpec(TextOf(Lookup(Visible(envp), name)), TextOf(f.value), PRELOAD_MAX)
      case Merged(text) => [Entry(name, text)]
      case _ => []
    else [Entry(name, TextOf(f.value))]
  }

  function AllWritten(envp: seq<string>, forced: seq<Forced>): seq<string> {
    if |forced| == 0 then [] else AllWritten(envp, forced[..|forced| - 1]) + Written(envp, forced[|forced| - 1])
  }

  datatype Built = Built(entries: seq<string>, long: nat, over: nat) | NotBuilt(rc: Rc)

  function LimitOf(pol: Policy): nat { if pol.maxEntries > 0 then pol.maxEntries else ENVP_MAX }

  function BudgetOf(pol: Policy): nat { if pol.maxBytes > 0 then pol.maxBytes else BUDGET }

  function Build(envp: seq<string>, pol: Policy): Built {
    var k := Carry(Visible(envp), pol, LimitOf(pol), BudgetOf(pol) / 2);
    match Force(k.entries, envp, LimitOf(pol), BudgetOf(pol), pol.forced)
    case Failed(rc) => NotBuilt(rc)
    case Going(es) => Built(es, k.long, k.over)
    case Stopped(es) => Built(es, k.long, k.over)
  }

  // ----- what forcing guarantees -----

  /** Every item that is set finds the result below the limit. */
  predicate Room(n: nat, envp: seq<string>, limit: nat, forced: seq<Forced>) {
    forall i :: 0 <= i < |forced| && forced[i].name.Some? && forced[i].mode == Set ==>
      n + |AllWritten(envp, forced[..i])| < limit
  }

  lemma RoomPrefix(n: nat, envp: seq<string>, limit: nat, forced: seq<Forced>)
    requires |forced| > 0
    ensures var k := |forced| - 1;
      Room(n, envp, limit, forced) <==>
        (Room(n, envp, limit, forced[..k]) &&
          (forced[k].name.Some? && forced[k].mode == Set ==> n + |AllWritten(envp, forced[..k])| < limit))
  {
    hide AllWritten;
    var k := |forced| - 1;
    assert forall i :: 0 <= i <= k ==> forced[..k][..i] == forced[..i];
  }

  /** Forcing writes everything, in order, behind what was carried over, exactly when there is room;
      unless it fails. */
  lemma {:induction false} ForceWrites(es: seq<string>, envp: seq<string>, limit: nat, budget: nat, forced: seq<Forced>)
    ensures var r := Force(es, envp, limit, budget, forced);
      && (r.Going? ==> r.entries == es + AllWritten(envp, forced) && Room(|es|, envp, limit, forced))
      && (r.Stopped? ==> !Room(|es|, envp, limit, forced))
    decreases |forced|
  {
    hide Room;
    if |forced| == 0 {
      assert es + [] == es;
      EmptyRoom(|es|, envp, limit);
      assert forced == [];
    } else {
      var k := |forced| - 1;
      ForceWrites(es, envp, limit, budget, forced[..k]);
      RoomPrefix(|es|, envp, limit, forced);
      assert es + (AllWritten(envp, forced[..k]) + Written(envp, forced[k])) ==
        (es + AllWritten(envp, forced[..k])) + Written(envp, forced[k]);
    }
  }

  lemma EmptyRoom(n: nat, envp: seq<string>, limit: nat)
    ensures Room(n, envp, limit, [])
  {
  }

  /** Forced names are plain and differ from one another. */
  predicate NamesOk(forced: seq<Forced>) {
    && (forall i :: 0 <= i < |forced| && forced[i].name.Some? ==> Plain(forced[i].name.value))
    && (forall i, j :: 0 <= i < j < |forced| && forced[i].name.Some? ==> forced[i].name != forced[j].name)
  }

  /** The value an item writes. */
  function ValueOf(envp: seq<string>, f: Forced): string {
    if f.name.Some? && f.mode == MergePreload then
      match P.MergeSpec(TextOf(Lookup(Visible(envp), f.name.value)), TextOf(f.value), PRELOAD_MAX)
      case Merged(text) => text
      case _ => ""
    else TextOf(f.value)
  }

  predicate Mergeable(f: Forced) { f.mode == MergePreload ==> |TextOf(f.value)| < PRELOAD_MAX }

  function Count(es: seq<string>, name: string): nat {
    if |es| == 0 then 0 else Count(es[..|es| - 1], name) + (if Matches(es[|es| - 1], name) then 1 else 0)
  }

  lemma CountOne(es: seq<string>, e: string, name: string)
    ensures Count(es + [e], name) == Count(es, name) + (if Matches(e, name) then 1 else 0)
    ensures Lookup(es + [e], name) == if Matches(e, name) then Some(e[|name| + 1..]) else Lookup(es, name)
  {
    assert (es + [e])[..|es|] == es;
  }

  lemma {:induction false} CountConcat(a: seq<string>, b: seq<string>, name: string)
    ensures Count(a + b, name) == Count(a, name) + Count(b, name)
    decreases |b|
  {
    hide Matches;
    if |b| == 0 {
      assert a + b == a;
    } else {
      assert (a + b)[..|a + b| - 1] == a + b[..|b| - 1];
      CountConcat(a, b[..|b| - 1], name);
    }
  }

  lemma {:induction false} CountZero(es: seq<string>, name: string)
    requires forall e :: e in es ==> !Matches(e, name)
    ensures Count(es, name) == 0
  {
    hide Matches;
    if |es| > 0 { CountZero(es[..|es| - 1], name); }
  }

  lemma WrittenIs(envp: seq<string>, f: Forced)
    requires f.name.Some? ==> Mergeable(f)
    ensures Written(envp, f) == if f.name.Some? then [Entry(f.name.value, ValueOf(envp, f))] else []
  {
    if f.name.Some? && f.mode == MergePreload {
      P.MergedFits(TextOf(Lookup(Visible(envp), f.name.value)), TextOf(f.value), PRELOAD_MAX);
    }
  }

  /** What a name reads in what was written, and how often it occurs. */
  predicate Reads(es: seq<string>, name: string, value: string) {
    Lookup(es, name) == Some(value) && Count(es, name) == 1
  }

  predicate Absent(es: seq<string>, name: string) {
    Lookup(es, name) == None && Count(es, name) == 0
  }

  lemma WriteOne(envp: seq<string>, w: seq<string>, f: Forced, name: string)
    requires Plain(name) && (f.name.Some? ==> Mergeable(f) && Plain(f.name.value))
    ensures f.name == Some(name) && Absent(w, name) ==> Reads(w + Written(envp, f), name, ValueOf(envp, f))
    ensures f.name != Some(name) && Absent(w, name) ==> Absent(w + Written(envp, f), name)
    ensures forall v :: f.name != Some(name) && Reads(w, name, v) ==> Reads(w + Written(envp, f), name, v)
  {
    hide Matches, Entry, ValueOf, Plain, Lookup, Count;
    WrittenIs(envp, f);
    hide Written, Mergeable;
    if f.name.Some? {
      EntryMatches(f.name.value, ValueOf(envp, f), name);
      CountOne(w, Entry(f.name.value, ValueOf(envp, f)), name);
    } else {
      assert w + [] == w;
    }
  }

  /** Each forced name is written once, with its value; no other name is. */
  lemma {:induction false} WrittenLooksUp(envp: seq<string>, forced: seq<Forced>, name: string)
    requires NamesOk(forced) && Plain(name) && forall f :: f in forced && f.name.Some? ==> Mergeable(f)
    ensures forall i :: 0 <= i < |forced| && forced[i].name == Some(name) ==>
      Reads(AllWritten(envp, forced), name, ValueOf(envp, forced[i]))
    ensures (forall i :: 0 <= i < |forced| ==> forced[i].name != Some(name)) ==> Absent(AllWritten(envp, forced), name)
    decreases |forced|
  {
    hide Plain, Mergeable, ValueOf, Written, Reads, Absent;
    if |forced| == 0 {
      NothingWritten(envp, name);
      assert forced == [];
    } else {
      var k := |forced| - 1;
      var f, rest := forced[k], forced[..k];
      assert f in forced && forall g :: g in rest ==> g in forced;
      assert forall i :: 0 <= i < k ==> rest[i] == forced[i];
      WrittenLooksUp(envp, rest, name);
      WriteOne(envp, AllWritten(envp, rest), f, name);
      assert forced[k].name == f.name;
    }
  }

  lemma NothingWritten(envp: seq<string>, name: string)
    ensures Absent(AllWritten(envp, []), name)
  {
  }

  // ----- sizes and failures -----

  /** An item that fits in one entry. */
  predicate Fits(f: Forced) {
    f.name.Some? ==>
      if f.mode == MergePreload then |TextOf(f.value)| < PRELOAD_MAX
        else |f.name.value| + 1 + |TextOf(f.value)| <= ENTRY_MAX
  }

  predicate ShortName(f: Forced) { f.name.Some? ==> |f.name.value| <= NAME_MAX }

  lemma ForceOneFits(es: seq<string>, envp: seq<string>, limit: nat, budget: nat, f: Forced)
    requires ShortName(f) && Size(es) + ENTRY_MAX + 1 <= budget
    ensures var r := ForceOne(es, envp, limit, budget, f);
      && (r.Failed? ==> !Fits(f)) && (r.Going? ==> Fits(f))
      && (!r.Failed? ==> Size(r.entries) <= Size(es) + ENTRY_MAX + 1)
  {
    if f.name.Some? {
      var name := f.name.value;
      var cur := TextOf(Lookup(Visible(envp), name));
      P.MergedFits(cur, TextOf(f.value), PRELOAD_MAX);
      hide P.MergeSpec, Lookup;
      if f.mode == MergePreload {
        var m := P.MergeSpec(cur, TextOf(f.value), PRELOAD_MAX);
        if m.Merged? { SizeSnoc(es, Entry(name, m.text)); }
      } else {
        SizeSnoc(es, Entry(name, TextOf(f.value)));
      }
    }
  }

  /** With room in the budget for every item, forcing fails exactly on an item that does not fit. */
  lemma {:induction false} ForceFits(es: seq<string>, envp: seq<string>, limit: nat, budget: nat, forced: seq<Forced>)
    requires forall f :: f in forced ==> ShortName(f)
    requires Size(es) + |forced| * (ENTRY_MAX + 1) <= budget
    ensures var r := Force(es, envp, limit, budget, forced);
      && (r.Failed? ==> exists f :: f in forced && !Fits(f)) && (r.Going? ==> forall f :: f in forced ==> Fits(f))
      && (!r.Failed? ==> Size(r.entries) <= Size(es) + |forced| * (ENTRY_MAX + 1))
    decreases |forced|
  {
    hide ShortName, Fits, ForceOne;
    if |forced| > 0 {
      var k := |forced| - 1;
      assert forall f :: f in forced[..k] ==> f in forced;
      assert forced[k] in forced;
      ForceFits(es, envp, limit, budget, forced[..k]);
      var before := Force(es, envp, limit, budget, forced[..k]);
      if before.Going? { ForceOneFits(before.entries, envp, limit, budget, forced[k]); }
      assert forced == forced[..k] + [forced[k]];
    }
  }

  // ----- exactly when forcing fails for lack of space -----

  /** What has been written before item `i`. */
  function Before(es: seq<string>, envp: seq<string>, forced: seq<Forced>, i: nat): seq<string>
    requires i <= |forced|
  {
    es + AllWritten(envp, forced[..i])
  }

  /** An item that is written. */
  predicate Passes(es: seq<string>, envp: seq<string>, limit: nat, budget: nat, f: Forced) {
    f.name.Some? ==>
      var name, value := f.name.value, TextOf(f.value);
      if f.mode == MergePreload then |value| < PRELOAD_MAX && |name| + 1 + |ValueOf(envp, f)| <= ENTRY_MAX
      else |es| < limit && Size(es) + |name| + 1 + |value| + 1 <= budget && |name| + 1 + |value| <= ENTRY_MAX
  }

  /** An item that is refused for lack of space: a list to merge that alone fills the buffer, or a
      value to set that does not fit the budget any more. */
  predicate NoSpace(es: seq<string>, limit: nat, budget: nat, f: Forced) {
    f.name.Some? &&
      if f.mode == MergePreload then |TextOf(f.value)| >= PRELOAD_MAX
      else |es| < limit && Size(es) + |f.name.value| + 1 + |TextOf(f.value)| + 1 > budget
  }

  lemma ForceOneSays(es: seq<string>, envp: seq<string>, limit: nat, budget: nat, f: Forced)
    ensures var r := ForceOne(es, envp, limit, budget, f);
      && (r.Going? <==> Passes(es, envp, limit, budget, f))
      && (r == Failed(ENOSPC) <==> NoSpace(es, limit, budget, f))
      && (r.Going? ==> r.entries == es + Written(envp, f))
  {
    hide Size;
    if f.name.Some? {
      var cur := TextOf(Lookup(Visible(envp), f.name.value));
      P.MergedFits(cur, TextOf(f.value), PRELOAD_MAX);
      hide P.MergeSpec, Lookup;
    } else {
      assert es + [] == es;
    }
  }

  lemma BeforePrefix(es: seq<string>, envp: seq<string>, forced: seq<Forced>)
    requires |forced| > 0
    ensures var init := forced[..|forced| - 1];
      forall i :: 0 <= i <= |init| ==> Before(es, envp, init, i) == Before(es, envp, forced, i)
  {
    var init := forced[..|forced| - 1];
    forall i | 0 <= i <= |init| ensures Before(es, envp, init, i) == Before(es, envp, forced, i) {
      assert init[..i] == forced[..i];
    }
  }

  /** Every item passes behind the ones before it. */
  predicate AllPass(es: seq<string>, envp: seq<string>, limit: nat, budget: nat, forced: seq<Forced>) {
    forall i :: 0 <= i < |forced| ==> Passes(Before(es, envp, forced, i), envp, limit, budget, forced[i])
  }

  lemma AllPassPrefix(es: seq<string>, envp: seq<string>, limit: nat, budget: nat, forced: seq<Forced>)
    requires |forced| > 0
    ensures var k := |forced| - 1;
      AllPass(es, envp, limit, budget, forced) <==>
        (AllPass(es, envp, limit, budget, forced[..k]) &&
          Passes(Before(es, envp, forced, k), envp, limit, budget, forced[k]))
  {
    hide Passes, Before;
    BeforePrefix(es, envp, forced);
    var k := |forced| - 1;
    assert forall i :: 0 <= i < k ==> forced[..k][i] == forced[i];
  }

  /** Everything is written exactly when every item passes. */
  lemma {:induction false} ForceGoes(es: seq<string>, envp: seq<string>, limit: nat, budget: nat, forced: seq<Forced>)
    ensures var r := Force(es, envp, limit, budget, forced);
      (r.Going? <==> AllPass(es, envp, limit, budget, forced)) &&
        (r.Going? ==> r.entries == es + AllWritten(envp, forced))
    decreases |forced|
  {
    hide Passes, ForceOne, Written, AllPass;
    if |forced| == 0 {
      assert es + [] == es;
      assert AllPass(es, envp, limit, budget, forced) by { NonePass(es, envp, limit, budget, forced); }
    } else {
      var k := |forced| - 1;
      ForceGoes(es, envp, limit, budget, forced[..k]);
      AllPassPrefix(es, envp, limit, budget, forced);
      ForceOneSays(Before(es, envp, forced, k), envp, limit, budget, forced[k]);
      assert es + (AllWritten(envp, forced[..k]) + Written(envp, forced[k])) ==
        (es + AllWritten(envp, forced[..k])) + Written(envp, forced[k]);
    }
  }

  lemma NonePass(es: seq<string>, envp: seq<string>, limit: nat, budget: nat, forced: seq<Forced>)
    requires |forced| == 0
    ensures AllPass(es, envp, limit, budget, forced)
  {
  }

  /** Item `i` is the first that does not pass, and it is refused for lack of space. */
  predicate FailsAt(es: seq<string>, envp: seq<string>, limit: nat, budget: nat, forced: seq<Forced>, i: nat)
    requires i < |forced|
  {
    && NoSpace(Before(es, envp, forced, i), limit, budget, forced[i])
    && AllPass(es, envp, limit, budget, forced[..i])
  }

  predicate FailsSomewhere(es: seq<string>, envp: seq<string>, limit: nat, budget: nat, forced: seq<Forced>) {
    exists i :: 0 <= i < |forced| && FailsAt(es, envp, limit, budget, forced, i)
  }

  lemma FailsAtPrefix(es: seq<string>, envp: seq<string>, limit: nat, budget: nat, forced: seq<Forced>, i: nat)
    requires i < |forced| - 1
    ensures FailsAt(es, envp, limit, budget, forced[..|forced| - 1], i) == FailsAt(es, envp, limit, budget, forced, i)
  {
    hide NoSpace, Before, AllPass;
    BeforePrefix(es, envp, forced);
    assert forced[..|forced| - 1][..i] == forced[..i];
  }

  lemma FailsPrefix(es: seq<string>, envp: seq<string>, limit: nat, budget: nat, forced: seq<Forced>)
    requires |forced| > 0
    ensures var k := |forced| - 1;
      FailsSomewhere(es, envp, limit, budget, forced) <==>
        (FailsSomewhere(es, envp, limit, budget, forced[..k]) || FailsAt(es, envp, limit, budget, forced, k))
  {
    hide FailsAt;
    var k := |forced| - 1;
    forall i | 0 <= i < k
      ensures FailsAt(es, envp, limit, budget, forced[..k], i) == FailsAt(es, envp, limit, budget, forced, i)
    {
      FailsAtPrefix(es, envp, limit, budget, forced, i);
    }
    if FailsSomewhere(es, envp, limit, budget, forced[..k]) {
      var i :| 0 <= i < k && FailsAt(es, envp, limit, budget, forced[..k], i);
      assert FailsAt(es, envp, limit, budget, forced, i);
    }
  }

  lemma ForceUnfold(es: seq<string>, envp: seq<string>, limit: nat, budget: nat, forced: seq<Forced>)
    ensures var r := Force(es, envp, limit, budget, forced); var k := |forced| - 1;
      if |forced| == 0 then r == Going(es) && !FailsSomewhere(es, envp, limit, budget, forced)
      else
        var before := Force(es, envp, limit, budget, forced[..k]);
        && r == (if before.Going? then ForceOne(before.entries, envp, limit, budget, forced[k]) else before)
        && Before(es, envp, forced, k) == es + AllWritten(envp, forced[..k])
  {
    hide ForceOne, FailsAt, AllWritten;
  }

  lemma {:induction false} ForceNoSpace(es: seq<string>, envp: seq<string>, limit: nat, budget: nat,
      forced: seq<Forced>)
    ensures Force(es, envp, limit, budget, forced) == Failed(ENOSPC) <==>
      FailsSomewhere(es, envp, limit, budget, forced)
    decreases |forced|
  {
    hide Passes, NoSpace, ForceOne, AllWritten, AllPass, FailsSomewhere, Force, Before;
    ForceUnfold(es, envp, limit, budget, forced);
    if |forced| > 0 {
      var k := |forced| - 1;
      ForceGoes(es, envp, limit, budget, forced[..k]);
      ForceNoSpace(es, envp, limit, budget, forced[..k]);
      FailsPrefix(es, envp, limit, budget, forced);
      ForceOneSays(Before(es, envp, forced, k), envp, limit, budget, forced[k]);
    }
  }

  lemma PassedIsMergeable(es: seq<string>, envp: seq<string>, limit: nat, budget: nat, forced: seq<Forced>)
    requires AllPass(es, envp, limit, budget, forced)
    ensures forall f :: f in forced && f.name.Some? ==> Mergeable(f)
  {
    hide Before, Size;
  }

  // ----- the rebuilt environment -----

  function KeptOf(envp: seq<string>, pol: Policy): Kept {
    Carry(Visible(envp), pol, LimitOf(pol), BudgetOf(pol) / 2)
  }

  /** The rebuilt environment, when every forced entry finds room below the limit: each forced name
      occurs once and reads its forced value; a dropped name is gone; any other name, of which no
      entry was lost, reads its input value. */
  lemma BuiltMeans(envp: seq<string>, pol: Policy, name: string)
    requires NamesOk(pol.forced) && Plain(name) && Build(envp, pol).Built?
    requires Room(|KeptOf(envp, pol).entries|, envp, LimitOf(pol), pol.forced)
    ensures var es := Build(envp, pol).entries;
      && (forall i :: 0 <= i < |pol.forced| && pol.forced[i].name == Some(name) ==>
            Reads(es, name, ValueOf(envp, pol.forced[i])))
      && ((forall i :: 0 <= i < |pol.forced| ==> pol.forced[i].name != Some(name)) ==>
            && (name in pol.drop ==> Lookup(es, name) == None)
            && (name !in pol.drop && (forall e :: e in KeptOf(envp, pol).lost ==> !Matches(e, name))
                && (forall e :: e in Visible(envp) && Matches(e, name) ==> Eligible(pol, e))
                ==> Lookup(es, name) == Lookup(Visible(envp), name)))
  {
    var k := KeptOf(envp, pol);
    hide Carry, Matches, Eligible, Room, Mergeable, Plain, Force, AllPass;
    ForceWrites(k.entries, envp, LimitOf(pol), BudgetOf(pol), pol.forced);
    ForceGoes(k.entries, envp, LimitOf(pol), BudgetOf(pol), pol.forced);
    PassedIsMergeable(k.entries, envp, LimitOf(pol), BudgetOf(pol), pol.forced);
    WrittenLooksUp(envp, pol.forced, name);
    LookupConcat(k.entries, AllWritten(envp, pol.forced), name);
    CountConcat(k.entries, AllWritten(envp, pol.forced), name);
    if name in pol.drop || exists i :: 0 <= i < |pol.forced| && pol.forced[i].name == Some(name) {
      DroppedIsGone(Visible(envp), pol, LimitOf(pol), BudgetOf(pol) / 2, name);
      LookupMisses(k.entries, name);
      CountZero(k.entries, name);
    } else if forall e :: e in k.lost ==> !Matches(e, name) {
      if forall e :: e in Visible(envp) && Matches(e, name) ==> Eligible(pol, e) {
        CarryLooksUp(Visible(envp), pol, LimitOf(pol), BudgetOf(pol) / 2, name);
      }
    }
  }

  /** A plain name that is neither dropped nor forced has only eligible entries, when the listed names
      are plain. */
  lemma OthersEligible(envp: seq<string>, pol: Policy, name: string)
    requires Plain(name) && name !in pol.drop && (forall d :: d in pol.drop ==> Plain(d) || |d| == 0)
    requires NamesOk(pol.forced) && forall i :: 0 <= i < |pol.forced| ==> pol.forced[i].name != Some(name)
    ensures forall e :: e in envp && Matches(e, name) ==> Eligible(pol, e)
  {
    forall e, d | Matches(e, name) && Matches(e, d) && (Plain(d) || |d| == 0) ensures d == name {}
  }

  lemma KeptBounded(envp: seq<string>, pol: Policy)
    ensures Size(KeptOf(envp, pol).entries) <= BudgetOf(pol) / 2
  {
    hide Carry, Size;
    CarryKeeps(Visible(envp), pol, LimitOf(pol), BudgetOf(pol) / 2);
  }

  lemma BuildIs(envp: seq<string>, pol: Policy)
    ensures var r := Force(KeptOf(envp, pol).entries, envp, LimitOf(pol), BudgetOf(pol), pol.forced);
      && (Build(envp, pol).Built? <==> !r.Failed?) && (!r.Failed? ==> Build(envp, pol).entries == r.entries)
  {
    hide Force, Carry;
  }

  /** With the default budget and at most 32 forced items with short names, whatever the limit, the
      result stays within the kernel's 2 MiB. */
  lemma BuildBounded(envp: seq<string>, pol: Policy)
    requires pol.maxBytes == 0 && |pol.forced| <= 32 && forall f :: f in pol.forced ==> ShortName(f)
    ensures Build(envp, pol).Built? ==> Size(Build(envp, pol).entries) <= BUDGET
  {
    hide Carry, ShortName, Fits, Force, Build, KeptOf, Visible, Size;
    KeptBounded(envp, pol);
    assert |pol.forced| * (ENTRY_MAX + 1) <= 32 * (ENTRY_MAX + 1);
    BuildIs(envp, pol);
    ForceFits(KeptOf(envp, pol).entries, envp, LimitOf(pol), BUDGET, pol.forced);
  }

  /** And with room below the limit the build succeeds if and only if every item fits in one entry. */
  lemma BuildSucceeds(envp: seq<string>, pol: Policy)
    requires pol.maxBytes == 0 && |pol.forced| <= 32 && forall f :: f in pol.forced ==> ShortName(f)
    requires Room(|KeptOf(envp, pol).entries|, envp, LimitOf(pol), pol.forced)
    ensures Build(envp, pol).Built? <==> forall f :: f in pol.forced ==> Fits(f)
  {
    hide Carry, ShortName, Fits, Room, Force, Build, KeptOf, Visible, Size;
    var k := KeptOf(envp, pol);
    KeptBounded(envp, pol);
    assert |pol.forced| * (ENTRY_MAX + 1) <= 32 * (ENTRY_MAX + 1);
    BuildIs(envp, pol);
    ForceFits(k.entries, envp, LimitOf(pol), BUDGET, pol.forced);
    ForceWrites(k.entries, envp, LimitOf(pol), BUDGET, pol.forced);
  }

  lemma ForceOneSpares(es: seq<string>, envp: seq<string>, limit: nat, budget: nat, f: Forced, name: string)
    requires Plain(name) && f.name != Some(name) && (f.name.Some? ==> Plain(f.name.value))
    ensures var r := ForceOne(es, envp, limit, budget, f); !r.Failed? ==> Lookup(r.entries, name) == Lookup(es, name)
  {
    hide Matches, Entry, Plain, Lookup, Size, P.MergeSpec;
    var r := ForceOne(es, envp, limit, budget, f);
    if f.name.Some? && r.Going? && f.mode == MergePreload {
      var text := P.MergeSpec(TextOf(Lookup(Visible(envp), f.name.value)), TextOf(f.value), PRELOAD_MAX).text;
      EntryMatches(f.name.value, text, name);
      CountOne(es, Entry(f.name.value, text), name);
    } else if f.name.Some? && r.Going? {
      EntryMatches(f.name.value, TextOf(f.value), name);
      CountOne(es, Entry(f.name.value, TextOf(f.value)), name);
    }
  }

  /** Forcing other names leaves a name as it reads, even when the limit stops it half way. */
  lemma {:induction false} ForceSpares(es: seq<string>, envp: seq<string>, limit: nat, budget: nat, forced: seq<Forced>,
      name: string)
    requires Plain(name) && NamesOk(forced) && forall f :: f in forced ==> f.name != Some(name)
    ensures var r := Force(es, envp, limit, budget, forced); !r.Failed? ==> Lookup(r.entries, name) == Lookup(es, name)
    decreases |forced|
  {
    hide Plain, ForceOne, Lookup;
    if |forced| > 0 {
      var k := |forced| - 1;
      assert forall i :: 0 <= i < k ==> forced[..k][i] == forced[i];
      ForceSpares(es, envp, limit, budget, forced[..k], name);
      var before := Force(es, envp, limit, budget, forced[..k]);
      if before.Going? { ForceOneSpares(before.entries, envp, limit, budget, forced[k], name); }
    }
  }

  /** From a small enough input nothing is lost: both counts are 0, and every name that is neither dropped
      nor forced reads its input value. */
  lemma SmallInputSurvives(envp: seq<string>, pol: Policy, name: string)
    requires Small(Visible(envp), LimitOf(pol), BudgetOf(pol) / 2) && Build(envp, pol).Built?
    requires NamesOk(pol.forced) && Plain(name) && forall d :: d in pol.drop ==> Plain(d) || |d| == 0
    ensures Build(envp, pol).long == 0 && Build(envp, pol).over == 0
    ensures name !in pol.drop && (forall f :: f in pol.forced ==> f.name != Some(name)) ==>
      Lookup(Build(envp, pol).entries, name) == Lookup(Visible(envp), name)
  {
    hide Plain, Force, Carry, Matches, Eligible, Small, Lookup;
    var k := KeptOf(envp, pol);
    SmallIsKept(Visible(envp), pol, LimitOf(pol), BudgetOf(pol) / 2);
    if name !in pol.drop && forall f :: f in pol.forced ==> f.name != Some(name) {
      OthersEligible(Visible(envp), pol, name);
      CarryLooksUp(Visible(envp), pol, LimitOf(pol), BudgetOf(pol) / 2, name);
      ForceSpares(k.entries, envp, LimitOf(pol), BudgetOf(pol), pol.forced, name);
    }
  }

  lemma {:induction false} WrittenAtMost(envp: seq<string>, forced: seq<Forced>)
    ensures |AllWritten(envp, forced)| <= |forced|
    decreases |forced|
  {
    hide P.MergeSpec, Entry;
    if |forced| > 0 { WrittenAtMost(envp, forced[..|forced| - 1]); }
  }

  lemma LimitHasRoom(n: nat, envp: seq<string>, limit: nat, forced: seq<Forced>)
    requires n + |forced| <= limit
    ensures Room(n, envp, limit, forced)
  {
    hide AllWritten;
    forall i | 0 <= i < |forced| ensures |AllWritten(envp, forced[..i])| <= i { WrittenAtMost(envp, forced[..i]); }
  }

  /** Under the default limits an ordinary environment is rebuilt whole: up to 4096 entries with the forced
      ones, up to 1 MiB, none above 128 KiB. */
  lemma OrdinaryBuild(envp: seq<string>, pol: Policy, name: string)
    requires pol.maxEntries == 0 && pol.maxBytes == 0 && |pol.forced| <= 32
    requires |envp| + |pol.forced| <= 4096 && Size(envp) <= 1048576 && forall e :: e in envp ==> |e| <= 131072
    requires forall f :: f in pol.forced ==> ShortName(f) && Fits(f)
    requires NamesOk(pol.forced) && Plain(name) && forall d :: d in pol.drop ==> Plain(d) || |d| == 0
    ensures Build(envp, pol).Built? && Build(envp, pol).long == 0 && Build(envp, pol).over == 0
    ensures var es := Build(envp, pol).entries;
      && (forall f :: f in pol.forced && f.name == Some(name) ==> Reads(es, name, ValueOf(envp, f)))
      && ((forall f :: f in pol.forced ==> f.name != Some(name)) ==>
            Lookup(es, name) == if name in pol.drop then None else Lookup(envp, name))
  {
    hide Plain, Force, Carry, Matches, Eligible, Lookup, Size, ShortName, Fits, ValueOf, Build, Room, Reads, NamesOk;
    assert Visible(envp) == envp;
    SmallIsKept(envp, pol, LimitOf(pol), BudgetOf(pol) / 2);
    LimitHasRoom(|KeptOf(envp, pol).entries|, envp, LimitOf(pol), pol.forced);
    BuildSucceeds(envp, pol);
    SmallInputSurvives(envp, pol, name);
    BuiltMeans(envp, pol, name);
  }

  /** PX_ENOSPC is reported exactly when the first forced item that does not pass is a list to merge
      that alone fills the buffer, or a value to set that exceeds what is left of the budget. */
  lemma BuildNoSpace(envp: seq<string>, pol: Policy)
    ensures Build(envp, pol) == NotBuilt(ENOSPC) <==>
      FailsSomewhere(KeptOf(envp, pol).entries, envp, LimitOf(pol), BudgetOf(pol), pol.forced)
  {
    hide Carry, Force, FailsSomewhere;
    ForceNoSpace(KeptOf(envp, pol).entries, envp, LimitOf(pol), BudgetOf(pol), pol.forced);
  }

  /** It is reported under the default budget, too: for a value as long as the budget. */
  lemma NoSpaceHappens(value: string)
    requires |value| == BUDGET
    ensures Build([], Policy([Forced(Some("A"), Some(value), Set)], [], 0, 0)) == NotBuilt(ENOSPC)
  {
    OneForced(Forced(Some("A"), Some(value), Set));
  }

  /** A shorter value that exceeds one entry is PX_ETOOLONG. */
  lemma TooLongHappens(value: string)
    requires |value| == ENTRY_MAX
    ensures Build([], Policy([Forced(Some("A"), Some(value), Set)], [], 0, 0)) == NotBuilt(ETOOLONG)
  {
    OneForced(Forced(Some("A"), Some(value), Set));
  }

  lemma OneForced(f: Forced)
    ensures forall es, envp, limit, budget ::
      Force(es, envp, limit, budget, [f]) == ForceOne(es, envp, limit, budget, f)
  {
    hide ForceOne;
    assert [f][..0] == [];
  }

  /** The limit stops a forced entry: one kept entry, a limit of one, and the forced name is not
      there. */
  lemma LimitStopsForced()
    ensures var pol := Policy([Forced(Some("B"), Some("c"), Set)], [], 1, 0);
      Build(["A=b"], pol) == Built(["A=b"], 0, 0) && Lookup(["A=b"], "B") == None
  {
    var pol := Policy([Forced(Some("B"), Some("c"), Set)], [], 1, 0);
    OneForced(pol.forced[0]);
    assert ["A=b"][..0] == [] && [] + ["A=b"] == ["A=b"];
    assert "A=b"[..1] == "A" && "A=b"[..1] != "B";
    assert Eligible(pol, "A=b");
  }
}

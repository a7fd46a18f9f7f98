/** The pid ledger: the hash table behind the kill whitelist, with tombstones, compaction, growth
    and eviction.  Every operation is proved to be one on a plain map from (pid, kind) to entry.
    The ledger's lock is not modelled; operations are sequential. */
module Ledger {
  import opened Wrappers
  import opened LedgerTable
  import opened Powers

  const MAX_SLOTS: nat := 0x40_0000
  const DEFAULT_SLOTS: nat := 256
  const LOAD_PERCENT: nat := 75
  const EVICT_BATCH: nat := 16

  const TAG_FORK: nat := 1
  const TAG_SPAWN: nat := 2

  datatype Rc = OK | ENOENT | ENOMEM | EFULL | EINVAL

  const SIGCHLD: int := 17

  datatype Policy = Policy(protectSelf: bool, allowParent: bool, allowBroadcast: bool, allowGroup: bool)

  const DEFAULT_POLICY: Policy := Policy(true, true, false, true)

  /** What the injected system calls answer, where they are available. */
  datatype SysView = SysView(ppid: Option<int>, pgrp: Option<int>)

  datatype Verdict = Pass | Deny

  // ----- the operations on the map -----

  function Known(m: map<Key, Entry>, disabled: bool, pid: int, kind: Kind): Option<Info> {
    if !disabled && pid > 0 && Key(pid, kind) in m then Some(m[Key(pid, kind)].info) else None
  }

  predicate IsLive(m: map<Key, Entry>, k: Key) { k in m && m[k].info.life == Live }

  predicate IsReaped(m: map<Key, Entry>, k: Key) { k in m && m[k].info.life == Reaped }

  /** When a signal passes, as a table of reasons. */
  predicate Passes(m: map<Key, Entry>, disabled: bool, pol: Policy, sys: SysView, self: int, target: int, sig: int) {
    || disabled
    || sig == SIGCHLD
    || (target in {0, -1} && pol.allowBroadcast)
    || (target > 0 && pol.protectSelf && self > 0 && target == self)
    || (target > 0 && IsLive(m, Key(target, Pid)))
    || (target > 0 && Key(target, Pid) !in m && pol.allowParent && self > 0 && sys.ppid == Some(target))
    || (target < -1 && pol.allowGroup && sys.pgrp == Some(-target))
    || (target < -1 && pol.allowGroup
        && (IsLive(m, Key(-target, Pid)) || IsLive(m, Key(-target, Pgid)))
        && !IsReaped(m, Key(-target, Pid)) && !IsReaped(m, Key(-target, Pgid)))
  }

  function Judge(m: map<Key, Entry>, disabled: bool, pol: Policy, sys: SysView, self: int, target: int,
      sig: int): Verdict {
    if Passes(m, disabled, pol, sys, self, target, sig) then Pass else Deny
  }

  /** Adding: a known key keeps its life unless the caller has just forked or spawned it. */
  function Stored(m: map<Key, Entry>, k: Key, ppid: int, tag: nat, clock: nat): map<Key, Entry> {
    var life := if k in m && tag != TAG_FORK && tag != TAG_SPAWN then m[k].info.life else Live;
    m[k := Entry(Info(ppid, life, tag), clock)]
  }

  /** The entry carries what was given, and the newest time: each success takes the clock one further. */
  predicate Stamped(m: map<Key, Entry>, k: Key, ppid: int, tag: nat, clock: nat) {
    k in m && m[k].info.ppid == ppid && m[k].info.tag == tag && m[k].lastUsed == clock
  }

  /** Reaping one dimension of a pid. */
  function ReapedKey(m: map<Key, Entry>, k: Key): map<Key, Entry> {
    if k in m then m[k := m[k].(info := m[k].info.(life := Reaped))] else m
  }

  function ReapedPid(m: map<Key, Entry>, pid: int): map<Key, Entry> {
    ReapedKey(ReapedKey(m, Key(pid, Pid)), Key(pid, Pgid))
  }

  /** Every slot is taken and nothing may be evicted. */
  ghost predicate Hopeless(m: map<Key, Entry>, count: nat, cap: nat) {
    count == cap && forall k :: k in m ==> m[k].info.life == Live
  }

  /** What eviction may take: reaped entries only, least recently used first. */
  ghost predicate Evictable(m: map<Key, Entry>, gone: set<Key>) {
    && gone <= m.Keys
    && (forall k :: k in gone ==> m[k].info.life == Reaped)
    && (forall k, j :: k in gone && j in m && j !in gone && m[j].info.life == Reaped ==> m[k].lastUsed <= m[j].lastUsed)
  }

  lemma EvictMore(m: map<Key, Entry>, gone: set<Key>, k: Key)
    requires Evictable(m, gone) && k in m && k !in gone && m[k].info.life == Reaped
    requires forall j :: j in m && j !in gone && m[j].info.life == Reaped ==> m[k].lastUsed <= m[j].lastUsed
    ensures Evictable(m, gone + {k}) && m - gone - {k} == m - (gone + {k})
  {
  }

  lemma DoubledPower(n: nat)
    requires PowerOfTwo(n) && n < MAX_SLOTS
    ensures PowerOfTwo(2 * n) && 2 * n <= MAX_SLOTS
  {
    MaxIsPower();
    PowersDouble(n, MAX_SLOTS);
  }

  /** px_round_pow2 */
  method RoundPow2(v: nat) returns (r: nat)
    requires v <= MAX_SLOTS
    ensures PowerOfTwo(r) && v <= r <= MAX_SLOTS
    ensures v <= 1 ==> r == 1
    ensures v > 1 ==> r < 2 * v
  {
    r := 1;
    assert PowerOfTwo(MAX_SLOTS) by { MaxIsPower(); }
    while r < v
      invariant PowerOfTwo(r) && r <= MAX_SLOTS
      invariant v <= 1 ==> r == 1
      invariant v > 1 ==> r < 2 * v
      decreases 2 * v - r
    {
      DoubledPower(r);
      r := 2 * r;
    }
  }

  lemma MaxIsPower()
    ensures PowerOfTwo(MAX_SLOTS)
  {
    hide PowerOfTwo;
    FourIsPower();
    Times256(4);
    Times256(0x400);
    Times16(0x4_0000);
  }

  lemma FourIsPower()
    ensures PowerOfTwo(4)
  {
  }

  class PxLedger {
    var slots: array<Slot>
    var count: nat
    var tombs: nat
    var clock: nat
    var disabled: bool
    var eviction: bool
    /** How many more allocations succeed. */
    var memory: nat
    const hash: Hash
    /** The map the table stands for. */
    ghost var m: map<Key, Entry>

    ghost predicate TableOk()
      reads this, slots
    {
      && Sound(hash, slots[..]) && Agrees(slots[..], m)
      && count == LiveCount(slots[..]) && tombs == TombCount(slots[..])
    }

    ghost predicate Valid()
      reads this, slots
    {
      TableOk() && PowerOfTwo(slots.Length) && 0 < slots.Length <= MAX_SLOTS
    }

    constructor (hash: Hash, capacity: nat, memory: nat)
      requires PowerOfTwo(capacity) && capacity <= MAX_SLOTS
      ensures Valid() && fresh(slots) && m == map[] && !disabled && eviction
      ensures slots.Length == capacity && this.memory == memory && this.hash == hash
    {
      this.hash := hash;
      slots := new Slot[capacity](_ => Empty);
      count, tombs, clock, disabled, eviction := 0, 0, 0, false, true;
      this.memory := memory;
      m := map[];
      new;
      EmptyAgrees(hash, slots[..]);
      AllEmptyCounts(slots[..]);
    }

    /** px_slot_release, with the counters. */
    method Release(i: nat)
      requires Valid() && i < slots.Length && slots[i].Used?
      modifies this`count, this`tombs, this`m, slots
      ensures Valid() && m == old(m) - {old(slots[i]).key} && count == old(count) - 1
    {
      hide Sound, Agrees, PowerOfTwo;
      ReleaseKeeps(hash, slots[..], m, i);
      CountsOfWrite(slots[..], i, Tomb);
      m := m - {slots[i].key};
      slots[i] := Tomb;
      assert slots[..] == old(slots[..])[i := Tomb];
      count := count - 1;
      tombs := tombs + 1;
    }

    /** The least recently used reaped entry, if any. */
    method Victim() returns (best: Option<nat>)
      requires Valid()
      ensures best.Some? ==> best.value < slots.Length && slots[best.value].Used? && slots[best.value].key in m
      ensures best.Some? ==>
        slots[best.value].entry == m[slots[best.value].key] && m[slots[best.value].key].info.life == Reaped
      ensures best.Some? ==> forall j :: j in m && m[j].info.life == Reaped ==>
        m[slots[best.value].key].lastUsed <= m[j].lastUsed
      ensures best.None? ==> forall j :: j in m ==> m[j].info.life != Reaped
    {
      best := None;
      var i := 0;
      while i < slots.Length
        invariant 0 <= i <= slots.Length
        invariant best.Some? ==>
          best.value < i && slots[best.value].Used? && slots[best.value].entry.info.life == Reaped
        invariant best.Some? ==> forall j :: 0 <= j < i && slots[j].Used? && slots[j].entry.info.life == Reaped ==>
          slots[best.value].entry.lastUsed <= slots[j].entry.lastUsed
        invariant best.None? ==> forall j :: 0 <= j < i && slots[j].Used? ==> slots[j].entry.info.life != Reaped
      {
        if slots[i].Used? && slots[i].entry.info.life == Reaped {
          if best.None? || slots[i].entry.lastUsed < slots[best.value].entry.lastUsed {
            best := Some(i);
          }
        }
        i := i + 1;
      }
      forall j | j in m
        ensures exists q :: 0 <= q < slots.Length && slots[q].Used? && slots[q].key == j && slots[q].entry == m[j]
      {
        assert Holds(slots[..], j);
      }
    }

    /** px_ledger_evict: up to `n` reaped entries, least recently used first; fewer only when none
        are left. */
    method Evict(n: nat) returns (done: nat, ghost gone: set<Key>)
      requires Valid()
      modifies this`count, this`tombs, this`m, slots
      ensures Valid() && m == old(m) - gone && Evictable(old(m), gone) && |gone| == done <= n
      ensures count == old(count) - done
      ensures done < n ==> forall k :: k in m ==> m[k].info.life != Reaped
    {
      hide Sound, Agrees, PowerOfTwo;
      done, gone := 0, {};
      while done < n
        invariant Valid() && done <= n && |gone| == done && count == old(count) - done
        invariant m == old(m) - gone && Evictable(old(m), gone)
      {
        var best := Victim();
        if best.None? { return; }
        assert forall j :: j in old(m) && j !in gone ==> j in m && m[j] == old(m)[j];
        EvictMore(old(m), gone, slots[best.value].key);
        gone := gone + {slots[best.value].key};
        Release(best.value);
        done := done + 1;
      }
    }

    /** Every live entry of the current table, in a fresh one; the shared core of compaction and
        growth.  Fails, changing nothing, when the allocation does. */
    method Rehash(capacity: nat) returns (ok: bool)
      requires Valid() && PowerOfTwo(capacity) && slots.Length <= capacity <= MAX_SLOTS
      modifies this`slots, this`count, this`tombs, this`memory
      ensures Valid()
      ensures ok <==> old(memory) > 0
      ensures !ok ==> slots == old(slots) && count == old(count) && tombs == old(tombs) && memory == old(memory)
      ensures ok ==>
        fresh(slots) && slots.Length == capacity && count == old(count) && tombs == 0 && memory == old(memory) - 1
    {
      hide Sound, Agrees, PowerOfTwo, Unbroken, LiveCount, TombCount;
      if memory == 0 { return false; }
      memory := memory - 1;
      var table, live := Rebuilt(capacity);
      slots := table;
      count, tombs := live, 0;
      return true;
    }

    method Rebuilt(capacity: nat) returns (table: array<Slot>, live: nat)
      requires TableOk() && slots.Length <= capacity
      ensures fresh(table) && table.Length == capacity
      ensures Sound(hash, table[..]) && Agrees(table[..], m)
      ensures live == LiveCount(table[..]) == count && TombCount(table[..]) == 0
    {
      table := new Slot[capacity](_ => Empty);
      EmptyAgrees(hash, table[..]);
      AllEmptyCounts(table[..]);
      ghost var carried: map<Key, Entry> := map[];
      live := 0;
      var i := 0;
      assert slots[..0] == [];
      hide Sound, Agrees, Unbroken, LiveCount, TombCount;
      assert LiveCount(slots[..0]) == 0 && Agrees(slots[..0], carried) by { NothingYet(slots[..0]); }
      while i < slots.Length
        invariant 0 <= i <= slots.Length && fresh(table) && table.Length == capacity
        invariant Sound(hash, table[..]) && Agrees(table[..], carried) && Agrees(slots[..i], carried)
        invariant live == LiveCount(table[..]) == LiveCount(slots[..i]) && TombCount(table[..]) == 0
      {
        Carried(hash, slots[..], i, carried);
        assert slots[..][..i] == slots[..i] && slots[..][..i + 1] == slots[..i + 1];
        if slots[i].Used? {
          live := Carry(table, slots[i].key, slots[i].entry, live, carried);
          carried := carried[slots[i].key := slots[i].entry];
        }
        i := i + 1;
      }
      assert slots[..i] == slots[..];
      AgreesUnique(slots[..], carried, m);
    }

    /** One entry into the fresh table, which always has room. */
    method Carry(table: array<Slot>, k: Key, e: Entry, live: nat, ghost carried: map<Key, Entry>) returns (n: nat)
      requires table.Length > 0 && Sound(hash, table[..]) && Agrees(table[..], carried) && k !in carried
      requires live == LiveCount(table[..]) < table.Length && TombCount(table[..]) == 0
      modifies table
      ensures Sound(hash, table[..]) && Agrees(table[..], carried[k := e])
      ensures n == live + 1 == LiveCount(table[..]) && TombCount(table[..]) == 0
    {
      var found, at := Probe(hash, table, k);
      hide Sound, Unbroken, LiveCount, TombCount;
      assert !found;
      if at.None? { AllLive(table[..]); }
      CountsOfWrite(table[..], at.value, Used(k, e));
      CountBound(table[..]);
      InsertKeeps(hash, table[..], carried, k, e, at.value);
      NoTombs(table[..], at.value);
      ghost var before := table[..];
      table[at.value] := Used(k, e);
      assert table[..] == before[at.value := Used(k, e)];
      return live + 1;
    }

    /** px_ledger_overloaded: the load factor counts tombstones. */
    predicate Overloaded()
      reads this
    {
      (count + tombs) * 100 >= slots.Length * LOAD_PERCENT
    }

    /** px_ledger_grow: twice the capacity, up to the hard limit. */
    method Grow() returns (rc: Rc)
      requires Valid()
      modifies this`slots, this`count, this`tombs, this`memory
      ensures Valid() && count == old(count)
      ensures rc == OK <==> old(slots.Length) < MAX_SLOTS && old(memory) > 0
      ensures rc == OK ==>
        fresh(slots) && slots.Length == 2 * old(slots.Length) && tombs == 0 && memory == old(memory) - 1
      ensures rc != OK ==> slots == old(slots) && tombs == old(tombs) && memory == old(memory)
      ensures rc == EFULL <==> old(slots.Length) >= MAX_SLOTS
      ensures rc in {OK, EFULL, ENOMEM}
    {
      hide Sound, Agrees;
      if slots.Length >= MAX_SLOTS { return EFULL; }
      DoubledPower(slots.Length);
      hide PowerOfTwo;
      var ok := Rehash(2 * slots.Length);
      return if ok then OK else ENOMEM;
    }

    /** Make room before an insertion: compaction first, then growth, then eviction. */
    method MakeRoom() returns (rc: Rc, ghost gone: set<Key>)
      requires Valid()
      modifies this`slots, this`count, this`tombs, this`memory, this`m, slots
      ensures Valid() && m == old(m) - gone && Evictable(old(m), gone)
      ensures slots == old(slots) || fresh(slots)
      ensures rc in {OK, EFULL, ENOMEM} && (rc != OK ==> gone == {})
      ensures gone != {} ==> eviction && (old(slots.Length) == MAX_SLOTS || old(memory) < 2)
      ensures old(memory) >= 2 && (old(slots.Length) < MAX_SLOTS || eviction) ==> rc == OK
      ensures old(memory) >= 2 && old(slots.Length) < MAX_SLOTS ==> count < slots.Length
      ensures gone != {} ==> count < slots.Length
      ensures rc == EFULL ==> !eviction && old(slots.Length) == MAX_SLOTS
      ensures rc == ENOMEM ==> old(memory) < 2
      ensures old(memory) >= 2 && old(slots.Length) < MAX_SLOTS ==> 100 * (count + tombs) < 75 * slots.Length
      ensures |gone| <= 16 && (gone != {} && |gone| < 16 ==> forall k :: k in m ==> m[k].info.life != Reaped)
    {
      hide Sound, Agrees, PowerOfTwo, LiveCount, TombCount;
      gone := {};
      assert m - {} == m;
      if !Overloaded() { return OK, {}; }
      if tombs > 0 {
        var ok := Rehash(slots.Length);
        if !ok { return ENOMEM, {}; }
      }
      if Overloaded() {
        CountBound(slots[..]);
        rc := Grow();
        if rc != OK {
          if !eviction { return; }
          var done;
          done, gone := Evict(EVICT_BATCH);
          CountBound(slots[..]);
        }
      }
      rc := OK;
    }

    /** The first half of px_ledger_put: room, then the slot of the key or one for it; a full table
        gets one more eviction. */
    method Locate(k: Key) returns (rc: Rc, found: bool, at: nat, ghost gone: set<Key>)
      requires Valid()
      modifies this`slots, this`count, this`tombs, this`memory, this`m, slots
      ensures Valid() && (slots == old(slots) || fresh(slots))
      ensures rc in {OK, ENOMEM, EFULL} && m == old(m) - gone && Evictable(old(m), gone)
      ensures rc == OK ==> at < slots.Length && if found then slots[at].Used? && slots[at].key == k
        else Insertable(hash, slots[..], k, at) && !Holds(slots[..], k)
      ensures old(memory) >= 2 && old(slots.Length) < MAX_SLOTS ==> rc == OK && gone == {}
      ensures rc == ENOMEM ==> old(memory) < 2
      ensures rc == EFULL ==> gone == {} && if eviction then Hopeless(m, count, slots.Length)
        else old(slots.Length) == MAX_SLOTS || count == slots.Length
    {
      hide Sound, Agrees, PowerOfTwo, Insertable, LiveCount, TombCount, Evictable;
      found, at := false, 0;
      rc, gone := MakeRoom();
      if rc != OK { return; }
      var where;
      found, where := Probe(hash, slots, k);
      if where.None? { AllLive(slots[..]); }
      if where.None? && eviction {
        var done; ghost var more;
        done, more := Evict(EVICT_BATCH);
        EvictTwice(old(m), gone, more);
        gone := gone + more;
        found, where := Probe(hash, slots, k);
        if where.None? { AllLive(slots[..]); }
      }
      if where.None? { return EFULL, false, 0, gone; }
      at := where.value;
    }

    /** px_ledger_put: insert or refresh. */
    method Put(pid: int, ppid: int, kind: Kind, tag: nat) returns (rc: Rc)
      requires Valid()
      modifies this`slots, this`count, this`tombs, this`memory, this`m, this`clock, slots
      ensures Valid() && (slots == old(slots) || fresh(slots))
      ensures disabled ==> rc == OK && m == old(m)
      ensures !disabled && pid <= 0 ==> rc == EINVAL && m == old(m)
      ensures !disabled && pid > 0 ==>
        rc in {OK, ENOMEM, EFULL} && Added(old(m), Key(pid, kind), ppid, tag, rc == OK, m)
      ensures !disabled && pid > 0 && old(memory) >= 2 && old(slots.Length) < MAX_SLOTS ==>
        rc == OK && m == Stored(old(m), Key(pid, kind), ppid, tag, clock)
      ensures !disabled && rc == OK ==> Stamped(m, Key(pid, kind), ppid, tag, clock) && clock == old(clock) + 1
      ensures rc == ENOMEM ==> old(memory) < 2
      ensures rc == EFULL ==> m == old(m) && if eviction then Hopeless(m, count, slots.Length)
        else old(slots.Length) == MAX_SLOTS || count == slots.Length
    {
      hide Sound, Agrees, PowerOfTwo, Insertable, LiveCount, TombCount, Stored, Evictable, Holds, Hopeless;
      if disabled { return OK; }
      if pid <= 0 { return EINVAL; }
      var k := Key(pid, kind);
      var found, at; ghost var gone;
      rc, found, at, gone := Locate(k);
      if rc != OK {
        AddFailed(old(m), k, ppid, tag, gone);
        assert gone == {} ==> old(m) - gone == old(m);
        return;
      }
      clock := clock + 1;
      AddWorked(old(m), k, ppid, tag, gone, clock);
      if found {
        Refresh(at, ppid, tag);
      } else {
        Insert(at, k, ppid, tag);
      }
      StoredIsStamped(old(m) - gone, k, ppid, tag, clock);
    }

    method Refresh(i: nat, ppid: int, tag: nat)
      requires Valid() && i < slots.Length && slots[i].Used?
      modifies this`m, slots
      ensures Valid() && m == Stored(old(m), old(slots[i]).key, ppid, tag, clock)
    {
      hide Sound, PowerOfTwo, LiveCount, TombCount;
      var k, was := slots[i].key, slots[i].entry;
      assert m[k] == was;
      var e := Entry(Info(ppid, if tag == TAG_FORK || tag == TAG_SPAWN then Live else was.info.life, tag), clock);
      UpdateKeeps(hash, slots[..], m, i, e);
      CountsOfWrite(slots[..], i, Used(k, e));
      hide Agrees;
      m := m[k := e];
      slots[i] := Used(k, e);
      assert slots[..] == old(slots[..])[i := Used(k, e)];
    }

    method Insert(i: nat, k: Key, ppid: int, tag: nat)
      requires Valid() && Insertable(hash, slots[..], k, i) && !Holds(slots[..], k)
      modifies this`m, this`count, this`tombs, slots
      ensures Valid() && m == Stored(old(m), k, ppid, tag, clock)
    {
      hide Sound, PowerOfTwo, LiveCount, TombCount, Unbroken;
      var e := Entry(Info(ppid, Live, tag), clock);
      assert k !in m;
      InsertKeeps(hash, slots[..], m, k, e, i);
      CountsOfWrite(slots[..], i, Used(k, e));
      hide Agrees, Insertable;
      m := m[k := e];
      if slots[i].Tomb? { tombs := tombs - 1; }
      slots[i] := Used(k, e);
      assert slots[..] == old(slots[..])[i := Used(k, e)];
      count := count + 1;
    }

    method Add(pid: int, ppid: int, tag: nat) returns (rc: Rc)
      requires Valid()
      modifies this`slots, this`count, this`tombs, this`memory, this`m, this`clock, slots
      ensures Valid() && (slots == old(slots) || fresh(slots))
      ensures disabled || pid <= 0 ==> m == old(m)
      ensures !disabled && pid > 0 ==> Steps(old(m), AddEvent(Key(pid, Pid), ppid, tag, rc == OK), m)
      ensures !disabled && pid > 0 && old(memory) >= 2 && old(slots.Length) < MAX_SLOTS ==>
        rc == OK && m == Stored(old(m), Key(pid, Pid), ppid, tag, clock)
    {
      hide Added, Sound, Agrees, PowerOfTwo;
      rc := Put(pid, ppid, Pid, tag);
    }

    method AddPgid(pgid: int, tag: nat) returns (rc: Rc)
      requires Valid()
      modifies this`slots, this`count, this`tombs, this`memory, this`m, this`clock, slots
      ensures Valid() && (slots == old(slots) || fresh(slots))
      ensures disabled || pgid <= 0 ==> m == old(m)
      ensures !disabled && pgid > 0 ==> Steps(old(m), AddEvent(Key(pgid, Pgid), 0, tag, rc == OK), m)
    {
      hide Added, Sound, Agrees, PowerOfTwo;
      rc := Put(pgid, 0, Pgid, tag);
    }

    /** px_ledger_get: exactly the map's entry, while the ledger is enabled. */
    method Get(pid: int, kind: Kind) returns (info: Option<Info>)
      requires Valid()
      ensures info == Known(m, disabled, pid, kind)
    {
      hide Sound, PowerOfTwo, LiveCount, TombCount;
      if disabled || pid <= 0 { return None; }
      var found, at := Probe(hash, slots, Key(pid, kind));
      if found { return Some(slots[at.value].entry.info); }
      return None;
    }

    method MarkReaped(k: Key) returns (hit: bool)
      requires Valid()
      modifies this`m, slots
      ensures Valid() && m == ReapedKey(old(m), k) && (hit <==> k in old(m))
    {
      hide Sound, PowerOfTwo, LiveCount, TombCount, Insertable;
      var found, at := Probe(hash, slots, k);
      if !found { return false; }
      var i := at.value;
      var was := slots[i].entry;
      assert m[k] == was;
      var e := was.(info := was.info.(life := Reaped));
      UpdateKeeps(hash, slots[..], m, i, e);
      CountsOfWrite(slots[..], i, Used(k, e));
      hide Agrees;
      m := m[k := e];
      slots[i] := Used(k, e);
      assert slots[..] == old(slots[..])[i := Used(k, e)];
      return true;
    }

    /** px_ledger_reap: both dimensions of the pid at once. */
    method Reap(pid: int) returns (rc: Rc)
      requires Valid()
      modifies this`m, slots
      ensures Valid()
      ensures disabled || pid <= 0 ==> rc == ENOENT && m == old(m)
      ensures !disabled && pid > 0 ==> Steps(old(m), ReapEvent(pid), m)
      ensures !disabled && pid > 0 ==>
        (rc == OK <==> Key(pid, Pid) in old(m) || Key(pid, Pgid) in old(m)) && rc in {OK, ENOENT}
    {
      hide Sound, Agrees, PowerOfTwo;
      if disabled || pid <= 0 { return ENOENT; }
      var h1 := MarkReaped(Key(pid, Pid));
      var h2 := MarkReaped(Key(pid, Pgid));
      return if h1 || h2 then OK else ENOENT;
    }

    method Forget(pid: int, kind: Kind) returns (rc: Rc)
      requires Valid()
      modifies this`count, this`tombs, this`m, slots
      ensures Valid()
      ensures disabled ==> rc == ENOENT && m == old(m)
      ensures !disabled ==>
        Steps(old(m), RemoveEvent(Key(pid, kind)), m) && (rc == OK <==> Key(pid, kind) in old(m)) && rc in {OK, ENOENT}
    {
      hide Sound, PowerOfTwo, LiveCount, TombCount, Insertable;
      if disabled { return ENOENT; }
      var found, at := Probe(hash, slots, Key(pid, kind));
      if !found {
        assert Key(pid, kind) !in m;
        return ENOENT;
      }
      hide Agrees;
      assert Key(pid, kind) in m;
      Release(at.value);
      return OK;
    }

    method Clear()
      requires Valid()
      modifies this`count, this`tombs, this`m, this`clock, slots
      ensures Valid() && Steps(old(m), ClearEvent, m)
    {
      forall i | 0 <= i < slots.Length { slots[i] := Empty; }
      count, tombs, clock := 0, 0, 0;
      m := map[];
      EmptyAgrees(hash, slots[..]);
      AllEmptyCounts(slots[..]);
    }

    /** px_check_kill, reading the ledger. */
    method CheckKill(pol: Policy, sys: SysView, self: int, target: int, sig: int) returns (v: Verdict)
      requires Valid()
      ensures v == Judge(m, disabled, pol, sys, self, target, sig)
    {
      hide Sound, Agrees, PowerOfTwo;
      if disabled { return Pass; }
      if sig == SIGCHLD { return Pass; }
      if target == -1 || target == 0 {
        return if pol.allowBroadcast then Pass else Deny;
      }
      if target > 0 {
        if pol.protectSelf && self > 0 && target == self { return Pass; }
        var info := Get(target, Pid);
        if info.Some? { return if info.value.life == Live then Pass else Deny; }
        if pol.allowParent && self > 0 && sys.ppid.Some? && sys.ppid.value > 0 &&
          target == sys.ppid.value { return Pass; }
        return Deny;
      }
      if !pol.allowGroup { return Deny; }
      var pgid := -target;
      if sys.pgrp == Some(pgid) { return Pass; }
      var asPid := Get(pgid, Pid);
      var asPgid := Get(pgid, Pgid);
      if asPid.Some? || asPgid.Some? {
        if (asPid.Some? && asPid.value.life == Reaped) || (asPgid.Some? && asPgid.value.life == Reaped) { return Deny; }
        return Pass;
      }
      return Deny;
    }
  }

  /** px_ledger_create: the asked size, at least one slot, rounded up to a power of two within the
      limit; null when either allocation fails. */
  method Create(hash: Hash, slots: nat, memory: nat) returns (l: PxLedger?)
    ensures l == null <==> memory < 2
    ensures l != null ==> fresh(l) && fresh(l.slots) && l.Valid() && l.m == map[] && !l.disabled && l.eviction
    ensures l != null ==> if slots == 0 then l.slots.Length == DEFAULT_SLOTS else
      (slots <= MAX_SLOTS ==> slots <= l.slots.Length < 2 * slots) &&
        (slots > MAX_SLOTS ==> l.slots.Length == MAX_SLOTS)
  {
    var want := if slots == 0 then DEFAULT_SLOTS else if slots > MAX_SLOTS then MAX_SLOTS else slots;
    want := RoundPow2(want);
    if memory < 2 { return null; }
    hide Sound, Agrees;
    if slots == 0 { DefaultIsPower(want); }
    hide PowerOfTwo;
    l := new PxLedger(hash, want, memory - 2);
  }

  lemma DefaultIsPower(r: nat)
    requires PowerOfTwo(r) && DEFAULT_SLOTS <= r < 2 * DEFAULT_SLOTS
    ensures r == DEFAULT_SLOTS
  {
    assert PowerOfTwo(DEFAULT_SLOTS) by { assert PowerOfTwo(0x10); }
    if r > DEFAULT_SLOTS { PowersDouble(DEFAULT_SLOTS, r); }
  }

  // ----- one step of the map -----

  datatype Event =
    | AddEvent(key: Key, ppid: int, tag: nat, ok: bool)
    | ReapEvent(pid: int)
    | RemoveEvent(key: Key)
    | EvictEvent
    | ClearEvent
    | QuietEvent        // lookups, switches, compaction and growth

  ghost predicate Evicted(m: map<Key, Entry>, gone: set<Key>) {
    Evictable(m, gone)
  }

  /** An addition may first evict; it then stores the entry or fails. */
  ghost predicate Added(m: map<Key, Entry>, k: Key, ppid: int, tag: nat, ok: bool, now: map<Key, Entry>) {
    exists gone, clock :: AddedAt(m, k, ppid, tag, ok, now, gone, clock)
  }

  ghost predicate AddedAt(m: map<Key, Entry>, k: Key, ppid: int, tag: nat, ok: bool, now: map<Key, Entry>,
      gone: set<Key>, clock: nat) {
    Evictable(m, gone) && now == if ok then Stored(m - gone, k, ppid, tag, clock) else m - gone
  }

  ghost predicate Steps(m: map<Key, Entry>, e: Event, now: map<Key, Entry>) {
    match e
    case AddEvent(k, ppid, tag, ok) => Added(m, k, ppid, tag, ok, now)
    case ReapEvent(pid) => now == ReapedPid(m, pid)
    case RemoveEvent(k) => now == m - {k}
    case EvictEvent => exists gone :: Evicted(m, gone) && now == m - gone
    case ClearEvent => now == map[]
    case QuietEvent => now == m
  }

  lemma StoredIsStamped(m: map<Key, Entry>, k: Key, ppid: int, tag: nat, clock: nat)
    ensures Stamped(Stored(m, k, ppid, tag, clock), k, ppid, tag, clock)
  {
  }

  lemma AddFailed(m: map<Key, Entry>, k: Key, ppid: int, tag: nat, gone: set<Key>)
    requires Evictable(m, gone)
    ensures Added(m, k, ppid, tag, false, m - gone)
  {
    assert AddedAt(m, k, ppid, tag, false, m - gone, gone, 0);
  }

  lemma AddWorked(m: map<Key, Entry>, k: Key, ppid: int, tag: nat, gone: set<Key>, clock: nat)
    requires Evictable(m, gone)
    ensures Added(m, k, ppid, tag, true, Stored(m - gone, k, ppid, tag, clock))
    ensures gone == {} ==> m - gone == m
  {
    assert AddedAt(m, k, ppid, tag, true, Stored(m - gone, k, ppid, tag, clock), gone, clock);
  }

  lemma EvictTwice(m: map<Key, Entry>, g1: set<Key>, g2: set<Key>)
    requires Evictable(m, g1) && Evictable(m - g1, g2)
    ensures Evictable(m, g1 + g2) && m - g1 - g2 == m - (g1 + g2)
  {
  }

  lemma NothingYet(t: Table)
    requires |t| == 0
    ensures LiveCount(t) == 0 && Agrees(t, map[])
  {
  }

  lemma {:induction false} NoTombs(t: Table, i: nat)
    requires TombCount(t) == 0 && i < |t|
    ensures !t[i].Tomb?
    decreases |t|
  {
    if i < |t| - 1 { NoTombs(t[..|t| - 1], i); }
  }

  lemma {:induction false} LivePrefix(t: Table, n: nat)
    requires n <= |t|
    ensures LiveCount(t[..n]) <= LiveCount(t)
    ensures n < |t| ==> LiveCount(t[..n + 1]) == LiveCount(t[..n]) + Live1(t[n])
    decreases |t|
  {
    if n < |t| {
      assert t[..n + 1][..n] == t[..n];
      assert t[..|t| - 1][..n] == t[..n];
      LivePrefix(t[..|t| - 1], n);
    } else {
      assert t[..n] == t;
    }
  }

  lemma Carried(hash: Hash, t: Table, i: nat, carried: map<Key, Entry>)
    requires Sound(hash, t) && i < |t| && Agrees(t[..i], carried)
    ensures !t[i].Used? ==> Agrees(t[..i + 1], carried)
    ensures t[i].Used? ==> t[i].key !in carried && Agrees(t[..i + 1], carried[t[i].key := t[i].entry])
    ensures LiveCount(t[..i + 1]) == LiveCount(t[..i]) + Live1(t[i]) && LiveCount(t[..i]) <= i
  {
    hide Agrees, Unbroken;
    CarryPrefix(t, i, carried);
    LivePrefix(t, i);
  }

  /** px_probe: the slot of the key, or where it may be inserted, or nothing. */
  method Probe(hash: Hash, slots: array<Slot>, k: Key) returns (found: bool, at: Option<nat>)
    requires slots.Length > 0 && Sound(hash, slots[..])
    ensures found ==> at.Some? && at.value < slots.Length && slots[at.value].Used? && slots[at.value].key == k
    ensures !found ==> !Holds(slots[..], k)
    ensures !found && at.Some? ==> Insertable(hash, slots[..], k, at.value)
    ensures at.None? ==> forall i :: 0 <= i < slots.Length ==> slots[i].Used?
  {
    var cap := slots.Length;
    var home := Home(hash, k, cap);
    var i := home;
    var n := 0;
    var firstTomb: Option<nat> := None;
    while n < cap
      invariant 0 <= n <= cap && i == (if n < cap then At(home, n, cap) else home)
      invariant forall d :: 0 <= d < n ==>
        var s := slots[At(home, d, cap)]; s != Empty && !(s.Used? && s.key == k)
      invariant firstTomb.None? ==> forall d :: 0 <= d < n ==> slots[At(home, d, cap)].Used?
      invariant firstTomb.Some? ==>
        firstTomb.value < cap && slots[firstTomb.value].Tomb? && Dist(home, firstTomb.value, cap) < n
    {
      if slots[i].Empty? {
        ChainEnds(hash, slots[..], k, n);
        return false, if firstTomb.Some? then firstTomb else Some(i);
      }
      if slots[i].Tomb? {
        if firstTomb.None? { firstTomb := Some(i); }
      } else if slots[i].key == k {
        return true, Some(i);
      }
      i := if i + 1 == cap then 0 else i + 1;
      n := n + 1;
    }
    ChainEnds(hash, slots[..], k, n);
    forall j | firstTomb.None? && 0 <= j < cap ensures slots[j].Used? {
      assert At(home, Dist(home, j, cap), cap) == j;
    }
    return false, firstTomb;
  }
}

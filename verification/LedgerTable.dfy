/** The pid ledger's hash table, as a value: open addressing with linear probing and tombstones.

    `Agrees` ties a table to the plain map it stands for; the lemmas say what each slot write does
    to that map, for any hash function. */
module LedgerTable {

  datatype Kind = Pid | Pgid

  datatype Life = Live | Reaped

  datatype Key = Key(pid: int, kind: Kind)

  datatype Info = Info(ppid: int, life: Life, tag: nat)

  /** What the ledger knows about a key, and when it was last used. */
  datatype Entry = Entry(info: Info, lastUsed: nat)

  datatype Slot = Empty | Tomb | Used(key: Key, entry: Entry)

  type Table = seq<Slot>

  /** Any hash function; the code's own depends on pid and kind only. */
  type Hash = Key -> int

  function Home(hash: Hash, k: Key, cap: nat): (i: nat)
    requires cap > 0
    ensures i < cap
  {
    hash(k) % cap
  }

  /** The position `d` steps after `home`, around the end. */
  function At(home: nat, d: nat, cap: nat): (i: nat)
    requires home < cap && d < cap
    ensures i < cap
  {
    if home + d < cap then home + d else home + d - cap
  }

  /** How many steps lead from `home` to `i`. */
  function Dist(home: nat, i: nat, cap: nat): (d: nat)
    requires home < cap && i < cap
    ensures d < cap && At(home, d, cap) == i
  {
    if i >= home then i - home else i - home + cap
  }

  // ----- soundness -----

  predicate Distinct(t: Table) {
    forall i, j :: 0 <= i < |t| && 0 <= j < |t| && t[i].Used? && t[j].Used? && t[i].key == t[j].key ==> i == j
  }

  /** Nothing empty lies before position `i` on the probe chain of `k`. */
  predicate Unbroken(hash: Hash, t: Table, k: Key, i: nat)
    requires i < |t|
  {
    var home := Home(hash, k, |t|);
    forall d :: 0 <= d < Dist(home, i, |t|) ==> t[At(home, d, |t|)] != Empty
  }

  predicate Sound(hash: Hash, t: Table) {
    && |t| > 0 && Distinct(t)
    && forall i :: 0 <= i < |t| && t[i].Used? ==> Unbroken(hash, t, t[i].key, i)
  }

  /** The table holds exactly the entries of `m`. */
  ghost predicate Agrees(t: Table, m: map<Key, Entry>) {
    && (forall i :: 0 <= i < |t| && t[i].Used? ==> t[i].key in m && m[t[i].key] == t[i].entry)
    && (forall k :: k in m ==> Holds(t, k))
  }

  ghost predicate Holds(t: Table, k: Key) {
    exists i :: 0 <= i < |t| && t[i].Used? && t[i].key == k
  }

  function Live1(s: Slot): nat { if s.Used? then 1 else 0 }

  function Tomb1(s: Slot): nat { if s.Tomb? then 1 else 0 }

  function LiveCount(t: Table): (n: nat)
    ensures n <= |t|
  {
    if |t| == 0 then 0 else LiveCount(t[..|t| - 1]) + Live1(t[|t| - 1])
  }

  function TombCount(t: Table): (n: nat)
    ensures n <= |t|
  {
    if |t| == 0 then 0 else TombCount(t[..|t| - 1]) + Tomb1(t[|t| - 1])
  }

  lemma {:induction false} CountsOfWrite(t: Table, i: nat, s: Slot)
    requires i < |t|
    ensures LiveCount(t[i := s]) == LiveCount(t) - Live1(t[i]) + Live1(s)
    ensures TombCount(t[i := s]) == TombCount(t) - Tomb1(t[i]) + Tomb1(s)
    decreases |t|
  {
    var n := |t| - 1;
    var u := t[i := s];
    if i < n {
      assert u[..n] == t[..n][i := s];
      CountsOfWrite(t[..n], i, s);
    } else {
      assert u[..n] == t[..n];
    }
  }

  lemma {:induction false} AllEmptyCounts(t: Table)
    requires forall i :: 0 <= i < |t| ==> t[i] == Empty
    ensures LiveCount(t) == 0 && TombCount(t) == 0
    decreases |t|
  {
    if |t| > 0 { AllEmptyCounts(t[..|t| - 1]); }
  }

  /** Fewer used and tomb slots than slots: some slot is empty. */
  lemma {:induction false} SomeEmpty(t: Table)
    requires forall i :: 0 <= i < |t| ==> t[i] != Empty
    ensures LiveCount(t) + TombCount(t) == |t|
    decreases |t|
  {
    if |t| > 0 { SomeEmpty(t[..|t| - 1]); }
  }

  lemma {:induction false} CountBound(t: Table)
    ensures LiveCount(t) + TombCount(t) <= |t|
    decreases |t|
  {
    if |t| > 0 { CountBound(t[..|t| - 1]); }
  }

  lemma {:induction false} AllLive(t: Table)
    requires forall i :: 0 <= i < |t| ==> t[i].Used?
    ensures LiveCount(t) == |t| && TombCount(t) == 0
    decreases |t|
  {
    if |t| > 0 { AllLive(t[..|t| - 1]); }
  }

  // ----- what slot writes do -----

  /** `i` is where a new entry for the absent key `k` may go. */
  predicate Insertable(hash: Hash, t: Table, k: Key, i: nat) {
    i < |t| && !t[i].Used? && Unbroken(hash, t, k, i)
  }

  lemma WriteKeepsChains(hash: Hash, t: Table, i: nat, s: Slot)
    requires Sound(hash, t) && i < |t| && s != Empty
    ensures forall j :: 0 <= j < |t| && j != i && t[j].Used? ==> Unbroken(hash, t[i := s], t[j].key, j)
  {
  }

  /** Inserting a new key. */
  lemma InsertKeeps(hash: Hash, t: Table, m: map<Key, Entry>, k: Key, e: Entry, i: nat)
    requires Sound(hash, t) && Agrees(t, m) && k !in m && Insertable(hash, t, k, i)
    ensures Sound(hash, t[i := Used(k, e)]) && Agrees(t[i := Used(k, e)], m[k := e])
  {
    var u := t[i := Used(k, e)];
    WriteKeepsChains(hash, t, i, Used(k, e));
    assert Unbroken(hash, u, k, i);
    hide Unbroken;
    assert Holds(u, k) by { assert u[i].key == k; }
    forall q | q in m ensures Holds(u, q) {
      var j :| 0 <= j < |t| && t[j].Used? && t[j].key == q;
      assert u[j] == t[j];
    }
  }

  /** Rewriting the entry of a key in place. */
  lemma UpdateKeeps(hash: Hash, t: Table, m: map<Key, Entry>, i: nat, e: Entry)
    requires Sound(hash, t) && Agrees(t, m) && i < |t| && t[i].Used?
    ensures Sound(hash, t[i := Used(t[i].key, e)]) && Agrees(t[i := Used(t[i].key, e)], m[t[i].key := e])
  {
    var k := t[i].key;
    var u := t[i := Used(k, e)];
    WriteKeepsChains(hash, t, i, Used(k, e));
    assert Unbroken(hash, u, k, i);
    hide Unbroken;
    forall q | q in m ensures Holds(u, q) {
      var j :| 0 <= j < |t| && t[j].Used? && t[j].key == q;
      assert u[j].Used? && u[j].key == q;
    }
  }

  /** Turning an entry into a tombstone. */
  lemma ReleaseKeeps(hash: Hash, t: Table, m: map<Key, Entry>, i: nat)
    requires Sound(hash, t) && Agrees(t, m) && i < |t| && t[i].Used?
    ensures Sound(hash, t[i := Tomb]) && Agrees(t[i := Tomb], m - {t[i].key})
  {
    var k := t[i].key;
    var u := t[i := Tomb];
    WriteKeepsChains(hash, t, i, Tomb);
    hide Unbroken;
    forall q | q in m - {k} ensures Holds(u, q) {
      var j :| 0 <= j < |t| && t[j].Used? && t[j].key == q;
      assert u[j] == t[j];
    }
  }

  lemma EmptyAgrees(hash: Hash, t: Table)
    requires |t| > 0 && forall i :: 0 <= i < |t| ==> t[i] == Empty
    ensures Sound(hash, t) && Agrees(t, map[])
  {
  }

  /** A key that the probe did not meet before the first empty slot is nowhere in the table. */
  lemma ChainEnds(hash: Hash, t: Table, k: Key, n: nat)
    requires Sound(hash, t) && n <= |t|
    requires forall d :: 0 <= d < n ==> var s := t[At(Home(hash, k, |t|), d, |t|)]; !(s.Used? && s.key == k)
    requires n < |t| ==> t[At(Home(hash, k, |t|), n, |t|)] == Empty
    ensures !Holds(t, k)
  {
    forall i | 0 <= i < |t| ensures !(t[i].Used? && t[i].key == k) { NotBehindEmpty(hash, t, k, n, i); }
  }

  lemma NotBehindEmpty(hash: Hash, t: Table, k: Key, n: nat, i: nat)
    requires Sound(hash, t) && n <= |t| && i < |t|
    requires forall d :: 0 <= d < n ==> var s := t[At(Home(hash, k, |t|), d, |t|)]; !(s.Used? && s.key == k)
    requires n < |t| ==> t[At(Home(hash, k, |t|), n, |t|)] == Empty
    ensures !(t[i].Used? && t[i].key == k)
  {
    var home := Home(hash, k, |t|);
    var d := Dist(home, i, |t|);
    assert t[At(home, d, |t|)] == t[i];
    assert t[i].Used? ==> Unbroken(hash, t, t[i].key, i);
  }

  /** One more slot of the old table carried over to the new one. */
  lemma CarryPrefix(t: Table, n: nat, m: map<Key, Entry>)
    requires n < |t| && Agrees(t[..n], m)
    ensures !t[n].Used? ==> Agrees(t[..n + 1], m)
    ensures t[n].Used? && Distinct(t) ==> t[n].key !in m && Agrees(t[..n + 1], m[t[n].key := t[n].entry])
  {
    var p, q := t[..n], t[..n + 1];
    assert q == p + [t[n]];
    forall k | Holds(p, k) ensures Holds(q, k) {
      var i :| 0 <= i < |p| && p[i].Used? && p[i].key == k;
      assert q[i] == p[i];
    }
    if t[n].Used? && Distinct(t) {
      assert q[n].key == t[n].key;
      assert forall i :: 0 <= i < n ==> p[i] == t[i];
    }
  }

  /** A table stands for one map only. */
  lemma AgreesUnique(t: Table, m1: map<Key, Entry>, m2: map<Key, Entry>)
    requires Agrees(t, m1) && Agrees(t, m2)
    ensures m1 == m2
  {
    forall k | k in m1 ensures k in m2 && m2[k] == m1[k] {
      var i :| 0 <= i < |t| && t[i].Used? && t[i].key == k;
    }
    forall k | k in m2 ensures k in m1 {
      var i :| 0 <= i < |t| && t[i].Used? && t[i].key == k;
    }
  }
}

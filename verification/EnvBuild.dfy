/** px_env_build as it runs: entries packed into a buffer that is replaced as it grows, recorded by
    offset, and turned into addresses only at the end. */
module EnvBuild {
  import opened Wrappers
  import opened Env
  import P = Preload

  const NUL: char := 0 as char

  /** The entries one after the other, each with its terminator. */
  function Packed(es: seq<string>): string {
    if |es| == 0 then "" else Packed(es[..|es| - 1]) + (es[|es| - 1] + [NUL])
  }

  lemma {:induction false} PackedSize(es: seq<string>)
    ensures |Packed(es)| == Size(es)
  {
    if |es| > 0 { PackedSize(es[..|es| - 1]); }
  }

  lemma PackedSnoc(es: seq<string>, e: string)
    ensures Packed(es + [e]) == Packed(es) + (e + [NUL])
  {
    assert (es + [e])[..|es|] == es;
  }

  /** The C string at an offset of the text. */
  predicate StringAt(buf: string, at: nat, e: string) {
    at + |e| < |buf| && buf[at..at + |e|] == e && buf[at + |e|] == NUL
  }

  /** Every entry lies at the sum of the sizes before it. */
  lemma {:induction false} PackedAt(es: seq<string>, i: nat)
    requires i < |es|
    ensures StringAt(Packed(es), Size(es[..i]), es[i])
    decreases |es|
  {
    var n := |es| - 1;
    PackedSize(es[..n]);
    if i < n {
      PackedAt(es[..n], i);
      assert es[..n][..i] == es[..i];
    } else {
      var p, e := Packed(es[..n]), es[n];
      assert (p + (e + [NUL]))[|p|..|p| + |e|] == e;
    }
  }

  class EnvOut {
    var buf: array<char>
    var bufLen: nat
    var offs: array<nat>
    var n: nat
    /** How many more allocations succeed. */
    var memory: nat
    ghost var entries: seq<string>

    ghost predicate Valid()
      reads this, buf, offs
    {
      && bufLen <= buf.Length && n <= offs.Length && n == |entries|
      && buf[..bufLen] == Packed(entries) && bufLen == Size(entries)
      && forall i :: 0 <= i < n ==> offs[i] == Size(entries[..i])
    }

    constructor (memory: nat)
      ensures Valid() && entries == [] && fresh(buf) && fresh(offs) && this.memory == memory
    {
      buf := new char[0](_ => NUL);
      offs := new nat[0](_ => 0);
      bufLen, n, entries := 0, 0, [];
      this.memory := memory;
    }

    /** px_env_reserve: double the buffer until `need` more bytes fit; the old block is replaced. */
    method Reserve(need: nat) returns (rc: Rc)
      requires Valid()
      modifies this`buf, this`memory
      ensures Valid() && (buf == old(buf) || fresh(buf))
      ensures rc == OK ==> buf.Length - bufLen >= need && memory >= old(memory) - 1
      ensures rc != OK ==> rc == ENOMEM && old(memory) == 0
    {
      hide Packed, Size;
      if buf.Length - bufLen >= need { return OK; }
      var want := if buf.Length == 0 then 1024 else buf.Length;
      while want < bufLen || want - bufLen < need
        invariant want > 0
        decreases bufLen + need - want
      {
        want := want * 2;
      }
      if memory == 0 { return ENOMEM; }
      memory := memory - 1;
      var nb := new char[want](_ => NUL);
      forall i | 0 <= i < bufLen { nb[i] := buf[i]; }
      assert nb[..bufLen] == buf[..bufLen];
      buf := nb;
      return OK;
    }

    /** px_env_reserve_offs: room for one more offset. */
    method ReserveOffs() returns (rc: Rc)
      requires Valid()
      modifies this`offs, this`memory
      ensures Valid() && (offs == old(offs) || fresh(offs))
      ensures rc == OK ==> n < offs.Length && memory >= old(memory) - 1
      ensures rc != OK ==> rc == ENOMEM && old(memory) == 0
    {
      hide Packed, Size;
      if n + 1 <= offs.Length { return OK; }
      var want := if offs.Length == 0 then 32 else offs.Length * 2;
      if want <= n + 1 { want := n + 2; }
      if memory == 0 { return ENOMEM; }
      memory := memory - 1;
      var no := new nat[want](_ => 0);
      forall i | 0 <= i < n { no[i] := offs[i]; }
      offs := no;
      return OK;
    }

    /** The copy into the buffer. */
    method Copy(e: string)
      requires Valid() && buf.Length - bufLen >= |e| + 1
      modifies buf
      ensures buf[..bufLen + |e| + 1] == Packed(entries + [e])
    {
      hide Packed, Size;
      ghost var was := buf[..bufLen];
      forall i | 0 <= i < |e| { buf[bufLen + i] := e[i]; }
      assert buf[..bufLen] == was && buf[bufLen..bufLen + |e|] == e;
      buf[bufLen + |e|] := NUL;
      Appended(entries, e, buf[..bufLen + |e| + 1]);
    }

    /** px_env_push: append one entry. */
    method Push(e: string) returns (rc: Rc)
      requires Valid()
      modifies this, buf, offs
      ensures Valid() && (buf == old(buf) || fresh(buf)) && (offs == old(offs) || fresh(offs))
      ensures rc == OK ==> entries == old(entries) + [e] && memory >= old(memory) - 2
      ensures rc != OK ==> rc == ENOMEM && old(memory) < 2 && entries == old(entries)
    {
      hide Packed, Size;
      rc := ReserveOffs();
      if rc != OK { return; }
      rc := Reserve(|e| + 1);
      if rc != OK { return; }
      Copy(e);
      OffsetsSnoc(entries, e);
      offs[n] := bufLen;
      n := n + 1;
      bufLen := bufLen + |e| + 1;
      entries := entries + [e];
    }
  }

  lemma OffsetsSnoc(es: seq<string>, e: string)
    ensures Size(es + [e]) == Size(es) + |e| + 1
    ensures forall j :: 0 <= j <= |es| ==> (es + [e])[..j] == es[..j]
    ensures (es + [e])[..|es|] == es
  {
    SizeSnoc(es, e);
  }

  lemma Appended(es: seq<string>, e: string, text: string)
    requires |text| == Size(es) + |e| + 1 && text[..Size(es)] == Packed(es) && text[Size(es)..Size(es) + |e|] == e
    requires text[Size(es) + |e|] == NUL
    ensures text == Packed(es + [e])
  {
    PackedSnoc(es, e);
    hide Packed, Size;
    assert text == text[..Size(es)] + (text[Size(es)..Size(es) + |e|] + [text[Size(es) + |e|]]);
  }

  /** The first pass: entries are carried over until the limit, within half of the budget. */
  method FirstPass(out: EnvOut, envp: seq<string>, pol: Policy, limit: nat, half: nat)
    returns (rc: Rc, long: nat, over: nat)
    requires out.Valid() && out.entries == []
    modifies out, out.buf, out.offs
    ensures out.Valid() && (out.buf == old(out.buf) || fresh(out.buf)) && (out.offs == old(out.offs) || fresh(out.offs))
    ensures rc == OK ==> var k := Carry(Visible(envp), pol, limit, half);
      out.entries == k.entries && long == k.long && over == k.over
    ensures rc == OK ==> out.memory + 2 * |envp| >= old(out.memory)
    ensures rc != OK ==> rc == ENOMEM && old(out.memory) < 2 * |envp|
  {
    hide Eligible, Size, Packed;
    long, over := 0, 0;
    var i := 0;
    while i < ENVP_MAX && i < |envp|
      invariant i <= |Visible(envp)| && out.Valid()
      invariant (out.buf == old(out.buf) || fresh(out.buf)) && (out.offs == old(out.offs) || fresh(out.offs))
      invariant var k := Carry(envp[..i], pol, limit, half);
        out.entries == k.entries && long == k.long && over == k.over
      invariant out.memory + 2 * i >= old(out.memory)
    {
      if out.n >= limit {
        assert Visible(envp)[..i] == envp[..i];
        CarryFull(Visible(envp), i, pol, limit, half);
        return OK, long, over;
      }
      var e := envp[i];
      assert envp[..i + 1][..i] == envp[..i];
      if Eligible(pol, e) {
        if |e| > PASSTHRU_MAX {
          long := long + 1;
        } else if out.bufLen + |e| + 1 > half {
          over := over + 1;
        } else {
          rc := out.Push(e);
          if rc != OK { return; }
        }
      }
      i := i + 1;
    }
    assert envp[..i] == Visible(envp);
    rc := OK;
  }

  method Kv(out: EnvOut, name: string, value: string) returns (rc: Rc)
    requires out.Valid()
    modifies out, out.buf, out.offs
    ensures out.Valid() && (out.buf == old(out.buf) || fresh(out.buf)) && (out.offs == old(out.offs) || fresh(out.offs))
    ensures rc == OK ==>
      PushKv(old(out.entries), name, value) == Going(out.entries) && out.memory >= old(out.memory) - 2
    ensures rc != OK ==> (rc == ENOMEM && old(out.memory) < 2) || PushKv(old(out.entries), name, value) == Failed(rc)
  {
    hide Size, Packed;
    if |name| + 1 + |value| > ENTRY_MAX { return ETOOLONG; }
    rc := out.Push(name + ['='] + value);
  }

  /** One forced item. */
  method ForceItem(out: EnvOut, envp: seq<string>, limit: nat, budget: nat, f: Forced) returns (rc: Rc, stop: bool)
    requires out.Valid()
    modifies out, out.buf, out.offs
    ensures out.Valid() && (out.buf == old(out.buf) || fresh(out.buf)) && (out.offs == old(out.offs) || fresh(out.offs))
    ensures rc == OK ==>
      ForceOne(old(out.entries), envp, limit, budget, f) == (if stop then Stopped(out.entries) else Going(out.entries))
    ensures rc == OK ==> out.memory >= old(out.memory) - 2
    ensures rc != OK ==>
      (rc == ENOMEM && old(out.memory) < 2) || ForceOne(old(out.entries), envp, limit, budget, f) == Failed(rc)
  {
    hide Size, Packed, PushKv, Lookup, P.MergeSpec;
    stop := false;
    if f.name.None? { return OK, false; }
    var name := f.name.value;
    if f.mode == MergePreload {
      var cur := EnvLookup(envp, name);
      var m := P.MergePreload(TextOf(cur), TextOf(f.value), PRELOAD_MAX);
      if !m.Merged? { return ENOSPC, false; }
      rc := Kv(out, name, m.text);
      return;
    }
    if out.n >= limit { return OK, true; }
    if out.bufLen + |name| + 1 + |TextOf(f.value)| + 1 > budget { return ENOSPC, false; }
    rc := Kv(out, name, TextOf(f.value));
  }

  method SecondPass(out: EnvOut, envp: seq<string>, limit: nat, budget: nat, forced: seq<Forced>) returns (rc: Rc)
    requires out.Valid()
    modifies out, out.buf, out.offs
    ensures out.Valid() && (out.buf == old(out.buf) || fresh(out.buf)) && (out.offs == old(out.offs) || fresh(out.offs))
    ensures var r := Force(old(out.entries), envp, limit, budget, forced);
      && (rc == OK ==> !r.Failed? && r.entries == out.entries && out.memory + 2 * |forced| >= old(out.memory))
      && (rc != OK ==> (rc == ENOMEM && old(out.memory) < 2 * |forced|) || r == Failed(rc))
  {
    hide Size, Packed, ForceOne;
    ghost var es := out.entries;
    var i := 0;
    assert forced[..|forced|] == forced;
    while i < |forced|
      invariant 0 <= i <= |forced| && out.Valid()
      invariant (out.buf == old(out.buf) || fresh(out.buf)) && (out.offs == old(out.offs) || fresh(out.offs))
      invariant Force(es, envp, limit, budget, forced[..i]) == Going(out.entries)
      invariant out.memory + 2 * i >= old(out.memory)
    {
      assert forced[..i + 1][..i] == forced[..i];
      var stop;
      rc, stop := ForceItem(out, envp, limit, budget, forced[i]);
      if rc != OK || stop {
        ForceStays(es, envp, limit, budget, forced, i + 1);
        return;
      }
      i := i + 1;
    }
    rc := OK;
  }

  /** Once stopped or failed, forcing does nothing more. */
  lemma {:induction false} ForceStays(es: seq<string>, envp: seq<string>, limit: nat, budget: nat, forced: seq<Forced>,
      i: nat)
    requires i <= |forced|
    ensures !Force(es, envp, limit, budget, forced[..i]).Going? ==>
      Force(es, envp, limit, budget, forced) == Force(es, envp, limit, budget, forced[..i])
    decreases |forced|
  {
    hide ForceOne;
    if i == |forced| {
      assert forced[..i] == forced;
    } else {
      assert forced[..|forced| - 1][..i] == forced[..i];
      ForceStays(es, envp, limit, budget, forced[..|forced| - 1], i);
    }
  }

  /** The vector of a rebuilt environment: each address shows its entry in the final buffer. */
  ghost predicate Vector(out: EnvOut, v: seq<nat>, es: seq<string>)
    reads out, out.buf
  {
    |v| == |es| && out.bufLen <= out.buf.Length && forall i :: 0 <= i < |v| ==>
      StringAt(out.buf[..out.bufLen], v[i], es[i])
  }

  /** px_env_build: exactly the specified environment, whatever regrowths happened on the way, unless
      an allocation fails. */
  method PxEnvBuild(envp: seq<string>, pol: Policy, memory: nat)
    returns (rc: Rc, out: EnvOut, v: seq<nat>, long: nat, over: nat)
    ensures rc == OK ==> Build(envp, pol).Built? && Vector(out, v, Build(envp, pol).entries)
    ensures rc == OK ==> long == Build(envp, pol).long && over == Build(envp, pol).over
    ensures rc != OK ==> rc == ENOMEM || Build(envp, pol) == NotBuilt(rc)
    ensures memory > 2 * (|envp| + |pol.forced|) && Build(envp, pol).Built? ==> rc == OK
    ensures memory > 2 * (|envp| + |pol.forced|) && Build(envp, pol).NotBuilt? ==> rc == Build(envp, pol).rc
  {
    hide Size, Packed, Carry, Force, StringAt;
    out := new EnvOut(memory);
    v, long, over := [], 0, 0;
    rc, long, over := FirstPass(out, envp, pol, LimitOf(pol), BudgetOf(pol) / 2);
    if rc != OK { return; }
    rc := SecondPass(out, envp, LimitOf(pol), BudgetOf(pol), pol.forced);
    if rc != OK { return; }
    if out.memory == 0 { rc := ENOMEM; return; }
    v := out.offs[..out.n];
    forall i | 0 <= i < |v| ensures StringAt(out.buf[..out.bufLen], v[i], out.entries[i]) { PackedAt(out.entries, i); }
  }
}

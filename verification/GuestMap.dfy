/** The host path of a guest path, case by case and in order of precedence, said on the binds and the
    session's values themselves. */
module GuestMap {
  import opened Wrappers
  import opened Text
  import S = Session
  import opened GuestPath
  import opened GuestText

  /** `k` leading components of `cs` that a bind may serve: a proper ancestor or `cs` itself; the root
      only serves itself. */
  predicate Ancestor(cs: Comps, k: nat) { k <= |cs| && (k > 0 || |cs| == 0) }

  /** No bind's guest path is `cs` or, deeper than `k` components, an ancestor of it. */
  ghost predicate NoneDeeper(binds: seq<S.Bind>, cs: Comps, k: nat) {
    forall i, j :: 0 <= i < |binds| && k < j <= |cs| ==> binds[i].guest != Shown(cs[..j])
  }

  ghost predicate NoBindAbove(binds: seq<S.Bind>, cs: Comps) {
    forall i, j: nat :: 0 <= i < |binds| && Ancestor(cs, j) ==> binds[i].guest != Shown(cs[..j])
  }

  lemma DepthIs(binds: seq<S.Bind>, cs: Comps, k: nat)
    requires k <= |cs| && NoneDeeper(binds, cs, k) && (k > 0 ==> BindAt(binds, Shown(cs[..k])) < |binds|)
    ensures BoundDepth(binds, cs) == k
  {
    hide Shown;
  }

  /** The first bind of the deepest bound ancestor serves what is below it. */
  lemma DeepestBindServes(st: S.State, cs: Comps, i: nat, k: nat, cap: nat)
    requires i < |st.binds| && Ancestor(cs, k) && st.binds[i].guest == Shown(cs[..k]) && NoneDeeper(st.binds, cs, k)
    requires forall j :: 0 <= j < i ==> st.binds[j].guest != Shown(cs[..k])
    ensures MapGuest(st, cs, cap) == Fit(Joined(st.binds[i].host, cs[k..]), cap)
  {
    hide Shown, Joined, Unbound;
    BindAtIs(st.binds, Shown(cs[..k]), i);
    DepthIs(st.binds, cs, k);
    if |cs| == 0 { assert cs[..k] == [] && cs[k..] == []; JoinedNothing(st.binds[i].host); }
  }

  lemma BindAtIs(binds: seq<S.Bind>, guest: string, i: nat)
    requires i < |binds| && binds[i].guest == guest && forall j :: 0 <= j < i ==> binds[j].guest != guest
    ensures BindAt(binds, guest) == i
  {
  }

  /** A path below a host directory: the directory's text and the path's, the root's slash written once. */
  lemma JoinedText(base: string, cs: Comps)
    requires |cs| > 0
    ensures Joined(base, cs) == (if base == "/" then "" else base) + Shown(cs)
  {
    assert base + "/" + Glue(cs, '/') == base + ("/" + Glue(cs, '/'));
    if |base| == 1 && base[0] == '/' {
      assert base == "/";
      assert base + "" + Glue(cs, '/') == "" + Shown(cs);
    }
  }

  lemma JoinedNothing(base: string)
    ensures Joined(base, []) == base
  {
  }

  lemma NotBound(st: S.State, cs: Comps, cap: nat)
    requires NoBindAbove(st.binds, cs)
    ensures MapGuest(st, cs, cap) == Unbound(st.kvs, cs, cap)
  {
    hide Shown, Unbound;
    DepthIs(st.binds, cs, 0);
    if |cs| == 0 {
      assert Ancestor(cs, 0) && cs[..0] == [];
    }
  }

  /** The shared-memory directory comes before the kernel's trees: what is at or below it is served from
      the host's directory for it, /dev/shm included. */
  lemma SharedMemoryServes(st: S.State, base: Comps, more: Comps, shared: string, cap: nat)
    requires Named(base + more) && NoBindAbove(st.binds, base + more)
    requires S.Lookup(st.kvs, SHM_HOST) == Some(shared) && S.Lookup(st.kvs, SHM_GUEST) == Some(Shown(base))
    ensures MapGuest(st, base + more, cap) == Fit(Joined(shared, more), cap)
  {
    hide Shown, Joined, SHM_HOST, SHM_GUEST;
    var cs := base + more;
    NotBound(st, cs, cap);
    assert cs[..|base|] == base && cs[|base|..] == more;
    if |base| > 0 {
      SpelledDepthIs(Shown(base), cs, |base|);
    } else {
      RootText();
      PrefixMeans(cs, Shown(base));
      assert cs[0..] == cs;
    }
  }

  /** Shared memory is not set up, or `cs` is not at or below it. */
  ghost predicate NotShared(kvs: seq<S.Kv>, cs: Comps) {
    || S.Lookup(kvs, SHM_HOST).None? || S.Lookup(kvs, SHM_GUEST).None?
    || !PrefixOf(Shown(cs), S.Lookup(kvs, SHM_GUEST).value)
  }

  /** Everything else in /proc, /sys and /dev is the host's own. */
  lemma KernelTreeStays(st: S.State, cs: Comps, cap: nat)
    requires Named(cs) && NoBindAbove(st.binds, cs) && NotShared(st.kvs, cs)
    requires |cs| > 0 && cs[0] in {"proc", "sys", "dev"}
    ensures MapGuest(st, cs, cap) == Fit(Shown(cs), cap)
  {
    hide Shown, Joined, SHM_HOST, SHM_GUEST, Above, PrefixOf;
    NotBound(st, cs, cap);
    if S.Lookup(st.kvs, SHM_GUEST).Some? { PrefixMeans(cs, S.Lookup(st.kvs, SHM_GUEST).value); }
  }

  /** And the rest lies below the root file system, when the session names one. */
  lemma RootServes(st: S.State, cs: Comps, cap: nat)
    requires Named(cs) && NoBindAbove(st.binds, cs) && NotShared(st.kvs, cs)
    requires |cs| == 0 || cs[0] !in {"proc", "sys", "dev"}
    ensures var root := S.Lookup(st.kvs, S.ROOTFS);
      MapGuest(st, cs, cap) ==
        if root.Some? && |root.value| > 0 && root.value[0] == '/' then Fit(Joined(root.value, cs), cap) else Err(EINVAL)
  {
    hide Shown, Joined, SHM_HOST, SHM_GUEST, Above, PrefixOf;
    NotBound(st, cs, cap);
    if S.Lookup(st.kvs, SHM_GUEST).Some? { PrefixMeans(cs, S.Lookup(st.kvs, SHM_GUEST).value); }
  }
}

/** The native session: named values and binds, updated in place, and the binary form in which they
    cross into another process.  A string's characters are bytes; a C string holds no zero byte. */
module Session {
  import opened Wrappers

  const MAX_KV: nat := 128
  const MAX_BINDS: nat := 16
  const MAX_BYTES: nat := 2 * 1024 * 1024
  const PATH_SIZE: nat := 4096
  const MAX_VALUE: nat := 131071

  datatype Errno = EINVAL | E2BIG | ENAMETOOLONG | EPROTO

  datatype Kv = Kv(name: string, value: string)

  datatype Bind = Bind(host: string, guest: string, ro: nat)

  datatype State = State(kvs: seq<Kv>, binds: seq<Bind>)

  predicate CStr(s: string) { forall i :: 0 <= i < |s| ==> 0 < s[i] as int < 256 }

  predicate NameChar(c: char) { 'A' <= c <= 'Z' || 'a' <= c <= 'z' || '0' <= c <= '9' || c == '_' }

  predicate ValidName(p: string) {
    0 < |p| <= 127 && forall i :: 0 <= i < |p| ==> NameChar(p[i])
  }

  // ----- named values -----

  /** The position of a name, or the length. */
  function Slot(kvs: seq<Kv>, name: string): (k: nat)
    ensures k <= |kvs| && (k < |kvs| ==> kvs[k].name == name)
    ensures forall i :: 0 <= i < k ==> kvs[i].name != name
  {
    if |kvs| == 0 || kvs[0].name == name then 0 else 1 + Slot(kvs[1..], name)
  }

  function Lookup(kvs: seq<Kv>, name: string): Option<string> {
    if Slot(kvs, name) < |kvs| then Some(kvs[Slot(kvs, name)].value) else None
  }

  function Put(kvs: seq<Kv>, name: string, value: string): seq<Kv> {
    var k := Slot(kvs, name);
    if k < |kvs| then kvs[k := Kv(name, value)] else kvs + [Kv(name, value)]
  }

  predicate NamesDistinct(kvs: seq<Kv>) {
    forall i, j :: 0 <= i < j < |kvs| ==> kvs[i].name != kvs[j].name
  }

  /** Setting a name changes what that name looks up and nothing else. */
  lemma PutThenLookup(kvs: seq<Kv>, name: string, value: string, other: string)
    ensures Lookup(Put(kvs, name, value), other) == if other == name then Some(value) else Lookup(kvs, other)
  {
    hide Slot;
    var now := Put(kvs, name, value);
    var k, j := Slot(kvs, name), Slot(now, other);
    if j < |now| && j < |kvs| && other != name { assert kvs[j].name == other; }
    if Slot(kvs, other) < |kvs| { assert now[Slot(kvs, other)].name == other; }
    if other == name { assert now[k].name == name; }
  }

  // ----- binds -----

  /** Trailing slashes go; the root stays. */
  function Strip(p: string): (r: string)
    ensures |r| <= |p| && r <= p && (p != "" ==> r != "")
    ensures |r| > 1 ==> r[|r| - 1] != '/'
    ensures forall i :: |r| <= i < |p| ==> p[i] == '/'
  {
    if |p| > 1 && p[|p| - 1] == '/' then Strip(p[..|p| - 1]) else p
  }

  lemma {:induction false} StripShortens(p: string)
    ensures Strip(p) != p <==> |Strip(p)| < |p|
    ensures Strip(p) != p <==> |p| > 1 && p[|p| - 1] == '/'
    decreases |p|
  {
    if |p| > 1 && p[|p| - 1] == '/' { StripShortens(p[..|p| - 1]); }
  }

  lemma StripOnce(p: string)
    ensures Strip(Strip(p)) == Strip(p)
  {
    StripShortens(Strip(p));
  }

  predicate PathOk(p: string) { CStr(p) && 0 < |p| < PATH_SIZE && p[0] == '/' }

  predicate BindOk(b: Bind) {
    PathOk(b.host) && PathOk(b.guest) && Strip(b.host) == b.host && Strip(b.guest) == b.guest && b.ro <= 1
  }

  predicate KvOk(kv: Kv) { ValidName(kv.name) && CStr(kv.value) && |kv.value| <= MAX_VALUE }

  /** What every session built by setting values and adding binds satisfies. */
  predicate Wellformed(st: State) {
    && |st.kvs| <= MAX_KV && |st.binds| <= MAX_BINDS && NamesDistinct(st.kvs)
    && (forall i :: 0 <= i < |st.kvs| ==> KvOk(st.kvs[i]))
    && (forall i :: 0 <= i < |st.binds| ==> BindOk(st.binds[i]))
  }

  lemma StripKeeps(p: string)
    requires PathOk(p)
    ensures PathOk(Strip(p))
  {
  }

  const ROOTFS: string := "BXROOT_ROOTFS"

  /** The session names an absolute root file system. */
  predicate HasRoot(kvs: seq<Kv>) {
    var v := Lookup(kvs, ROOTFS);
    v.Some? && |v.value| > 0 && v.value[0] == '/'
  }

  class BxSession {
    var kvs: seq<Kv>
    var binds: seq<Bind>

    ghost predicate Valid()
      reads this
    {
      Wellformed(State(kvs, binds))
    }

    constructor ()
      ensures Valid() && kvs == [] && binds == []
    {
      kvs, binds := [], [];
    }

    method Get(name: string) returns (v: Option<string>)
      ensures v == Lookup(kvs, name)
    {
      var i := 0;
      while i < |kvs|
        invariant 0 <= i <= |kvs| && forall j :: 0 <= j < i ==> kvs[j].name != name
      {
        if kvs[i].name == name { return Some(kvs[i].value); }
        i := i + 1;
      }
      return None;
    }

    method Set(name: string, value: string) returns (r: Result<(), Errno>)
      requires Valid() && CStr(name) && CStr(value)
      modifies this`kvs
      ensures Valid()
      ensures r.Ok? ==> kvs == Put(old(kvs), name, value)
      ensures r.Err? ==> kvs == old(kvs)
      ensures r == if !ValidName(name) || |value| > MAX_VALUE then Err(EINVAL)
                   else if Lookup(old(kvs), name).None? && |old(kvs)| == MAX_KV then Err(E2BIG) else Ok(())
    {
      if !ValidName(name) || |value| > MAX_VALUE { return Err(EINVAL); }
      var i := 0;
      while i < |kvs|
        invariant 0 <= i <= |kvs| && kvs == old(kvs) && forall j :: 0 <= j < i ==> kvs[j].name != name
      {
        if kvs[i].name == name {
          kvs := kvs[i := Kv(name, value)];
          return Ok(());
        }
        i := i + 1;
      }
      if |kvs| == MAX_KV { return Err(E2BIG); }
      kvs := kvs + [Kv(name, value)];
      return Ok(());
    }

    method AddBind(host: string, guest: string, ro: nat) returns (r: Result<(), Errno>)
      requires Valid() && CStr(host) && CStr(guest)
      modifies this`binds
      ensures Valid()
      ensures r.Ok? ==> binds == old(binds) + [Bind(Strip(host), Strip(guest), ro)]
      ensures r.Err? ==> binds == old(binds)
      ensures r == if host == "" || guest == "" || host[0] != '/' || guest[0] != '/' || ro > 1 then Err(EINVAL)
                   else if |old(binds)| >= MAX_BINDS then Err(E2BIG)
                   else if |host| >= PATH_SIZE || |guest| >= PATH_SIZE then Err(ENAMETOOLONG) else Ok(())
    {
      if host == "" || guest == "" || host[0] != '/' || guest[0] != '/' || ro > 1 { return Err(EINVAL); }
      if |binds| >= MAX_BINDS { return Err(E2BIG); }
      if |host| >= PATH_SIZE || |guest| >= PATH_SIZE { return Err(ENAMETOOLONG); }
      var h := Trimmed(host);
      var g := Trimmed(guest);
      StripKeeps(host); StripKeeps(guest);
      StripOnce(host); StripOnce(guest);
      binds := binds + [Bind(h, g, ro)];
      return Ok(());
    }
  }

  method Trimmed(p: string) returns (h: string)
    ensures h == Strip(p)
  {
    h := p;
    var n := |h|;
    while n > 1 && h[n - 1] == '/'
      invariant n == |h| && Strip(h) == Strip(p)
    {
      n := n - 1;
      h := h[..n];
    }
  }
}

/** The codec as it runs: filling an exactly sized buffer, and reading one with a cursor. */
module SessionIO {
  import Text
  import opened Wrappers
  import opened Session
  import opened SessionWire

  lemma {:induction false} EncRecsNext(rs: seq<Rec>, i: nat)
    requires i < |rs|
    ensures EncRecs(rs[..i + 1]) == EncRecs(rs[..i]) + EncRec(rs[i])
    ensures |EncRecs(rs[..i + 1])| <= |EncRecs(rs)|
    decreases i
  {
    hide EncRec;
    if i == 0 {
      assert rs[..1] == [rs[0]] && rs[..1][1..] == [];
    } else {
      var t := rs[1..];
      EncRecsNext(t, i - 1);
      assert rs[..i + 1][1..] == t[..i] && rs[..i][1..] == t[..i - 1];
    }
  }

  method CopyInto(buf: array<char>, pos: nat, s: string)
    requires pos + |s| <= buf.Length
    modifies buf
    ensures buf[..pos + |s|] == old(buf[..pos]) + s
  {
    var i := 0;
    while i < |s|
      invariant 0 <= i <= |s| && buf[..pos + i] == old(buf[..pos]) + s[..i]
    {
      buf[pos + i] := s[i];
      i := i + 1;
      assert buf[..pos + i] == buf[..pos + i - 1] + [s[i - 1]];
      assert s[..i] == s[..i - 1] + [s[i - 1]];
    }
    assert s[..i] == s;
  }

  lemma {:induction false} LengthsSum(kvs: seq<Kv>, binds: seq<Bind>, n: nat)
    requires n < |kvs| + |binds|
    ensures var rs := Records(State(kvs, binds));
      |EncRecs(rs[..n + 1])| == |EncRecs(rs[..n])| + 18 + |rs[n].a| + |rs[n].v|
  {
    EncRecsNext(Records(State(kvs, binds)), n);
  }

  /** bx_session_create_fd up to the write: the bytes of the session, or E2BIG. */
  method Serialize(s: BxSession) returns (r: Result<array<char>, Errno>)
    requires s.Valid()
    ensures r.Ok? <==> |Encode(State(s.kvs, s.binds))| <= MAX_BYTES
    ensures r.Ok? ==> fresh(r.value) && r.value[..] == Encode(State(s.kvs, s.binds))
    ensures r.Err? ==> r.error == E2BIG
  {
    ghost var st := State(s.kvs, s.binds);
    ghost var rs := Records(st);
    EncodeIs(st);
    hide Encode, EncRec, EncRecs, Header, Records;
    var len := Measure(s);
    if len > MAX_BYTES { return Err(E2BIG); }
    var buf := new char[len](_ => 0 as char);
    CopyInto(buf, 0, MAGIC);
    CopyInto(buf, 8, Le32(1));
    CopyInto(buf, 12, Le32(len));
    CopyInto(buf, 16, Le32(|s.kvs|));
    CopyInto(buf, 20, Le32(|s.binds|));
    assert buf[..24] == Header(len, |s.kvs|, |s.binds|) by { HeaderIs(len, |s.kvs|, |s.binds|, buf[..24]); }
    Fill(s, buf);
    assert buf[..len] == buf[..];
    r := Ok(buf);
  }

  lemma HeaderIs(len: nat, nkv: nat, nb: nat, s: string)
    requires s == ((((([] + MAGIC) + Le32(1)) + Le32(len)) + Le32(nkv)) + Le32(nb))
    ensures s == Header(len, nkv, nb)
  {
  }

  /** The length of the encoding, summed up field by field. */
  method Measure(s: BxSession) returns (len: nat)
    ensures len == 24 + |EncRecs(Records(State(s.kvs, s.binds)))|
  {
    hide EncRec, EncRecs;
    ghost var rs := Records(State(s.kvs, s.binds));
    assert rs[..0] == [] && rs[..|rs|] == rs;
    len := 24;
    var i := 0;
    assert |EncRecs(rs[..0])| == 0 by { NoBytes(); }
    while i < |s.kvs|
      invariant 0 <= i <= |s.kvs| && len == 24 + |EncRecs(rs[..i])|
    {
      LengthsSum(s.kvs, s.binds, i);
      len := len + 16 + |s.kvs[i].name| + |s.kvs[i].value| + 2;
      i := i + 1;
    }
    i := 0;
    while i < |s.binds|
      invariant 0 <= i <= |s.binds| && len == 24 + |EncRecs(rs[..|s.kvs| + i])|
    {
      LengthsSum(s.kvs, s.binds, |s.kvs| + i);
      len := len + 16 + |s.binds[i].host| + |s.binds[i].guest| + 2;
      i := i + 1;
    }
  }

  lemma NoBytes()
    ensures EncRecs([]) == ""
  {
  }

  /** The records, one after the other. */
  method Fill(s: BxSession, buf: array<char>)
    requires buf.Length == 24 + |EncRecs(Records(State(s.kvs, s.binds)))|
    modifies buf
    ensures buf[..] == old(buf[..24]) + EncRecs(Records(State(s.kvs, s.binds)))
  {
    hide EncRecs, EncRec;
    ghost var rs := Records(State(s.kvs, s.binds));
    ghost var head := buf[..24];
    assert rs[..0] == [] && rs[..|rs|] == rs;
    NoBytes();
    var n, i, pos := |s.kvs| + |s.binds|, 0, 24;
    assert head + "" == head;
    while i < n
      invariant 0 <= i <= n && pos == 24 + |EncRecs(rs[..i])| <= buf.Length && buf[..pos] == head + EncRecs(rs[..i])
    {
      EncRecsNext(rs, i);
      var r := if i < |s.kvs| then Rec(1, 0, s.kvs[i].name, s.kvs[i].value)
               else Rec(2, s.binds[i - |s.kvs|].ro, s.binds[i - |s.kvs|].host, s.binds[i - |s.kvs|].guest);
      ghost var before := buf[..pos];
      var at := WriteRec(buf, pos, r);
      assert buf[..at] == head + EncRecs(rs[..i + 1]) by { Text.Assoc(head, EncRecs(rs[..i]), EncRec(r)); }
      pos := at;
      i := i + 1;
    }
    assert buf[..pos] == buf[..];
  }

  method WriteRec(buf: array<char>, pos: nat, r: Rec) returns (at: nat)
    requires pos + |EncRec(r)| <= buf.Length
    modifies buf
    ensures at == pos + |EncRec(r)| && buf[..at] == old(buf[..pos]) + EncRec(r)
  {
    hide EncRec, Le32;
    CopyInto(buf, pos, Le32(r.kind));
    CopyInto(buf, pos + 4, Le32(r.flags));
    CopyInto(buf, pos + 8, Le32(|r.a| + 1));
    CopyInto(buf, pos + 12, Le32(|r.v| + 1));
    at := pos + 16;
    CopyInto(buf, at, r.a + NUL);
    at := at + |r.a| + 1;
    CopyInto(buf, at, r.v + NUL);
    at := at + |r.v| + 1;
    RecIs(r, old(buf[..pos]), buf[..at]);
  }

  lemma RecIs(r: Rec, pre: string, s: string)
    requires s ==
      (((((pre + Le32(r.kind)) + Le32(r.flags)) + Le32(|r.a| + 1)) + Le32(|r.v| + 1)) + (r.a + NUL)) + (r.v + NUL)
    ensures s == pre + EncRec(r)
  {
    FrontIs(r);
    hide Front, Le32;
    var k, f, la, lv := Le32(r.kind), Le32(r.flags), Le32(|r.a| + 1), Le32(|r.v| + 1);
    assert (((pre + k) + f) + la) + lv == pre + (k + f + la + lv);
    Regroup3(pre + Front(r), r.a + NUL, r.v + NUL, "");
    assert s == (pre + Front(r)) + ((r.a + NUL) + (r.v + NUL));
    Text.Assoc(pre, Front(r), (r.a + NUL) + (r.v + NUL));
  }

  // ----- reading -----

  /** One record at the cursor; every read lies below the declared length. */
  method ParseAt(b: string, pos: nat) returns (r: Option<(Rec, nat)>)
    requires Bytes(b) && pos <= |b|
    ensures Bytes(b[pos..])
    ensures r.Some? ==> pos < r.value.1 <= |b| && ParseRec(b[pos..]) == Some((r.value.0, b[r.value.1..]))
    ensures r.None? ==> ParseRec(b[pos..]).None?
  {
    hide Get32, CStr;
    assert Bytes(b[pos..]);
    if |b| - pos < 16 { return None; }
    Get32Suffix(b, pos, 0); Get32Suffix(b, pos, 4); Get32Suffix(b, pos, 8); Get32Suffix(b, pos, 12);
    var k, fl, la, lv := Get32(b, pos), Get32(b, pos + 4), Get32(b, pos + 8), Get32(b, pos + 12);
    var p := pos + 16;
    if la == 0 || lv == 0 || la > |b| - p || lv > |b| - p - la { return None; }
    var a, v := b[p..p + la - 1], b[p + la..p + la + lv - 1];
    assert b[pos..][16..16 + la - 1] == a && b[pos..][16 + la..16 + la + lv - 1] == v;
    assert b[pos..][16 + la + lv..] == b[p + la + lv..];
    if b[p + la - 1] != 0 as char || b[p + la + lv - 1] != 0 as char { return None; }
    if !CStr(a) || !CStr(v) { return None; }
    return Some((Rec(k, fl, a, v), p + la + lv));
  }

  /** Apply one record to the session being read. */
  method Take(tmp: BxSession, named: bool, r: Rec) returns (e: Result<(), Errno>)
    requires tmp.Valid() && CStr(r.a) && CStr(r.v)
    modifies tmp
    ensures tmp.Valid()
    ensures var was := State(old(tmp.kvs), old(tmp.binds));
      match Step(was, named, r)
      case Ok(now) => e.Ok? && State(tmp.kvs, tmp.binds) == now
      case Err(x) => e == Err(x)
  {
    hide CStr;
    if named {
      if r.kind != 1 || r.flags != 0 || !ValidName(r.a) { return Err(EPROTO); }
      var known := tmp.Get(r.a);
      if known.Some? { return Err(EPROTO); }
      e := tmp.Set(r.a, r.v);
    } else {
      if r.kind != 2 || r.flags > 1 || r.a == "" || r.a[0] != '/' || r.v == "" || r.v[0] != '/' { return Err(EPROTO); }
      e := tmp.AddBind(r.a, r.v, r.flags);
    }
  }

  lemma ReadRecsUnfold(rest: string, named: nat, binds: nat, st: State)
    requires Bytes(rest) && named + binds > 0
    ensures ParseRec(rest).None? ==> ReadRecs(rest, named, binds, st) == Err(EPROTO)
    ensures ParseRec(rest).Some? ==>
      var (r, post) := ParseRec(rest).value;
      Bytes(post) && CStr(r.a) && CStr(r.v)
      && match Step(st, named > 0, r)
         case Err(e) => ReadRecs(rest, named, binds, st) == Err(e)
         case Ok(now) =>
           ReadRecs(rest, named, binds, st) ==
           ReadRecs(post, if named > 0 then named - 1 else 0, if named > 0 then binds else binds - 1, now)
  {
    hide ParseRec, Step, Bytes, CStr;
    if ParseRec(rest).Some? { ParsedOk(rest); }
  }

  /** bx_session_read on a sealed file's content. */
  method Read(f: string) returns (r: Result<BxSession, Errno>)
    requires Bytes(f)
    ensures match Decode(f)
      case Ok(st) => r.Ok? && fresh(r.value) && r.value.Valid() && State(r.value.kvs, r.value.binds) == st
      case Err(e) => r == Err(e)
  {
    hide Get32, MAGIC, ReadRecs, ParseRec, Step, CStr;
    if |f| < 24 { return Err(EPROTO); }
    var len, nk, nb := Get32(f, 12), Get32(f, 16), Get32(f, 20);
    if f[..8] != MAGIC || Get32(f, 8) != 1 || len < 24 || len > MAX_BYTES || nk > MAX_KV ||
      nb > MAX_BINDS { return Err(EPROTO); }
    if len > |f| { return Err(EPROTO); }
    var b := f[..len];
    assert b[24..] == f[24..len];
    var error, tmp := ReadLoop(b, nk, nb);
    if error.Some? { return Err(error.value); }
    var root := tmp.Get(ROOTFS);
    if root.None? || root.value == "" || root.value[0] != '/' { return Err(EPROTO); }
    return Ok(tmp);
  }

  /** The loop over the records, and the check that nothing is left over. */
  method ReadLoop(b: string, nk: nat, nb: nat) returns (error: Option<Errno>, tmp: BxSession)
    requires Bytes(b) && |b| >= 24 && Bytes(b[24..])
    ensures match ReadRecs(b[24..], nk, nb, State([], []))
      case Err(e) => error == Some(e)
      case Ok(p) => if p.1 != "" then error == Some(EPROTO) else
        error.None? && fresh(tmp) && tmp.Valid() && State(tmp.kvs, tmp.binds) == p.0
  {
    hide ParseRec, Step, CStr, Bytes, Wellformed, Get32;
    tmp := new BxSession();
    ghost var goal := ReadRecs(b[24..], nk, nb, State([], []));
    var pos, i := 24, 0;
    while i < nk + nb
      invariant 0 <= i <= nk + nb && 24 <= pos <= |b| && fresh(tmp) && tmp.Valid() && Bytes(b[pos..])
      invariant ReadRecs(b[pos..],
        if i < nk then nk - i else 0, if i < nk then nb else nk + nb - i, State(tmp.kvs, tmp.binds)) == goal
    {
      ReadRecsUnfold(b[pos..],
        if i < nk then nk - i else 0, if i < nk then nb else nk + nb - i, State(tmp.kvs, tmp.binds));
      var p := ParseAt(b, pos);
      if p.None? { return Some(EPROTO), tmp; }
      var e := Take(tmp, i < nk, p.value.0);
      if e.Err? { return Some(e.error), tmp; }
      pos := p.value.1;
      i := i + 1;
    }
    if pos != |b| { return Some(EPROTO), tmp; }
    return None, tmp;
  }
}

/** The session's binary form: a 24-byte header, then one record for each value and each bind.
    Decoding undoes encoding, and re-encoding reproduces the accepted bytes exactly when no bind
    path carried a trailing slash. */
module SessionWire {
  import opened Wrappers
  import opened Session

  predicate Bytes(s: string) { forall i :: 0 <= i < |s| ==> s[i] as int < 256 }

  const U32: nat := 0x1_0000_0000

  /** put32: little-endian. */
  function Le32(v: nat): (s: string)
    ensures |s| == 4 && Bytes(s)
  {
    [(v % 256) as char, (v / 256 % 256) as char, (v / 65536 % 256) as char, (v / 16777216 % 256) as char]
  }

  function Get32(s: string, pos: nat): (v: nat)
    requires pos + 4 <= |s| && Bytes(s)
    ensures v < U32
  {
    (s[pos] as int) + 256 * (s[pos + 1] as int) + 65536 * (s[pos + 2] as int) + 16777216 * (s[pos + 3] as int)
  }

  lemma PutThenGet(pre: string, v: nat, post: string)
    requires Bytes(pre) && Bytes(post) && v < U32
    ensures Get32(pre + Le32(v) + post, |pre|) == v
  {
    var s := pre + Le32(v) + post;
    assert forall i :: 0 <= i < 4 ==> s[|pre| + i] == Le32(v)[i];
    Digits(v);
  }

  lemma Digits(v: nat)
    requires v < U32
    ensures v == v % 256 + 256 * (v / 256 % 256) + 65536 * (v / 65536 % 256) + 16777216 * (v / 16777216 % 256)
  {
    var b, c, d := v / 256, v / 65536, v / 16777216;
    assert v == 256 * b + v % 256 && c == b / 256 && d == c / 256;
    assert b == 256 * c + b % 256 && c == 256 * d + c % 256 && d < 256;
  }

  lemma GetThenPut(s: string, pos: nat)
    requires Bytes(s) && pos + 4 <= |s|
    ensures Le32(Get32(s, pos)) == s[pos..pos + 4]
  {
    var a, b, c, d := s[pos] as int, s[pos + 1] as int, s[pos + 2] as int, s[pos + 3] as int;
    Undigits(a, b, c, d);
  }

  lemma Undigits(a: nat, b: nat, c: nat, d: nat)
    requires a < 256 && b < 256 && c < 256 && d < 256
    ensures var v := a + 256 * b + 65536 * c + 16777216 * d;
      v % 256 == a && v / 256 % 256 == b && v / 65536 % 256 == c && v / 16777216 % 256 == d
  {
    var v := a + 256 * b + 65536 * c + 16777216 * d;
    Low(b + 256 * c + 65536 * d, a);
    Low(c + 256 * d, b);
    Low(d, c);
    Twofold(v);
    Twofold(v / 256);
  }

  lemma Low(q: nat, d: nat)
    requires d < 256
    ensures (256 * q + d) / 256 == q && (256 * q + d) % 256 == d
  {
  }

  lemma Twofold(v: nat)
    ensures v / 65536 == v / 256 / 256 && v / 16777216 == v / 65536 / 256
  {
  }

  // ----- one record -----

  lemma BytesConcat(a: string, b: string)
    requires Bytes(a) && Bytes(b)
    ensures Bytes(a + b)
  {
  }

  datatype Rec = Rec(kind: nat, flags: nat, a: string, v: string)

  predicate RecOk(r: Rec) {
    r.kind < U32 && r.flags < U32 && CStr(r.a) && CStr(r.v) && |r.a| + 1 < U32 && |r.v| + 1 < U32
  }

  function Front(r: Rec): (s: string)
    ensures |s| == 16 && Bytes(s)
  {
    Le32(r.kind) + Le32(r.flags) + Le32(|r.a| + 1) + Le32(|r.v| + 1)
  }

  const NUL: string := [0 as char]

  function EncRec(r: Rec): (s: string)
    ensures |s| == 18 + |r.a| + |r.v|
  {
    Front(r) + ((r.a + NUL) + (r.v + NUL))
  }

  /** The record at the start of the remaining bytes, and what follows it. */
  function ParseRec(rest: string): Option<(Rec, string)>
    requires Bytes(rest)
  {
    if |rest| < 16 then None else
    var la, lv := Get32(rest, 8), Get32(rest, 12);
    if la == 0 || lv == 0 || la > |rest| - 16 || lv > |rest| - 16 - la then None else
    var a, v := rest[16..16 + la - 1], rest[16 + la..16 + la + lv - 1];
    if rest[16 + la - 1] != 0 as char || rest[16 + la + lv - 1] != 0 as char || !CStr(a) || !CStr(v) then None else
    Some((Rec(Get32(rest, 0), Get32(rest, 4), a, v), rest[16 + la + lv..]))
  }

  lemma FrontFields(r: Rec, post: string)
    requires RecOk(r) && Bytes(post)
    ensures var s := Front(r) + post;
      Bytes(s) && Get32(s, 0) == r.kind && Get32(s, 4) == r.flags && Get32(s, 8) == |r.a| + 1 &&
        Get32(s, 12) == |r.v| + 1
  {
    FrontIs(r);
    hide Le32, Get32, Front;
    FourWords(r.kind, r.flags, |r.a| + 1, |r.v| + 1, post);
  }

  /** Four words in a row, each read at its place. */
  lemma FourWords(a: nat, b: nat, c: nat, d: nat, post: string)
    requires a < U32 && b < U32 && c < U32 && d < U32 && Bytes(post)
    ensures var s := Le32(a) + Le32(b) + Le32(c) + Le32(d) + post;
      Bytes(s) && Get32(s, 0) == a && Get32(s, 4) == b && Get32(s, 8) == c && Get32(s, 12) == d
  {
    var k, f, la, lv := Le32(a), Le32(b), Le32(c), Le32(d);
    BytesConcat(lv, post);
    BytesConcat(la, lv + post);
    BytesConcat(f, la + (lv + post));
    BytesConcat(k, f);
    BytesConcat(k + f, la);
    BytesConcat(k, f + (la + (lv + post)));
    hide Le32, Get32, Bytes;
    FourShapes(k, f, la, lv, post);
    PutThenGet("", a, f + (la + (lv + post)));
    PutThenGet(k, b, la + (lv + post));
    PutThenGet(k + f, c, lv + post);
    PutThenGet(k + f + la, d, post);
  }

  lemma FourShapes(k: string, f: string, la: string, lv: string, post: string)
    ensures var s := k + f + la + lv + post;
      && s == k + (f + (la + (lv + post))) && s == "" + k + (f + (la + (lv + post)))
      && s == k + f + (la + (lv + post)) && s == (k + f) + la + (lv + post) && s == (k + f + la) + lv + post
    ensures Bytes("")
  {
  }

  lemma FrontIs(r: Rec)
    ensures Front(r) == Le32(r.kind) + Le32(r.flags) + Le32(|r.a| + 1) + Le32(|r.v| + 1)
  {
  }

  /** A C string and its terminator, in the middle of a text. */
  lemma Field(pre: string, a: string, post: string)
    ensures var s := pre + ((a + NUL) + post);
      && s[|pre|..|pre| + |a|] == a && s[|pre| + |a|] == 0 as char && s[|pre| + |a| + 1..] == post
  {
    var s := pre + ((a + NUL) + post);
    assert s[|pre|..] == (a + NUL) + post;
    assert s[|pre| + |a| + 1..] == post;
  }

  lemma RecShape(r: Rec, post: string)
    ensures EncRec(r) + post == Front(r) + ((r.a + NUL) + ((r.v + NUL) + post))
    ensures EncRec(r) + post == (Front(r) + (r.a + NUL)) + ((r.v + NUL) + post)
  {
    hide Front;
    Regroup3(Front(r), r.a + NUL, r.v + NUL, post);
  }

  lemma Regroup3(f: string, a: string, v: string, post: string)
    ensures (f + (a + v)) + post == f + (a + (v + post)) == (f + a) + (v + post)
  {
  }

  lemma ParseOfEnc(r: Rec, post: string)
    requires RecOk(r) && Bytes(post)
    ensures Bytes(EncRec(r) + post) && ParseRec(EncRec(r) + post) == Some((r, post))
  {
    BytesOfRec(r, post);
    hide Front, Get32, CStr, EncRec, Bytes;
    RecShape(r, post);
    FrontFields(r, (r.a + NUL) + ((r.v + NUL) + post));
    Field(Front(r), r.a, (r.v + NUL) + post);
    Field(Front(r) + (r.a + NUL), r.v, post);
  }

  lemma BytesOfRec(r: Rec, post: string)
    requires RecOk(r) && Bytes(post)
    ensures Bytes((r.a + NUL) + ((r.v + NUL) + post)) && Bytes(EncRec(r) + post)
  {
    hide Front;
  }

  lemma EncOfParse(rest: string)
    requires Bytes(rest) && ParseRec(rest).Some?
    ensures var (r, post) := ParseRec(rest).value;
      RecOk(r) && Bytes(post) && rest == EncRec(r) + post
  {
    hide Get32, Le32, CStr, Front, Bytes, EncRec, RecOk, ParseRec;
    FrontBack(rest);
    var (r, post) := ParseRec(rest).value;
    Assemble(rest, r, post);
  }

  /** A record's fields, found one after the other, make up its encoding. */
  lemma Assemble(rest: string, r: Rec, post: string)
    requires var j := 17 + |r.a|; var k := j + |r.v| + 1;
      && k <= |rest| && Front(r) == rest[..16]
      && r.a == rest[16..j - 1] && rest[j - 1] == 0 as char
      && r.v == rest[j..k - 1] && rest[k - 1] == 0 as char && post == rest[k..]
    ensures rest == EncRec(r) + post
  {
    hide Front, EncRec;
    var j := 17 + |r.a|;
    var k := j + |r.v| + 1;
    Ended(rest, 16, r.a);
    Ended(rest, j, r.v);
    RecShape(r, post);
    Slices(rest, 16, j, k);
  }

  lemma Ended(s: string, at: nat, a: string)
    requires at + |a| < |s| && a == s[at..at + |a|] && s[at + |a|] == 0 as char
    ensures a + NUL == s[at..at + |a| + 1]
  {
  }

  lemma FrontBack(rest: string)
    requires Bytes(rest) && ParseRec(rest).Some?
    ensures var (r, post) := ParseRec(rest).value;
      var la, lv := |r.a| + 1, |r.v| + 1;
      && Front(r) == rest[..16] && 16 + la + lv <= |rest| && RecOk(r) && Bytes(post)
      && r.a == rest[16..16 + la - 1] && rest[16 + la - 1] == 0 as char
      && r.v == rest[16 + la..16 + la + lv - 1] && rest[16 + la + lv - 1] == 0 as char && post == rest[16 + la + lv..]
  {
    hide Get32, Le32, CStr;
    FrontWords(rest);
  }

  lemma FrontWords(s: string)
    requires Bytes(s) && |s| >= 16
    ensures Le32(Get32(s, 0)) + Le32(Get32(s, 4)) + Le32(Get32(s, 8)) + Le32(Get32(s, 12)) == s[..16]
  {
    GetThenPut(s, 0); GetThenPut(s, 4); GetThenPut(s, 8); GetThenPut(s, 12);
    hide Get32, Le32;
    assert s[0..4] + s[4..8] + s[8..12] + s[12..16] == s[..16];
  }

  lemma Slices(s: string, i: nat, j: nat, k: nat)
    requires i <= j <= k <= |s|
    ensures s == s[..i] + (s[i..j] + (s[j..k] + s[k..]))
  {
  }

  // ----- the whole session -----

  const MAGIC: string := ['B', 'X', 'S', 'E', 'S', 'S', '3', 0 as char]

  function RecOf(st: State, i: nat): Rec
    requires i < |st.kvs| + |st.binds|
  {
    if i < |st.kvs| then Rec(1, 0, st.kvs[i].name, st.kvs[i].value)
    else var b := st.binds[i - |st.kvs|]; Rec(2, b.ro, b.host, b.guest)
  }

  function Records(st: State): (rs: seq<Rec>)
    ensures |rs| == |st.kvs| + |st.binds| && forall i :: 0 <= i < |rs| ==> rs[i] == RecOf(st, i)
  {
    seq(|st.kvs| + |st.binds|, i requires 0 <= i < |st.kvs| + |st.binds| => RecOf(st, i))
  }

  function EncRecs(rs: seq<Rec>): string {
    if |rs| == 0 then "" else EncRec(rs[0]) + EncRecs(rs[1..])
  }

  function Header(len: nat, nkv: nat, nb: nat): (s: string)
    ensures |s| == 24
  {
    MAGIC + Le32(1) + Le32(len) + Le32(nkv) + Le32(nb)
  }

  function Encode(st: State): string {
    var body := EncRecs(Records(st));
    Header(24 + |body|, |st.kvs|, |st.binds|) + body
  }

  /** What reading one record does to the session read so far. */
  function Step(st: State, named: bool, r: Rec): Result<State, Errno> {
    if named then
      if r.kind != 1 || r.flags != 0 || !ValidName(r.a) || Lookup(st.kvs, r.a).Some? then Err(EPROTO)
      else if |r.v| > MAX_VALUE then Err(EINVAL)
      else if |st.kvs| == MAX_KV then Err(E2BIG)
      else Ok(st.(kvs := Put(st.kvs, r.a, r.v)))
    else
      if r.kind != 2 || r.flags > 1 || r.a == "" || r.a[0] != '/' || r.v == "" || r.v[0] != '/' then Err(EPROTO)
      else if |st.binds| >= MAX_BINDS then Err(E2BIG)
      else if |r.a| >= PATH_SIZE || |r.v| >= PATH_SIZE then Err(ENAMETOOLONG)
      else Ok(st.(binds := st.binds + [Bind(Strip(r.a), Strip(r.v), r.flags)]))
  }

  function ReadRecs(rest: string, named: nat, binds: nat, st: State): Result<(State, string), Errno>
    requires Bytes(rest)
    decreases named + binds
  {
    if named + binds == 0 then Ok((st, rest)) else
    match ParseRec(rest)
    case None => Err(EPROTO)
    case Some(p) =>
      match Step(st, named > 0, p.0)
      case Err(e) => Err(e)
      case Ok(now) =>
        EncOfParse(rest);
        if named > 0 then ReadRecs(p.1, named - 1, binds, now) else ReadRecs(p.1, 0, binds - 1, now)
  }

  predicate HeaderOk(f: string)
    requires Bytes(f)
  {
    && |f| >= 24 && f[..8] == MAGIC && Get32(f, 8) == 1
    && 24 <= Get32(f, 12) <= MAX_BYTES && Get32(f, 16) <= MAX_KV && Get32(f, 20) <= MAX_BINDS
    && Get32(f, 12) <= |f|
  }

  function Decode(f: string): Result<State, Errno>
    requires Bytes(f)
  {
    if !HeaderOk(f) then Err(EPROTO) else
    match ReadRecs(f[24..Get32(f, 12)], Get32(f, 16), Get32(f, 20), State([], []))
    case Err(e) => Err(e)
    case Ok(p) => if p.1 != "" || !HasRoot(p.0.kvs) then Err(EPROTO) else Ok(p.0)
  }

  // ----- the bytes -----

  /** Four bytes, the lowest first. */
  predicate WordAt(s: string, pos: nat, v: nat) {
    && pos + 4 <= |s|
    && s[pos] as int == v % 256 && s[pos + 1] as int == v / 256 % 256
    && s[pos + 2] as int == v / 65536 % 256 && s[pos + 3] as int == v / 16777216 % 256
  }

  lemma WordsAt(m: string, o: string, a: nat, b: nat, c: nat, d: nat, post: string)
    requires o == Le32(a) + Le32(b) + Le32(c) + Le32(d)
    ensures var s := m + o + post;
      WordAt(s, |m|, a) && WordAt(s, |m| + 4, b) && WordAt(s, |m| + 8, c) && WordAt(s, |m| + 12, d)
  {
    var s := m + o + post;
    assert forall i :: 0 <= i < 16 ==> s[|m| + i] == o[i];
    WordsOf(a, b, c, d);
  }

  lemma WordsOf(a: nat, b: nat, c: nat, d: nat)
    ensures var o := Le32(a) + Le32(b) + Le32(c) + Le32(d);
      WordAt(o, 0, a) && WordAt(o, 4, b) && WordAt(o, 8, c) && WordAt(o, 12, d)
  {
  }

  /** A record's four words, its two texts, and the zero byte behind each. */
  lemma RecordBytes(r: Rec)
    ensures var e := EncRec(r); var n := |r.a|;
      && WordAt(e, 0, r.kind) && WordAt(e, 4, r.flags) && WordAt(e, 8, n + 1) && WordAt(e, 12, |r.v| + 1)
      && e[16..16 + n] == r.a && e[16 + n] == 0 as char
      && e[17 + n..17 + n + |r.v|] == r.v && e[17 + n + |r.v|] == 0 as char && |e| == 18 + n + |r.v|
  {
    var tail := (r.a + NUL) + (r.v + NUL);
    hide Le32, WordAt;
    assert "" + Front(r) + tail == EncRec(r);
    WordsAt("", Front(r), r.kind, r.flags, |r.a| + 1, |r.v| + 1, tail);
  }

  /** The file's header, in bytes. */
  lemma HeaderBytes(st: State)
    ensures var f := Encode(st);
      && |f| >= 24 && f[..8] == ['B', 'X', 'S', 'E', 'S', 'S', '3', 0 as char]
      && WordAt(f, 8, 1) && WordAt(f, 12, |f|) && WordAt(f, 16, |st.kvs|) && WordAt(f, 20, |st.binds|)
  {
    hide Le32, WordAt, EncRecs, Records;
    var body := EncRecs(Records(st));
    var words := Le32(1) + Le32(24 + |body|) + Le32(|st.kvs|) + Le32(|st.binds|);
    assert Encode(st) == MAGIC + words + body;
    WordsAt(MAGIC, words, 1, 24 + |body|, |st.kvs|, |st.binds|, body);
  }

  lemma {:induction false} EncRecsConcat(a: seq<Rec>, b: seq<Rec>)
    ensures EncRecs(a + b) == EncRecs(a) + EncRecs(b)
  {
    hide EncRec;
    if |a| == 0 {
      assert a + b == b;
    } else {
      assert (a + b)[1..] == a[1..] + b;
      EncRecsConcat(a[1..], b);
    }
  }

  /** Behind the header the values come first, as kind 1 with name and value, then the binds, as kind 2
      with their flag, host and guest path. */
  lemma RecordAt(st: State, i: nat)
    requires i < |st.kvs| + |st.binds|
    ensures var f, o := Encode(st), 24 + |EncRecs(Records(st)[..i])|;
      var r := if i < |st.kvs| then Rec(1, 0, st.kvs[i].name, st.kvs[i].value)
               else var b := st.binds[i - |st.kvs|]; Rec(2, b.ro, b.host, b.guest);
      o + |EncRec(r)| <= |f| && f[o..o + |EncRec(r)|] == EncRec(r)
  {
    hide EncRec, Header, Records;
    var rs := Records(st);
    assert rs == rs[..i] + ([rs[i]] + rs[i + 1..]);
    EncRecsConcat(rs[..i], [rs[i]] + rs[i + 1..]);
    assert ([rs[i]] + rs[i + 1..])[1..] == rs[i + 1..];
  }

  // ----- decoding undoes encoding -----

  /** The session as it stands after its first `i` records. */
  function Prefix(st: State, i: nat): State
    requires i <= |st.kvs| + |st.binds|
  {
    if i <= |st.kvs| then State(st.kvs[..i], []) else State(st.kvs, st.binds[..i - |st.kvs|])
  }

  lemma StepsAlong(st: State, i: nat)
    requires Wellformed(st) && i < |st.kvs| + |st.binds|
    ensures Step(Prefix(st, i), i < |st.kvs|, RecOf(st, i)) == Ok(Prefix(st, i + 1))
    ensures RecOk(RecOf(st, i))
  {
    hide Slot, Strip;
    if i < |st.kvs| {
      assert KvOk(st.kvs[i]);
      assert Slot(st.kvs[..i], st.kvs[i].name) == i;
      assert st.kvs[..i + 1] == st.kvs[..i] + [st.kvs[i]];
    } else {
      var j := i - |st.kvs|;
      assert BindOk(st.binds[j]);
      assert st.binds[..j + 1] == st.binds[..j] + [st.binds[j]];
      if j == 0 { assert st.kvs[..i] == st.kvs && st.binds[..j] == []; }
    }
  }

  lemma {:induction false} ReadAlong(st: State, i: nat)
    requires Wellformed(st) && i <= |st.kvs| + |st.binds|
    ensures var n := |st.kvs|; var rest := EncRecs(Records(st)[i..]);
      Bytes(rest) && ReadRecs(rest,
        if i < n then n - i else 0, |st.binds| - (if i < n then 0 else i - n), Prefix(st, i)) == Ok((st, ""))
    decreases |st.kvs| + |st.binds| - i
  {
    hide EncRec, ParseRec, Step, Wellformed, RecOk;
    var n := |st.kvs|;
    if i == n + |st.binds| {
      assert Prefix(st, i) == st;
    } else {
      var rs := Records(st)[i..];
      assert rs[0] == RecOf(st, i) && rs[1..] == Records(st)[i + 1..];
      StepsAlong(st, i);
      ReadAlong(st, i + 1);
      ParseOfEnc(rs[0], EncRecs(rs[1..]));
    }
  }

  lemma Get32Suffix(b: string, pos: nat, k: nat)
    requires Bytes(b) && pos + k + 4 <= |b|
    ensures Bytes(b[pos..]) && Get32(b[pos..], k) == Get32(b, pos + k)
  {
  }

  lemma HeaderShape(m: string, o: string, l: string, k: string, b: string, body: string)
    ensures var f := m + o + l + k + b + body;
      && f == m + (o + l + k + b + body) && f[..|m|] == m && f[|m|..] == o + l + k + b + body &&
        f[|m + o + l + k + b|..] == body
  {
  }

  lemma HeaderFields(len: nat, nkv: nat, nb: nat, body: string)
    requires len < U32 && nkv < U32 && nb < U32 && Bytes(body)
    ensures var f := Header(len, nkv, nb) + body;
      Bytes(f) && f[..8] == MAGIC && f[24..] == body && Get32(f, 8) == 1 && Get32(f, 12) == len &&
        Get32(f, 16) == nkv && Get32(f, 20) == nb
  {
    var m, o, l, k, b := MAGIC, Le32(1), Le32(len), Le32(nkv), Le32(nb);
    assert Bytes(m);
    assert Header(len, nkv, nb) == m + o + l + k + b && |m| == 8;
    hide Le32, Get32, Header, MAGIC, Bytes;
    HeaderShape(m, o, l, k, b, body);
    FourWords(1, len, nkv, nb, body);
    BehindMagic(m, o + l + k + b + body);
  }

  lemma BehindMagic(m: string, s: string)
    requires |m| == 8 && |s| >= 16 && Bytes(m) && Bytes(s)
    ensures var f := m + s;
      Bytes(f) && Get32(f, 8) == Get32(s, 0) && Get32(f, 12) == Get32(s, 4) && Get32(f, 16) == Get32(s, 8) &&
        Get32(f, 20) == Get32(s, 12)
  {
    hide Get32;
    BytesConcat(m, s);
    assert (m + s)[8..] == s;
    Get32Suffix(m + s, 8, 0); Get32Suffix(m + s, 8, 4); Get32Suffix(m + s, 8, 8); Get32Suffix(m + s, 8, 12);
  }

  lemma DecodeParts(f: string, body: string, st: State)
    requires Bytes(f) && HeaderOk(f) && f[24..Get32(f, 12)] == body && Bytes(body) && HasRoot(st.kvs)
    requires ReadRecs(body, Get32(f, 16), Get32(f, 20), State([], [])) == Ok((st, ""))
    ensures Decode(f) == Ok(st)
  {
    hide ReadRecs, HasRoot, HeaderOk, Get32;
  }

  /** Decoding the encoding of any built session gives it back, in order, whatever follows in the
      file. */
  lemma DecodeOfEncode(st: State, tail: string)
    requires Wellformed(st) && HasRoot(st.kvs) && |Encode(st)| <= MAX_BYTES && Bytes(tail)
    ensures Bytes(Encode(st) + tail) && Decode(Encode(st) + tail) == Ok(st)
  {
    hide Header, ReadRecs, Records, Slot, Get32, EncRecs, HasRoot, Decode, Encode, MAGIC, Bytes, Wellformed;
    var body := EncRecs(Records(st));
    EncodedFile(st, tail);
    ReadWhole(st);
    DecodeParts(Encode(st) + tail, body, st);
  }

  lemma EncodedFile(st: State, tail: string)
    requires Wellformed(st) && |Encode(st)| <= MAX_BYTES && Bytes(tail)
    ensures var f := Encode(st) + tail; var body := EncRecs(Records(st));
      Bytes(f) && HeaderOk(f) && f[24..Get32(f, 12)] == body && Get32(f, 16) == |st.kvs| && Get32(f, 20) == |st.binds|
  {
    hide Header, ReadRecs, Records, Slot, Get32, EncRecs, HasRoot, Decode, Encode, Bytes, MAGIC;
    var body := EncRecs(Records(st));
    ReadWhole(st);
    EncodeIs(st);
    BytesConcat(body, tail);
    hide Wellformed;
    HeaderFields(24 + |body|, |st.kvs|, |st.binds|, body + tail);
    Join(Header(24 + |body|, |st.kvs|, |st.binds|), body, tail);
  }

  lemma EncodeIs(st: State)
    ensures var body := EncRecs(Records(st));
      Encode(st) == Header(24 + |body|, |st.kvs|, |st.binds|) + body && |Encode(st)| == 24 + |body|
  {
    hide Header, Records, EncRecs;
  }

  lemma ReadWhole(st: State)
    requires Wellformed(st)
    ensures var body := EncRecs(Records(st));
      Bytes(body) && ReadRecs(body, |st.kvs|, |st.binds|, State([], [])) == Ok((st, ""))
  {
    hide EncRecs, ReadRecs, Wellformed, Bytes;
    ReadAlong(st, 0);
    assert Records(st)[0..] == Records(st);
    assert Prefix(st, 0) == State([], []);
  }

  lemma Join(h: string, body: string, tail: string)
    ensures (h + body) + tail == h + (body + tail)
    ensures ((h + body) + tail)[|h|..|h| + |body|] == body
  {
    assert (h + (body + tail))[|h|..] == body + tail;
  }

  // ----- re-encoding what was accepted -----

  /** The first `n` records, as they stand in the bytes. */
  function RawRecs(rest: string, n: nat): seq<Rec>
    requires Bytes(rest)
    decreases n
  {
    if n == 0 || ParseRec(rest).None? then [] else
    EncOfParse(rest);
    [ParseRec(rest).value.0] + RawRecs(ParseRec(rest).value.1, n - 1)
  }

  /** A record as it is kept: bind paths lose their trailing slashes. */
  function Kept(r: Rec): Rec {
    if r.kind == 2 then r.(a := Strip(r.a), v := Strip(r.v)) else r
  }

  function AllKept(rs: seq<Rec>): (ks: seq<Rec>)
    ensures |ks| == |rs|
  {
    if |rs| == 0 then [] else [Kept(rs[0])] + AllKept(rs[1..])
  }

  lemma StepRecords(st: State, named: bool, r: Rec)
    requires Step(st, named, r).Ok? && (named ==> st.binds == [])
    ensures var now := Step(st, named, r).value;
      && Records(now) == Records(st) + [Kept(r)]
      && |now.kvs| == |st.kvs| + (if named then 1 else 0) && |now.binds| == |st.binds| + (if named then 0 else 1)
      && (named ==> now.binds == [])
  {
    hide Strip, Slot, ValidName;
    var now := Step(st, named, r).value;
    assert forall i :: 0 <= i < |Records(st)| ==> Records(now)[i] == Records(st)[i];
  }

  /** What a successful reading has consumed and built. */
  lemma {:induction false} ReadBack(rest: string, named: nat, binds: nat, st: State)
    requires Bytes(rest) && ReadRecs(rest, named, binds, st).Ok? && (named > 0 ==> st.binds == [])
    ensures var (now, post) := ReadRecs(rest, named, binds, st).value; var raw := RawRecs(rest, named + binds);
      && rest == EncRecs(raw) + post && Records(now) == Records(st) + AllKept(raw)
      && |now.kvs| == |st.kvs| + named && |now.binds| == |st.binds| + binds
    decreases named + binds
  {
    hide ParseRec, Step, Records, Kept, EncRec;
    if named + binds == 0 {
      assert Records(st) + [] == Records(st) && "" + rest == rest;
    } else {
      EncOfParse(rest);
      var (r, post) := ParseRec(rest).value;
      var now := Step(st, named > 0, r).value;
      StepRecords(st, named > 0, r);
      var more, left := if named > 0 then named - 1 else 0, if named > 0 then binds else binds - 1;
      ReadBack(post, more, left, now);
      var raw := RawRecs(post, named + binds - 1);
      assert RawRecs(rest, named + binds) == [r] + raw;
      assert ([r] + raw)[1..] == raw;
      var (last, end) := ReadRecs(post, more, left, now).value;
      Chain(rest, EncRec(r), EncRecs(raw), end, post);
      Links(Records(st), Kept(r), AllKept(raw));
    }
  }

  lemma Chain(rest: string, first: string, body: string, end: string, post: string)
    requires rest == first + post && post == body + end
    ensures rest == (first + body) + end
  {
  }

  lemma Links(a: seq<Rec>, r: Rec, b: seq<Rec>)
    ensures (a + [r]) + b == a + ([r] + b)
  {
  }

  /** No bind path of these records carries a trailing slash. */
  predicate NoTrailingSlash(rs: seq<Rec>) {
    forall i :: 0 <= i < |rs| && rs[i].kind == 2 ==> Strip(rs[i].a) == rs[i].a && Strip(rs[i].v) == rs[i].v
  }

  lemma TailSlash(rs: seq<Rec>)
    requires |rs| > 0
    ensures NoTrailingSlash(rs) <==> Kept(rs[0]) == rs[0] && NoTrailingSlash(rs[1..])
  {
    hide Strip;
    assert NoTrailingSlash(rs) ==> forall i :: 0 <= i < |rs| - 1 ==> rs[1..][i] == rs[i + 1];
    assert NoTrailingSlash(rs[1..]) ==>
      forall i :: 1 <= i < |rs| && rs[i].kind == 2 ==>
        Strip(rs[1..][i - 1].a) == rs[i].a && Strip(rs[1..][i - 1].v) == rs[i].v;
  }

  lemma KeptLength(r: Rec)
    ensures |EncRec(Kept(r))| <= |EncRec(r)| && (Kept(r) != r ==> |EncRec(Kept(r))| < |EncRec(r)|)
  {
    StripShortens(r.a);
    StripShortens(r.v);
    hide Strip, Front;
  }

  lemma {:induction false} KeptShortens(rs: seq<Rec>)
    ensures NoTrailingSlash(rs) ==> AllKept(rs) == rs
    ensures !NoTrailingSlash(rs) ==> |EncRecs(AllKept(rs))| < |EncRecs(rs)|
    ensures |EncRecs(AllKept(rs))| <= |EncRecs(rs)|
    decreases |rs|
  {
    if |rs| > 0 {
      TailSlash(rs);
      KeptLength(rs[0]);
      hide Kept, NoTrailingSlash, EncRec;
      KeptShortens(rs[1..]);
      assert AllKept(rs)[1..] == AllKept(rs[1..]);
    }
  }

  /** The records of an accepted file. */
  function FileRecs(f: string): seq<Rec>
    requires Bytes(f) && HeaderOk(f)
  {
    RawRecs(f[24..Get32(f, 12)], Get32(f, 16) + Get32(f, 20))
  }

  lemma HeaderBack(f: string)
    requires Bytes(f) && HeaderOk(f)
    ensures f[..24] == Header(Get32(f, 12), Get32(f, 16), Get32(f, 20))
  {
    GetThenPut(f, 8); GetThenPut(f, 12); GetThenPut(f, 16); GetThenPut(f, 20);
    hide Get32, Le32, MAGIC;
    assert f[..24] == f[..8] + f[8..12] + f[12..16] + f[16..20] + f[20..24];
  }

  lemma DecodeUnfold(f: string)
    requires Bytes(f) && Decode(f).Ok?
    ensures HeaderOk(f) && 24 <= Get32(f, 12) <= |f| && Bytes(f[24..Get32(f, 12)])
    ensures ReadRecs(f[24..Get32(f, 12)], Get32(f, 16), Get32(f, 20), State([], [])) == Ok((Decode(f).value, ""))
  {
    hide ReadRecs, HasRoot;
  }

  lemma DecodeGives(f: string)
    requires Bytes(f) && Decode(f).Ok?
    ensures HeaderOk(f)
    ensures var st, len, raw := Decode(f).value, Get32(f, 12), FileRecs(f);
      && f[..len] == Header(len, |st.kvs|, |st.binds|) + EncRecs(raw) && Records(st) == AllKept(raw)
  {
    hide Get32, Bytes, HasRoot, MAGIC, RawRecs, AllKept, EncRecs, ReadRecs, Header, Decode, Records, HeaderOk;
    DecodeUnfold(f);
    ReadBack(f[24..Get32(f, 12)], Get32(f, 16), Get32(f, 20), State([], []));
    HeaderBack(f);
  }

  /** The declared bytes of an accepted file re-encode to themselves if and only if no bind path in
      them has a trailing slash. */
  lemma EncodeOfDecode(f: string)
    requires Bytes(f) && Decode(f).Ok?
    ensures HeaderOk(f) && (Encode(Decode(f).value) == f[..Get32(f, 12)] <==> NoTrailingSlash(FileRecs(f)))
  {
    hide RawRecs, EncRecs, Header, Get32, Records, AllKept, Decode, Encode, NoTrailingSlash, Bytes, MAGIC, FileRecs;
    DecodeGives(f);
    EncodeIs(Decode(f).value);
    KeptShortens(FileRecs(f));
    assert |f[..Get32(f, 12)]| == 24 + |EncRecs(FileRecs(f))|;
  }

  /** A session of one root and one bind, as a file. */
  function OneBindFile(root: string, host: string, guest: string): string {
    var rs := [Rec(1, 0, ROOTFS, root), Rec(2, 0, host, guest)];
    Header(24 + |EncRecs(rs)|, 1, 1) + EncRecs(rs)
  }

  predicate SlashedBind(root: string, host: string, guest: string) {
    && PathOk(root) && PathOk(host) && PathOk(guest) && Strip(host) != host
  }

  lemma TwoRecords(r: Rec, q: Rec)
    requires RecOk(r) && RecOk(q)
    ensures var body := EncRecs([r, q]);
      && |body| == |EncRec(r)| + |EncRec(q)| && Bytes(body) && Bytes(EncRec(q)) && Bytes("")
      && ParseRec(body) == Some((r, EncRec(q))) && ParseRec(EncRec(q)) == Some((q, ""))
  {
    hide EncRec, ParseRec, RecOk;
    assert EncRecs([r, q][1..]) == EncRec(q) + "" == EncRec(q);
    ParseOfEnc(q, "");
    ParseOfEnc(r, EncRec(q));
  }

  lemma RootStep(root: string)
    requires PathOk(root)
    ensures var st := State([Kv(ROOTFS, root)], []);
      HasRoot(st.kvs) && Step(State([], []), true, Rec(1, 0, ROOTFS, root)) == Ok(st)
  {
    assert Slot([], ROOTFS) == 0;
    RootName();
    hide ValidName, CStr;
    assert [] + [Kv(ROOTFS, root)] == [Kv(ROOTFS, root)];
  }

  lemma RootName()
    ensures ValidName(ROOTFS) && CStr(ROOTFS) && |ROOTFS| == 13
  {
  }

  lemma BindStep(st: State, host: string, guest: string)
    requires PathOk(host) && PathOk(guest) && |st.binds| == 0
    ensures var b := Bind(Strip(host), Strip(guest), 0);
      Step(st, false, Rec(2, 0, host, guest)) == Ok(State(st.kvs, [b]))
  {
    var b := Bind(Strip(host), Strip(guest), 0);
    assert st.binds + [b] == [b];
    hide CStr, Strip;
  }

  lemma TwoOk(root: string, host: string, guest: string)
    requires SlashedBind(root, host, guest)
    ensures RecOk(Rec(1, 0, ROOTFS, root)) && RecOk(Rec(2, 0, host, guest))
    ensures |EncRec(Rec(1, 0, ROOTFS, root))| + |EncRec(Rec(2, 0, host, guest))| <= 3 * PATH_SIZE + 49
  {
    RootName();
    hide CStr, Strip, EncRec;
  }

  lemma OneBindRead(root: string, host: string, guest: string)
    requires SlashedBind(root, host, guest)
    ensures var body := EncRecs([Rec(1, 0, ROOTFS, root), Rec(2, 0, host, guest)]);
      var st := State([Kv(ROOTFS, root)], [Bind(Strip(host), Strip(guest), 0)]);
      && |body| <= 3 * PATH_SIZE + 49 && Bytes(body) && HasRoot(st.kvs)
      && ReadRecs(body, 1, 1, State([], [])) == Ok((st, ""))
      && RawRecs(body, 2) == [Rec(1, 0, ROOTFS, root), Rec(2, 0, host, guest)]
  {
    var r, q := Rec(1, 0, ROOTFS, root), Rec(2, 0, host, guest);
    var st := State([Kv(ROOTFS, root)], []);
    TwoOk(root, host, guest);
    RootStep(root);
    BindStep(st, host, guest);
    hide EncRec, ParseRec, RecOk, Step, CStr, Strip, HasRoot, EncRecs, Bytes, ReadRecs, RawRecs, PathOk;
    TwoRecords(r, q);
    ReadTwo(EncRecs([r, q]), r, q, EncRec(q), State([], []), st, State(st.kvs, [Bind(Strip(host), Strip(guest), 0)]));
  }

  lemma ReadTwo(body: string, r: Rec, q: Rec, rest: string, st: State, now: State, last: State)
    requires Step(st, true, r) == Ok(now) && Step(now, false, q) == Ok(last)
    requires Bytes(body) && Bytes(rest) && Bytes("")
    requires ParseRec(body) == Some((r, rest)) && ParseRec(rest) == Some((q, ""))
    ensures RawRecs(body, 2) == [r, q]
    ensures ReadRecs(body, 1, 1, st) == Ok((last, ""))
  {
    hide ParseRec, Step, Bytes;
    assert RawRecs("", 0) == [] && RawRecs(rest, 1) == [q];
    assert ReadRecs("", 0, 0, last) == Ok((last, "")) && ReadRecs(rest, 0, 1, now) == Ok((last, ""));
  }

  lemma OneBindDecodes(root: string, host: string, guest: string)
    requires SlashedBind(root, host, guest)
    ensures var f := OneBindFile(root, host, guest);
      && Bytes(f) && Decode(f).Ok? && HeaderOk(f) && FileRecs(f) == [Rec(1, 0, ROOTFS, root), Rec(2, 0, host, guest)]
  {
    hide Header, EncRecs, Bytes, ReadRecs, RawRecs, HasRoot, Decode, SlashedBind, Strip, HeaderOk, FileRecs;
    OneBindRead(root, host, guest);
    var rs := [Rec(1, 0, ROOTFS, root), Rec(2, 0, host, guest)];
    FileOf(EncRecs(rs), 1, 1, State([Kv(ROOTFS, root)], [Bind(Strip(host), Strip(guest), 0)]));
  }

  /** Records that read, behind a fitting header, are a file. */
  lemma FileOf(body: string, named: nat, binds: nat, st: State)
    requires Bytes(body) && 24 + |body| <= MAX_BYTES && named <= MAX_KV && binds <= MAX_BINDS && HasRoot(st.kvs)
    requires ReadRecs(body, named, binds, State([], [])) == Ok((st, ""))
    ensures var f := Header(24 + |body|, named, binds) + body;
      Bytes(f) && HeaderOk(f) && Decode(f) == Ok(st) && FileRecs(f) == RawRecs(body, named + binds)
  {
    hide Header, Get32, Bytes, ReadRecs, RawRecs, HasRoot, Decode, MAGIC;
    var f := Header(24 + |body|, named, binds) + body;
    HeaderFields(24 + |body|, named, binds, body);
    assert |f| == 24 + |body| && f[24..24 + |body|] == f[24..];
    DecodeParts(f, body, st);
  }

  /** A file with a trailing slash on a bind is accepted and does not re-encode to itself. */
  lemma SlashLost(root: string, host: string, guest: string)
    requires SlashedBind(root, host, guest)
    ensures var f := OneBindFile(root, host, guest);
      Bytes(f) && Decode(f).Ok? && HeaderOk(f) && Encode(Decode(f).value) != f[..Get32(f, 12)]
  {
    var rs := [Rec(1, 0, ROOTFS, root), Rec(2, 0, host, guest)];
    assert !NoTrailingSlash(rs) by { assert rs[1].kind == 2; }
    hide OneBindFile, Get32, Bytes, HeaderOk, FileRecs, Decode, Encode, NoTrailingSlash, SlashedBind;
    OneBindDecodes(root, host, guest);
    EncodeOfDecode(OneBindFile(root, host, guest));
  }

  lemma ParsedOk(rest: string)
    requires Bytes(rest) && ParseRec(rest).Some?
    ensures Bytes(ParseRec(rest).value.1) && CStr(ParseRec(rest).value.0.a) && CStr(ParseRec(rest).value.0.v)
  {
    hide ParseRec, EncRec;
    EncOfParse(rest);
  }

  lemma {:induction false} ReadWellformed(rest: string, named: nat, binds: nat, st: State)
    requires Bytes(rest) && ReadRecs(rest, named, binds, st).Ok? && Wellformed(st)
    ensures Wellformed(ReadRecs(rest, named, binds, st).value.0)
    decreases named + binds
  {
    hide ParseRec, Step, Wellformed, Bytes, CStr;
    if named + binds > 0 {
      ParsedOk(rest);
      var (r, post) := ParseRec(rest).value;
      StepWellformed(st, named > 0, r);
      if named > 0 { ReadWellformed(post, named - 1, binds, Step(st, true, r).value); }
      else { ReadWellformed(post, 0, binds - 1, Step(st, false, r).value); }
    }
  }

  lemma StepWellformed(st: State, named: bool, r: Rec)
    requires Wellformed(st) && Step(st, named, r).Ok? && CStr(r.a) && CStr(r.v)
    ensures Wellformed(Step(st, named, r).value)
  {
    hide Slot, Strip;
    if !named {
      StripKeeps(r.a); StripKeeps(r.v); StripOnce(r.a); StripOnce(r.v);
    }
  }

  /** An accepted session is one that setting values and adding binds could have built. */
  lemma DecodedIsWellformed(f: string)
    requires Bytes(f) && Decode(f).Ok?
    ensures Wellformed(Decode(f).value) && HasRoot(Decode(f).value.kvs)
  {
    ReadWellformed(f[24..Get32(f, 12)], Get32(f, 16), Get32(f, 20), State([], []));
  }
}

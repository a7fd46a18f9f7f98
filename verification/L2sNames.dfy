/** The naming layer of the hard-link emulation: a pure algebra of file names.

    A guest name `a` gets an intermediate `.l2s.aGGGG` and a data file `.l2s.aGGGG.NNNN` in its
    own directory.  Nothing stores where `a` ends, so decoding works from the fixed-width tail;
    the lemmas below say exactly when that is unambiguous. */
module L2sNames {
  import opened Wrappers
  import opened Text

  const PATH_MAX: nat := 4096
  const NAME_MAX: nat := 256
  const GEN_FIRST: nat := 1
  const GEN_LAST: nat := 999
  const NLINK_MAX: nat := 9999
  const PREFIX: string := ".l2s."
  const PREFIX_USERLAND: string := ".proot.l2s."
  const CNT_SUFFIX: string := ".cnt"

  datatype Error = NameTooLong | NotL2s | OutOfRange | BadName

  datatype Kind = Intermediate | Final

  /** What a name decodes to; `nlink` is 0 for an intermediate. */
  datatype Info = Info(kind: Kind, name: string, generation: nat, nlink: nat)

  /** A split path: the directory without its trailing slash (the root is "/"), and the name. */
  datatype Parts = Parts(dir: string, base: string)

  datatype Paths = Paths(mid: string, final: string)

  // ----- four-digit fields -----

  predicate IsDigit(c: char) {
    '0' <= c <= '9'
  }

  predicate AllDigits(s: string) {
    forall i :: 0 <= i < |s| ==> IsDigit(s[i])
  }

  function DigitChar(d: nat): char
    requires d < 10
  {
    ('0' as int + d) as char
  }

  function DigitOf(c: char): nat
    requires IsDigit(c)
  {
    c as int - '0' as int
  }

  /** The decimal value of a digit string. */
  function Value(s: string): nat
    requires AllDigits(s)
  {
    if s == "" then 0 else 10 * Value(s[..|s| - 1]) + DigitOf(s[|s| - 1])
  }

  /** Exactly four digits, zero padded. */
  function Digits4(n: nat): (s: string)
    requires n <= NLINK_MAX
    ensures |s| == 4 && AllDigits(s) && Free(s, '/')
  {
    [DigitChar(n / 1000), DigitChar(n / 100 % 10), DigitChar(n / 10 % 10), DigitChar(n % 10)]
  }

  lemma {:induction false} Value4(s: string)
    requires |s| == 4 && AllDigits(s)
    ensures Value(s) == 1000 * DigitOf(s[0]) + 100 * DigitOf(s[1]) + 10 * DigitOf(s[2]) + DigitOf(s[3])
  {
    var s3, s2, s1 := s[..3], s[..2], s[..1];
    assert s3[..2] == s2 && s2[..1] == s1 && s1[..0] == "";
    assert Value(s1) == DigitOf(s[0]);
    assert Value(s2) == 10 * Value(s1) + DigitOf(s[1]);
    assert Value(s3) == 10 * Value(s2) + DigitOf(s[2]);
  }

  lemma DigitsOfNumber(a: nat, b: nat, c: nat, d: nat)
    requires a < 10 && b < 10 && c < 10 && d < 10
    ensures var n := 1000 * a + 100 * b + 10 * c + d;
      n <= NLINK_MAX && n / 1000 == a && n / 100 % 10 == b && n / 10 % 10 == c && n % 10 == d
  {
    var n := 1000 * a + 100 * b + 10 * c + d;
    LowDigit(100 * a + 10 * b + c, d);
    LowDigit(10 * a + b, c);
    LowDigit(a, b);
    assert n / 100 == (n / 10) / 10 && n / 1000 == (n / 100) / 10;
  }

  lemma LowDigit(q: nat, d: nat)
    requires d < 10
    ensures (10 * q + d) / 10 == q && (10 * q + d) % 10 == d
  {
  }

  /** Formatting and parsing a four-digit field undo each other. */
  lemma Digits4Value(n: nat)
    requires n <= NLINK_MAX
    ensures Value(Digits4(n)) == n
  {
    hide Value;
    Value4(Digits4(n));
    NumberOfDigits(n);
  }

  lemma NumberOfDigits(n: nat)
    requires n <= NLINK_MAX
    ensures n / 1000 < 10 && 1000 * (n / 1000) + 100 * (n / 100 % 10) + 10 * (n / 10 % 10) + n % 10 == n
  {
    assert n / 100 == (n / 10) / 10 && n / 1000 == (n / 100) / 10;
  }

  lemma ValueDigits4(s: string)
    requires |s| == 4 && AllDigits(s)
    ensures Value(s) <= NLINK_MAX && Digits4(Value(s)) == s
  {
    hide Value;
    Value4(s);
    DigitsOfNumber(DigitOf(s[0]), DigitOf(s[1]), DigitOf(s[2]), DigitOf(s[3]));
  }

  lemma Digits4Injective(m: nat, n: nat)
    requires m <= NLINK_MAX && n <= NLINK_MAX && Digits4(m) == Digits4(n)
    ensures m == n
  {
    hide Value, Digits4;
    Digits4Value(m);
    Digits4Value(n);
  }

  lemma NoDigits()
    ensures Value("") == 0
  {
  }

  lemma ValueSnoc(s: string, c: char)
    requires AllDigits(s) && IsDigit(c)
    ensures AllDigits(s + [c]) && Value(s + [c]) == 10 * Value(s) + DigitOf(c)
  {
    assert (s + [c])[..|s|] == s;
  }

  /** parse_fixed: exactly `digits` characters starting at `at`, all of them digits. */
  method ParseFixed(s: string, at: nat, digits: nat) returns (r: Result<nat, Error>)
    requires at + digits <= |s|
    ensures r.Ok? <==> AllDigits(s[at..at + digits])
    ensures r.Ok? ==> r.value == Value(s[at..at + digits])
  {
    hide Value;
    var v := 0;
    var i := 0;
    assert s[at..at] == "" && Value("") == 0 by { NoDigits(); }
    while i < digits
      invariant 0 <= i <= digits
      invariant AllDigits(s[at..at + i]) && v == Value(s[at..at + i])
    {
      if !IsDigit(s[at + i]) {
        assert s[at..at + digits][i] == s[at + i];
        return Err(NotL2s);
      }
      assert s[at..at + i + 1] == s[at..at + i] + [s[at + i]];
      ValueSnoc(s[at..at + i], s[at + i]);
      v := 10 * v + DigitOf(s[at + i]);
      i := i + 1;
    }
    return Ok(v);
  }

  // ----- the link count, as decimal text -----

  function FormatCount(n: nat): (s: string)
    ensures s != "" && AllDigits(s)
  {
    if n < 10 then [DigitChar(n)] else FormatCount(n / 10) + [DigitChar(n % 10)]
  }

  lemma {:induction false} FormatCountValue(n: nat)
    ensures Value(FormatCount(n)) == n
    ensures n <= 0xffff_ffff ==> |FormatCount(n)| <= 10
    decreases n
  {
    if n >= 10 {
      FormatCountValue(n / 10);
      var s := FormatCount(n);
      assert s[..|s| - 1] == FormatCount(n / 10);
      FormatCountShort(n / 10, 9);
    } else {
      assert FormatCount(n)[..0] == "";
    }
  }

  function Pow10(k: nat): nat {
    if k == 0 then 1 else 10 * Pow10(k - 1)
  }

  lemma {:induction false} FormatCountShort(n: nat, k: nat)
    requires 0 < k
    ensures n < Pow10(k) ==> |FormatCount(n)| <= k
    ensures Pow10(9) == 1_000_000_000
    decreases k
  {
    if k > 1 { FormatCountShort(n / 10, k - 1); }
    assert Pow10(2) == 100 && Pow10(4) == 10_000 && Pow10(6) == 1_000_000 && Pow10(8) == 100_000_000;
  }

  lemma {:induction false} ValuePrefix(s: string, k: nat)
    requires AllDigits(s) && k <= |s|
    ensures Value(s[..k]) <= Value(s)
    decreases |s|
  {
    if k < |s| {
      assert s[..|s| - 1][..k] == s[..k];
      ValuePrefix(s[..|s| - 1], k);
    } else {
      assert s[..k] == s;
    }
  }

  /** The overflow guard leaves out the last six 32-bit numbers. */
  const COUNT_MAX: nat := 0xffff_ffff - 6

  /** l2s_parse_count: all digits, no overflow past 32 bits; leading zeros are fine. */
  method ParseCount(text: string) returns (r: Result<nat, Error>)
    ensures r.Ok? <==> text != "" && AllDigits(text) && Value(text) <= COUNT_MAX
    ensures r.Ok? ==> r.value == Value(text)
  {
    if text == "" { return Err(BadName); }
    var v := 0;
    var i := 0;
    while i < |text|
      invariant 0 <= i <= |text|
      invariant AllDigits(text[..i]) && v == Value(text[..i]) <= COUNT_MAX
    {
      if !IsDigit(text[i]) { return Err(BadName); }
      if v > (0xffff_ffff - 9) / 10 {
        if AllDigits(text) {
          ValuePrefix(text, i + 1);
          assert text[..i + 1][..i] == text[..i];
        }
        return Err(OutOfRange);
      }
      assert text[..i + 1][..i] == text[..i];
      v := 10 * v + DigitOf(text[i]);
      i := i + 1;
    }
    assert text[..i] == text;
    return Ok(v);
  }

  // ----- splitting and joining -----

  predicate IsDots(base: string) {
    (|base| == 1 || |base| == 2) && forall i :: 0 <= i < |base| ==> base[i] == '.'
  }

  function Split(path: string): Result<Parts, Error> {
    var base := Base(path);
    var dir := if LastSlash(path) <= 0 then DirOf(path) else path[..LastSlash(path)];
    if |base| == 0 then Err(BadName)
    else if |base| + 1 > NAME_MAX || |dir| + 1 > PATH_MAX then Err(NameTooLong)
    else if IsDots(base) then Err(BadName)
    else Ok(Parts(dir, base))
  }

  predicate IsRoot(dir: string) {
    |dir| == 1 && dir[0] == '/'
  }

  /** A directory with its separator; the root keeps its one slash. */
  function Head(dir: string): string {
    if |dir| == 0 || IsRoot(dir) then dir else dir + "/"
  }

  function Join(dir: string, base: string): string {
    Head(dir) + base
  }

  lemma HeadInjective(d1: string, d2: string)
    requires Head(d1) == Head(d2)
    ensures d1 == d2
  {
    var h := Head(d1);
    if |h| >= 2 {
      assert d1 == h[..|h| - 1] && d2 == h[..|h| - 1];
    }
  }

  /** l2s_make_paths_ex for files that live next to their original. */
  function MakePaths(prefix: string, orig: string, generation: nat, nlink: nat): (r: Result<Paths, Error>)
  {
    if generation < GEN_FIRST || generation > GEN_LAST || nlink < 1 || nlink > NLINK_MAX then Err(OutOfRange)
    else match Split(orig)
      case Err(e) => Err(e)
      case Ok(parts) =>
        var head := Join(parts.dir, prefix);
        if |parts.dir| + (if |parts.dir| == 0 then 0 else 1) + |prefix| + |parts.base| + 9 >= PATH_MAX
        then Err(NameTooLong)
        else if |parts.base| + |prefix| + 9 > NAME_MAX - 1 then Err(NameTooLong)
        else
          var mid := head + parts.base + Digits4(generation);
          Ok(Paths(mid, mid + "." + Digits4(nlink)))
  }

  // ----- decoding -----

  function MatchPrefix(name: string): (n: nat)
    ensures n <= |name|
  {
    if PREFIX <= name then |PREFIX| else if PREFIX_USERLAND <= name then |PREFIX_USERLAND| else 0
  }

  /** `body` ends in `GGGG.NNNN` after at least one more character. */
  predicate FinalTail(body: string) {
    var n := |body|;
    n > 9 && body[n - 5] == '.' && AllDigits(body[n - 4..]) && AllDigits(body[n - 9..n - 5])
  }

  /** parse_l2s_name: the data-file form is tried before the intermediate form. */
  function ParseName(name: string): Result<Info, Error> {
    var plen := MatchPrefix(name);
    if plen == 0 then Err(NotL2s)
    else
    var body := name[plen..];
    var n := |body|;
    if n == 0 then Err(NotL2s)
    else if FinalTail(body) then
      if n - 9 + 1 > NAME_MAX then Err(NameTooLong)
      else Ok(Info(Final, body[..n - 9], Value(body[n - 9..n - 5]), Value(body[n - 4..])))
    else if n > 4 && AllDigits(body[n - 4..]) then
      if n - 4 + 1 > NAME_MAX then Err(NameTooLong)
      else Ok(Info(Intermediate, body[..n - 4], Value(body[n - 4..]), 0))
    else Err(NotL2s)
  }

  /** The names whose intermediates read as data files: six or more characters, ending in four
      digits and a dot. */
  predicate Ambiguous(name: string) {
    var n := |name|;
    n >= 6 && name[n - 1] == '.' && AllDigits(name[n - 5..n - 1])
  }

  predicate GoodPrefix(prefix: string) {
    prefix == PREFIX || prefix == PREFIX_USERLAND
  }

  lemma HeadEnds(dir: string)
    ensures var h := Head(dir);
      (h == "" || h[|h| - 1] == '/') && |h| <= |dir| + (if |dir| == 0 then 0 else 1)
  {
  }

  lemma Regroup(a: string, b: string, c: string, d: string)
    ensures a + b + c + d == a + (b + c + d)
    ensures Free(b, '/') && Free(c, '/') && Free(d, '/') ==> Free(b + c + d, '/')
  {
  }

  /** What MakePaths builds, in terms of the directory and name of the original. */
  lemma MadePaths(prefix: string, orig: string, generation: nat, nlink: nat)
    requires Free(prefix, '/') && MakePaths(prefix, orig, generation, nlink).Ok?
    ensures Split(orig).Ok? && Split(orig).value.base == Base(orig) && generation <= GEN_LAST && 1 <= nlink <= NLINK_MAX
    ensures var p := MakePaths(prefix, orig, generation, nlink).value;
      && p.final == p.mid + "." + Digits4(nlink)
      && Base(p.mid) == prefix + Base(orig) + Digits4(generation)
      && Base(p.final) == prefix + Base(orig) + Digits4(generation) + "." + Digits4(nlink)
      && DirOf(p.mid) == DirOf(p.final) == Head(Split(orig).value.dir)
      && |p.final| < PATH_MAX && |Base(p.final)| < NAME_MAX
  {
    hide LastSlash, Digits4, Head, Base, DirOf, IsDots;
    var p := MakePaths(prefix, orig, generation, nlink).value;
    SplitBase(orig);
    HeadEnds(Split(orig).value.dir);
    Assembled(Head(Split(orig).value.dir), prefix, Base(orig), Digits4(generation), Digits4(nlink));
  }

  lemma SplitBase(orig: string)
    requires Split(orig).Ok?
    ensures Split(orig).value.base == Base(orig) && Free(Base(orig), '/')
  {
    hide LastSlash, IsDots;
  }

  lemma Assembled(dir: string, prefix: string, base: string, g: string, k: string)
    requires dir == "" || dir[|dir| - 1] == '/'
    requires Free(prefix, '/') && Free(base, '/') && Free(g, '/') && Free(k, '/')
    ensures var mid := dir + prefix + base + g; var final := mid + "." + k;
      && Base(mid) == prefix + base + g && DirOf(mid) == dir
      && Base(final) == prefix + base + g + "." + k && DirOf(final) == dir
  {
    hide Base, DirOf;
    var b := prefix + base + g;
    Regroup(dir, prefix, base, g);
    SlashOfJoin(dir, b);
    Regroup(dir, b, ".", k);
    SlashOfJoin(dir, b + "." + k);
  }

  /** Decoding a well-formed body behind a known prefix. */
  lemma ParseBody(prefix: string, body: string)
    requires GoodPrefix(prefix) && body != ""
    ensures MatchPrefix(prefix + body) == |prefix| && (prefix + body)[|prefix|..] == body
  {
    var name := prefix + body;
    if prefix == PREFIX_USERLAND { assert name[1] != PREFIX[1]; }
    assert prefix <= name;
  }

  /** A data file name always decodes to the name, generation and count that built it. */
  lemma FinalDecodes(prefix: string, orig: string, generation: nat, nlink: nat)
    requires GoodPrefix(prefix) && MakePaths(prefix, orig, generation, nlink).Ok?
    ensures ParseName(Base(MakePaths(prefix, orig, generation, nlink).value.final))
         == Ok(Info(Final, Base(orig), generation, nlink))
  {
    hide Split, MakePaths, Base, ParseName;
    MadePaths(prefix, orig, generation, nlink);
    BaseNotEmpty(prefix, orig, generation, nlink);
    FinalBodyDecodes(prefix, Base(orig), generation, nlink);
  }

  lemma FinalBodyDecodes(prefix: string, base: string, generation: nat, nlink: nat)
    requires GoodPrefix(prefix) && base != "" && |base| < NAME_MAX && generation <= GEN_LAST && nlink <= NLINK_MAX
    ensures ParseName(prefix + base + Digits4(generation) + "." + Digits4(nlink)) ==
      Ok(Info(Final, base, generation, nlink))
  {
    hide Value, MatchPrefix, Digits4;
    var g, k := Digits4(generation), Digits4(nlink);
    var body := base + g + "." + k;
    assert prefix + base + g + "." + k == prefix + body;
    ParseBody(prefix, body);
    var n := |body|;
    assert body[n - 4..] == k && body[n - 9..n - 5] == g && body[..n - 9] == base;
    Digits4Value(generation);
    Digits4Value(nlink);
  }

  /** An intermediate decodes back exactly when its name is not ambiguous; an ambiguous one is
      read as a data file. */
  lemma IntermediateDecodes(prefix: string, orig: string, generation: nat)
    requires GoodPrefix(prefix) && MakePaths(prefix, orig, generation, 1).Ok?
    ensures var r := ParseName(Base(MakePaths(prefix, orig, generation, 1).value.mid));
      if Ambiguous(Base(orig)) then r.Ok? && r.value.kind == Final
      else r == Ok(Info(Intermediate, Base(orig), generation, 0))
  {
    hide Split, MakePaths, Base, ParseName, Value, Ambiguous;
    MadePaths(prefix, orig, generation, 1);
    BaseNotEmpty(prefix, orig, generation, 1);
    IntermediateBodyDecodes(prefix, Base(orig), generation);
  }

  lemma IntermediateBodyDecodes(prefix: string, base: string, generation: nat)
    requires GoodPrefix(prefix) && base != "" && |base| < NAME_MAX - 5 && generation <= GEN_LAST
    ensures var r := ParseName(prefix + base + Digits4(generation));
      if Ambiguous(base) then r.Ok? && r.value.kind == Final
      else r == Ok(Info(Intermediate, base, generation, 0))
  {
    hide Value, MatchPrefix, Digits4;
    var g := Digits4(generation);
    var body := base + g;
    assert prefix + base + g == prefix + body;
    ParseBody(prefix, body);
    var n, b := |body|, |base|;
    assert body[n - 4..] == g && body[..n - 4] == base;
    if n > 9 { assert body[n - 9..n - 5] == base[b - 5..b - 1] && body[n - 5] == base[b - 1]; }
    Digits4Value(generation);
  }

  /** Equal intermediates come from equal directories, names and generations. */
  lemma IntermediatesAreInjective(prefix: string, o1: string, g1: nat, o2: string, g2: nat)
    requires Free(prefix, '/')
    requires MakePaths(prefix, o1, g1, 1).Ok? && MakePaths(prefix, o2, g2, 1).Ok?
    requires MakePaths(prefix, o1, g1, 1).value.mid == MakePaths(prefix, o2, g2, 1).value.mid
    ensures Split(o1) == Split(o2) && g1 == g2
  {
    hide Split, MakePaths, Base, DirOf, Digits4, Head;
    MadePaths(prefix, o1, g1, 1);
    MadePaths(prefix, o2, g2, 1);
    var m := Base(MakePaths(prefix, o1, g1, 1).value.mid);
    var n := |m|;
    assert Digits4(g1) == m[n - 4..] == Digits4(g2);
    assert Base(o1) == m[|prefix|..n - 4] == Base(o2);
    Digits4Injective(g1, g2);
    HeadInjective(Split(o1).value.dir, Split(o2).value.dir);
  }

  /** In one directory an intermediate equals a data file exactly when its name is that file's
      name followed by its generation and a dot, and its generation is that file's count; such a
      name is ambiguous. */
  lemma IntermediateMeetsFinal(prefix: string, o1: string, g1: nat, o2: string, g2: nat, nlink: nat)
    requires Free(prefix, '/')
    requires MakePaths(prefix, o1, g1, 1).Ok? && MakePaths(prefix, o2, g2, nlink).Ok?
    ensures g2 <= NLINK_MAX
    ensures Base(MakePaths(prefix, o1, g1, 1).value.mid) == Base(MakePaths(prefix, o2, g2, nlink).value.final)
       <==> Base(o1) == Base(o2) + Digits4(g2) + "." && g1 == nlink
    ensures Base(o2) != "" && (Base(o1) == Base(o2) + Digits4(g2) + "." ==> Ambiguous(Base(o1)))
  {
    hide Split, MakePaths, Base, DirOf, Digits4, Head;
    MadePaths(prefix, o1, g1, 1);
    MadePaths(prefix, o2, g2, nlink);
    BaseNotEmpty(prefix, o2, g2, nlink);
    var b1, b2 := Base(o1), Base(o2);
    var m := prefix + b1 + Digits4(g1);
    var f := prefix + b2 + Digits4(g2) + "." + Digits4(nlink);
    if m == f {
      var n := |m|;
      assert Digits4(g1) == m[n - 4..] == f[n - 4..] == Digits4(nlink);
      assert b1 == m[|prefix|..n - 4] == f[|prefix|..n - 4] == b2 + Digits4(g2) + ".";
      Digits4Injective(g1, nlink);
    }
    if b1 == b2 + Digits4(g2) + "." {
      assert b1[|b1| - 5..|b1| - 1] == Digits4(g2);
      if g1 == nlink { assert m == f; }
    }
  }

  lemma BaseNotEmpty(prefix: string, orig: string, generation: nat, nlink: nat)
    requires MakePaths(prefix, orig, generation, nlink).Ok?
    ensures Base(orig) != ""
  {
    hide LastSlash, Base, IsDots, Head;
  }

  // ----- choosing a generation -----

  /** l2s_pick_generation: the first free one, in order; the data file's name is not probed. */
  method PickGeneration(orig: string, occupied: set<string>) returns (r: Result<nat, Error>)
    ensures r.Ok? ==> IsFirstFree(orig, occupied, r.value)
    ensures r.Err? ==>
      r.error == OutOfRange && forall g :: GEN_FIRST <= g <= GEN_LAST ==> !IsFirstFree(orig, occupied, g)
  {
    hide MakePaths;
    var gen := GEN_FIRST;
    while gen <= GEN_LAST
      invariant GEN_FIRST <= gen <= GEN_LAST + 1
      invariant forall g :: GEN_FIRST <= g < gen ==> Taken(orig, occupied, g)
    {
      var candidate := MakePaths(PREFIX, orig, gen, 1);
      if candidate.Err? {
        assert !Taken(orig, occupied, gen);
        return Err(OutOfRange);
      }
      if candidate.value.mid !in occupied { return Ok(gen); }
      gen := gen + 1;
    }
    return Err(OutOfRange);
  }

  predicate Taken(orig: string, occupied: set<string>, g: nat) {
    var p := MakePaths(PREFIX, orig, g, 1);
    p.Ok? && p.value.mid in occupied
  }

  /** `g` can be built and is free, and every earlier generation is taken. */
  ghost predicate IsFirstFree(orig: string, occupied: set<string>, g: nat) {
    var p := MakePaths(PREFIX, orig, g, 1);
    && GEN_FIRST <= g <= GEN_LAST && p.Ok? && !Taken(orig, occupied, g)
    && forall h :: GEN_FIRST <= h < g ==> Taken(orig, occupied, h)
  }
}

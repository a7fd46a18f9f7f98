/** Scripts whose interpreter is again a script: the rewriting loop, against the kernel's rule that
    a script is run as `interpreter [argument] script arguments...`. */
module Shebang {
  import opened Text
  import opened Wrappers

  const PATH_MAX: nat := 4096
  const LINE_MAX: nat := 256
  const MAX_DEPTH: nat := 4

  datatype Errno = ENOEXEC | ELOOP

  predicate Blank(c: char) { c == ' ' || c == '\t' }

  predicate Eol(c: char) { c == '\n' || c == '\r' }

  // ----- the first line -----

  /** The text before the first end of line. */
  function ToEol(s: string): (k: nat)
    ensures k <= |s| && (k < |s| ==> Eol(s[k])) && forall i :: 0 <= i < k ==> !Eol(s[i])
  {
    if |s| == 0 || Eol(s[0]) then 0 else 1 + ToEol(s[1..])
  }

  function Blanks(s: string): (k: nat)
    ensures k <= |s| && (k < |s| ==> !Blank(s[k])) && forall i :: 0 <= i < k ==> Blank(s[i])
  {
    if |s| == 0 || !Blank(s[0]) then 0 else 1 + Blanks(s[1..])
  }

  /** The text before the first blank or end of line. */
  function Word(s: string): (k: nat)
    ensures k <= |s| && (k < |s| ==> Blank(s[k]) || Eol(s[k])) && forall i :: 0 <= i < k ==> !Blank(s[i]) && !Eol(s[i])
  {
    if |s| == 0 || Blank(s[0]) || Eol(s[0]) then 0 else 1 + Word(s[1..])
  }

  /** What a C string holds of the bytes copied into it: those before the first zero. */
  function CText(s: string): (r: string)
    ensures r <= s && Free(r, 0 as char) && (|r| < |s| ==> s[|r|] == 0 as char)
  {
    s[..Find(s, 0 as char)]
  }

  datatype Line = NotScript | Malformed | Script(interp: string, arg: Option<string>)

  function Trim(s: string): string { s[Blanks(s)..] }

  /** What follows the mark: a word, and the whole rest of the line as one argument. */
  function ReadLine(body: string): Line {
    var t := Trim(body);
    if Word(t) == 0 then Malformed else Script(CText(t[..Word(t)]), Argument(t[Word(t)..]))
  }

  /** The whole rest of the line, unless it is blank; a zero byte cuts it short afterwards. */
  function Argument(u: string): Option<string> {
    var rest := Trim(u);
    if ToEol(rest) > 0 then Some(CText(rest[..ToEol(rest)])) else None
  }

  /** What the first 256 bytes of a file say. */
  function Parse(content: string): Line {
    var buf := if |content| > LINE_MAX then content[..LINE_MAX] else content;
    if |buf| < 2 || buf[0] != '#' || buf[1] != '!' then NotScript else ReadLine(buf[2..])
  }

  /** Spaces and tabs only. */
  predicate Padding(s: string) { forall i :: 0 <= i < |s| ==> s[i] == ' ' || s[i] == '\t' }

  /** Neither a space, a tab, nor an end of line. */
  predicate Solid(s: string) {
    forall i :: 0 <= i < |s| ==> s[i] != ' ' && s[i] != '\t' && s[i] != '\n' && s[i] != '\r'
  }

  predicate OneLine(s: string) { forall i :: 0 <= i < |s| ==> s[i] != '\n' && s[i] != '\r' }

  /** Nothing, or text that an end of line starts. */
  predicate LineEnd(s: string) { |s| > 0 ==> s[0] == '\n' || s[0] == '\r' }

  /** An argument with blanks inside stays one argument, up to the end of the line; blanks before the
      interpreter and before the argument are skipped, and zero bytes cut both texts. */
  lemma OneArgument(pad: string, interp: string, gap: string, arg: string, end: string)
    requires Padding(pad) && |interp| > 0 && Solid(interp) && |gap| > 0 && Padding(gap) && LineEnd(end)
    requires |arg| > 0 && arg[0] != ' ' && arg[0] != '\t' && OneLine(arg)
    requires 2 + |pad| + |interp| + |gap| + |arg| + |end| <= 256
    ensures Parse("#!" + (pad + (interp + (gap + (arg + end))))) == Script(CText(interp), Some(CText(arg)))
  {
    hide Parse, ReadLine, CText, Argument, Solid;
    ParseLine(pad + (interp + (gap + (arg + end))));
    FirstWord(pad, interp, gap + (arg + end));
    ArgumentIs(gap, arg, end);
  }

  /** Without an argument: the interpreter alone, whatever blanks stand behind it. */
  lemma NoArguments(pad: string, interp: string, gap: string, end: string)
    requires Padding(pad) && |interp| > 0 && Solid(interp) && Padding(gap) && LineEnd(end)
    requires 2 + |pad| + |interp| + |gap| + |end| <= 256
    ensures Parse("#!" + (pad + (interp + (gap + end)))) == Script(CText(interp), None)
  {
    hide Parse, ReadLine, CText, Argument, Solid;
    ParseLine(pad + (interp + (gap + end)));
    FirstWord(pad, interp, gap + end);
    ArgumentIs(gap, "", end);
    assert gap + ("" + end) == gap + end;
  }

  /** With nothing but blanks on the line there is no interpreter. */
  lemma BlankLine(pad: string, end: string)
    requires Padding(pad) && LineEnd(end) && 2 + |pad| + |end| <= 256
    ensures Parse("#!" + (pad + end)) == Malformed
  {
    hide Blanks, Word, ToEol, CText;
    assert ("#!" + (pad + end))[2..] == pad + end && (pad + end)[|pad|..] == end;
    BlanksIs(pad + end, |pad|);
    WordIs(end, 0);
  }

  lemma ParseLine(body: string)
    requires 2 + |body| <= 256
    ensures Parse("#!" + body) == ReadLine(body)
  {
    hide ReadLine;
    assert ("#!" + body)[2..] == body;
  }

  lemma ArgumentIs(gap: string, arg: string, end: string)
    requires Padding(gap) && LineEnd(end) && OneLine(arg) && (|arg| > 0 ==> arg[0] != ' ' && arg[0] != '\t')
    ensures Argument(gap + (arg + end)) == if |arg| > 0 then Some(CText(arg)) else None
  {
    hide Blanks, ToEol, CText;
    var u, v := gap + (arg + end), arg + end;
    assert u[|gap|..] == v && v[..|arg|] == arg;
    BlanksIs(u, |gap|);
    EolIs(v, |arg|);
  }

  lemma FirstWord(pad: string, interp: string, u: string)
    requires Padding(pad) && |interp| > 0 && Solid(interp)
    requires |u| > 0 ==> Blank(u[0]) || Eol(u[0])
    ensures ReadLine(pad + (interp + u)) == Script(CText(interp), Argument(u))
  {
    hide Blanks, Word, ToEol, CText, Argument;
    var body, t := pad + (interp + u), interp + u;
    assert body[|pad|..] == t && t[|interp|..] == u && t[..|interp|] == interp;
    BlanksIs(body, |pad|);
    WordIs(t, |interp|);
  }

  lemma BlanksIs(s: string, k: nat)
    requires k <= |s| && (k < |s| ==> !Blank(s[k])) && forall i :: 0 <= i < k ==> Blank(s[i])
    ensures Blanks(s) == k
  {
  }

  lemma WordIs(s: string, k: nat)
    requires k <= |s| && (k < |s| ==> Blank(s[k]) || Eol(s[k])) && forall i :: 0 <= i < k ==> !Blank(s[i]) && !Eol(s[i])
    ensures Word(s) == k
  {
  }

  lemma EolIs(s: string, k: nat)
    requires k <= |s| && (k < |s| ==> Eol(s[k])) && forall i :: 0 <= i < k ==> !Eol(s[i])
    ensures ToEol(s) == k
  {
  }

  method SkipBlanks(buf: string, i: nat) returns (j: nat)
    requires i <= |buf|
    ensures j == i + Blanks(buf[i..])
  {
    j := i;
    while j < |buf| && Blank(buf[j])
      invariant i <= j <= |buf| && forall k :: i <= k < j ==> Blank(buf[k])
    {
      j := j + 1;
    }
    BlanksIs(buf[i..], j - i);
  }

  method ScanWord(buf: string, i: nat) returns (j: nat)
    requires i <= |buf|
    ensures j == i + Word(buf[i..])
  {
    j := i;
    while j < |buf| && !Blank(buf[j]) && !Eol(buf[j])
      invariant i <= j <= |buf| && forall k :: i <= k < j ==> !Blank(buf[k]) && !Eol(buf[k])
    {
      j := j + 1;
    }
    WordIs(buf[i..], j - i);
  }

  method ScanLine(buf: string, i: nat) returns (j: nat)
    requires i <= |buf|
    ensures j == i + ToEol(buf[i..])
  {
    j := i;
    while j < |buf| && !Eol(buf[j])
      invariant i <= j <= |buf| && forall k :: i <= k < j ==> !Eol(buf[k])
    {
      j := j + 1;
    }
    EolIs(buf[i..], j - i);
  }

  lemma Suffix(s: string, i: nat, k: nat)
    requires i + k <= |s|
    ensures s[i..][k..] == s[i + k..] && s[i..][..k] == s[i..i + k]
  {
  }

  /** px_parse_shebang: one cursor over the bytes read. */
  method ParseShebang(content: string) returns (l: Line)
    ensures l == Parse(content)
  {
    hide ReadLine, Blanks, Word, Argument, CText;
    var buf := if |content| > LINE_MAX then content[..LINE_MAX] else content;
    if |buf| < 2 { return NotScript; }
    if buf[0] != '#' || buf[1] != '!' { return NotScript; }
    var start := SkipBlanks(buf, 2);
    var i := ScanWord(buf, start);
    LineParts(buf, start, i);
    if i == start { return Malformed; }
    var arg := ParseArgument(buf, i);
    return Script(CText(buf[start..i]), arg);
  }

  lemma LineParts(buf: string, start: nat, i: nat)
    requires 2 <= |buf| && start == 2 + Blanks(buf[2..]) && i == start + Word(buf[start..])
    ensures ReadLine(buf[2..]) == if i == start then Malformed else Script(CText(buf[start..i]), Argument(buf[i..]))
  {
    hide Argument, Blanks, Word, CText;
    Suffix(buf, 2, start - 2);
    Suffix(buf, start, i - start);
  }

  method ParseArgument(buf: string, i: nat) returns (arg: Option<string>)
    requires i <= |buf| && (i < |buf| ==> Blank(buf[i]) || Eol(buf[i]))
    ensures arg == Argument(buf[i..])
  {
    hide Blanks, ToEol, CText;
    if i < |buf| && Blank(buf[i]) {
      var start := SkipBlanks(buf, i);
      Suffix(buf, i, start - i);
      var end := ScanLine(buf, start);
      Suffix(buf, start, end - start);
      return if end > start then Some(CText(buf[start..end])) else None;
    }
    NoArgument(buf[i..]);
    return None;
  }

  /** Behind a word that no blank ends, there is no argument. */
  lemma NoArgument(u: string)
    requires |u| == 0 || Eol(u[0])
    ensures Argument(u) == None
  {
    BlanksIs(u, 0);
    assert Trim(u) == u;
    EolIs(u, 0);
  }

  // ----- one level -----

  /** Files by host path, and host paths by guest path. */
  datatype World = World(files: map<string, string>, hosts: map<string, string>)

  function LineAt(w: World, host: string): Line {
    if host in w.files then Parse(w.files[host]) else NotScript
  }

  function HostOf(w: World, guest: string): string {
    if guest in w.hosts then w.hosts[guest] else guest
  }

  function Rest(argv: seq<string>): seq<string> { if |argv| > 0 then argv[1..] else [] }

  function Front(interp: string, arg: Option<string>): seq<string> {
    [interp] + (if arg.Some? then [arg.value] else [])
  }

  /** The kernel's argument vector for one script. */
  function Level(interp: string, arg: Option<string>, script: string, argv: seq<string>): seq<string> {
    Front(interp, arg) + [script] + Rest(argv)
  }

  datatype Rewrite = Kept | Refused | Rewritten(host: string, guest: string, argv: seq<string>)

  function RewriteSpec(w: World, host: string, guest: string, argv: seq<string>): Rewrite {
    match LineAt(w, host)
    case NotScript => Kept
    case Malformed => Refused
    case Script(interp, arg) =>
      if |guest| >= PATH_MAX then Refused else Rewritten(HostOf(w, interp), interp, Level(interp, arg, guest, argv))
  }

  /** The strings of a null-terminated vector. */
  predicate Terminated(vec: seq<Option<string>>, argv: seq<string>) {
    |argv| < |vec| && vec[|argv|] == None && forall i :: 0 <= i < |argv| ==> vec[i] == Some(argv[i])
  }

  /** px_rewrite_shebang, filling a vector of `cap` places; with four places more than arguments, the
      checks for room never refuse. */
  method RewriteShebang(w: World, host: string, guest: string, argv: seq<string>, cap: nat)
    returns (r: Rewrite, vec: array<Option<string>>)
    requires cap == |argv| + 4
    ensures r == RewriteSpec(w, host, guest, argv) && fresh(vec)
    ensures r.Rewritten? ==> Terminated(vec[..], r.argv)
  {
    hide Parse;
    vec := new Option<string>[cap](_ => None);
    if host !in w.files { return Kept, vec; }
    var l := ParseShebang(w.files[host]);
    if l.NotScript? { return Kept, vec; }
    if l.Malformed? { return Refused, vec; }
    if |guest| >= PATH_MAX { return Refused, vec; }
    var n := 0;
    vec[n] := Some(l.interp);
    n := 1;
    if l.arg.Some? {
      vec[n] := Some(l.arg.value);
      n := n + 1;
    }
    if n + 1 >= cap { return Refused, vec; }
    vec[n] := Some(guest);
    n := n + 1;
    ghost var head, rest := Front(l.interp, l.arg) + [guest], Rest(argv);
    assert Filled(vec[..], head + rest[..0]);
    var i := 1;
    while i < |argv|
      invariant 1 <= i <= |rest| + 1 && n == |head| + i - 1 && Filled(vec[..], head + rest[..i - 1])
    {
      if n + 1 >= cap { return Refused, vec; }
      assert (head + rest[..i])[n] == argv[i];
      assert forall j :: 0 <= j < n ==> (head + rest[..i])[j] == (head + rest[..i - 1])[j];
      vec[n] := Some(argv[i]);
      n := n + 1;
      i := i + 1;
    }
    assert rest[..i - 1] == rest;
    vec[n] := None;
    return Rewritten(HostOf(w, l.interp), l.interp, Level(l.interp, l.arg, guest, argv)), vec;
  }

  predicate Filled(vec: seq<Option<string>>, out: seq<string>) {
    |out| <= |vec| && forall j :: 0 <= j < |out| ==> vec[j] == Some(out[j])
  }

  // ----- the chain -----

  datatype Outcome = Run(host: string, guest: string, argv: seq<string>, levels: nat) | Fail(error: Errno)

  /** The kernel's rule, applied again while the interpreter is a script. */
  function Kernel(w: World, host: string, guest: string, argv: seq<string>, depth: nat): Outcome
    requires depth <= MAX_DEPTH
    decreases MAX_DEPTH - depth
  {
    match RewriteSpec(w, host, guest, argv)
    case Kept => Run(host, guest, argv, depth)
    case Refused => Fail(ENOEXEC)
    case Rewritten(h, g, a) => if depth == MAX_DEPTH then Fail(ELOOP) else Kernel(w, h, g, a, depth + 1)
  }

  /** px_rewrite_shebang_chain: every level's vector is sized by the arguments it gets. */
  method RewriteChain(w: World, host: string, guest: string, argv: seq<string>) returns (o: Outcome)
    ensures o == Kernel(w, host, guest, argv, 0)
  {
    hide RewriteSpec;
    var h, g, a, depth := host, guest, argv, 0;
    while depth <= MAX_DEPTH
      invariant depth <= MAX_DEPTH && Kernel(w, h, g, a, depth) == Kernel(w, host, guest, argv, 0)
      decreases MAX_DEPTH - depth
    {
      var r, vec := RewriteShebang(w, h, g, a, |a| + 4);
      match r {
        case Kept => return Run(h, g, a, depth);
        case Refused => return Fail(ENOEXEC);
        case Rewritten(h1, g1, a1) =>
          if depth == MAX_DEPTH { return Fail(ELOOP); }
          h, g, a := h1, g1, a1;
          depth := depth + 1;
      }
    }
  }

  // ----- what the chain comes to -----

  datatype Nest = Nest(interp: string, arg: Option<string>)

  /** Each script's interpreter line is `levels[i]`, outermost first. */
  predicate Nested(w: World, host: string, guest: string, levels: seq<Nest>)
    decreases |levels|
  {
    |levels| == 0 || (LineAt(w, host) == Script(levels[0].interp, levels[0].arg) && |guest| < PATH_MAX
      && Nested(w, HostOf(w, levels[0].interp), levels[0].interp, levels[1..]))
  }

  /** The innermost interpreter comes first, each with its argument. */
  function Fronts(levels: seq<Nest>): seq<string> {
    if |levels| == 0 then [] else Fronts(levels[1..]) + Front(levels[0].interp, levels[0].arg)
  }

  function LastGuest(guest: string, levels: seq<Nest>): string {
    if |levels| == 0 then guest else levels[|levels| - 1].interp
  }

  function LastHost(w: World, host: string, levels: seq<Nest>): string {
    if |levels| == 0 then host else HostOf(w, levels[|levels| - 1].interp)
  }

  /** The arguments in closed form: every interpreter with its argument, innermost first, then the
      script and the caller's arguments. */
  function ArgsAfter(guest: string, argv: seq<string>, levels: seq<Nest>): seq<string> {
    if |levels| == 0 then argv else Fronts(levels) + ([guest] + Rest(argv))
  }

  lemma ArgsStep(guest: string, argv: seq<string>, levels: seq<Nest>)
    requires |levels| > 0
    ensures var l := levels[0];
      ArgsAfter(l.interp, Level(l.interp, l.arg, guest, argv), levels[1..]) == ArgsAfter(guest, argv, levels)
  {
    var l := levels[0];
    var base := [guest] + Rest(argv);
    var next := Level(l.interp, l.arg, guest, argv);
    assert next == Front(l.interp, l.arg) + base;
    assert [l.interp] + Rest(next) == next;
    assert Fronts(levels[1..]) + (Front(l.interp, l.arg) + base) == Fronts(levels) + base;
    if |levels| == 1 {
      assert Fronts(levels[1..]) == [];
      assert [] + (Front(l.interp, l.arg) + base) == Front(l.interp, l.arg) + base;
    }
  }

  lemma {:induction false} KernelUnwinds(w: World, host: string, guest: string, argv: seq<string>, levels: seq<Nest>,
      depth: nat)
    requires Nested(w, host, guest, levels) && depth + |levels| <= MAX_DEPTH
    ensures Kernel(w, host, guest, argv, depth) ==
      Kernel(w, LastHost(w, host, levels), LastGuest(guest, levels), ArgsAfter(guest, argv, levels), depth + |levels|)
    decreases |levels|
  {
    hide LineAt, HostOf, Level, ArgsAfter;
    if |levels| == 0 {
      assert ArgsAfter(guest, argv, levels) == argv by { NoArgs(guest, argv, levels); }
    } else {
      var l := levels[0];
      ArgsStep(guest, argv, levels);
      KernelUnwinds(w, HostOf(w, l.interp), l.interp, Level(l.interp, l.arg, guest, argv), levels[1..], depth + 1);
    }
  }

  lemma NoArgs(guest: string, argv: seq<string>, levels: seq<Nest>)
    requires |levels| == 0
    ensures ArgsAfter(guest, argv, levels) == argv
  {
  }

  /** One script: its interpreter gets its argument, the script, and the caller's arguments without the
      first. */
  lemma OneScript(w: World, host: string, guest: string, zero: string, args: seq<string>, interp: string,
      arg: Option<string>)
    requires LineAt(w, host) == Script(interp, arg) && |guest| < 4096 && LineAt(w, HostOf(w, interp)).NotScript?
    ensures Kernel(w, host, guest, [zero] + args, 0) ==
      Run(HostOf(w, interp), interp, (if arg.Some? then [interp, arg.value] else [interp]) + ([guest] + args), 1)
  {
    hide LineAt, HostOf;
    assert ([zero] + args)[1..] == args;
    assert Front(interp, arg) == if arg.Some? then [interp, arg.value] else [interp];
    assert Front(interp, arg) + [guest] + args == Front(interp, arg) + ([guest] + args);
  }

  /** Up to four nested scripts run the innermost interpreter, with every level's words in front of
      the script and the caller's arguments behind it. */
  lemma NestedRuns(w: World, host: string, guest: string, argv: seq<string>, levels: seq<Nest>)
    requires Nested(w, host, guest, levels) && |levels| <= MAX_DEPTH && LineAt(w, LastHost(w, host, levels)).NotScript?
    ensures Kernel(w, host, guest, argv, 0) ==
      Run(LastHost(w, host, levels), LastGuest(guest, levels), ArgsAfter(guest, argv, levels), |levels|)
  {
    KernelUnwinds(w, host, guest, argv, levels, 0);
  }

  lemma {:induction false} NestedPrefix(w: World, host: string, guest: string, levels: seq<Nest>, k: nat)
    requires Nested(w, host, guest, levels) && k < |levels|
    ensures Nested(w, host, guest, levels[..k])
    ensures LineAt(w, LastHost(w, host, levels[..k])) == Script(levels[k].interp, levels[k].arg)
    ensures |LastGuest(guest, levels[..k])| < PATH_MAX
    decreases k
  {
    hide LineAt, HostOf;
    if k > 0 {
      NestedPrefix(w, HostOf(w, levels[0].interp), levels[0].interp, levels[1..], k - 1);
      assert levels[..k][1..] == levels[1..][..k - 1];
    }
  }

  /** A fifth level is one too many. */
  lemma FifthLoops(w: World, host: string, guest: string, argv: seq<string>, levels: seq<Nest>)
    requires Nested(w, host, guest, levels) && |levels| > MAX_DEPTH
    ensures Kernel(w, host, guest, argv, 0) == Fail(ELOOP)
  {
    hide LineAt, HostOf, ArgsAfter, Level, Nested, LastHost, LastGuest;
    NestedPrefix(w, host, guest, levels, MAX_DEPTH);
    KernelUnwinds(w, host, guest, argv, levels[..MAX_DEPTH], 0);
  }
}

/** The run-time instruction scanner: it rewrites AArch64 code words in place while it is still
    scanning them.  Two passes exist, one that neutralises a system call and one that turns it
    into a branch to a trampoline; both use the same window and the same barrier test.

    What a pass must do is stated on the ORIGINAL words (`Site`), and the loops are proved to
    compute it although they overwrite those words as they go. */
module Livepatch {

  /** A 32-bit instruction word.  Bit fields are written as quotients and remainders by powers
      of two: `w / 0x80_0000` is bits 31..23, `w % 32` bits 4..0. */
  type Word = w: int | 0 <= w < 0x1_0000_0000

  const SVC_INSN: Word := 0xd400_0001
  const MOV_X0_0: Word := 0xd280_0000
  const BL_OPCODE: int := 0x9400_0000
  const BL_RANGE: int := 0x800_0000
  const SCAN_WINDOW: nat := 12
  const SCAN_MAX_HITS: nat := 32

  /** The two passes; the relay knows the address of the first word and of its trampoline. */
  datatype Pass = Neutralise | Relay(lo: int, tramp: int)

  /** `movz x8, #nr` with no shift. */
  function MovX8(nr: nat): Word
    requires nr < 0x1_0000
  {
    0xd280_0008 + nr * 32
  }

  /** The words that open a window: `mov x8,#99` and `mov x8,#293`, or `mov x8,#56` (openat). */
  predicate Opens(pass: Pass, ins: Word) {
    match pass
    case Neutralise => ins == MovX8(99) || ins == MovX8(293)
    case Relay(_, _) => ins == MovX8(56)
  }

  /** Words after which the link between a `mov x8,#nr` and a later `svc` is no longer certain:
      any other write of x8, and any transfer of control. */
  predicate IsBarrier(ins: Word) {
    || (ins / 0x80_0000 == 0x1a5 && ins % 32 == 8)             // movz x8, any shift
    || (ins / 0x80_0000 == 0x1e5 && ins % 32 == 8)             // movk x8, any shift
    || ins / 0x400_0000 == 0x05 || ins / 0x400_0000 == 0x25    // B, BL
    || ins / 0x100_0000 == 0x54                                // B.cond
    || (ins / 0x200_0000) % 64 == 0x1a                         // CBZ, CBNZ
    || (ins / 0x200_0000) % 64 == 0x1b                         // TBZ, TBNZ
    || ins / 0x200_0000 == 0x6b                                // BR, BLR, RET
  }

  predicate Stops(ins: Word) {
    ins == SVC_INSN || IsBarrier(ins)
  }

  /** `movz x8, #imm, lsl #(16 * hw)` and `movk` alike. */
  function MovzX8(hw: nat, imm: nat): Word
    requires hw < 4 && imm < 0x1_0000
  {
    0xd280_0008 + hw * 0x20_0000 + imm * 32
  }

  function MovkX8(hw: nat, imm: nat): Word
    requires hw < 4 && imm < 0x1_0000
  {
    0xf280_0008 + hw * 0x20_0000 + imm * 32
  }

  predicate WritesX8(ins: Word) {
    exists hw: nat, imm: nat :: hw < 4 && imm < 0x1_0000 && (ins == MovzX8(hw, imm) || ins == MovkX8(hw, imm))
  }

  /** The words that transfer control, by the ranges of their encodings. */
  predicate Transfers(ins: Word) {
    || 0x1400_0000 <= ins < 0x1800_0000 || 0x9400_0000 <= ins < 0x9800_0000    // B, BL
    || 0x5400_0000 <= ins < 0x5500_0000                                        // B.cond
    || 0x3400_0000 <= ins < 0x3600_0000 || 0xb400_0000 <= ins < 0xb600_0000    // CBZ, CBNZ on w and x
    || 0x3600_0000 <= ins < 0x3800_0000 || 0xb600_0000 <= ins < 0xb800_0000    // TBZ, TBNZ
    || 0xd600_0000 <= ins < 0xd800_0000                                        // BR, BLR, RET
  }

  /** Bits 31..23 and 4..0 fix a word up to the shift and the immediate between them. */
  lemma FieldsBetween(ins: Word, top: nat) returns (hw: nat, imm: nat)
    requires ins / 0x80_0000 == top && ins % 32 == 8
    ensures hw < 4 && imm < 0x1_0000 && ins == top * 0x80_0000 + hw * 0x20_0000 + imm * 32 + 8
  {
    var rest := ins % 0x80_0000;
    assert ins == top * 0x80_0000 + rest && rest % 32 == 8;
    hw, imm := rest / 32 / 0x1_0000, rest / 32 % 0x1_0000;
    assert rest == rest / 32 * 32 + 8;
  }

  lemma FieldsBack(top: nat, hw: nat, imm: nat)
    requires hw < 4 && imm < 0x1_0000
    ensures var ins := top * 0x80_0000 + hw * 0x20_0000 + imm * 32 + 8; ins / 0x80_0000 == top && ins % 32 == 8
  {
  }

  /** An immediate write of x8, by the fixed bits. */
  predicate SetsX8(ins: Word) {
    (ins / 0x80_0000 == 0x1a5 || ins / 0x80_0000 == 0x1e5) && ins % 32 == 8
  }

  lemma WritesWords(ins: Word)
    ensures SetsX8(ins) <==> WritesX8(ins)
  {
    if SetsX8(ins) {
      var hw, imm := FieldsBetween(ins, ins / 0x80_0000);
      assert ins == MovzX8(hw, imm) || ins == MovkX8(hw, imm);
    }
    if WritesX8(ins) {
      var hw: nat, imm: nat :| hw < 4 && imm < 0x1_0000 && (ins == MovzX8(hw, imm) || ins == MovkX8(hw, imm));
      FieldsBack(0x1a5, hw, imm);
      FieldsBack(0x1e5, hw, imm);
    }
  }

  /** The barrier words are exactly the immediate writes of x8 and the transfers of control. */
  lemma BarrierWords(ins: Word)
    ensures IsBarrier(ins) <==> WritesX8(ins) || Transfers(ins)
  {
    WritesWords(ins);
    hide WritesX8;
    CompareBits(ins);
    TopBits(ins);
  }

  /** Seven bits below the top one, read off the range. */
  lemma CompareBits(ins: Word)
    ensures (ins / 0x200_0000) % 64 == 0x1a <==>
      0x3400_0000 <= ins < 0x3600_0000 || 0xb400_0000 <= ins < 0xb600_0000
    ensures (ins / 0x200_0000) % 64 == 0x1b <==>
      0x3600_0000 <= ins < 0x3800_0000 || 0xb600_0000 <= ins < 0xb800_0000
  {
    var q := ins / 0x200_0000;
    assert q < 128;
  }

  /** The same for the fields that reach up to the top. */
  lemma TopBits(ins: Word)
    ensures ins / 0x400_0000 == 0x05 <==> 0x1400_0000 <= ins < 0x1800_0000
    ensures ins / 0x400_0000 == 0x25 <==> 0x9400_0000 <= ins < 0x9800_0000
    ensures ins / 0x100_0000 == 0x54 <==> 0x5400_0000 <= ins < 0x5500_0000
    ensures ins / 0x200_0000 == 0x6b <==> 0xd600_0000 <= ins < 0xd800_0000
  {
  }

  /** The words that open a window, the system call, and what replaces it without a relay. */
  lemma OpenerWords(ins: Word, lo: int, tramp: int)
    ensures SVC_INSN == 0xd400_0001 && Patched(Neutralise, lo) == 0xd280_0000
    ensures Opens(Neutralise, ins) <==> ins == 0xd280_0c68 || ins == 0xd280_24a8
    ensures Opens(Relay(lo, tramp), ins) <==> ins == 0xd280_0708
  {
  }

  /** `BL` with the low 26 bits of `off >> 2`. */
  function BranchWord(off: int): Word {
    BL_OPCODE + (off / 4) % 0x400_0000
  }

  /** What the processor adds to the address of a `BL`: imm26, sign-extended, times four. */
  function Displacement(ins: Word): int {
    var imm := ins % 0x400_0000;
    4 * (if imm < 0x200_0000 then imm else imm - 0x400_0000)
  }

  predicate InRange(off: int) {
    -BL_RANGE <= off < BL_RANGE
  }

  /** From word `k` to the trampoline. */
  function Offset(pass: Pass, k: int): int
    requires pass.Relay?
  {
    pass.tramp - (pass.lo + 4 * k)
  }

  /** The relay leaves a system call alone when the trampoline is out of reach. */
  predicate MayPatch(pass: Pass, k: int) {
    pass.Relay? ==> InRange(Offset(pass, k))
  }

  function Patched(pass: Pass, k: int): Word {
    if pass.Relay? then BranchWord(Offset(pass, k)) else MOV_X0_0
  }

  // ----- the specification, on the original words -----

  /** The window opened at `j` reaches `k`: at most SCAN_WINDOW words on, with nothing between
      that ends the window. */
  predicate Reaches(code: seq<Word>, j: int, k: int) {
    && 0 <= j < k < |code| && k - j <= SCAN_WINDOW
    && forall t :: j < t < k ==> !Stops(code[t])
  }

  ghost predicate Opened(code: seq<Word>, pass: Pass, j: int, k: int) {
    0 <= j < |code| && Opens(pass, code[j]) && Reaches(code, j, k)
  }

  /** `k` is a system call that some matching `mov x8,#nr` reaches and the pass may patch. */
  ghost predicate Site(code: seq<Word>, pass: Pass, k: int) {
    && 0 <= k < |code| && code[k] == SVC_INSN && MayPatch(pass, k)
    && exists j :: Opened(code, pass, j, k)
  }

  /** How many sites lie below `n`. */
  ghost function SitesBelow(code: seq<Word>, pass: Pass, n: nat): nat {
    if n == 0 then 0 else SitesBelow(code, pass, n - 1) + (if Site(code, pass, n - 1) then 1 else 0)
  }

  /** Opening words and patched words end windows or are invisible to them, never open one
      wrongly; this is what keeps windows apart. */
  lemma OpenersAndPatches(pass: Pass, ins: Word, k: int)
    ensures Opens(pass, ins) ==> Stops(ins) && ins != SVC_INSN
    ensures !Opens(pass, Patched(pass, k)) && Patched(pass, k) != SVC_INSN
    ensures pass.Relay? ==> Patched(pass, k) / 0x400_0000 == 0x25
  {
  }

  /** A system call belongs to one window only, so no site is counted or patched twice. */
  lemma WindowsAreDisjoint(code: seq<Word>, pass: Pass, i: int, j: int, k: int)
    requires Opened(code, pass, i, k) && Opened(code, pass, j, k)
    ensures i == j
  {
    OpenersAndPatches(pass, code[i], 0);
    OpenersAndPatches(pass, code[j], 0);
  }

  lemma {:induction false} SitesBelowMonotone(code: seq<Word>, pass: Pass, m: nat, n: nat)
    requires m <= n
    ensures SitesBelow(code, pass, m) <= SitesBelow(code, pass, n)
    ensures (forall k :: m <= k < n ==> !Site(code, pass, k)) ==> SitesBelow(code, pass, m) == SitesBelow(code, pass, n)
    decreases n
  {
    if m < n { SitesBelowMonotone(code, pass, m, n - 1); }
  }

  /** The encoding is exact over the whole +/-128 MiB range: the branch lands on its target. */
  lemma BranchLands(pc: int, target: int)
    requires pc % 4 == 0 && target % 4 == 0
    ensures BranchWord(target - pc) / 0x400_0000 == 0x25
    ensures InRange(target - pc) <==> pc + Displacement(BranchWord(target - pc)) == target
  {
    var off := target - pc;
    assert off == 4 * (off / 4);
  }

  // ----- the passes -----

  ghost predicate NoSite(code: seq<Word>, j: int) {
    forall k :: Reaches(code, j, k) ==> code[k] != SVC_INSN
  }

  /** The inner loop: the distance from the opener at `j` to the system call it reaches, if any. */
  method Window(code: array<Word>, j: nat) returns (s: nat, hit: bool)
    requires j < code.Length
    ensures hit ==> j + s < code.Length && Reaches(code[..], j, j + s) && code[j + s] == SVC_INSN
    ensures !hit ==> NoSite(code[..], j)
  {
    s := 1;
    while s <= SCAN_WINDOW && j + s < code.Length
      invariant 1 <= s <= SCAN_WINDOW + 1
      invariant forall t :: j < t < j + s && t < code.Length ==> !Stops(code[t])
    {
      if code[j + s] == SVC_INSN {
        return s, true;
      }
      if IsBarrier(code[j + s]) {
        break;
      }
      s := s + 1;
    }
    hit := false;
  }

  /** What the outer loop has done before it looks at word `j`: exactly the sites below the
      frontier `f` are rewritten, every opener before `j` is dealt with, and if the frontier is
      ahead of `j` then a window opened before `j` covers everything up to it. */
  ghost predicate Progress(orig: seq<Word>, now: seq<Word>, pass: Pass, j: int, f: nat) {
    && |now| == |orig| && 0 <= j && f <= |orig|
    && (forall k :: 0 <= k < |orig| ==>
          now[k] == if k < f && Site(orig, pass, k) then Patched(pass, k) else orig[k])
    && (forall i, k :: i < j && Opened(orig, pass, i, k) && orig[k] == SVC_INSN ==> k < f)
    && (f > j ==> orig[f - 1] == SVC_INSN && exists i {:trigger Opened(orig, pass, i, f - 1)} ::
        i < j && Opened(orig, pass, i, f - 1))
  }

  /** At an opener the frontier is behind: all that the next window reads is still original. */
  lemma OpenerSeesOriginal(orig: seq<Word>, now: seq<Word>, pass: Pass, j: int, f: nat)
    requires Progress(orig, now, pass, j, f) && j < |orig| && Opens(pass, now[j])
    ensures f <= j && orig[j] == now[j]
    ensures forall k :: j <= k < |orig| ==> now[k] == orig[k]
    ensures forall k :: Reaches(now, j, k) <==> Reaches(orig, j, k)
  {
    OpenersAndPatches(pass, now[j], j);
    OpenersAndPatches(pass, orig[j], j);
  }

  /** A word that opens no window, or whose window reaches no system call, leaves the rest as is. */
  lemma NothingToDo(orig: seq<Word>, now: seq<Word>, pass: Pass, j: int, f: nat)
    requires Progress(orig, now, pass, j, f) && j < |orig|
    requires Opens(pass, now[j]) ==> NoSite(now, j)
    ensures Progress(orig, now, pass, j + 1, f)
  {
    OpenersAndPatches(pass, orig[j], j);
    if Opens(pass, now[j]) { OpenerSeesOriginal(orig, now, pass, j, f); }
  }

  /** Patching the site at `k`, reached from `j`, advances the frontier past it; no other site
      lies between. */
  lemma SiteAdvances(orig: seq<Word>, now: seq<Word>, pass: Pass, j: int, f: nat, k: int)
    requires Progress(orig, now, pass, j, f) && j < |orig|
    requires Opens(pass, now[j]) && Reaches(now, j, k) && now[k] == SVC_INSN
    ensures Progress(orig, if MayPatch(pass, k) then now[k := Patched(pass, k)] else now, pass, j + 1, k + 1)
    ensures SitesBelow(orig, pass, k + 1) == SitesBelow(orig, pass, f) + (if MayPatch(pass, k) then 1 else 0)
  {
    OpenerSeesOriginal(orig, now, pass, j, f);
    assert Opened(orig, pass, j, k);
    forall i | 0 <= i < |orig| && Opens(pass, orig[i]) ensures Stops(orig[i]) && orig[i] != SVC_INSN {
      OpenersAndPatches(pass, orig[i], i);
    }
    SitesBelowMonotone(orig, pass, f, k);
  }

  /** At the end of the code no site is left beyond the frontier. */
  lemma AllDone(orig: seq<Word>, now: seq<Word>, pass: Pass, f: nat)
    requires Progress(orig, now, pass, |orig|, f)
    ensures forall k :: 0 <= k < |orig| ==> now[k] == if Site(orig, pass, k) then Patched(pass, k) else orig[k]
    ensures SitesBelow(orig, pass, |orig|) == SitesBelow(orig, pass, f)
  {
    SitesBelowMonotone(orig, pass, f, |orig|);
  }

  /** The sites below the frontier are the first ones, counted in order. */
  lemma FirstOnes(orig: seq<Word>, f: nat, k: nat)
    requires f <= |orig| && k < |orig| && Site(orig, Neutralise, k)
    requires SitesBelow(orig, Neutralise, f) <= SCAN_MAX_HITS
    requires SitesBelow(orig, Neutralise, f) == SCAN_MAX_HITS
          || SitesBelow(orig, Neutralise, f) == SitesBelow(orig, Neutralise, |orig|)
    ensures k < f <==> SitesBelow(orig, Neutralise, k) < SCAN_MAX_HITS
  {
    if k < f {
      SitesBelowMonotone(orig, Neutralise, k + 1, f);
    } else {
      SitesBelowMonotone(orig, Neutralise, f, k);
      SitesBelowMonotone(orig, Neutralise, k + 1, |orig|);
    }
  }

  /** What one neutralising pass makes of the code: exactly its first SCAN_MAX_HITS sites hold
      `mov x0,#0`, and nothing else has changed. */
  ghost predicate Neutralised(orig: seq<Word>, now: seq<Word>) {
    && |now| == |orig|
    && forall k :: 0 <= k < |orig| ==>
         now[k] == if Site(orig, Neutralise, k) && SitesBelow(orig, Neutralise, k) < SCAN_MAX_HITS
                   then MOV_X0_0 else orig[k]
  }

  lemma ProgressNeutralises(orig: seq<Word>, now: seq<Word>, j: int, f: nat)
    requires Progress(orig, now, Neutralise, j, f)
    requires SitesBelow(orig, Neutralise, f) <= SCAN_MAX_HITS
    requires SitesBelow(orig, Neutralise, f) == SCAN_MAX_HITS
          || SitesBelow(orig, Neutralise, f) == SitesBelow(orig, Neutralise, |orig|)
    ensures Neutralised(orig, now)
    ensures SitesBelow(orig, Neutralise, f) <= SitesBelow(orig, Neutralise, |orig|)
  {
    SitesBelowMonotone(orig, Neutralise, f, |orig|);
    forall k | 0 <= k < |orig| && Site(orig, Neutralise, k) { FirstOnes(orig, f, k); }
  }

  lemma NothingScanned(orig: seq<Word>, pass: Pass)
    ensures Progress(orig, orig, pass, 0, 0) && SitesBelow(orig, pass, 0) == 0
  {
  }

  method ScanAndPatch(code: array<Word>) returns (total: nat)
    modifies code
    ensures Neutralised(old(code[..]), code[..])
    ensures var all := SitesBelow(old(code[..]), Neutralise, code.Length);
      total == if all < SCAN_MAX_HITS then all else SCAN_MAX_HITS
  {
    hide NoSite, Progress, Site, SitesBelow, Reaches, Neutralised;
    ghost var orig := code[..];
    ghost var f: nat := 0;
    total := 0;
    var j := 0;
    NothingScanned(orig, Neutralise);
    while j < code.Length
      invariant 0 <= j <= code.Length
      invariant Progress(orig, code[..], Neutralise, j, f)
      invariant total == SitesBelow(orig, Neutralise, f) < SCAN_MAX_HITS
    {
      var s, hit := 0, false;
      if Opens(Neutralise, code[j]) {
        s, hit := Window(code, j);
      }
      if hit {
        SiteAdvances(orig, code[..], Neutralise, j, f, j + s);
        f := j + s + 1;
        code[j + s] := MOV_X0_0;
        total := total + 1;
        if total >= SCAN_MAX_HITS {
          ProgressNeutralises(orig, code[..], j + 1, f);
          return;
        }
      } else {
        NothingToDo(orig, code[..], Neutralise, j, f);
      }
      j := j + 1;
    }
    AllDone(orig, code[..], Neutralise, f);
    ProgressNeutralises(orig, code[..], j, f);
  }

  /** What one relay pass makes of the code: every reachable site is a branch that lands on the
      trampoline, and nothing else has changed. */
  ghost predicate Relayed(orig: seq<Word>, now: seq<Word>, lo: int, tramp: int) {
    && |now| == |orig|
    && forall k :: 0 <= k < |orig| ==>
         if Site(orig, Relay(lo, tramp), k)
         then now[k] / 0x400_0000 == 0x25 && lo + 4 * k + Displacement(now[k]) == tramp
         else now[k] == orig[k]
  }

  lemma ProgressRelays(orig: seq<Word>, now: seq<Word>, lo: int, tramp: int, f: nat)
    requires lo % 4 == 0 && tramp % 4 == 0
    requires Progress(orig, now, Relay(lo, tramp), |orig|, f)
    ensures Relayed(orig, now, lo, tramp)
  {
    AllDone(orig, now, Relay(lo, tramp), f);
    forall k | 0 <= k < |orig| { BranchLands(lo + 4 * k, tramp); }
  }

  method PathrelayPatch(code: array<Word>, lo: int, tramp: int) returns (total: nat)
    requires lo % 4 == 0 && tramp % 4 == 0
    modifies code
    ensures Relayed(old(code[..]), code[..], lo, tramp)
    ensures total == SitesBelow(old(code[..]), Relay(lo, tramp), code.Length)
  {
    hide NoSite, Progress, Site, SitesBelow, Reaches, BranchWord, Relayed;
    ghost var orig := code[..];
    ghost var f: nat := 0;
    ghost var pass := Relay(lo, tramp);
    total := 0;
    var j := 0;
    NothingScanned(orig, pass);
    while j < code.Length
      invariant 0 <= j <= code.Length
      invariant Progress(orig, code[..], pass, j, f)
      invariant total == SitesBelow(orig, pass, f)
    {
      var s, hit := 0, false;
      if Opens(Relay(lo, tramp), code[j]) {
        s, hit := Window(code, j);
      }
      if hit {
        SiteAdvances(orig, code[..], pass, j, f, j + s);
        f := j + s + 1;
        var off := tramp - (lo + 4 * (j + s));
        if InRange(off) {
          code[j + s] := BranchWord(off);
          total := total + 1;
        }
      } else {
        NothingToDo(orig, code[..], pass, j, f);
      }
      j := j + 1;
    }
    AllDone(orig, code[..], pass, f);
    ProgressRelays(orig, code[..], lo, tramp, f);
  }
}

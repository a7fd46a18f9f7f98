/** The user-space ELF loader: validation of the program headers, the reservation, and the fixed
    mappings over it (System V gABI, chapter 5, "Program Loading"). */
module Loader {
  import opened Powers
  import opened Memory

  const MAX_PHDR: nat := 64
  const PHDR_SIZE: nat := 56
  const MAX_ALIGN: nat := 0x4000_0000

  datatype PType = Load | Interp | Other

  datatype Phdr = Phdr(ptype: PType, offset: U64, vaddr: U64, filesz: U64, memsz: U64, align: U64, prot: Prot)

  /** What the header says, once it is known to be a 64-bit AArch64 ELF header of either type. */
  datatype Elf = Elf(dyn: bool, entry: U64, phoff: U64, phdrs: seq<Phdr>)

  datatype Image = Image(base: U64, entry: U64, phdr: U64, phnum: nat)

  // ----- which files are accepted -----

  /** A loadable segment that lies inside the file and the address space, asks for a power-of-two
      alignment of at most 2^30, and places its bytes congruently to it. */
  predicate SegmentOk(p: Phdr, fsize: nat) {
    && p.filesz <= p.memsz
    && p.vaddr + p.memsz < WORD
    && p.offset + p.filesz <= fsize
    && (p.align == 0 || PowerOfTwo(p.align)) && p.align <= MAX_ALIGN
    && (p.align > 1 ==> p.vaddr % p.align == p.offset % p.align)
  }

  /** The lowest page of the first `n` headers' segments. */
  function Lowest(ph: seq<Phdr>, ps: nat, n: nat): (lo: U64)
    requires ps > 0 && n <= |ph|
  {
    if n == 0 then WORD - 1 else
    var lo := Lowest(ph, ps, n - 1);
    var a := Down(ph[n - 1].vaddr, ps);
    if ph[n - 1].ptype.Load? && a < lo then a else lo
  }

  function Highest(ph: seq<Phdr>, n: nat): (hi: nat)
    requires n <= |ph|
  {
    if n == 0 then 0 else
    var hi := Highest(ph, n - 1);
    var e := ph[n - 1].vaddr + ph[n - 1].memsz;
    if ph[n - 1].ptype.Load? && e > hi then e else hi
  }

  function Widest(ph: seq<Phdr>, n: nat): (al: nat)
    requires n <= |ph|
    ensures al >= 4096
  {
    if n == 0 then 4096 else
    var al := Widest(ph, n - 1);
    if ph[n - 1].ptype.Load? && ph[n - 1].align > al then ph[n - 1].align else al
  }

  predicate HeadersOk(ph: seq<Phdr>, fsize: nat, n: nat)
    requires n <= |ph|
  {
    forall k :: 0 <= k < n ==> !ph[k].ptype.Interp? && (ph[k].ptype.Load? ==> SegmentOk(ph[k], fsize))
  }

  predicate Acceptable(elf: Elf, fsize: nat, ps: nat)
    requires ps > 0
  {
    var n := |elf.phdrs|;
    && 0 < n <= MAX_PHDR && elf.phoff + PHDR_SIZE * n <= fsize
    && HeadersOk(elf.phdrs, fsize, n)
    && var lo, hi := Lowest(elf.phdrs, ps, n), Highest(elf.phdrs, n);
      lo < hi && hi + ps < WORD && hi - lo + Widest(elf.phdrs, n) < WORD
  }

  /** The header checks, with the wrap-around tests as they are written. */
  method Survey(elf: Elf, fsize: nat, ps: nat) returns (ok: bool, lo: U64, hi: U64, align: U64)
    requires 0 < ps <= MAX_ALIGN && fsize < 0x8000_0000_0000_0000
    ensures ok <==> Acceptable(elf, fsize, ps)
    ensures ok ==>
      lo == Lowest(elf.phdrs, ps, |elf.phdrs|) && hi == Highest(elf.phdrs, |elf.phdrs|) &&
      align == Widest(elf.phdrs, |elf.phdrs|)
  {
    hide PowerOfTwo, Down, Wrap, SegmentOk;
    var ph := elf.phdrs;
    lo, hi, align, ok := WORD - 1, 0, 4096, false;
    if |ph| == 0 || |ph| > MAX_PHDR || elf.phoff + PHDR_SIZE * |ph| > fsize { return; }
    var i := 0;
    while i < |ph|
      invariant 0 <= i <= |ph| && HeadersOk(ph, fsize, i)
      invariant lo == Lowest(ph, ps, i) && hi == Highest(ph, i) && align == Widest(ph, i)
    {
      var p := ph[i];
      if p.ptype.Interp? { return; }
      if p.ptype.Load? {
        SegmentTest(p, fsize);
        if p.filesz > p.memsz || Wrap(p.vaddr + p.memsz) < p.vaddr || Wrap(p.offset + p.filesz) < p.offset
          || Wrap(p.offset + p.filesz) > fsize || (p.align != 0 && !PowerOfTwo(p.align)) || p.align > MAX_ALIGN
          || (p.align > 1 && p.vaddr % p.align != p.offset % p.align) {
          return;
        }
        if p.align > align { align := p.align; }
        if Down(p.vaddr, ps) < lo { lo := Down(p.vaddr, ps); }
        if Wrap(p.vaddr + p.memsz) > hi { hi := Wrap(p.vaddr + p.memsz); }
      }
      i := i + 1;
    }
    WidestIsPower(ph, fsize, |ph|);
    ok := !(hi <= lo || Wrap(hi + ps) < hi || Wrap(hi - lo + align) < hi - lo);
    ExtentTest(lo, hi, ps, align);
  }

  /** The wrap-around tests of one segment reject exactly what is not inside file and address space. */
  lemma SegmentTest(p: Phdr, fsize: nat)
    requires fsize < 0x8000_0000_0000_0000
    ensures SegmentOk(p, fsize) <==>
      !(p.filesz > p.memsz || Wrap(p.vaddr + p.memsz) < p.vaddr || Wrap(p.offset + p.filesz) < p.offset
        || Wrap(p.offset + p.filesz) > fsize || (p.align != 0 && !PowerOfTwo(p.align)) || p.align > MAX_ALIGN
        || (p.align > 1 && p.vaddr % p.align != p.offset % p.align))
    ensures SegmentOk(p, fsize) ==> Wrap(p.vaddr + p.memsz) == p.vaddr + p.memsz
  {
    hide PowerOfTwo;
  }

  /** And those of the whole extent. */
  lemma ExtentTest(lo: U64, hi: U64, ps: nat, align: U64)
    requires 0 < ps <= MAX_ALIGN && align <= MAX_ALIGN
    ensures !(hi <= lo || Wrap(hi + ps) < hi || Wrap(hi - lo + align) < hi - lo) <==>
      lo < hi && hi + ps < WORD && hi - lo + align < WORD
  {
  }

  lemma {:induction false} WidestIsPower(ph: seq<Phdr>, fsize: nat, n: nat)
    requires n <= |ph| && HeadersOk(ph, fsize, n)
    ensures PowerOfTwo(Widest(ph, n)) && Widest(ph, n) <= MAX_ALIGN
  {
    if n == 0 {
      assert PowerOfTwo(64) && PowerOfTwo(4096);
    } else {
      WidestIsPower(ph, fsize, n - 1);
    }
  }

  lemma {:induction false} LowestIsPage(ph: seq<Phdr>, ps: nat, n: nat)
    requires ps > 0 && n <= |ph|
    ensures Lowest(ph, ps, n) == WORD - 1 || Aligned(Lowest(ph, ps, n), ps)
  {
    if n > 0 {
      LowestIsPage(ph, ps, n - 1);
      DownAligned(ph[n - 1].vaddr, ps);
    }
  }

  lemma {:induction false} SegmentsInside(ph: seq<Phdr>, ps: nat, n: nat, k: nat)
    requires ps > 0 && k < n <= |ph| && ph[k].ptype.Load?
    ensures Lowest(ph, ps, n) <= Down(ph[k].vaddr, ps)
    ensures ph[k].vaddr + ph[k].memsz <= Highest(ph, n)
    decreases n
  {
    hide Down;
    if k < n - 1 { SegmentsInside(ph, ps, n - 1, k); }
  }

  /** These bounds are met: by the first page of one segment, the end of one, and the alignment of one,
      unless all are below 4096. */
  lemma {:induction false} BoundsAreMet(ph: seq<Phdr>, ps: nat, n: nat)
    requires ps > 0 && n <= |ph|
    ensures var lo := Lowest(ph, ps, n);
      lo == WORD - 1 || exists k :: 0 <= k < n && ph[k].ptype.Load? && Down(ph[k].vaddr, ps) == lo
    ensures var hi := Highest(ph, n);
      hi == 0 || exists k :: 0 <= k < n && ph[k].ptype.Load? && ph[k].vaddr + ph[k].memsz == hi
    ensures var al := Widest(ph, n);
      && (al == 4096 || exists k :: 0 <= k < n && ph[k].ptype.Load? && ph[k].align == al)
      && forall k :: 0 <= k < n && ph[k].ptype.Load? ==> ph[k].align <= al
    decreases n
  {
    hide Down;
    if n > 0 { BoundsAreMet(ph, ps, n - 1); }
  }

  // ----- where addresses land -----

  /** The image's addresses `lo..hi` are moved to start at `origin`; `base` is the modular
      difference the code adds to each of them. */
  ghost predicate Placed(base: U64, lo: nat, hi: nat, origin: nat, ps: nat)
    requires ps > 0
  {
    && lo < hi && hi + ps < WORD && base == Wrap(origin - lo)
    && Aligned(lo, ps) && Aligned(origin, ps)
    && origin < WORD && origin + (hi - lo) < WORD && origin + Up(hi - lo, ps) <= WORD
  }

  /** Where the image's address `y` ends up. */
  function At(origin: nat, lo: nat, y: nat): int { origin + (y - lo) }

  lemma Landing(base: U64, lo: nat, hi: nat, origin: nat, ps: nat, y: nat)
    requires ps > 0 && Placed(base, lo, hi, origin, ps) && lo <= y <= hi
    ensures Wrap(base + y) == At(origin, lo, y)
  {
  }

  function FirstPage(p: Phdr, ps: nat): (a: nat)
    requires ps > 0
  {
    Down(p.vaddr, ps)
  }

  function PastPages(p: Phdr, ps: nat): (e: nat)
    requires ps > 0
  {
    Up(p.vaddr + p.memsz, ps)
  }

  /** A page-rounded piece of the image from an aligned start stays inside the rounded image. */
  lemma PieceInside(lo: nat, hi: nat, origin: nat, ps: nat, a: nat, e: nat, top: nat)
    requires ps > 0 && Aligned(lo, ps) && Aligned(a, ps) && lo <= a <= e <= top <= hi
    ensures At(origin, lo, a) + Up(e - a, ps) == At(origin, lo, Up(e, ps))
    ensures Up(e, ps) <= Up(top, ps) && At(origin, lo, Up(top, ps)) <= origin + Up(hi - lo, ps)
  {
    hide Up, Aligned;
    UpShift(e - a, a, ps);
    UpAligned(top, ps);
    UpLeast(e, Up(top, ps), ps);
    UpShift(hi - lo, lo, ps);
    UpAligned(hi, ps);
    UpLeast(top, Up(hi, ps), ps);
  }

  /** The reservation covers the whole moved image, for both file types and for alignments below
      and above the page size. */
  lemma ReservationCovers(res: nat, lo: nat, hi: nat, align: nat, ps: nat)
    requires PowerOfTwo(ps) && PowerOfTwo(align) && Aligned(res, ps) && lo < hi
    ensures Aligned(Up(res, align), ps) && res <= Up(res, align)
    ensures Up(res, align) + Up(hi - lo, ps) <= res + Up(hi - lo + align, ps)
    ensures Up(res, align) + (hi - lo) < res + (hi - lo + align)
  {
    assert ps > 0 && align > 0;
    hide PowerOfTwo, Up, Aligned;
    UpAligned(hi - lo + align, ps);
    if align >= ps {
      PowersDivide(ps, align);
      UpAligned(res, align);
      AlignedThrough(Up(res, align), align, ps);
      AlignedSum(res, align, ps);
      AlignedGap(Up(res, align), res + align, ps);
      UpShift(hi - lo, align, ps);
    } else {
      PowersDivide(align, ps);
      AlignedThrough(res, ps, align);
      UpLeast(res, res, align);
      UpLeast(hi - lo, Up(hi - lo + align, ps), ps);
    }
  }

  // ----- one segment -----

  /** A segment of which something is mapped.  The other kind has no file bytes and ends inside the
      page it starts in, away from that page's start. */
  predicate Mapped(p: Phdr, ps: nat)
    requires ps > 0
  {
    p.filesz > 0 || p.vaddr + p.memsz > Up(p.vaddr, ps)
  }

  /** Byte `i` of the segment is in place: the file's byte or zero, under the segment's protection. */
  predicate ByteLoaded(log: Log, file: seq<int>, ps: nat, p: Phdr, base: U64, i: nat)
    requires ps > 0
  {
    var x := Wrap(base + p.vaddr + i);
    && Value(log, file, ps, x) == Byte(if i < p.filesz then FileByte(file, p.offset + i) else 0)
    && Access(log, ps, x) == p.prot
  }

  predicate SegmentLoaded(log: Log, file: seq<int>, ps: nat, p: Phdr, base: U64)
    requires ps > 0
  {
    forall i :: 0 <= i < p.memsz ==> ByteLoaded(log, file, ps, p, base, i)
  }

  predicate Shows(log: Log, file: seq<int>, ps: nat, x: int, b: int, prot: Prot)
    requires ps > 0
  {
    x >= 0 && Value(log, file, ps, x) == Byte(b) && Access(log, ps, x) == prot
  }

  /** File bytes at an offset congruent to their address modulo the page size. */
  predicate PageCongruent(p: Phdr, ps: nat)
    requires ps > 0
  {
    p.filesz > 0 ==> Aligned(p.offset - p.vaddr, ps)
  }

  lemma CongruentOffset(p: Phdr, ps: nat)
    requires PowerOfTwo(ps) && ps <= MAX_ALIGN && p.filesz > 0 && PageCongruent(p, ps)
    ensures Aligned(Wrap(p.offset - (p.vaddr - Down(p.vaddr, ps))), ps)
  {
    var a := Down(p.vaddr, ps);
    var d := p.vaddr - a;
    DownAligned(p.vaddr, ps);
    hide PowerOfTwo, Down, Aligned;
    AlignedSum(p.offset - p.vaddr, a, ps);
    assert Aligned(p.offset - d, ps) by { assert p.offset - p.vaddr + a == p.offset - d; }
    if p.offset < d {
      assert Aligned(0, ps) by { AlignedSum(a, a, ps); }
      AlignedGap(p.offset - d, 0, ps);
    }
  }

  /** An offset that the file mapping accepts is congruent to the segment's address. */
  lemma Congruent(off: U64, d: nat, ps: nat)
    requires PowerOfTwo(ps) && ps <= MAX_ALIGN && d < ps && Aligned(Wrap(off - d), ps)
    ensures d <= off
  {
    WordIsPower();
    PowersDivide(ps, WORD);
    if off < d {
      AlignedGap(Wrap(off - d), WORD, ps);
    }
  }

  lemma WordIsPower()
    ensures PowerOfTwo(WORD)
  {
    assert PowerOfTwo(1);
    hide PowerOfTwo;
    Times256(1);
    Times256(0x100);
    Times256(0x1_0000);
    Times256(0x100_0000);
    Times256(0x1_0000_0000);
    Times256(0x100_0000_0000);
    Times256(0x1_0000_0000_0000);
    Times256(0x100_0000_0000_0000);
  }

  // ----- the three steps of one segment -----

  /** The image's bytes `from..to` show what the segment holds there: its file bytes, or zero. */
  predicate Filled(log: Log, file: seq<int>, ps: nat, p: Phdr, origin: nat, lo: nat, from: nat, to: nat, fileTo: nat)
    requires ps > 0
  {
    forall y :: from <= y < to ==>
      Shows(log, file, ps, At(origin, lo, y), if y < fileTo then FileByte(file, p.offset + y - p.vaddr) else 0, p.prot)
  }

  ghost predicate Sited(p: Phdr, fsize: nat, base: U64, lo: nat, hi: nat, origin: nat, ps: nat) {
    && PowerOfTwo(ps) && ps <= MAX_ALIGN && SegmentOk(p, fsize)
    && ps > 0 && Placed(base, lo, hi, origin, ps)
    && lo <= FirstPage(p, ps) && p.vaddr + p.memsz <= hi
  }

  /** Where the segment's pages lie. */
  predicate InSpan(ops: Log, ps: nat, p: Phdr, origin: nat, lo: nat)
    requires ps > 0
  {
    AllWithin(ops, ps, origin + (FirstPage(p, ps) - lo), origin + (PastPages(p, ps) - lo))
  }

  lemma NothingInSpan(ps: nat, p: Phdr, origin: nat, lo: nat)
    requires ps > 0
    ensures InSpan([], ps, p, origin, lo)
  {
  }

  lemma JoinSpan(one: Log, two: Log, ps: nat, p: Phdr, origin: nat, lo: nat)
    requires ps > 0 && InSpan(one, ps, p, origin, lo) && InSpan(two, ps, p, origin, lo)
    ensures InSpan(one + two, ps, p, origin, lo)
  {
  }

  /** The page that holds the end of the file bytes. */
  lemma TailPage(va: nat, fe: nat, me: nat, ps: nat)
    requires ps > 0 && va <= fe <= me && fe < Up(fe, ps)
    ensures Down(va, ps) <= Down(fe, ps) <= fe && Aligned(Down(fe, ps), ps)
    ensures Up(fe, ps) == Down(fe, ps) + ps <= Up(me, ps)
  {
    var page := Down(fe, ps);
    DownAligned(fe, ps);
    DownAligned(va, ps);
    UpAligned(fe, ps);
    UpAligned(me, ps);
    assert Aligned(ps, ps);
    hide Down, Up, Aligned;
    AlignedSum(page, ps, ps);
    DownGreatest(fe, Down(va, ps), ps);
    AlignedGap(page, Up(fe, ps), ps);
    UpLeast(fe, page + ps, ps);
    UpLeast(fe, Up(me, ps), ps);
  }

  lemma TailAddresses(base: U64, lo: nat, hi: nat, origin: nat, ps: nat, page: nat, fe: nat)
    requires ps > 0 && Placed(base, lo, hi, origin, ps) && lo <= page <= fe <= hi && Aligned(page, ps)
    ensures Wrap(base + page) == At(origin, lo, page) && Wrap(base + fe) == At(origin, lo, fe)
    ensures Aligned(At(origin, lo, page), ps)
  {
    hide Up, Aligned, Wrap;
    Landing(base, lo, hi, origin, ps, page);
    Landing(base, lo, hi, origin, ps, fe);
    AlignedSum(origin, lo, ps);
    AlignedSum(origin - lo, page, ps);
  }

  lemma PageReach(ps: nat)
    requires ps > 0
    ensures Up(ps, ps) == ps
  {
    assert Aligned(ps, ps);
    UpLeast(ps, ps, ps);
  }

  /** None of a sited segment's sums wraps around, the mask gives its rounded file end, and it lies
      inside the image. */
  lemma EndsOf(p: Phdr, fsize: nat, base: U64, lo: nat, hi: nat, origin: nat, ps: nat)
    requires Sited(p, fsize, base, lo, hi, origin, ps)
    ensures Wrap(p.vaddr + p.filesz) == p.vaddr + p.filesz && Wrap(p.vaddr + p.memsz) == p.vaddr + p.memsz
    ensures p.filesz <= p.memsz && p.vaddr + p.memsz + ps < WORD
    ensures Down(Wrap(p.vaddr + p.filesz + ps - 1), ps) == Up(p.vaddr + p.filesz, ps)
    ensures FirstPage(p, ps) == Down(p.vaddr, ps) <= p.vaddr < FirstPage(p, ps) + ps
    ensures Up(p.vaddr + p.filesz, ps) < WORD
    ensures Placed(base, lo, hi, origin, ps) && Aligned(lo, ps) && Aligned(FirstPage(p, ps), ps)
    ensures Aligned(Up(p.vaddr + p.filesz, ps), ps)
    ensures lo <= FirstPage(p, ps) && p.vaddr + p.memsz <= hi && origin + Up(hi - lo, ps) <= WORD
  {
    assert p.vaddr + p.memsz + ps < WORD && p.filesz <= p.memsz;
    DownAligned(p.vaddr, ps);
    UpAligned(p.vaddr + p.filesz, ps);
    hide PowerOfTwo, SegmentOk, Aligned, Wrap;
    UpIsMask(p.vaddr + p.filesz, ps);
  }

  lemma TailSite(p: Phdr, fsize: nat, base: U64, lo: nat, hi: nat, origin: nat, ps: nat)
    requires Sited(p, fsize, base, lo, hi, origin, ps) && p.vaddr + p.filesz < Up(p.vaddr + p.filesz, ps)
    ensures var fe := p.vaddr + p.filesz; var page := Down(fe, ps);
      && Wrap(fe) == fe && Down(Wrap(fe + ps - 1), ps) == Up(fe, ps) == page + ps <= PastPages(p, ps)
      && lo <= FirstPage(p, ps) <= page <= fe && Up(ps, ps) == ps
      && Wrap(base + page) == At(origin, lo, page) && Wrap(base + fe) == At(origin, lo, fe)
      && Aligned(Wrap(base + page), ps)
  {
    hide PowerOfTwo, Aligned, Up, Down, Wrap, SegmentOk, Placed, FirstPage, Sited;
    EndsOf(p, fsize, base, lo, hi, origin, ps);
    PageReach(ps);
    var fe := p.vaddr + p.filesz;
    TailPage(p.vaddr, fe, p.vaddr + p.memsz, ps);
    TailAddresses(base, lo, hi, origin, ps, Down(fe, ps), fe);
  }

  /** Where the file mapping goes. */
  lemma FileSite(p: Phdr, fsize: nat, base: U64, lo: nat, hi: nat, origin: nat, ps: nat)
    requires Sited(p, fsize, base, lo, hi, origin, ps) && p.filesz > 0
    ensures var a := Down(p.vaddr, ps); var d := p.vaddr - a; var fe := p.vaddr + p.filesz;
      && lo <= a == FirstPage(p, ps) <= p.vaddr && d < ps
      && Wrap(base + a) == At(origin, lo, a) && Aligned(Wrap(base + a), ps)
      && Wrap(p.filesz + d) == fe - a
      && At(origin, lo, a) + Up(fe - a, ps) == At(origin, lo, Up(fe, ps)) <= At(origin, lo, PastPages(p, ps)) <= WORD
      && (PageCongruent(p, ps) ==> Aligned(Wrap(p.offset - d), ps))
  {
    hide PowerOfTwo, Up, Down, Aligned, PageCongruent, SegmentOk, Placed, Wrap, FirstPage;
    EndsOf(p, fsize, base, lo, hi, origin, ps);
    if PageCongruent(p, ps) { CongruentOffset(p, ps); }
    hide Sited;
    var a := Down(p.vaddr, ps);
    TailAddresses(base, lo, hi, origin, ps, a, a);
    PieceInside(lo, hi, origin, ps, a, p.vaddr + p.filesz, p.vaddr + p.memsz);
    assert p.filesz + (p.vaddr - a) == p.vaddr + p.filesz - a;
  }

  lemma OffsetWasCongruent(p: Phdr, ps: nat)
    requires PowerOfTwo(ps) && ps <= MAX_ALIGN && Aligned(Wrap(p.offset - (p.vaddr - Down(p.vaddr, ps))), ps)
    ensures p.offset >= p.vaddr - Down(p.vaddr, ps)
    ensures Wrap(p.offset - (p.vaddr - Down(p.vaddr, ps))) == p.offset - (p.vaddr - Down(p.vaddr, ps))
  {
    Congruent(p.offset, p.vaddr - Down(p.vaddr, ps), ps);
  }

  /** The file mapping: whole pages from the page of the segment's start. */
  method MapFilePages(mm: AddressSpace, p: Phdr, base: U64, ghost lo: nat, ghost hi: nat, ghost origin: nat)
    returns (ok: bool, ghost more: Log)
    requires mm.Valid() && Sited(p, |mm.file|, base, lo, hi, origin, mm.ps) && p.filesz > 0
    modifies mm
    ensures mm.log == old(mm.log) + more && InSpan(more, mm.ps, p, origin, lo)
    ensures ok ==> p.offset >= p.vaddr - FirstPage(p, mm.ps) && mm.budget == old(mm.budget) - 1
    ensures old(mm.budget) > 0 && PageCongruent(p, mm.ps) ==> ok
    ensures ok ==> var fpe := Up(p.vaddr + p.filesz, mm.ps);
      Filled(mm.log, mm.file, mm.ps, p, origin, lo, FirstPage(p, mm.ps), fpe, fpe)
  {
    hide PowerOfTwo, Up, Down, Aligned, PageCongruent, Sited, Placed, SegmentOk, Wrap;
    FileSite(p, |mm.file|, base, lo, hi, origin, mm.ps);
    more := [];
    var a := Down(p.vaddr, mm.ps);
    var d := p.vaddr - a;
    ghost var fe := p.vaddr + p.filesz;
    var start, len, off := Wrap(base + a), Wrap(p.filesz + d), Wrap(p.offset - d);
    ok := mm.MapFixedFile(start, len, p.prot, off);
    if !ok { return; }
    OffsetWasCongruent(p, mm.ps);
    ghost var op := MapFile(start, len, p.prot, off);
    more := [op];
    forall y | a <= y < Up(fe, mm.ps)
      ensures Shows(mm.log, mm.file, mm.ps, At(origin, lo, y), FileByte(mm.file, p.offset + y - p.vaddr), p.prot)
    {
      Latest(old(mm.log), op, mm.file, mm.ps, At(origin, lo, y));
    }
  }

  /** Clearing the tail, under whatever protection the page has meanwhile. */
  lemma TailCleared(log: Log, clear: Op, file: seq<int>, ps: nat, p: Phdr, origin: nat, lo: nat, from: nat, fe: nat,
      fpe: nat)
    requires ps > 0 && lo <= from <= fe < fpe && Filled(log, file, ps, p, origin, lo, from, fpe, fpe)
    requires clear == Clear(At(origin, lo, fe), fpe - fe)
    ensures Filled(log + [clear], file, ps, p, origin, lo, from, fpe, fe)
  {
    forall y | from <= y < fpe
      ensures Shows(log + [clear], file, ps, At(origin, lo, y),
        if y < fe then FileByte(file, p.offset + y - p.vaddr) else 0, p.prot)
    {
      assert Shows(log, file, ps, At(origin, lo, y), FileByte(file, p.offset + y - p.vaddr), p.prot);
      Latest(log, clear, file, ps, At(origin, lo, y));
    }
  }

  lemma TailClearedOpen(log: Log, page: nat, clear: Op, open: Prot, file: seq<int>, ps: nat, p: Phdr, origin: nat,
      lo: nat, from: nat, fe: nat, fpe: nat)
    requires ps > 0 && lo <= from <= fe < fpe && Filled(log, file, ps, p, origin, lo, from, fpe, fpe)
    requires clear == Clear(At(origin, lo, fe), fpe - fe)
    ensures Filled(log + [Protect(page, ps, open)] + [clear] + [Protect(page, ps, p.prot)], file, ps, p, origin, lo,
      from, fpe, fe)
  {
    hide Up;
    var log1 := log + [Protect(page, ps, open)];
    var log2 := log1 + [clear];
    forall y | from <= y < fpe
      ensures Shows(log2 + [Protect(page, ps, p.prot)], file, ps, At(origin, lo, y),
        if y < fe then FileByte(file, p.offset + y - p.vaddr) else 0, p.prot)
    {
      assert Shows(log, file, ps, At(origin, lo, y), FileByte(file, p.offset + y - p.vaddr), p.prot);
      Latest(log, Protect(page, ps, open), file, ps, At(origin, lo, y));
      Latest(log1, clear, file, ps, At(origin, lo, y));
      Latest(log2, Protect(page, ps, p.prot), file, ps, At(origin, lo, y));
    }
  }

  lemma FilledIsOpen(log: Log, file: seq<int>, ps: nat, p: Phdr, origin: nat, lo: nat, from: nat, fe: nat, fpe: nat)
    requires ps > 0 && lo <= from <= fe < fpe && Filled(log, file, ps, p, origin, lo, from, fpe, fpe)
    ensures forall x :: At(origin, lo, fe) <= x < At(origin, lo, fpe) ==> Access(log, ps, x) == p.prot
  {
    forall x: nat | At(origin, lo, fe) <= x < At(origin, lo, fpe) ensures Access(log, ps, x) == p.prot {
      var y := x - origin + lo;
      assert Shows(log, file, ps, At(origin, lo, y), FileByte(file, p.offset + y - p.vaddr), p.prot);
    }
  }

  /** The bytes after the file's, up to the page's end, are cleared in place; a segment that is not
      writable is made so for the moment.  The write never faults. */
  method ClearTail(mm: AddressSpace, p: Phdr, base: U64, ghost lo: nat, ghost hi: nat, ghost origin: nat)
    returns (ghost more: Log)
    requires mm.Valid() && Sited(p, |mm.file|, base, lo, hi, origin, mm.ps) && p.filesz > 0
    requires p.vaddr + p.filesz < Up(p.vaddr + p.filesz, mm.ps)
    requires Filled(mm.log, mm.file, mm.ps, p, origin, lo, FirstPage(p, mm.ps), Up(p.vaddr + p.filesz, mm.ps),
      Up(p.vaddr + p.filesz, mm.ps))
    modifies mm
    ensures mm.log == old(mm.log) + more && InSpan(more, mm.ps, p, origin, lo) && mm.budget == old(mm.budget)
    ensures Filled(mm.log, mm.file, mm.ps, p, origin, lo, FirstPage(p, mm.ps), Up(p.vaddr + p.filesz, mm.ps),
      p.vaddr + p.filesz)
  {
    hide PowerOfTwo, Aligned, Filled, Down, Up, Wrap, Sited, Placed, SegmentOk;
    TailSite(p, |mm.file|, base, lo, hi, origin, mm.ps);
    var ps := mm.ps;
    var fe := Wrap(p.vaddr + p.filesz);
    var fpe := Down(Wrap(fe + ps - 1), ps);
    ghost var first := FirstPage(p, ps);
    var start, len, at := Wrap(base + fe), fpe - fe, Wrap(base + Down(fe, ps));
    ghost var log0 := mm.log;
    if p.prot.write {
      FilledIsOpen(log0, mm.file, ps, p, origin, lo, first, fe, fpe);
      mm.Memset(start, len);
      more := [Clear(start, len)];
      TailCleared(log0, Clear(start, len), mm.file, ps, p, origin, lo, first, fe, fpe);
    } else {
      var open := p.prot.(write := true);
      mm.Mprotect(at, open);
      mm.Memset(start, len);
      mm.Mprotect(at, p.prot);
      more := [Protect(at, ps, open), Clear(start, len), Protect(at, ps, p.prot)];
      TailClearedOpen(log0, at, Clear(start, len), open, mm.file, ps, p, origin, lo, first, fe, fpe);
    }
  }

  /** Where the anonymous part goes. */
  lemma BssSite(p: Phdr, fsize: nat, base: U64, lo: nat, hi: nat, origin: nat, ps: nat, from: nat)
    requires Sited(p, fsize, base, lo, hi, origin, ps)
    requires from == (if p.filesz > 0 then Up(p.vaddr + p.filesz, ps) else FirstPage(p, ps)) < p.vaddr + p.memsz
    ensures var me := p.vaddr + p.memsz;
      && lo <= FirstPage(p, ps) <= from && FirstPage(p, ps) <= p.vaddr && me < WORD && Wrap(me - from) == me - from
      && Wrap(base + from) == At(origin, lo, from) && Aligned(Wrap(base + from), ps)
      && At(origin, lo, from) + Up(me - from, ps) == At(origin, lo, PastPages(p, ps)) <= WORD
      && (p.filesz > 0 ==> p.vaddr + p.filesz <= from)
  {
    hide PowerOfTwo, Up, Down, Aligned, SegmentOk, Placed, Wrap, FirstPage, Sited;
    EndsOf(p, fsize, base, lo, hi, origin, ps);
    TailAddresses(base, lo, hi, origin, ps, from, from);
    PieceInside(lo, hi, origin, ps, from, p.vaddr + p.memsz, p.vaddr + p.memsz);
  }

  /** The rest of the segment is anonymous memory. */
  method MapBss(mm: AddressSpace, p: Phdr, base: U64, from: U64, me: U64, ghost lo: nat, ghost hi: nat,
      ghost origin: nat)
    returns (ok: bool, ghost more: Log)
    requires mm.Valid() && Sited(p, |mm.file|, base, lo, hi, origin, mm.ps)
    requires from == (if p.filesz > 0 then Up(p.vaddr + p.filesz, mm.ps) else FirstPage(p, mm.ps)) < me ==
      p.vaddr + p.memsz
    requires p.filesz > 0 ==> Filled(mm.log, mm.file, mm.ps, p, origin, lo, FirstPage(p, mm.ps), from,
      p.vaddr + p.filesz)
    modifies mm
    ensures mm.log == old(mm.log) + more && InSpan(more, mm.ps, p, origin, lo)
    ensures ok ==> mm.budget == old(mm.budget) - 1
    ensures old(mm.budget) > 0 ==> ok
    ensures ok ==> Filled(mm.log, mm.file, mm.ps, p, origin, lo, p.vaddr, me, p.vaddr + p.filesz)
  {
    hide PowerOfTwo, Up, Down, Aligned, Sited, Placed, SegmentOk, Wrap;
    BssSite(p, |mm.file|, base, lo, hi, origin, mm.ps, from);
    more := [];
    var ps := mm.ps;
    var start, len := Wrap(base + from), Wrap(me - from);
    ok := mm.MapFixedAnon(start, len, p.prot);
    if !ok { return; }
    ghost var op := MapAnon(start, len, p.prot);
    more := [op];
    forall y | p.vaddr <= y < me
      ensures Shows(mm.log, mm.file, ps, At(origin, lo, y),
        if y < p.vaddr + p.filesz then FileByte(mm.file, p.offset + y - p.vaddr) else 0, p.prot)
    {
      Latest(old(mm.log), op, mm.file, ps, At(origin, lo, y));
      if y < from {
        assert Shows(old(mm.log), mm.file, ps, At(origin, lo, y),
          if y < p.vaddr + p.filesz then FileByte(mm.file, p.offset + y - p.vaddr) else 0, p.prot);
      }
    }
  }

  lemma FilledIsLoaded(log: Log, file: seq<int>, base: U64, p: Phdr, lo: nat, hi: nat, origin: nat, ps: nat)
    requires Sited(p, |file|, base, lo, hi, origin, ps)
    requires Filled(log, file, ps, p, origin, lo, p.vaddr, p.vaddr + p.memsz, p.vaddr + p.filesz)
    ensures SegmentLoaded(log, file, ps, p, base)
  {
    hide PowerOfTwo, Up, Value, Access, Aligned;
    assert lo <= p.vaddr;
    hide Down, FirstPage;
    forall i | 0 <= i < p.memsz ensures ByteLoaded(log, file, ps, p, base, i) {
      var y := p.vaddr + i;
      Landing(base, lo, hi, origin, ps, y);
      assert Shows(log, file, ps, At(origin, lo, y),
        if y < p.vaddr + p.filesz then FileByte(file, p.offset + y - p.vaddr) else 0, p.prot);
    }
  }

  lemma FilledPart(log: Log, file: seq<int>, ps: nat, p: Phdr, origin: nat, lo: nat, from: nat, to: nat, fileTo: nat,
      f2: nat, t2: nat, u2: nat)
    requires ps > 0 && Filled(log, file, ps, p, origin, lo, from, to, fileTo)
    requires from <= f2 && t2 <= to && (u2 == fileTo || t2 <= u2 <= fileTo)
    ensures Filled(log, file, ps, p, origin, lo, f2, t2, u2)
  {
    hide Shows;
  }

  /** The end of what the file mapping and the clearing settle. */
  function Settled(p: Phdr, ps: nat): (e: nat)
    requires ps > 0
  {
    var fpe, me := Up(p.vaddr + p.filesz, ps), p.vaddr + p.memsz;
    if me < fpe then me else fpe
  }

  /** The segment's file bytes, and zeroes up to the end of their last page. */
  method MapFileBytes(mm: AddressSpace, p: Phdr, base: U64, ghost lo: nat, ghost hi: nat, ghost origin: nat)
    returns (ok: bool, ghost more: Log)
    requires mm.Valid() && Sited(p, |mm.file|, base, lo, hi, origin, mm.ps) && p.filesz > 0
    modifies mm
    ensures mm.log == old(mm.log) + more && InSpan(more, mm.ps, p, origin, lo)
    ensures ok ==> Filled(mm.log, mm.file, mm.ps, p, origin, lo, FirstPage(p, mm.ps), Settled(p, mm.ps),
      p.vaddr + p.filesz)
    ensures ok ==> p.offset >= p.vaddr - FirstPage(p, mm.ps) && mm.budget == old(mm.budget) - 1
    ensures old(mm.budget) > 0 && PageCongruent(p, mm.ps) ==> ok
  {
    hide PowerOfTwo, Aligned, Filled, Up, Down, Wrap, InSpan, Sited, FirstPage, SegmentOk, Placed;
    EndsOf(p, |mm.file|, base, lo, hi, origin, mm.ps);
    ok, more := MapFilePages(mm, p, base, lo, hi, origin);
    if !ok { return; }
    ghost var ps, first := mm.ps, FirstPage(p, mm.ps);
    var fe := Wrap(p.vaddr + p.filesz);
    var fpe := Down(Wrap(fe + mm.ps - 1), mm.ps);
    if p.memsz > p.filesz {
      if fpe > fe {
        ghost var one := ClearTail(mm, p, base, lo, hi, origin);
        JoinSpan(more, one, ps, p, origin, lo);
        more := more + one;
      }
      FilledPart(mm.log, mm.file, ps, p, origin, lo, first, fpe,
        if fpe > fe then fe else fpe, first, Settled(p, ps), fe);
    } else {
      FilledPart(mm.log, mm.file, ps, p, origin, lo, first, fpe, fpe, first, Settled(p, ps), fe);
    }
  }

  /** One loadable segment.  A success leaves its bytes in place, or, when nothing of it is mapped,
      touches nothing; either way only the segment's own pages are touched. */
  method MapSegment(mm: AddressSpace, p: Phdr, base: U64, ghost lo: nat, ghost hi: nat, ghost origin: nat)
    returns (ok: bool, ghost more: Log)
    requires mm.Valid() && Sited(p, |mm.file|, base, lo, hi, origin, mm.ps)
    modifies mm
    ensures mm.log == old(mm.log) + more && InSpan(more, mm.ps, p, origin, lo)
    ensures ok && Mapped(p, mm.ps) ==> SegmentLoaded(mm.log, mm.file, mm.ps, p, base)
    ensures !Mapped(p, mm.ps) ==> ok && more == []
    ensures ok && p.filesz > 0 ==> p.offset >= p.vaddr - FirstPage(p, mm.ps)
    ensures old(mm.budget) >= 2 && PageCongruent(p, mm.ps) ==> ok
    ensures ok ==> mm.budget >= old(mm.budget) - 2
  {
    hide PowerOfTwo, Aligned, Filled, Up, Down, Wrap, Placed, InSpan, SegmentLoaded, Sited, SegmentOk, FirstPage;
    EndsOf(p, |mm.file|, base, lo, hi, origin, mm.ps);
    ok, more := true, [];
    NothingInSpan(mm.ps, p, origin, lo);
    ghost var one := more;
    if p.filesz > 0 {
      ok, one := MapFileBytes(mm, p, base, lo, hi, origin);
      more := one;
      if !ok { return; }
    }
    var fe, me := Wrap(p.vaddr + p.filesz), Wrap(p.vaddr + p.memsz);
    var fpe, a := Down(Wrap(fe + mm.ps - 1), mm.ps), Down(p.vaddr, mm.ps);
    if p.memsz > p.filesz && me > fpe {
      ok, one := MapBss(mm, p, base, if p.filesz > 0 then fpe else a, me, lo, hi, origin);
      JoinSpan(more, one, mm.ps, p, origin, lo);
      more := more + one;
      if !ok { return; }
      FilledIsLoaded(mm.log, mm.file, base, p, lo, hi, origin, mm.ps);
    } else if p.filesz > 0 {
      FilledPart(mm.log, mm.file, mm.ps, p, origin, lo, a, me, fe, p.vaddr, me, fe);
      FilledIsLoaded(mm.log, mm.file, base, p, lo, hi, origin, mm.ps);
    }
  }

  // ----- the whole file -----

  /** No two loadable segments share a page. */
  predicate PagesDisjoint(ph: seq<Phdr>, ps: nat)
    requires ps > 0
  {
    forall j, k :: 0 <= j < |ph| && 0 <= k < |ph| && j != k && ph[j].ptype.Load? && ph[k].ptype.Load? ==>
      PastPages(ph[j], ps) <= FirstPage(ph[k], ps) || PastPages(ph[k], ps) <= FirstPage(ph[j], ps)
  }

  /** The first `n` segments are in place. */
  predicate AllLoaded(log: Log, file: seq<int>, ps: nat, ph: seq<Phdr>, base: U64, n: nat)
    requires ps > 0 && n <= |ph|
  {
    forall k :: 0 <= k < n && ph[k].ptype.Load? && Mapped(ph[k], ps) ==> SegmentLoaded(log, file, ps, ph[k], base)
  }

  ghost predicate AllSited(ph: seq<Phdr>, fsize: nat, base: U64, lo: nat, hi: nat, origin: nat, ps: nat) {
    forall k :: 0 <= k < |ph| && ph[k].ptype.Load? ==> Sited(ph[k], fsize, base, lo, hi, origin, ps)
  }

  lemma SitedSpan(p: Phdr, fsize: nat, base: U64, lo: nat, hi: nat, origin: nat, ps: nat)
    requires Sited(p, fsize, base, lo, hi, origin, ps)
    ensures Placed(base, lo, hi, origin, ps) && lo <= p.vaddr && p.vaddr + p.memsz <= hi && p.filesz <= p.memsz
  {
    hide PowerOfTwo, Up, Aligned, Wrap;
  }

  lemma OtherSegmentKeeps(log: Log, more: Log, file: seq<int>, base: U64, p: Phdr, q: Phdr, lo: nat, hi: nat,
      origin: nat, ps: nat)
    requires Sited(p, |file|, base, lo, hi, origin, ps) && Sited(q, |file|, base, lo, hi, origin, ps)
    requires PastPages(p, ps) <= FirstPage(q, ps) || PastPages(q, ps) <= FirstPage(p, ps)
    requires InSpan(more, ps, q, origin, lo) && SegmentLoaded(log, file, ps, p, base)
    ensures SegmentLoaded(log + more, file, ps, p, base)
  {
    assert FirstPage(p, ps) <= p.vaddr && p.vaddr + p.memsz <= PastPages(p, ps);
    SitedSpan(p, |file|, base, lo, hi, origin, ps);
    hide Sited, Placed, Wrap, Value, Access, FirstPage, PastPages, AllWithin;
    forall i | 0 <= i < p.memsz ensures ByteLoaded(log + more, file, ps, p, base, i) {
      Landing(base, lo, hi, origin, ps, p.vaddr + i);
      assert ByteLoaded(log, file, ps, p, base, i);
      OutsideUnchanged(log, more, file, ps, origin + (FirstPage(q, ps) - lo), origin + (PastPages(q, ps) - lo),
        Wrap(base + p.vaddr + i));
    }
  }

  /** A segment of which nothing is mapped still shows the bare reservation. */
  function Bare(p: Phdr): Phdr { p.(prot := NONE) }

  predicate RestBare(log: Log, file: seq<int>, ps: nat, ph: seq<Phdr>, base: U64)
    requires ps > 0
  {
    forall k :: 0 <= k < |ph| && ph[k].ptype.Load? && !Mapped(ph[k], ps) ==>
      SegmentLoaded(log, file, ps, Bare(ph[k]), base)
  }

  lemma SegmentKeepsBare(log: Log, more: Log, file: seq<int>, base: U64, ph: seq<Phdr>, n: nat, lo: nat, hi: nat,
      origin: nat, ps: nat)
    requires ps > 0 && n < |ph| && AllSited(ph, |file|, base, lo, hi, origin, ps) && PagesDisjoint(ph, ps)
    requires ph[n].ptype.Load?
    requires InSpan(more, ps, ph[n], origin, lo) && RestBare(log, file, ps, ph, base)
    requires (!Mapped(ph[n], ps) ==> more == [])
    ensures RestBare(log + more, file, ps, ph, base)
  {
    if more == [] {
      assert log + more == log;
    } else {
      hide SegmentLoaded, InSpan, Mapped, Up, Down, FirstPage, PastPages, Placed, PowerOfTwo;
      forall k | 0 <= k < |ph| && ph[k].ptype.Load? && !Mapped(ph[k], ps)
        ensures SegmentLoaded(log + more, file, ps, Bare(ph[k]), base)
      {
        SamePages(ph[k], ps);
        OtherSegmentKeeps(log, more, file, base, Bare(ph[k]), ph[n], lo, hi, origin, ps);
      }
    }
  }

  lemma SamePages(p: Phdr, ps: nat)
    requires ps > 0
    ensures FirstPage(Bare(p), ps) == FirstPage(p, ps) && PastPages(Bare(p), ps) == PastPages(p, ps)
  {
  }

  /** Right after the reservation every such segment is bare. */
  lemma ReservationIsBare(log: Log, file: seq<int>, base: U64, ph: seq<Phdr>, lo: nat, hi: nat, origin: nat, ps: nat,
      res: nat, len: nat)
    requires ps > 0 && AllSited(ph, |file|, base, lo, hi, origin, ps) && lo < hi
    requires res <= origin && origin + Up(hi - lo, ps) <= res + Up(len, ps)
    ensures RestBare(log + [MapAnon(res, len, NONE)], file, ps, ph, base)
  {
    var op := MapAnon(res, len, NONE);
    assert Up(hi - lo, ps) >= hi - lo;
    hide Up, Down, Value, Access, PowerOfTwo, SegmentOk;
    forall k | 0 <= k < |ph| && ph[k].ptype.Load? && !Mapped(ph[k], ps)
      ensures SegmentLoaded(log + [op], file, ps, Bare(ph[k]), base)
    {
      var p := ph[k];
      forall i | 0 <= i < p.memsz ensures ByteLoaded(log + [op], file, ps, Bare(p), base, i) {
        Landing(base, lo, hi, origin, ps, p.vaddr + i);
        Latest(log, op, file, ps, At(origin, lo, p.vaddr + i));
      }
    }
  }

  /** Exactly which segments are in place. */
  predicate ExactlyLoaded(log: Log, file: seq<int>, ps: nat, ph: seq<Phdr>, base: U64)
    requires ps > 0
  {
    forall k :: 0 <= k < |ph| && ph[k].ptype.Load? ==>
      (SegmentLoaded(log, file, ps, ph[k], base) <==> Mapped(ph[k], ps) || ph[k].memsz == 0 || ph[k].prot == NONE)
  }

  lemma LoadedExactly(log: Log, file: seq<int>, ps: nat, ph: seq<Phdr>, base: U64)
    requires ps > 0 && AllLoaded(log, file, ps, ph, base, |ph|) && RestBare(log, file, ps, ph, base)
    ensures ExactlyLoaded(log, file, ps, ph, base)
  {
    forall k | 0 <= k < |ph| && ph[k].ptype.Load?
      ensures SegmentLoaded(log, file, ps, ph[k], base) <==> Mapped(ph[k], ps) || ph[k].memsz == 0 || ph[k].prot == NONE
    {
      var p := ph[k];
      hide Value, Access, Up;
      if !Mapped(p, ps) && p.memsz > 0 {
        assert ByteLoaded(log, file, ps, Bare(p), base, 0);
        if p.prot == NONE {
          assert Bare(p) == p;
        } else {
          assert !ByteLoaded(log, file, ps, p, base, 0);
        }
      }
    }
  }

  lemma SegmentKeepsOthers(log: Log, more: Log, file: seq<int>, base: U64, ph: seq<Phdr>, n: nat, lo: nat, hi: nat,
      origin: nat, ps: nat)
    requires ps > 0 && n < |ph| && AllSited(ph, |file|, base, lo, hi, origin, ps) && PagesDisjoint(ph, ps)
    requires ph[n].ptype.Load?
    requires InSpan(more, ps, ph[n], origin, lo) && AllLoaded(log, file, ps, ph, base, n)
    ensures AllLoaded(log + more, file, ps, ph, base, n)
  {
    hide Sited, SegmentLoaded, InSpan, Mapped, Up, Down, FirstPage, PastPages;
    forall k | 0 <= k < n && ph[k].ptype.Load? && Mapped(ph[k], ps)
      ensures SegmentLoaded(log + more, file, ps, ph[k], base)
    {
      OtherSegmentKeeps(log, more, file, base, ph[k], ph[n], lo, hi, origin, ps);
    }
  }

  /** A segment's pages lie inside the reservation. */
  lemma SpanInside(ops: Log, p: Phdr, fsize: nat, base: U64, lo: nat, hi: nat, origin: nat, ps: nat)
    requires Sited(p, fsize, base, lo, hi, origin, ps) && InSpan(ops, ps, p, origin, lo)
    ensures AllWithin(ops, ps, origin, origin + Up(hi - lo, ps))
  {
    DownAligned(p.vaddr, ps);
    hide PowerOfTwo, Up, Down, Aligned;
    PieceInside(lo, hi, origin, ps, FirstPage(p, ps), p.vaddr + p.memsz, p.vaddr + p.memsz);
  }

  lemma Sites(elf: Elf, fsize: nat, base: U64, lo: nat, hi: nat, origin: nat, ps: nat)
    requires PowerOfTwo(ps) && ps <= MAX_ALIGN && Acceptable(elf, fsize, ps) && Placed(base, lo, hi, origin, ps)
    requires lo == Lowest(elf.phdrs, ps, |elf.phdrs|) && hi == Highest(elf.phdrs, |elf.phdrs|)
    ensures AllSited(elf.phdrs, fsize, base, lo, hi, origin, ps)
  {
    hide SegmentOk, Placed, Up, Lowest, Highest, Widest, Down;
    var ph := elf.phdrs;
    forall k | 0 <= k < |ph| && ph[k].ptype.Load? ensures Sited(ph[k], fsize, base, lo, hi, origin, ps) {
      SegmentsInside(ph, ps, |ph|, k);
    }
  }

  /** The program headers can be read back at the reported address. */
  predicate PhdrsAt(log: Log, file: seq<int>, ps: nat, phdr: U64, phoff: nat, n: nat)
    requires ps > 0
  {
    forall i :: 0 <= i < PHDR_SIZE * n ==> CopiedByte(log, file, ps, phdr, phoff, i)
  }

  predicate CopiedByte(log: Log, file: seq<int>, ps: nat, x: U64, off: nat, i: nat)
    requires ps > 0
  {
    Value(log, file, ps, Wrap(x + i)) == Byte(FileByte(file, off + i))
  }

  /** The segment's file bytes hold the program headers. */
  predicate CoversTable(p: Phdr, phoff: nat, n: nat) {
    p.ptype.Load? && phoff >= p.offset && phoff + PHDR_SIZE * n <= p.offset + p.filesz
  }

  /** And this is where the segment puts them. */
  predicate PhdrsFrom(p: Phdr, base: U64, phoff: nat, n: nat, phdr: U64) {
    CoversTable(p, phoff, n) && phdr == Wrap(base + p.vaddr + (phoff - p.offset))
  }

  ghost predicate NoneCovers(ph: seq<Phdr>, phoff: nat, from: nat, to: nat)
    requires to <= |ph|
  {
    forall k :: from <= k < to ==> !CoversTable(ph[k], phoff, |ph|)
  }

  /** The program headers are reported where the last segment that holds them puts them, and as 0 when
      no segment does. */
  ghost predicate Reported(ph: seq<Phdr>, base: U64, phoff: nat, phdr: U64) {
    && (NoneCovers(ph, phoff, 0, |ph|) ==> phdr == 0)
    && forall k :: 0 <= k < |ph| && CoversTable(ph[k], phoff, |ph|) && NoneCovers(ph, phoff, k + 1, |ph|) ==>
         phdr == Wrap(base + ph[k].vaddr + (phoff - ph[k].offset))
  }

  /** After the first `i` segments: which of them was the last to hold the headers, or none. */
  ghost predicate Found(ph: seq<Phdr>, base: U64, phoff: nat, i: nat, from: nat, phdr: U64)
    requires i <= |ph|
  {
    if from < i then PhdrsFrom(ph[from], base, phoff, |ph|, phdr) && NoneCovers(ph, phoff, from + 1, i)
    else from == |ph| && phdr == 0 && NoneCovers(ph, phoff, 0, i)
  }

  lemma FoundIsReported(ph: seq<Phdr>, base: U64, phoff: nat, from: nat, phdr: U64)
    requires Found(ph, base, phoff, |ph|, from, phdr)
    ensures Reported(ph, base, phoff, phdr)
    ensures from < |ph| <==> !NoneCovers(ph, phoff, 0, |ph|)
  {
    hide CoversTable, Wrap;
    forall k | 0 <= k < |ph| && CoversTable(ph[k], phoff, |ph|) && NoneCovers(ph, phoff, k + 1, |ph|)
      ensures k == from
    {
    }
  }

  lemma NotFoundYet(ph: seq<Phdr>, base: U64, phoff: nat)
    ensures Found(ph, base, phoff, 0, |ph|, 0)
  {
  }

  lemma FoundOn(ph: seq<Phdr>, base: U64, phoff: nat, i: nat, from: nat, phdr: U64)
    requires i < |ph| && Found(ph, base, phoff, i, from, phdr) && !CoversTable(ph[i], phoff, |ph|)
    ensures Found(ph, base, phoff, i + 1, from, phdr)
  {
    hide CoversTable, Wrap;
  }

  lemma PhdrsLoaded(log: Log, file: seq<int>, base: U64, p: Phdr, lo: nat, hi: nat, origin: nat, ps: nat, phoff: nat,
      n: nat, phdr: U64)
    requires Sited(p, |file|, base, lo, hi, origin, ps) && SegmentLoaded(log, file, ps, p, base)
    requires PhdrsFrom(p, base, phoff, n, phdr)
    ensures PhdrsAt(log, file, ps, phdr, phoff, n)
  {
    SitedSpan(p, |file|, base, lo, hi, origin, ps);
    hide Sited, Placed, Value, Access, Wrap, SegmentOk;
    forall i | 0 <= i < PHDR_SIZE * n ensures CopiedByte(log, file, ps, phdr, phoff, i) {
      var j := phoff - p.offset + i;
      Landing(base, lo, hi, origin, ps, p.vaddr + (phoff - p.offset));
      Landing(base, lo, hi, origin, ps, p.vaddr + j);
      Onward(base, lo, hi, origin, ps, p.vaddr + (phoff - p.offset), i);
      assert ByteLoaded(log, file, ps, p, base, j);
    }
  }

  /** A step from one of the image's addresses to a later one does not wrap around either. */
  lemma Onward(base: U64, lo: nat, hi: nat, origin: nat, ps: nat, y: nat, i: nat)
    requires ps > 0 && Placed(base, lo, hi, origin, ps) && lo <= y && y + i <= hi
    ensures Wrap(At(origin, lo, y) + i) == At(origin, lo, y + i)
  {
    hide Up, Aligned;
  }

  /** Where the reservation goes, and how long it is. */
  function ReserveAt(elf: Elf, ps: nat, pick: U64): U64
    requires ps > 0
  {
    if elf.dyn then pick else Lowest(elf.phdrs, ps, |elf.phdrs|)
  }

  function ReserveLen(elf: Elf, ps: nat): int
    requires ps > 0
  {
    var n := |elf.phdrs|;
    Highest(elf.phdrs, n) - Lowest(elf.phdrs, ps, n) + (if elf.dyn then Widest(elf.phdrs, n) else 0)
  }

  /** The range is free, and for a movable image the kernel's pick is page-aligned and leaves room. */
  predicate CanReserve(elf: Elf, ps: nat, pick: U64, log: Log)
    requires ps > 0
  {
    var at, top := ReserveAt(elf, ps, pick), ReserveAt(elf, ps, pick) + Up(ReserveLen(elf, ps), ps);
    FreeRange(log, ps, at, top) && (elf.dyn ==> Aligned(pick, ps) && top <= WORD)
  }

  /** Where the reservation puts the image. */
  method Place(elf: Elf, mm: AddressSpace, pick: U64, lo: U64, hi: U64, align: U64)
    returns (ok: bool, base: U64, ghost origin: nat, ghost res: nat, ghost len: nat)
    requires mm.Valid() && Acceptable(elf, |mm.file|, mm.ps)
    requires lo == Lowest(elf.phdrs, mm.ps, |elf.phdrs|) && hi == Highest(elf.phdrs, |elf.phdrs|)
    requires align == Widest(elf.phdrs, |elf.phdrs|)
    modifies mm
    ensures !ok ==> mm.log == old(mm.log)
    ensures ok <==> old(mm.budget) > 0 && CanReserve(elf, mm.ps, pick, old(mm.log))
    ensures ok ==> mm.budget == old(mm.budget) - 1
    ensures ok ==> mm.log == old(mm.log) + [MapAnon(res, len, NONE)] && Placed(base, lo, hi, origin, mm.ps)
    ensures ok ==> lo < hi && res <= origin && origin + Up(hi - lo, mm.ps) <= res + Up(len, mm.ps) <= WORD
    ensures ok ==> res == ReserveAt(elf, mm.ps, pick) && len == ReserveLen(elf, mm.ps)
    ensures ok && !elf.dyn ==> base == 0
    ensures ok && elf.dyn ==> (Aligned(base, align) <==> Aligned(lo, align))
  {
    hide PowerOfTwo, Placed, Wrap, Aligned, Up, Down, Acceptable, Lowest, Highest, Widest;
    hide ReserveAt, ReserveLen, CanReserve, FreeRange;
    Extent(elf, |mm.file|, mm.ps);
    ReserveFacts(elf, |mm.file|, mm.ps, pick, mm.log);
    base, origin, res, len := 0, 0, 0, 0;
    if !elf.dyn {
      ok := mm.Reserve(hi - lo, lo);
      if !ok { return; }
      res, len, origin := lo, hi - lo, lo;
      FixedPlace(lo, hi, mm.ps);
    } else {
      ok := mm.Reserve(Wrap(hi - lo + align), pick);
      if !ok { return; }
      res, len, origin := pick, hi - lo + align, Up(pick, align);
      MovedPlace(pick, lo, hi, align, mm.ps);
      base := Wrap(Down(Wrap(pick + align - 1), align) - lo);
    }
  }

  /** What the two kinds of reservation ask of the address space. */
  lemma ReserveFacts(elf: Elf, fsize: nat, ps: nat, pick: U64, log: Log)
    requires PowerOfTwo(ps) && Acceptable(elf, fsize, ps)
    ensures var n := |elf.phdrs|;
      var lo, hi, align := Lowest(elf.phdrs, ps, n), Highest(elf.phdrs, n), Widest(elf.phdrs, n);
      var at, len := ReserveAt(elf, ps, pick), ReserveLen(elf, ps);
      && at == (if elf.dyn then pick else lo) && len == (if elf.dyn then hi - lo + align else hi - lo)
      && 0 < len < WORD && Wrap(len) == len
      && (CanReserve(elf, ps, pick, log) <==>
            Aligned(at, ps) && at + Up(len, ps) <= WORD && FreeRange(log, ps, at, at + Up(len, ps)))
  {
    Extent(elf, fsize, ps);
    hide PowerOfTwo, Aligned, Acceptable, Lowest, Highest, Widest, FreeRange;
    var lo, hi := Lowest(elf.phdrs, ps, |elf.phdrs|), Highest(elf.phdrs, |elf.phdrs|);
    FixedPlace(lo, hi, ps);
    hide Up;
  }

  lemma Extent(elf: Elf, fsize: nat, ps: nat)
    requires PowerOfTwo(ps) && Acceptable(elf, fsize, ps)
    ensures var n := |elf.phdrs|;
      var lo, hi, align := Lowest(elf.phdrs, ps, n), Highest(elf.phdrs, n), Widest(elf.phdrs, n);
      && lo < hi && hi + ps < WORD && Aligned(lo, ps) && PowerOfTwo(align) && align <= MAX_ALIGN &&
        hi - lo + align < WORD
  {
    LowestIsPage(elf.phdrs, ps, |elf.phdrs|);
    WidestIsPower(elf.phdrs, fsize, |elf.phdrs|);
  }

  lemma FixedPlace(lo: U64, hi: U64, ps: nat)
    requires ps > 0 && lo < hi && hi + ps < WORD && Aligned(lo, ps)
    ensures Placed(0, lo, hi, lo, ps)
  {
    UpShift(hi - lo, lo, ps);
  }

  lemma MovedPlace(pick: U64, lo: U64, hi: U64, align: nat, ps: nat)
    requires PowerOfTwo(ps) && PowerOfTwo(align) && align <= MAX_ALIGN && Aligned(pick, ps) && Aligned(lo, ps)
    requires lo < hi && hi + ps < WORD && hi - lo + align < WORD && pick + Up(hi - lo + align, ps) <= WORD
    ensures Down(Wrap(pick + align - 1), align) == Up(pick, align)
    ensures var base := Wrap(Up(pick, align) - lo);
      Placed(base, lo, hi, Up(pick, align), ps) && (Aligned(base, align) <==> Aligned(lo, align))
    ensures pick <= Up(pick, align) && Up(pick, align) + Up(hi - lo, ps) <= pick + Up(hi - lo + align, ps)
  {
    ReservationCovers(pick, lo, hi, align, ps);
    UpAligned(pick, align);
    assert ps > 0 && align > 0;
    hide PowerOfTwo, Wrap, Up, Down, Aligned;
    assert Up(pick, align) < WORD;
    UpIsMask(pick, align);
    AlignedBase(Wrap(Up(pick, align) - lo), lo, Up(pick, align), align);
  }

  lemma UpIsMask(x: U64, p: nat)
    requires p > 0 && x + p - 1 < WORD
    ensures Down(Wrap(x + p - 1), p) == Up(x, p)
  {
  }

  /** The load bias is a multiple of the largest alignment exactly when the lowest page is one. */
  lemma AlignedBase(base: U64, lo: nat, origin: nat, align: nat)
    requires 0 < align <= MAX_ALIGN && PowerOfTwo(align) && lo < WORD && origin < WORD && base == Wrap(origin - lo)
    requires Aligned(origin, align)
    ensures Aligned(base, align) <==> Aligned(lo, align)
  {
    WordIsPower();
    hide PowerOfTwo, Aligned, Wrap;
    PowersDivide(align, WORD);
    AlignedSum(origin, WORD, align);
    assert Aligned(base + lo, align);
    if Aligned(lo, align) { AlignedSum(base + lo, lo, align); }
    if Aligned(base, align) { AlignedSum(base + lo, base, align); }
  }

  /** After the first `n` headers, when no two segments share a page. */
  ghost predicate Progress(log: Log, file: seq<int>, ps: nat, ph: seq<Phdr>, base: U64, n: nat)
    requires ps > 0 && n <= |ph|
  {
    PagesDisjoint(ph, ps) ==> AllLoaded(log, file, ps, ph, base, n) && RestBare(log, file, ps, ph, base)
  }

  lemma SegmentProgress(log: Log, more: Log, file: seq<int>, base: U64, ph: seq<Phdr>, n: nat, lo: nat, hi: nat,
      origin: nat, ps: nat)
    requires ps > 0 && n < |ph| && AllSited(ph, |file|, base, lo, hi, origin, ps) && ph[n].ptype.Load?
    requires InSpan(more, ps, ph[n], origin, lo) && Progress(log, file, ps, ph, base, n)
    requires (!Mapped(ph[n], ps) ==> more == [])
    requires Mapped(ph[n], ps) ==> SegmentLoaded(log + more, file, ps, ph[n], base)
    ensures Progress(log + more, file, ps, ph, base, n + 1)
  {
    hide AllSited, AllLoaded, RestBare, InSpan, Mapped, SegmentLoaded, PagesDisjoint;
    if PagesDisjoint(ph, ps) {
      SegmentKeepsOthers(log, more, file, base, ph, n, lo, hi, origin, ps);
      SegmentKeepsBare(log, more, file, base, ph, n, lo, hi, origin, ps);
      OneMore(log + more, file, ps, ph, base, n);
    }
  }

  lemma NoProgress(log: Log, file: seq<int>, base: U64, ph: seq<Phdr>, n: nat, ps: nat)
    requires ps > 0 && n < |ph| && !ph[n].ptype.Load? && Progress(log, file, ps, ph, base, n)
    ensures Progress(log, file, ps, ph, base, n + 1)
  {
    hide RestBare, Mapped, SegmentLoaded, PagesDisjoint;
  }

  lemma EndOfProgress(log: Log, file: seq<int>, base: U64, ph: seq<Phdr>, lo: nat, hi: nat, origin: nat, ps: nat,
      k: nat, phoff: nat, phdr: U64)
    requires ps > 0 && AllSited(ph, |file|, base, lo, hi, origin, ps) && Progress(log, file, ps, ph, base, |ph|)
    requires PagesDisjoint(ph, ps)
    ensures ExactlyLoaded(log, file, ps, ph, base)
    ensures Found(ph, base, phoff, |ph|, k, phdr) && k < |ph| ==> PhdrsAt(log, file, ps, phdr, phoff, |ph|)
  {
    hide AllSited, AllLoaded, RestBare, PagesDisjoint, PhdrsFrom, PhdrsAt, ExactlyLoaded;
    LoadedExactly(log, file, ps, ph, base);
    if k < |ph| && PhdrsFrom(ph[k], base, phoff, |ph|, phdr) {
      PickLoaded(log, file, base, ph, lo, hi, origin, ps, k, phoff, phdr);
    }
  }

  lemma FoundHere(ph: seq<Phdr>, base: U64, phoff: nat, i: nat)
    requires i < |ph| && CoversTable(ph[i], phoff, |ph|)
    ensures Found(ph, base, phoff, i + 1, i, Wrap(base + ph[i].vaddr + (phoff - ph[i].offset)))
  {
    hide Wrap;
  }

  lemma NothingInside(ps: nat, lo: int, hi: int)
    requires ps > 0
    ensures AllWithin([], ps, lo, hi)
  {
  }

  lemma JoinInside(one: Log, two: Log, ps: nat, lo: int, hi: int)
    requires ps > 0 && AllWithin(one, ps, lo, hi) && AllWithin(two, ps, lo, hi)
    ensures AllWithin(one + two, ps, lo, hi)
  {
    hide Reach;
  }

  predicate AllCongruent(ph: seq<Phdr>, ps: nat)
    requires ps > 0
  {
    forall k :: 0 <= k < |ph| && ph[k].ptype.Load? ==> PageCongruent(ph[k], ps)
  }

  /** Map every segment over the reservation, in header order. */
  method MapAll(elf: Elf, mm: AddressSpace, base: U64, ghost lo: nat, ghost hi: nat, ghost origin: nat)
    returns (ok: bool, phdr: U64, ghost from: nat, ghost ops: Log)
    requires mm.Valid() && mm.ps > 0 && lo < hi && AllSited(elf.phdrs, |mm.file|, base, lo, hi, origin, mm.ps)
    requires Progress(mm.log, mm.file, mm.ps, elf.phdrs, base, 0)
    modifies mm
    ensures mm.log == old(mm.log) + ops && AllWithin(ops, mm.ps, origin, origin + Up(hi - lo, mm.ps))
    ensures ok ==> Progress(mm.log, mm.file, mm.ps, elf.phdrs, base, |elf.phdrs|)
    ensures old(mm.budget) >= 2 * |elf.phdrs| && AllCongruent(elf.phdrs, mm.ps) ==> ok
    ensures ok ==> Found(elf.phdrs, base, elf.phoff, |elf.phdrs|, from, phdr)
  {
    hide PowerOfTwo, Up, Down, AllSited, Sited, AllWithin, Found, InSpan, Mapped, SegmentLoaded, Wrap, Progress;
    var ph := elf.phdrs;
    var n := |ph|;
    ghost var ps := mm.ps;
    ghost var top := origin + Up(hi - lo, ps);
    ops, phdr, from := [], 0, n;
    NotFoundYet(ph, base, elf.phoff);
    var i := 0;
    NothingInside(ps, origin, top);
    while i < n
      invariant 0 <= i <= n && mm.log == old(mm.log) + ops && AllWithin(ops, ps, origin, top)
      invariant Progress(mm.log, mm.file, ps, ph, base, i) && mm.budget >= old(mm.budget) - 2 * i
      invariant Found(ph, base, elf.phoff, i, from, phdr)
    {
      if ph[i].ptype.Load? {
        ghost var before, was := mm.log, ops;
        PickSite(ph, |mm.file|, base, lo, hi, origin, ps, i);
        ghost var more;
        ok, more := MapSegment(mm, ph[i], base, lo, hi, origin);
        SpanInside(more, ph[i], |mm.file|, base, lo, hi, origin, ps);
        JoinInside(was, more, ps, origin, top);
        ops := was + more;
        if !ok { return; }
        SegmentProgress(before, more, mm.file, base, ph, i, lo, hi, origin, ps);
        if elf.phoff >= ph[i].offset && elf.phoff + PHDR_SIZE * n <= ph[i].offset + ph[i].filesz {
          phdr := Wrap(base + ph[i].vaddr + (elf.phoff - ph[i].offset));
          FoundHere(ph, base, elf.phoff, i);
          from := i;
        } else {
          FoundOn(ph, base, elf.phoff, i, from, phdr);
        }
      } else {
        FoundOn(ph, base, elf.phoff, i, from, phdr);
        NoProgress(mm.log, mm.file, base, ph, i, ps);
      }
      i := i + 1;
    }
    ok := true;
  }

  /** Load the file: validate, reserve, map every segment over the reservation. */
  method LoadElf(elf: Elf, mm: AddressSpace, pick: U64) returns (ok: bool, img: Image, ghost res: nat, ghost len: nat)
    requires mm.Valid() && mm.ps > 0 && |mm.file| < 0x8000_0000_0000_0000
    modifies mm
    ensures !Acceptable(elf, |mm.file|, mm.ps) ==> !ok && mm.log == old(mm.log)
    ensures (Acceptable(elf, |mm.file|, mm.ps) && old(mm.budget) > 2 * |elf.phdrs| &&
      CanReserve(elf, mm.ps, pick, old(mm.log)) && AllCongruent(elf.phdrs, mm.ps)) ==> ok
    ensures mm.log != old(mm.log) ==> Reserved(elf, old(mm.log), mm.log, mm.ps, pick, res, len)
    ensures forall x: nat :: !(res <= x < res + Up(len, mm.ps)) ==> Untouched(old(mm.log), mm.log, mm.file, mm.ps, x)
    ensures forall x: nat :: Occupied(old(mm.log), mm.ps, x) ==> Untouched(old(mm.log), mm.log, mm.file, mm.ps, x)
    ensures ok && PagesDisjoint(elf.phdrs, mm.ps) ==> ExactlyLoaded(mm.log, mm.file, mm.ps, elf.phdrs, img.base)
    ensures ok ==> Reported(elf.phdrs, img.base, elf.phoff, img.phdr)
    ensures ok && PagesDisjoint(elf.phdrs, mm.ps) && !NoneCovers(elf.phdrs, elf.phoff, 0, |elf.phdrs|) ==>
      PhdrsAt(mm.log, mm.file, mm.ps, img.phdr, elf.phoff, |elf.phdrs|)
    ensures ok && elf.dyn ==> (Aligned(img.base, Widest(elf.phdrs, |elf.phdrs|)) <==>
      Aligned(Lowest(elf.phdrs, mm.ps, |elf.phdrs|), Widest(elf.phdrs, |elf.phdrs|)))
    ensures ok ==> img.entry == Wrap(img.base + elf.entry) && img.phnum == |elf.phdrs| && (!elf.dyn ==> img.base == 0)
  {
    hide PowerOfTwo, Acceptable, Up, Down, Wrap, Aligned, Progress, ExactlyLoaded, PagesDisjoint, PhdrsAt;
    hide Found, Reported, NoneCovers;
    hide AllSited, Placed, SegmentOk, Value, Access, AllWithin, Lowest, Highest, Widest, ReserveAt, ReserveLen;
    hide Occupied, FreeRange;
    ghost var ps := mm.ps;
    img := Image(0, 0, 0, 0);
    res, len := 0, 0;
    var lo, hi, align;
    ok, lo, hi, align := Survey(elf, |mm.file|, mm.ps);
    if !ok { return; }
    var base; ghost var origin;
    ok, base, origin, res, len := Place(elf, mm, pick, lo, hi, align);
    if !ok { return; }
    ghost var first := [MapAnon(res, len, NONE)];
    OccupiedOutside(old(mm.log), ps, res, res + Up(len, ps));
    Starting(elf, old(mm.log), mm.file, base, lo, hi, origin, ps, res, len);
    var phdr; ghost var ops, from;
    ok, phdr, from, ops := MapAll(elf, mm, base, lo, hi, origin);
    assert mm.log == old(mm.log) + (first + ops);
    MoreInside(first, ops, ps, res, res + Up(len, ps), origin, origin + Up(hi - lo, ps));
    Outside(old(mm.log), first + ops, mm.file, ps, res, res + Up(len, ps));
    if !ok { return; }
    FoundIsReported(elf.phdrs, base, elf.phoff, from, phdr);
    if PagesDisjoint(elf.phdrs, ps) {
      EndOfProgress(mm.log, mm.file, base, elf.phdrs, lo, hi, origin, ps, from, elf.phoff, phdr);
    }
    img := Image(base, Wrap(base + elf.entry), phdr, |elf.phdrs|);
  }

  /** After the reservation: nothing loaded, every site known. */
  lemma Starting(elf: Elf, log: Log, file: seq<int>, base: U64, lo: nat, hi: nat, origin: nat, ps: nat, res: nat,
      len: nat)
    requires PowerOfTwo(ps) && ps <= MAX_ALIGN && Acceptable(elf, |file|, ps) && Placed(base, lo, hi, origin, ps)
    requires lo == Lowest(elf.phdrs, ps, |elf.phdrs|) && hi == Highest(elf.phdrs, |elf.phdrs|)
    requires lo < hi && res <= origin && origin + Up(hi - lo, ps) <= res + Up(len, ps)
    ensures AllSited(elf.phdrs, |file|, base, lo, hi, origin, ps)
    ensures Progress(log + [MapAnon(res, len, NONE)], file, ps, elf.phdrs, base, 0)
    ensures AllWithin([MapAnon(res, len, NONE)], ps, res, res + Up(len, ps))
  {
    hide Acceptable, Up, Placed, AllSited, RestBare;
    Sites(elf, |file|, base, lo, hi, origin, ps);
    ReservationIsBare(log, file, base, elf.phdrs, lo, hi, origin, ps, res, len);
  }

  /** Nothing changed at this address, neither its content nor its protection. */
  ghost predicate Untouched(was: Log, now: Log, file: seq<int>, ps: nat, x: nat)
    requires ps > 0
  {
    Value(now, file, ps, x) == Value(was, file, ps, x) && Access(now, ps, x) == Access(was, ps, x)
  }

  /** The first thing done is one reservation of the image's extent, widened by the alignment when
      the kernel chooses the address, in a range where nothing was mapped. */
  ghost predicate Reserved(elf: Elf, was: Log, now: Log, ps: nat, pick: U64, res: nat, len: nat)
    requires ps > 0
  {
    && |was| < |now| && now[|was|] == MapAnon(res, len, NONE)
    && res == ReserveAt(elf, ps, pick) && len == ReserveLen(elf, ps)
    && FreeRange(was, ps, res, res + Up(len, ps))
  }

  lemma OneMore(log: Log, file: seq<int>, ps: nat, ph: seq<Phdr>, base: U64, n: nat)
    requires ps > 0 && n < |ph| && AllLoaded(log, file, ps, ph, base, n)
    requires ph[n].ptype.Load? && Mapped(ph[n], ps) ==> SegmentLoaded(log, file, ps, ph[n], base)
    ensures AllLoaded(log, file, ps, ph, base, n + 1)
  {
    hide SegmentLoaded, Mapped;
  }

  lemma PickSite(ph: seq<Phdr>, fsize: nat, base: U64, lo: nat, hi: nat, origin: nat, ps: nat, k: nat)
    requires AllSited(ph, fsize, base, lo, hi, origin, ps) && k < |ph| && ph[k].ptype.Load?
    ensures Sited(ph[k], fsize, base, lo, hi, origin, ps)
  {
  }

  lemma MoreInside(ops: Log, more: Log, ps: nat, lo: int, hi: int, lo2: int, hi2: int)
    requires ps > 0 && AllWithin(ops, ps, lo, hi) && AllWithin(more, ps, lo2, hi2) && lo <= lo2 && hi2 <= hi
    ensures AllWithin(ops + more, ps, lo, hi)
  {
    hide Reach;
  }

  lemma Outside(log: Log, ops: Log, file: seq<int>, ps: nat, lo: int, hi: int)
    requires ps > 0 && AllWithin(ops, ps, lo, hi)
    ensures forall x: nat :: !(lo <= x < hi) ==> Untouched(log, log + ops, file, ps, x)
  {
    hide Value, Access, AllWithin;
    forall x: nat | !(lo <= x < hi) ensures Untouched(log, log + ops, file, ps, x) {
      OutsideUnchanged(log, ops, file, ps, lo, hi, x);
    }
  }

  /** What was mapped before lies outside a free range. */
  lemma OccupiedOutside(log: Log, ps: nat, lo: int, hi: int)
    requires ps > 0 && FreeRange(log, ps, lo, hi)
    ensures forall x: nat :: Occupied(log, ps, x) ==> !(lo <= x < hi)
  {
    hide Reach;
  }

  lemma PickLoaded(log: Log, file: seq<int>, base: U64, ph: seq<Phdr>, lo: nat, hi: nat, origin: nat, ps: nat, k: nat,
      phoff: nat, phdr: U64)
    requires ps > 0 && AllSited(ph, |file|, base, lo, hi, origin, ps) && AllLoaded(log, file, ps, ph, base, |ph|)
    requires k < |ph| && PhdrsFrom(ph[k], base, phoff, |ph|, phdr)
    ensures PhdrsAt(log, file, ps, phdr, phoff, |ph|)
  {
    assert ph[k].filesz > 0;
    hide SegmentLoaded, PhdrsAt;
    PhdrsLoaded(log, file, base, ph[k], lo, hi, origin, ps, phoff, |ph|, phdr);
  }
}

/** For every page size, two good files that the loader does not treat as one might expect. */
module LoaderEdge {
  import opened Powers
  import opened Memory
  import opened Loader

  predicate PageSize(ps: nat) { PowerOfTwo(ps) && 64 <= ps <= 0x10_0000 }

  const READ: Prot := Prot(true, false, false)

  /** A header with one loadable segment of 16 zero bytes and nothing from the file, in the second
      page. */
  function OneSegment(dyn: bool, ps: nat, skip: nat, align: nat): Elf
    requires ps <= 0x10_0000 && skip <= 16 && align <= 2 * ps
  {
    Elf(dyn, 0, 0, [Phdr(Load, ps + skip, ps + skip, 0, 16, align, READ)])
  }

  /** 16 bytes into its page, or asking for an alignment of two pages. */
  predicate TwoFiles(ps: nat, skip: nat, align: nat) {
    PageSize(ps) && ((skip == 16 && align == 0) || (skip == 0 && align == 2 * ps))
  }

  lemma DownIs(x: int, m: int, p: nat)
    requires p > 0 && Aligned(m, p) && m <= x < m + p
    ensures Down(x, p) == m
  {
    DownAligned(x, p);
    DownGreatest(x, m, p);
    hide Down, Aligned;
    if m < Down(x, p) { AlignedGap(m, Down(x, p), p); }
  }

  lemma Extents(dyn: bool, ps: nat, skip: nat, align: nat)
    requires TwoFiles(ps, skip, align)
    ensures var ph := OneSegment(dyn, ps, skip, align).phdrs;
      && Lowest(ph, ps, 1) == ps && Highest(ph, 1) == ps + skip + 16
      && Widest(ph, 1) == if align > 4096 then align else 4096
  {
    assert Aligned(ps, ps);
    hide Down, Aligned, PowerOfTwo;
    DownIs(ps + skip, ps, ps);
    var ph := OneSegment(dyn, ps, skip, align).phdrs;
    assert Lowest(ph, ps, 0) == WORD - 1 && Highest(ph, 0) == 0 && Widest(ph, 0) == 4096;
  }

  lemma Headers(dyn: bool, ps: nat, skip: nat, align: nat)
    requires TwoFiles(ps, skip, align)
    ensures HeadersOk(OneSegment(dyn, ps, skip, align).phdrs, 2 * ps, 1)
  {
    Twice(ps);
    hide PowerOfTwo;
    assert SegmentOk(OneSegment(dyn, ps, skip, align).phdrs[0], 2 * ps);
  }

  lemma Reservable(dyn: bool, ps: nat, skip: nat, align: nat)
    requires TwoFiles(ps, skip, align)
    ensures CanReserve(OneSegment(dyn, ps, skip, align), ps, 2 * ps, [])
  {
    Extents(dyn, ps, skip, align);
    MultipleAligned(2, ps);
    hide Lowest, Highest, Widest, Up, Aligned, PowerOfTwo;
    var len := ReserveLen(OneSegment(dyn, ps, skip, align), ps);
    assert Up(len, ps) < len + ps;
  }

  /** Both files are accepted, congruent and have a place to go. */
  lemma GoodFile(dyn: bool, ps: nat, skip: nat, align: nat)
    requires TwoFiles(ps, skip, align)
    ensures var elf := OneSegment(dyn, ps, skip, align);
      && Acceptable(elf, 2 * ps, ps) && AllCongruent(elf.phdrs, ps)
      && CanReserve(elf, ps, 2 * ps, []) && PagesDisjoint(elf.phdrs, ps)
  {
    Reservable(dyn, ps, skip, align);
    Extents(dyn, ps, skip, align);
    Headers(dyn, ps, skip, align);
    hide Lowest, Highest, Widest, HeadersOk, CanReserve, PowerOfTwo, FirstPage, PastPages;
  }

  lemma NothingMapped(dyn: bool, ps: nat)
    requires PageSize(ps)
    ensures !Mapped(OneSegment(dyn, ps, 16, 0).phdrs[0], ps)
  {
    MultipleAligned(2, ps);
    UpAligned(ps + 16, ps);
    MultipleAligned(1, ps);
    hide Up, Aligned, PowerOfTwo;
    AlignedGap(ps, Up(ps + 16, ps), ps);
  }

  /** A readable segment of 16 bytes that ends inside its first page: the file loads, and they are
      not there. */
  method UnmappedSegment(ps: nat) returns (ok: bool, ghost seen: bool)
    requires PageSize(ps)
    ensures ok && !seen
  {
    GoodFile(false, ps, 16, 0);
    NothingMapped(false, ps);
    var file, elf := seq(2 * ps, _ => 0), OneSegment(false, ps, 16, 0);
    hide Acceptable, AllCongruent, CanReserve, PagesDisjoint, SegmentLoaded, Mapped, PowerOfTwo;
    hide Up, Aligned, Lowest, Widest, Reserved, Untouched, PhdrsAt, Occupied;
    var mm := new AddressSpace(ps, file, 3);
    var img; ghost var res, len;
    ok, img, res, len := LoadElf(elf, mm, 2 * ps);
    seen := SegmentLoaded(mm.log, file, ps, elf.phdrs[0], img.base);
  }

  lemma HalfTwoPages(ps: nat)
    requires PageSize(ps) && ps >= 4096
    ensures !Aligned(ps, 2 * ps)
  {
  }

  /** A movable image that asks for two pages' alignment and starts at its second page: the load bias
      is no multiple of two pages, although the kernel's address is. */
  method MisalignedBase(ps: nat) returns (ok: bool, base: U64)
    requires PageSize(ps) && ps >= 4096
    ensures ok && !Aligned(base, 2 * ps)
  {
    GoodFile(true, ps, 0, 2 * ps);
    Extents(true, ps, 0, 2 * ps);
    HalfTwoPages(ps);
    var file, elf := seq(2 * ps, _ => 0), OneSegment(true, ps, 0, 2 * ps);
    hide Acceptable, AllCongruent, CanReserve, PagesDisjoint, ExactlyLoaded, PowerOfTwo;
    hide Up, Aligned, Lowest, Widest, Reserved, Untouched, PhdrsAt, Occupied;
    var mm := new AddressSpace(ps, file, 3);
    var img; ghost var res, len;
    ok, img, res, len := LoadElf(elf, mm, 2 * ps);
    base := img.base;
  }
}

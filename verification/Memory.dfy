/** A process's address space, as the history of the mappings, writes and protection changes made
    to it.  The latest operation that reaches an address decides what is there. */
module Memory {
  import opened Powers

  /** 2^64: addresses are unsigned 64-bit numbers. */
  const WORD: nat := 0x1_0000_0000_0000_0000

  type U64 = x: nat | x < WORD

  /** What unsigned 64-bit arithmetic makes of a sum or a difference. */
  function Wrap(x: int): (r: U64)
    ensures 0 <= x < WORD ==> r == x
    ensures WORD <= x < 2 * WORD ==> r == x - WORD
    ensures 0 - WORD <= x < 0 ==> r == x + WORD
  {
    x % WORD
  }

  datatype Prot = Prot(read: bool, write: bool, exec: bool)

  const NONE: Prot := Prot(false, false, false)

  datatype Op =
    | MapFile(start: nat, len: nat, prot: Prot, off: nat)
    | MapAnon(start: nat, len: nat, prot: Prot)
    | Protect(start: nat, len: nat, prot: Prot)
    | Clear(start: nat, len: nat)

  type Log = seq<Op>

  /** Mappings and protections reach whole pages; writes exactly their bytes. */
  function Reach(op: Op, ps: nat): (n: nat)
    requires ps > 0
    ensures n >= op.len
  {
    if op.Clear? then op.len else Up(op.len, ps)
  }

  predicate Covers(op: Op, ps: nat, x: nat)
    requires ps > 0
  {
    op.start <= x < op.start + Reach(op, ps)
  }

  datatype Content = Unmapped | Byte(b: int)

  /** A byte of the file, or zero after its end. */
  function FileByte(file: seq<int>, i: int): int {
    if 0 <= i < |file| then file[i] else 0
  }

  function Value(log: Log, file: seq<int>, ps: nat, x: nat): Content
    requires ps > 0
    decreases |log|
  {
    if |log| == 0 then Unmapped else
    var op, rest := log[|log| - 1], log[..|log| - 1];
    if op.Protect? || !Covers(op, ps, x) then Value(rest, file, ps, x)
    else if op.MapFile? then Byte(FileByte(file, op.off + (x - op.start)))
    else Byte(0)
  }

  function Access(log: Log, ps: nat, x: nat): Prot
    requires ps > 0
    decreases |log|
  {
    if |log| == 0 then NONE else
    var op, rest := log[|log| - 1], log[..|log| - 1];
    if op.Clear? || !Covers(op, ps, x) then Access(rest, ps, x) else op.prot
  }

  predicate Within(op: Op, ps: nat, lo: int, hi: int)
    requires ps > 0
  {
    lo <= op.start && op.start + Reach(op, ps) <= hi
  }

  predicate AllWithin(ops: Log, ps: nat, lo: int, hi: int)
    requires ps > 0
  {
    forall op :: op in ops ==> Within(op, ps, lo, hi)
  }

  /** Operations that stay inside an interval leave everything outside as it was. */
  lemma {:induction false} OutsideUnchanged(log: Log, more: Log, file: seq<int>, ps: nat, lo: int, hi: int, x: nat)
    requires ps > 0 && AllWithin(more, ps, lo, hi) && !(lo <= x < hi)
    ensures Value(log + more, file, ps, x) == Value(log, file, ps, x)
    ensures Access(log + more, ps, x) == Access(log, ps, x)
    decreases |more|
  {
    if |more| == 0 {
      assert log + more == log;
    } else {
      var n := |more| - 1;
      assert Within(more[n], ps, lo, hi);
      assert (log + more)[..|log| + n] == log + more[..n];
      OutsideUnchanged(log, more[..n], file, ps, lo, hi, x);
    }
  }

  lemma Latest(log: Log, op: Op, file: seq<int>, ps: nat, x: nat)
    requires ps > 0
    ensures Covers(op, ps, x) && op.MapFile? ==>
      Value(log + [op], file, ps, x) == Byte(FileByte(file, op.off + (x - op.start)))
    ensures Covers(op, ps, x) && (op.MapAnon? || op.Clear?) ==> Value(log + [op], file, ps, x) == Byte(0)
    ensures Covers(op, ps, x) && !op.Clear? ==> Access(log + [op], ps, x) == op.prot
    ensures !Covers(op, ps, x) || op.Protect? ==> Value(log + [op], file, ps, x) == Value(log, file, ps, x)
    ensures !Covers(op, ps, x) || op.Clear? ==> Access(log + [op], ps, x) == Access(log, ps, x)
  {
    assert (log + [op])[..|log|] == log;
  }

  predicate Maps(op: Op) { op.MapFile? || op.MapAnon? }

  /** Some mapping was made over this address. */
  ghost predicate Occupied(log: Log, ps: nat, x: nat)
    requires ps > 0
  {
    exists op :: op in log && Maps(op) && Covers(op, ps, x)
  }

  /** No mapping was made over any of these addresses. */
  predicate FreeRange(log: Log, ps: nat, lo: int, hi: int)
    requires ps > 0
  {
    forall op :: op in log && Maps(op) ==> op.start + Reach(op, ps) <= lo || hi <= op.start
  }

  class AddressSpace {
    var log: Log
    /** How many more mapping calls succeed. */
    var budget: nat
    const ps: nat
    const file: seq<int>

    predicate Valid() { PowerOfTwo(ps) && ps <= 0x4000_0000 }

    constructor (ps: nat, file: seq<int>, budget: nat)
      ensures this.ps == ps && this.file == file && this.budget == budget && log == []
    {
      this.ps, this.file, this.budget := ps, file, budget;
      log := [];
    }

    /** Reserve `len` bytes at an address that is page-aligned, in range and free: the one the kernel
        picks, or the one asked for with MAP_FIXED_NOREPLACE. */
    method Reserve(len: U64, pick: U64) returns (ok: bool)
      requires Valid()
      modifies this
      ensures ok <==>
        old(budget) > 0 && len > 0 && Aligned(pick, ps) && pick + Up(len, ps) <= WORD &&
        FreeRange(old(log), ps, pick, pick + Up(len, ps))
      ensures ok ==> log == old(log) + [MapAnon(pick, len, NONE)] && budget == old(budget) - 1
      ensures !ok ==> log == old(log)
    {
      if budget == 0 || len == 0 || !Aligned(pick, ps) || pick + Up(len, ps) > WORD { return false; }
      if !FreeRange(log, ps, pick, pick + Up(len, ps)) { return false; }
      budget := budget - 1;
      log := log + [MapAnon(pick, len, NONE)];
      return true;
    }

    /** MAP_FIXED: from the file, which needs a page-aligned offset. */
    method MapFixedFile(start: U64, len: U64, prot: Prot, off: U64) returns (ok: bool)
      requires Valid()
      modifies this
      ensures ok <==>
        old(budget) > 0 && len > 0 && Aligned(start, ps) && Aligned(off, ps) && start + Up(len, ps) <= WORD
      ensures ok ==> log == old(log) + [MapFile(start, len, prot, off)] && budget == old(budget) - 1
      ensures !ok ==> log == old(log)
    {
      if budget == 0 || len == 0 || !Aligned(start, ps) || !Aligned(off, ps) ||
        start + Up(len, ps) > WORD { return false; }
      budget := budget - 1;
      log := log + [MapFile(start, len, prot, off)];
      return true;
    }

    method MapFixedAnon(start: U64, len: U64, prot: Prot) returns (ok: bool)
      requires Valid()
      modifies this
      ensures ok <==> old(budget) > 0 && len > 0 && Aligned(start, ps) && start + Up(len, ps) <= WORD
      ensures ok ==> log == old(log) + [MapAnon(start, len, prot)] && budget == old(budget) - 1
      ensures !ok ==> log == old(log)
    {
      if budget == 0 || len == 0 || !Aligned(start, ps) || start + Up(len, ps) > WORD { return false; }
      budget := budget - 1;
      log := log + [MapAnon(start, len, prot)];
      return true;
    }

    method Mprotect(start: U64, prot: Prot)
      requires Valid() && Aligned(start, ps)
      modifies this
      ensures log == old(log) + [Protect(start, ps, prot)] && budget == old(budget)
    {
      log := log + [Protect(start, ps, prot)];
    }

    /** memset to zero: every byte must be writable. */
    method Memset(start: U64, len: U64)
      requires Valid() && forall x :: start <= x < start + len ==> Access(log, ps, x).write
      modifies this
      ensures log == old(log) + [Clear(start, len)] && budget == old(budget)
    {
      log := log + [Clear(start, len)];
    }
  }
}

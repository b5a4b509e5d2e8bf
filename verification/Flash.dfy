/** The on-chip flash with its unequal sectors, and the erase-then-program write routine. */
module Flash {
  import opened Bytes

  const ADDR_FLASH_SECTOR_0: nat := 0x0800_0000
  const ADDR_FLASH_SECTOR_1: nat := 0x0800_4000
  const ADDR_FLASH_SECTOR_2: nat := 0x0800_8000
  const ADDR_FLASH_SECTOR_3: nat := 0x0800_C000
  const ADDR_FLASH_SECTOR_4: nat := 0x0801_0000
  const ADDR_FLASH_SECTOR_5: nat := 0x0802_0000
  const ADDR_FLASH_SECTOR_6: nat := 0x0804_0000
  const ADDR_FLASH_SECTOR_7: nat := 0x0806_0000
  const ADDR_FLASH_SECTOR_8: nat := 0x0808_0000
  const ADDR_FLASH_SECTOR_9: nat := 0x080A_0000
  const ADDR_FLASH_SECTOR_10: nat := 0x080C_0000
  const ADDR_FLASH_SECTOR_11: nat := 0x080E_0000

  const FLASH_SIZE: nat := 0x10_0000
  const FLASH_END: nat := ADDR_FLASH_SECTOR_0 + FLASH_SIZE
  const ERASED: byte := 0xFF

  type Image = m: seq<byte> | |m| == FLASH_SIZE witness seq(FLASH_SIZE, _ => 0)

  /** Sector of a flash offset: four of 16K, one of 64K, seven of 128K. */
  function SectorIndex(off: nat): (k: nat)
    requires off < FLASH_SIZE
    ensures k < 12
  {
    if off < 0x1_0000 then off / 0x4000
    else if off < 0x2_0000 then 4
    else 4 + off / 0x2_0000
  }

  /** Code the flash controller uses for sector k. */
  function SectorCode(k: nat): nat {
    8 * k
  }

  /** The branch chain of the firmware gives the sector that contains the address. */
  function GetFlashSector(addr: nat): (code: nat)
    ensures ADDR_FLASH_SECTOR_0 <= addr < FLASH_END ==>
              code == SectorCode(SectorIndex(addr - ADDR_FLASH_SECTOR_0))
    ensures addr < ADDR_FLASH_SECTOR_0 ==> code == SectorCode(0)
    ensures addr >= FLASH_END ==> code == SectorCode(11)
  {
    if addr < ADDR_FLASH_SECTOR_1 then 0x00
    else if addr < ADDR_FLASH_SECTOR_2 then 0x08
    else if addr < ADDR_FLASH_SECTOR_3 then 0x10
    else if addr < ADDR_FLASH_SECTOR_4 then 0x18
    else if addr < ADDR_FLASH_SECTOR_5 then 0x20
    else if addr < ADDR_FLASH_SECTOR_6 then 0x28
    else if addr < ADDR_FLASH_SECTOR_7 then 0x30
    else if addr < ADDR_FLASH_SECTOR_8 then 0x38
    else if addr < ADDR_FLASH_SECTOR_9 then 0x40
    else if addr < ADDR_FLASH_SECTOR_10 then 0x48
    else if addr < ADDR_FLASH_SECTOR_11 then 0x50
    else 0x58
  }

  /** Bitwise AND of the low `bits` bits. */
  function And(a: nat, b: nat, bits: nat): nat {
    if bits == 0 then 0 else (a % 2) * (b % 2) + 2 * And(a / 2, b / 2, bits - 1)
  }

  function Pow2(n: nat): nat {
    if n == 0 then 1 else 2 * Pow2(n - 1)
  }

  lemma {:induction false} AndBound(a: nat, b: nat, bits: nat)
    ensures And(a, b, bits) < Pow2(bits)
  {
    if bits == 0 {
    } else {
      AndBound(a / 2, b / 2, bits - 1);
      assert (a % 2) * (b % 2) <= 1;
    }
  }

  /** Programming can only clear bits, so it stores a value exactly into erased cells. */
  lemma {:induction false} AndWithOnes(b: nat, bits: nat)
    requires b < Pow2(bits)
    ensures And(Pow2(bits) - 1, b, bits) == b
  {
    if bits == 0 {
    } else {
      assert (Pow2(bits) - 1) / 2 == Pow2(bits - 1) - 1;
      AndWithOnes(b / 2, bits - 1);
    }
  }

  lemma Pow2Of8()
    ensures Pow2(8) == 256
  {
    assert Pow2(4) == 16;
  }

  function ProgramCell(cell: byte, value: byte): byte {
    AndBound(cell, value, 8);
    Pow2Of8();
    And(cell, value, 8)
  }

  /** What a read of an address outside the twelve sectors meets: no memory, or some byte. */
  datatype Cell = NoMemory | Holds(value: byte)

  /**
   The flash controller; operations may fail at any time. `outside` is what the rest of the
   address space holds; RAM, for one, can be read there.
   */
  class FlashDevice {
    var mem: Image
    const outside: nat -> Cell

    constructor (initial: Image, outside: nat -> Cell)
      ensures mem == initial && this.outside == outside
    {
      mem := initial;
      this.outside := outside;
    }

    /** A read anywhere from the first sector on. */
    function ReadCell(addr: nat): Cell
      requires ADDR_FLASH_SECTOR_0 <= addr
      reads this
    {
      if addr < FLASH_END then Holds(ReadByte(addr)) else outside(addr)
    }

    function ReadByte(addr: nat): byte
      requires ADDR_FLASH_SECTOR_0 <= addr < FLASH_END
      reads this
    {
      mem[addr - ADDR_FLASH_SECTOR_0]
    }

    /** A completed erase sets the sector to ones; a failed one may leave anything in it. */
    method EraseSector(code: nat) returns (complete: bool)
      modifies this
      ensures complete ==> mem == EraseImage(old(mem), code)
      ensures forall i :: 0 <= i < FLASH_SIZE && SectorCode(SectorIndex(i)) != code ==> mem[i] == old(mem)[i]
    {
      complete := *;
      if complete {
        mem := EraseImage(mem, code);
      } else {
        var junk: Image := *;
        mem := SpoilImage(mem, code, junk);
      }
    }

    /** A completed program clears bits of one cell; a failed one may leave anything in it. */
    method ProgramByte(addr: nat, value: byte) returns (complete: bool)
      requires ADDR_FLASH_SECTOR_0 <= addr < FLASH_END
      modifies this
      ensures complete ==>
                mem == old(mem)[addr - ADDR_FLASH_SECTOR_0 :=
                                ProgramCell(old(mem)[addr - ADDR_FLASH_SECTOR_0], value)]
      ensures forall i :: 0 <= i < FLASH_SIZE && i != addr - ADDR_FLASH_SECTOR_0 ==> mem[i] == old(mem)[i]
    {
      complete := *;
      var off := addr - ADDR_FLASH_SECTOR_0;
      var x: byte := *;
      if complete {
        x := ProgramCell(mem[off], value);
      }
      mem := SetByte(mem, off, x);
    }
  }

  function SetByte(m: Image, off: nat, x: byte): Image
    requires off < FLASH_SIZE
  {
    m[off := x]
  }

  function SpoilImage(m: Image, code: nat, junk: Image): Image {
    seq(FLASH_SIZE, i requires 0 <= i < FLASH_SIZE => if SectorCode(SectorIndex(i)) == code then junk[i] else m[i])
  }

  function EraseImage(m: Image, code: nat): Image {
    seq(FLASH_SIZE, i requires 0 <= i < FLASH_SIZE => if SectorCode(SectorIndex(i)) == code then ERASED else m[i])
  }

  // ----- what a write leaves behind, without saying how

  predicate SameSector(a: nat, b: nat)
    requires a < FLASH_SIZE && b < FLASH_SIZE
  {
    SectorIndex(a) == SectorIndex(b)
  }

  /** The sector of offset i holds a byte of [lo, hi) that is not erased. */
  ghost predicate Dirty(m: Image, lo: nat, hi: nat, i: nat)
    requires hi <= FLASH_SIZE && i < FLASH_SIZE
  {
    exists a :: lo <= a < hi && m[a] != ERASED && SameSector(a, i)
  }

  /** The image with the dirty sectors of [lo, hi) erased and nothing else touched. */
  ghost function Cleared(m: Image, lo: nat, hi: nat): Image
    requires hi <= FLASH_SIZE
  {
    seq(FLASH_SIZE, i requires 0 <= i < FLASH_SIZE => ClearedByte(m, lo, hi, i))
  }

  ghost function ClearedByte(m: Image, lo: nat, hi: nat, i: nat): byte
    requires hi <= FLASH_SIZE && i < FLASH_SIZE
  {
    if Dirty(m, lo, hi, i) then ERASED else m[i]
  }

  /** The image after the first `k` bytes of `data` were written, the rest of its place only cleared. */
  ghost function Written(m: Image, lo: nat, data: seq<byte>, k: nat): Image
    requires lo + |data| <= FLASH_SIZE && k <= |data|
  {
    seq(FLASH_SIZE, i requires 0 <= i < FLASH_SIZE =>
      if lo <= i < lo + k then data[i - lo] else ClearedByte(m, lo, lo + |data|, i))
  }

  /**
   How a write ends. `at` counts from the first sector on. `Fault`: a read met no memory.
   `Endless`: the byte at `at` is not blank and no erase makes it so.
   */
  datatype Outcome =
    | BadAddress
    | Empty
    | Elsewhere
    | Fault(at: nat)
    | Endless(at: nat)
    | EraseFailed(at: nat)
    | ProgramFailed(k: nat)
    | Complete

  /** Relation between the images before and after writing `data` at offset `lo`, inside the flash. */
  ghost predicate WriteEffect(m: Image, lo: nat, data: seq<byte>, outcome: Outcome, m': Image)
    requires lo + |data| <= FLASH_SIZE
  {
    match outcome
    case EraseFailed(at) => at < lo + |data| && EraseStopped(m, lo, at, m')
    case ProgramFailed(k) => k < |data| && ProgramStopped(m, lo, data, k, m')
    case Complete => m' == Written(m, lo, data, |data|)
    case _ => false
  }

  /**
   Everything before `at` was made blank, and the byte at `at` was the first of its sector that is
   not; its own sector may hold anything.
   */
  ghost predicate EraseStopped(m: Image, lo: nat, at: nat, m': Image) {
    && lo <= at < FLASH_SIZE
    && Cleared(m, lo, at)[at] != ERASED
    && forall i :: 0 <= i < FLASH_SIZE && SectorIndex(i) != SectorIndex(at) ==> m'[i] == Cleared(m, lo, at)[i]
  }

  /** The first k bytes are in place, and the cell of the next may hold anything. */
  ghost predicate ProgramStopped(m: Image, lo: nat, data: seq<byte>, k: nat, m': Image)
    requires lo + |data| <= FLASH_SIZE && k <= |data|
  {
    forall i :: 0 <= i < FLASH_SIZE && i != lo + k ==> m'[i] == Written(m, lo, data, k)[i]
  }

  // ----- the same for a target that reaches behind the last sector

  /** Every byte of [lo, hi) behind the last sector can be read and is blank. */
  ghost predicate BlankOutside(outside: nat -> Cell, lo: nat, hi: nat) {
    forall a :: lo <= a < hi && FLASH_SIZE <= a ==> CellAt(outside, a) == Holds(ERASED)
  }

  function CellAt(outside: nat -> Cell, a: nat): Cell {
    outside(ADDR_FLASH_SECTOR_0 + a)
  }

  function Clip(hi: nat): nat {
    if hi < FLASH_SIZE then hi else FLASH_SIZE
  }

  /** What the erase loop leaves of the range [lo, hi). */
  ghost predicate EraseEffect(outside: nat -> Cell, m: Image, lo: nat, hi: nat, outcome: Outcome, m': Image) {
    match outcome
    case Complete => BlankOutside(outside, lo, hi) && m' == Cleared(m, lo, Clip(hi))
    case EraseFailed(at) =>
      lo <= at < hi && if at < FLASH_SIZE then EraseStopped(m, lo, at, m') else LastSectorLost(outside, m, lo, at, m')
    case Endless(at) =>
      && lo <= at < hi && FLASH_SIZE <= at && LastSectorLost(outside, m, lo, at, m')
      && m' == EraseImage(Cleared(m, lo, FLASH_SIZE), SectorCode(11))
    case Fault(at) =>
      && lo <= at < hi && FLASH_SIZE <= at
      && BlankOutside(outside, lo, at) && CellAt(outside, at) == NoMemory
      && m' == Cleared(m, lo, FLASH_SIZE)
    case _ => false
  }

  /** The byte at `at` is the first behind the last sector that is not blank; the last sector pays for it. */
  ghost predicate LastSectorLost(outside: nat -> Cell, m: Image, lo: nat, at: nat, m': Image) {
    && BlankOutside(outside, lo, at)
    && CellAt(outside, at) != NoMemory && CellAt(outside, at) != Holds(ERASED)
    && forall i :: 0 <= i < FLASH_SIZE && SectorIndex(i) != 11 ==> m'[i] == Cleared(m, lo, FLASH_SIZE)[i]
  }

  /** The part of the data that lies in the flash. */
  function Inside(lo: nat, data: seq<byte>): (part: seq<byte>)
    requires lo + |data| > FLASH_SIZE
    ensures lo + |part| <= FLASH_SIZE || part == []
  {
    if lo < FLASH_SIZE then data[..FLASH_SIZE - lo] else []
  }

  /** Programming begins only if everything behind the last sector is blank, and then leaves the flash for it. */
  ghost predicate StrayEffect(outside: nat -> Cell, m: Image, lo: nat, data: seq<byte>, outcome: Outcome, m': Image)
    requires lo + |data| > FLASH_SIZE
  {
    var part := Inside(lo, data);
    match outcome
    case Elsewhere =>
      && BlankOutside(outside, lo, lo + |data|)
      && m' == if part == [] then m else Written(m, lo, part, |part|)
    case ProgramFailed(k) =>
      && BlankOutside(outside, lo, lo + |data|)
      && k < |part| && ProgramStopped(m, lo, part, k, m')
    case Complete => false
    case _ => EraseEffect(outside, m, lo, lo + |data|, outcome, m')
  }

  lemma ClearedRangeIsErased(m: Image, lo: nat, hi: nat, a: nat)
    requires lo <= a < hi <= FLASH_SIZE
    ensures Cleared(m, lo, hi)[a] == ERASED
  {
    if m[a] != ERASED { assert SameSector(a, a) && Dirty(m, lo, hi, a); }
  }

  lemma ClearedErase(m: Image, lo: nat, a: nat)
    requires lo <= a < FLASH_SIZE
    requires Cleared(m, lo, a)[a] != ERASED
    ensures m[a] != ERASED
    ensures EraseImage(Cleared(m, lo, a), SectorCode(SectorIndex(a))) == Cleared(m, lo, a + 1)
  {
    forall i | 0 <= i < FLASH_SIZE
      ensures Dirty(m, lo, a + 1, i) <==> Dirty(m, lo, a, i) || SameSector(a, i)
    {
      if b :| lo <= b < a && m[b] != ERASED && SameSector(b, i) {
        assert Dirty(m, lo, a + 1, i);
      }
      if SameSector(a, i) { assert Dirty(m, lo, a + 1, i); }
    }
  }

  lemma ClearedSkip(m: Image, lo: nat, a: nat)
    requires lo <= a < FLASH_SIZE
    requires Cleared(m, lo, a)[a] == ERASED
    ensures Cleared(m, lo, a) == Cleared(m, lo, a + 1)
  {
    forall i | 0 <= i < FLASH_SIZE
      ensures Dirty(m, lo, a + 1, i) <==> Dirty(m, lo, a, i)
    {
      if b :| lo <= b < a && m[b] != ERASED && SameSector(b, i) {
        assert Dirty(m, lo, a + 1, i);
      }
      if m[a] != ERASED && SameSector(a, i) {
        assert SameSector(a, a) && Dirty(m, lo, a, a);
        var b :| lo <= b < a && m[b] != ERASED && SameSector(b, a);
        assert Dirty(m, lo, a, i);
      }
    }
  }

  lemma ClearedNothing(m: Image, lo: nat, hi: nat)
    requires hi <= lo && hi <= FLASH_SIZE
    ensures Cleared(m, lo, hi) == m
  {
  }

  /**
   An endless loop has cost the whole last sector. It goes on with the same address, code and
   image, because the byte that stops it lies elsewhere.
   */
  lemma EndlessRepeats(outside: nat -> Cell, m: Image, lo: nat, hi: nat, at: nat, m': Image)
    requires EraseEffect(outside, m, lo, hi, Endless(at), m')
    ensures forall i :: 0 <= i < FLASH_SIZE && SectorIndex(i) == 11 ==> m'[i] == ERASED
    ensures GetFlashSector(ADDR_FLASH_SECTOR_0 + at) == SectorCode(11)
    ensures EraseImage(m', SectorCode(11)) == m'
    ensures outside(ADDR_FLASH_SECTOR_0 + at) == CellAt(outside, at) != Holds(ERASED)
  {
  }

  /** With everything before `at` blank: the image, and whether the byte at `at` was already seen to. */
  ghost predicate Passed(m0: Image, lo: nat, at: nat, seen: nat, m: Image) {
    && Clip(at) <= seen <= FLASH_SIZE
    && m == Cleared(m0, lo, seen)
    && (seen == Clip(at) || (seen == at + 1 && m[at] == ERASED))
  }

  lemma PassedErased(m0: Image, lo: nat, at: nat, seen: nat, m: Image)
    requires lo <= at < FLASH_SIZE && Passed(m0, lo, at, seen, m) && m[at] != ERASED
    ensures m == Cleared(m0, lo, at)
    ensures Passed(m0, lo, at, at + 1, EraseImage(m, SectorCode(SectorIndex(at))))
  {
    ClearedErase(m0, lo, at);
    ClearedRangeIsErased(m0, lo, at + 1, at);
  }

  lemma PassedBlank(m0: Image, lo: nat, at: nat, seen: nat, m: Image) returns (seen': nat)
    requires lo <= at < FLASH_SIZE && Passed(m0, lo, at, seen, m) && m[at] == ERASED
    ensures seen' == at + 1 && Passed(m0, lo, at + 1, seen', m)
  {
    seen' := at + 1;
    if seen == at {
      ClearedSkip(m0, lo, at);
    }
  }

  /** Erases the sector taken for that of a byte that is not blank; behind the last sector this is no help. */
  method EraseFor(dev: FlashDevice, addrx: nat, ghost m0: Image, ghost lo: nat, ghost hi: nat, ghost seen: nat)
      returns (outcome: Outcome)
    requires ADDR_FLASH_SECTOR_0 + lo <= addrx < ADDR_FLASH_SECTOR_0 + hi
    requires dev.ReadCell(addrx) != NoMemory && dev.ReadCell(addrx) != Holds(ERASED)
    requires BlankOutside(dev.outside, lo, addrx - ADDR_FLASH_SECTOR_0)
    requires Passed(m0, lo, addrx - ADDR_FLASH_SECTOR_0, seen, dev.mem)
    modifies dev
    ensures outcome.Complete? ==>
              && addrx < FLASH_END && dev.ReadByte(addrx) == ERASED
              && Passed(m0, lo, addrx - ADDR_FLASH_SECTOR_0, addrx - ADDR_FLASH_SECTOR_0 + 1, dev.mem)
    ensures !outcome.Complete? ==> EraseEffect(dev.outside, m0, lo, hi, outcome, dev.mem)
  {
    ghost var at := addrx - ADDR_FLASH_SECTOR_0;
    if at < FLASH_SIZE {
      PassedErased(m0, lo, at, seen, dev.mem);
    } else {
      assert CellAt(dev.outside, at) == dev.ReadCell(addrx);
    }
    var complete := dev.EraseSector(GetFlashSector(addrx));
    if !complete {
      return EraseFailed(addrx - ADDR_FLASH_SECTOR_0);
    }
    return if addrx >= FLASH_END then Endless(addrx - ADDR_FLASH_SECTOR_0) else Complete;
  }

  /**
   The erase loop: a byte is passed only once it is blank, and a dirty one costs its sector;
   for addresses behind the last sector that is the last one, which does not help.
   */
  method EraseDirtySectors(dev: FlashDevice, faddr: nat, endaddr: nat) returns (outcome: Outcome)
    requires ADDR_FLASH_SECTOR_0 <= faddr <= endaddr
    modifies dev
    ensures EraseEffect(dev.outside, old(dev.mem), faddr - ADDR_FLASH_SECTOR_0, endaddr - ADDR_FLASH_SECTOR_0,
                        outcome, dev.mem)
  {
    var addrx := faddr;
    ghost var m0, lo := dev.mem, faddr - ADDR_FLASH_SECTOR_0;
    ghost var seen: nat := Clip(lo);
    ClearedNothing(m0, lo, seen);
    while addrx < endaddr
      invariant faddr <= addrx <= endaddr && seen <= Clip(endaddr - ADDR_FLASH_SECTOR_0)
      invariant BlankOutside(dev.outside, lo, addrx - ADDR_FLASH_SECTOR_0)
      invariant Passed(m0, lo, addrx - ADDR_FLASH_SECTOR_0, seen, dev.mem)
      decreases endaddr - addrx, addrx < FLASH_END && dev.ReadByte(addrx) != ERASED
    {
      ghost var at := addrx - ADDR_FLASH_SECTOR_0;
      var cell := dev.ReadCell(addrx);
      assert at >= FLASH_SIZE ==> CellAt(dev.outside, at) == cell;
      if cell == NoMemory {
        return Fault(addrx - ADDR_FLASH_SECTOR_0);
      }
      if cell.value != ERASED {
        outcome := EraseFor(dev, addrx, m0, lo, endaddr - ADDR_FLASH_SECTOR_0, seen);
        if !outcome.Complete? {
          return;
        }
        seen := at + 1;
      } else {
        if at < FLASH_SIZE { seen := PassedBlank(m0, lo, at, seen, dev.mem); }
        addrx := addrx + 1;
      }
    }
    return Complete;
  }

  /** One more byte programmed into its blank cell. */
  lemma WrittenNext(m0: Image, lo: nat, data: seq<byte>, k: nat)
    requires lo + |data| <= FLASH_SIZE && k < |data|
    ensures var m := Written(m0, lo, data, k);
            m[lo + k := ProgramCell(m[lo + k], data[k])] == Written(m0, lo, data, k + 1)
  {
    ClearedRangeIsErased(m0, lo, lo + |data|, lo + k);
    Pow2Of8();
    AndWithOnes(data[k], 8);
    assert Written(m0, lo, data, k)[lo + k] == ERASED;
  }

  /** The program loop over cells that are blank already. */
  method ProgramBytes(dev: FlashDevice, faddr: nat, data: seq<byte>, ghost m0: Image) returns (k: nat)
    requires ADDR_FLASH_SECTOR_0 <= faddr && faddr + |data| <= FLASH_END
    requires dev.mem == Written(m0, faddr - ADDR_FLASH_SECTOR_0, data, 0)
    modifies dev
    ensures k <= |data|
    ensures k == |data| ==> dev.mem == Written(m0, faddr - ADDR_FLASH_SECTOR_0, data, k)
    ensures ProgramStopped(m0, faddr - ADDR_FLASH_SECTOR_0, data, k, dev.mem)
  {
    k := 0;
    ghost var lo := faddr - ADDR_FLASH_SECTOR_0;
    while k < |data|
      invariant k <= |data|
      invariant dev.mem == Written(m0, lo, data, k)
    {
      WrittenNext(m0, lo, data, k);
      var complete := dev.ProgramByte(faddr + k, data[k]);
      if !complete {
        return;
      }
      k := k + 1;
    }
  }

  /** End of the target range, in 32 bits. */
  function EndAddr(faddr: nat, n: nat): nat {
    (faddr + n) % 0x1_0000_0000
  }

  /**
   Erases the sectors of the target range that are not blank there, then programs byte by
   byte. The C routine returns nothing; `outcome` tells which of its exits was taken, or that
   it takes none. A range whose 32-bit end does not lie behind its start is empty to both loops.
   From 0x1FFF0000 on nothing is erased and cells outside the twelve sectors are programmed.
   */
  method WriteFlash(dev: FlashDevice, faddr: nat, data: seq<byte>) returns (outcome: Outcome)
    requires faddr < 0x1_0000_0000 && |data| < 0x1_0000_0000
    modifies dev
    ensures outcome == BadAddress <==> faddr < 0x0800_0000
    ensures outcome == Empty <==> faddr >= 0x0800_0000 && (data == [] || faddr + |data| >= 0x1_0000_0000)
    ensures outcome.BadAddress? || outcome.Empty? || faddr >= 0x1FFF_0000 ==> dev.mem == old(dev.mem)
    ensures faddr >= 0x1FFF_0000 && !outcome.Empty? ==> outcome == Elsewhere
    ensures 0x0800_0000 <= faddr < faddr + |data| <= 0x0810_0000 ==>
              WriteEffect(old(dev.mem), faddr - 0x0800_0000, data, outcome, dev.mem)
    ensures 0x0800_0000 <= faddr < 0x1FFF_0000 && !outcome.Empty? && faddr + |data| > 0x0810_0000 ==>
              StrayEffect(dev.outside, old(dev.mem), faddr - 0x0800_0000, data, outcome, dev.mem)
  {
    if faddr < ADDR_FLASH_SECTOR_0 {
      return BadAddress;
    }
    var endaddr := EndAddr(faddr, |data|);
    if endaddr <= faddr {
      return Empty;
    }
    if faddr >= 0x1FFF_0000 {
      return Elsewhere;
    }
    outcome := EraseDirtySectors(dev, faddr, endaddr);
    if outcome.Complete? {
      outcome := ProgramRange(dev, faddr, data, old(dev.mem));
    }
  }

  /** The program loop; what lies behind the last sector is not part of the flash. */
  method ProgramRange(dev: FlashDevice, faddr: nat, data: seq<byte>, ghost m0: Image) returns (outcome: Outcome)
    requires ADDR_FLASH_SECTOR_0 <= faddr
    requires EraseEffect(dev.outside, m0, faddr - ADDR_FLASH_SECTOR_0, faddr - ADDR_FLASH_SECTOR_0 + |data|, Complete, dev.mem)
    modifies dev
    ensures var lo := faddr - ADDR_FLASH_SECTOR_0;
            if lo + |data| <= FLASH_SIZE then WriteEffect(m0, lo, data, outcome, dev.mem)
            else StrayEffect(dev.outside, m0, lo, data, outcome, dev.mem)
  {
    ghost var lo := faddr - ADDR_FLASH_SECTOR_0;
    var stray := faddr + |data| > FLASH_END;
    var part := if stray then Inside(faddr - ADDR_FLASH_SECTOR_0, data) else data;
    if stray && part == [] {
      ClearedNothing(m0, lo, FLASH_SIZE);
      return Elsewhere;
    }
    assert dev.mem == Written(m0, lo, part, 0);
    var k := ProgramBytes(dev, faddr, part, m0);
    outcome := if k < |part| then ProgramFailed(k) else if stray then Elsewhere else Complete;
  }

  /** The target range [lo, hi) has a byte in the sector of offset i. */
  ghost predicate Meets(lo: nat, hi: nat, i: nat)
    requires hi <= FLASH_SIZE && i < FLASH_SIZE
  {
    exists a :: lo <= a < hi && SameSector(a, i)
  }

  lemma NotMet(m: Image, lo: nat, hi: nat, i: nat)
    requires hi <= FLASH_SIZE && i < FLASH_SIZE
    requires !Meets(lo, hi, i)
    ensures i < lo || hi <= i
    ensures forall h :: 0 <= h <= hi ==> !Dirty(m, lo, h, i)
  {
    assert SameSector(i, i);
  }

  /**
   Whatever the outcome, no byte of a sector that the target range does not meet changes; when
   no erase fails, a byte outside the range is unchanged unless its sector had to be erased.
   */
  lemma WriteLocality(m: Image, lo: nat, data: seq<byte>, outcome: Outcome, m': Image, i: nat)
    requires lo + |data| <= FLASH_SIZE && i < FLASH_SIZE
    requires WriteEffect(m, lo, data, outcome, m')
    ensures !Meets(lo, lo + |data|, i) ==> m'[i] == m[i]
    ensures (outcome.ProgramFailed? || outcome.Complete?) && !(lo <= i < lo + |data|) ==>
              m'[i] == if Dirty(m, lo, lo + |data|, i) then ERASED else m[i]
  {
    if !Meets(lo, lo + |data|, i) {
      NotMet(m, lo, lo + |data|, i);
      match outcome {
        case EraseFailed(at) =>
          assert !SameSector(at, i);
          assert m'[i] == Cleared(m, lo, at)[i];
        case ProgramFailed(k) =>
          assert m'[i] == Written(m, lo, data, k)[i];
        case Complete => assert m'[i] == ClearedByte(m, lo, lo + |data|, i);
      }
    }
  }
}

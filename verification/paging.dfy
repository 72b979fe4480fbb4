/** `PhysAddr::clear_page`: zeroing one 4096-byte page of physical memory.
    The raw pointer write is replaced by an abstract memory, a map from
    physical byte addresses to byte values; addresses absent from the map
    are bytes the model knows nothing about. The address is used as the
    pointer unchanged (an identity mapping), and address 0 is treated like
    any other aligned address. */
module Paging {
  import opened Wrappers
  import opened MachineWord
  import opened Addresses

  /** `PAGE_SIZE`. */
  const PAGE_SIZE: nat := 4096

  /** Physical memory, byte by byte. */
  type Memory = map<Word, bv8>

  /** `addr` is the first byte of a page. */
  predicate PageAligned(addr: PhysAddr)
  {
    addr.value % PAGE_SIZE == 0
  }

  /** Byte address `k` lies in the page starting at `addr`. */
  predicate InPage(k: nat, addr: PhysAddr)
  {
    addr.value <= k < addr.value + PAGE_SIZE
  }

  /** The byte addresses of the page starting at `addr`. */
  function PageAddresses(addr: PhysAddr): set<Word>
  {
    set k: Word | InPage(k, addr)
  }

  /** A page that starts at an aligned address ends inside the address
      space: the 4096 bytes written by `clear_page` never run past the last
      `usize` address. */
  lemma AlignedPageFits(addr: PhysAddr)
    requires PageAligned(addr)
    ensures addr.value + PAGE_SIZE <= WORD_MODULUS
  {
    var q := addr.value / PAGE_SIZE;
    assert addr.value == q * PAGE_SIZE;
    assert WORD_MODULUS == 0x10_0000_0000_0000 * PAGE_SIZE;
    assert q < 0x10_0000_0000_0000;
  }

  /** `PhysAddr::clear_page`: an address that is not the start of a page is
      rejected with `Err(())` and memory is left alone; otherwise the 4096
      bytes from the address are set to zero, one byte at a time as
      `write_bytes` does, and every other byte keeps its value. */
  method ClearPage(mem: Memory, addr: PhysAddr) returns (r: Result<(), ()>, mem': Memory)
    ensures r.Err? <==> !PageAligned(addr)
    ensures r.Err? ==> mem' == mem
    ensures r.Ok? ==> forall k: Word :: InPage(k, addr) ==> k in mem' && mem'[k] == 0
    ensures forall k :: k in mem && !InPage(k, addr) ==> k in mem' && mem'[k] == mem[k]
    ensures forall k :: k in mem' ==> k in mem || InPage(k, addr)
    ensures r.Ok? ==> mem' == ZeroedPage(mem, addr)
  {
    if addr.value % PAGE_SIZE != 0 {
      return Err(()), mem;
    }
    AlignedPageFits(addr);
    mem' := mem;
    var i := 0;
    while i < PAGE_SIZE
      invariant 0 <= i <= PAGE_SIZE
      invariant forall k: Word :: addr.value <= k < addr.value + i ==> k in mem' && mem'[k] == 0
      invariant forall k :: k in mem && !InPage(k, addr) ==> k in mem' && mem'[k] == mem[k]
      invariant forall k :: k in mem' ==> k in mem || InPage(k, addr)
    {
      mem' := mem'[addr.value + i := 0];
      i := i + 1;
    }
    assert mem'.Keys == ZeroedPage(mem, addr).Keys;
    r := Ok(());
  }

  /** The memory that results from zeroing the page at `addr`, stated as a
      whole: page bytes are zero, all other bytes are as before. */
  function ZeroedPage(mem: Memory, addr: PhysAddr): (m: Memory)
    ensures m.Keys == mem.Keys + PageAddresses(addr)
  {
    map k: Word | k in mem || InPage(k, addr) :: if InPage(k, addr) then 0 else mem[k]
  }

  /** Zeroing a page a second time changes nothing. */
  lemma ZeroedPageIdempotent(mem: Memory, addr: PhysAddr)
    ensures ZeroedPage(ZeroedPage(mem, addr), addr) == ZeroedPage(mem, addr)
  {
  }
}

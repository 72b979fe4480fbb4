/** Relocation: during early boot every virtual address, raw pointer and
    reference the emulator holds to itself is shifted once by the constant
    `EMULATOR_BASE`, moving it from the low addresses it was linked at
    (pre-relocation base 0) into the upper half of the virtual address
    space. All implementations of `Relocatable` are the same arithmetic on
    an address; this module states it once and relates the kinds to each
    other. */
module Relocation {
  import opened Wrappers
  import opened MachineWord
  import opened Addresses

  /** `EMULATOR_BASE`: where the emulator resides after relocation. */
  const EMULATOR_BASE: VirtAddr := VirtAddr(0xffff_8000_0000_0000)

  /** 2^47: the first address that relocation cannot shift without leaving
      the `usize` range, since `EMULATOR_BASE` is 2^64 - 2^47. */
  const LOW_HALF_END: nat := 0x8000_0000_0000

  /** `w` can be relocated: it lies below 2^47. */
  predicate InLowHalf(w: Word)
  {
    w < LOW_HALF_END
  }

  /** `w` lies in the upper half, at or above `EMULATOR_BASE`. */
  predicate InUpperHalf(w: Word)
  {
    EMULATOR_BASE.value <= w
  }

  // ---------------------------------------------------------------------
  // Virtual addresses

  /** `<VirtAddr as Relocatable>::relocate`, i.e. `*self += EMULATOR_BASE`,
      in a debug build: the derived `AddAssign` adds the wrapped words and
      panics on overflow, which is `None` here. It succeeds exactly on the
      low half and lands in the upper half, `EMULATOR_BASE` above the
      original address. */
  function TryRelocate(v: VirtAddr): (r: Option<VirtAddr>)
    ensures r.Some? <==> InLowHalf(v.value)
    ensures r.Some? ==> InUpperHalf(r.value.value)
    ensures r.Some? ==> r.value.Sub(EMULATOR_BASE) == Some(v)
  {
    v.Add(EMULATOR_BASE)
  }

  /** Relocation of a virtual address on the low half, where it cannot
      overflow: the result is in the upper half and taking `EMULATOR_BASE`
      away from it gives the original address back. */
  function Relocate(v: VirtAddr): (r: VirtAddr)
    requires InLowHalf(v.value)
    ensures InUpperHalf(r.value)
    ensures r.Sub(EMULATOR_BASE) == Some(v)
  {
    TryRelocate(v).value
  }

  /** Relocation is not idempotent: relocating an already relocated address
      overflows `usize`, so the debug build panics on the second
      application. */
  lemma RelocateTwiceOverflows(v: VirtAddr)
    requires InLowHalf(v.value)
    ensures TryRelocate(Relocate(v)) == None
    ensures !InLowHalf(Relocate(v).value)
  {
  }

  /** Relocation maps the whole low half onto the upper half, one to one and
      in order: distinct addresses stay distinct and `<` is preserved in
      both directions. */
  lemma RelocatePreservesOrder(v: VirtAddr, w: VirtAddr)
    requires InLowHalf(v.value) && InLowHalf(w.value)
    ensures v.Lt(w) <==> Relocate(v).Lt(Relocate(w))
    ensures Relocate(v) == Relocate(w) <==> v == w
  {
  }

  /** Every upper-half address is the relocation of exactly one low-half
      address. */
  lemma RelocateOntoUpperHalf(u: VirtAddr)
    requires InUpperHalf(u.value)
    ensures InLowHalf(u.value - EMULATOR_BASE.value)
    ensures Relocate(VirtAddr(u.value - EMULATOR_BASE.value)) == u
  {
  }

  /** `*self += EMULATOR_BASE` in a release build, where the derived
      `AddAssign` wraps around instead of panicking. On the low half it
      agrees with the debug build; above it, adding 2^64 - 2^47 modulo 2^64
      moves the address 2^47 down. */
  function WrappingRelocate(v: VirtAddr): (r: VirtAddr)
    ensures InLowHalf(v.value) ==> r == Relocate(v)
    ensures !InLowHalf(v.value) ==> r.value + LOW_HALF_END == v.value
  {
    VirtAddr(WrappingAdd(v.value, EMULATOR_BASE.value))
  }

  /** In a release build a second relocation silently shifts the address
      by twice the base, modulo 2^64, and never leaves it where it was: no
      address is a fixed point of relocation, so a repeated pass always
      corrupts the value. */
  lemma WrappingRelocateTwice(v: VirtAddr)
    ensures WrappingRelocate(WrappingRelocate(v)).value
         == (v.value + 2 * EMULATOR_BASE.value) % WORD_MODULUS
    ensures WrappingRelocate(v) != v
    ensures WrappingRelocate(WrappingRelocate(v)) != WrappingRelocate(v)
  {
  }

  // ---------------------------------------------------------------------
  // Raw pointers and references

  /** The four pointer-like implementors of `Relocatable`: `*const T`,
      `*mut T`, `&T` and `&mut T`. The pointee type plays no part in the
      address arithmetic and is left out. */
  datatype PointerKind = ConstPtr | MutPtr | SharedRef | MutRef

  /** A pointer or reference, reduced to its kind and its byte address. */
  datatype Pointer = Pointer(kind: PointerKind, addr: Word)

  /** The safety contract of `pointer::byte_add(count)` as far as it concerns
      addresses: the offset must fit in an `isize` and the result must not
      wrap around the end of the address space. */
  predicate ByteAddDefined(p: Pointer, count: Word)
  {
    count <= ISIZE_MAX && p.addr + count < WORD_MODULUS
  }

  /** `pointer::byte_add(count)` where its contract holds: the same kind of
      pointer, `count` bytes further on. */
  function ByteAdd(p: Pointer, count: Word): (r: Pointer)
    requires ByteAddDefined(p, count)
    ensures r.kind == p.kind
    ensures r.addr - p.addr == count
  {
    Pointer(p.kind, p.addr + count)
  }

  /** The relocation of pointers and references, written as
      `self.byte_add(EMULATOR_BASE.0)`, is outside the contract of
      `byte_add` for every pointer: the offset 0xffff_8000_0000_0000 does not
      fit in an `isize`. */
  lemma PointerRelocationBreaksByteAdd(p: Pointer)
    ensures !ByteAddDefined(p, EMULATOR_BASE.value)
  {
  }

  /** `pointer::wrapping_byte_add(count)`: address arithmetic modulo 2^64,
      defined for every offset. Where `byte_add` is defined the two agree. */
  function WrappingByteAdd(p: Pointer, count: Word): (r: Pointer)
    ensures r.kind == p.kind
    ensures ByteAddDefined(p, count) ==> r == ByteAdd(p, count)
    ensures r.addr == WrappingAdd(p.addr, count)
  {
    Pointer(p.kind, WrappingAdd(p.addr, count))
  }

  /** Relocation of a raw pointer or a reference, with the address
      arithmetic done by `wrapping_byte_add`: the kind is kept and the byte
      address moves exactly as a `VirtAddr` with that value does, in a
      release build everywhere and in a debug build on the low half. */
  function RelocatePointer(p: Pointer): (r: Pointer)
    ensures r.kind == p.kind
    ensures r.addr == WrappingRelocate(VirtAddr(p.addr)).value
    ensures InLowHalf(p.addr) ==> r.addr == Relocate(VirtAddr(p.addr)).value
  {
    WrappingByteAdd(p, EMULATOR_BASE.value)
  }

  // ---------------------------------------------------------------------
  // The `Relocatable` capability

  /** A value of any type that implements `Relocatable`. */
  datatype Relocatable = Virt(v: VirtAddr) | Ptr(p: Pointer)

  /** The position in the emulator's virtual address space that the value
      holds. */
  function Position(x: Relocatable): Word
  {
    match x
    case Virt(v) => v.value
    case Ptr(p) => p.addr
  }

  /** `Relocatable::relocate` on a value holding a low-half position: the
      value keeps its type (and pointer kind) and its position moves up by
      exactly `EMULATOR_BASE` into the upper half, whatever the type. */
  function RelocateValue(x: Relocatable): (r: Relocatable)
    requires InLowHalf(Position(x))
    ensures r.Virt? <==> x.Virt?
    ensures r.Ptr? ==> r.p.kind == x.p.kind
    ensures Position(r) == Position(x) + EMULATOR_BASE.value
    ensures InUpperHalf(Position(r))
  {
    match x
    case Virt(v) => Virt(Relocate(v))
    case Ptr(p) => Ptr(RelocatePointer(p))
  }

  /** Relocation is one uniform translation: two values of any types that
      held the same position before relocation hold the same position
      after it. */
  lemma RelocationIsUniform(x: Relocatable, y: Relocatable)
    requires InLowHalf(Position(x)) && Position(x) == Position(y)
    ensures Position(RelocateValue(x)) == Position(RelocateValue(y))
    ensures !InLowHalf(Position(RelocateValue(x)))
  {
  }

  /** A mutable place holding a relocatable value, on which
      `relocate(&mut self)` acts in place. */
  class Slot {
    var content: Relocatable

    constructor (initial: Relocatable)
      ensures content == initial
    {
      content := initial;
    }

    /** `relocate(&mut self)`: replaces the held value by its relocation. */
    method Relocate()
      requires InLowHalf(Position(content))
      modifies this
      ensures content == RelocateValue(old(content))
    {
      content := RelocateValue(content);
    }
  }
}

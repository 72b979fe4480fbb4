# Memory-manager core of a bare-metal emulator, modelled in Dafny

This project models the address layer of the emulator's memory manager
(`src/mem_manager/mod.rs`):

- the two address newtypes `PhysAddr` and `VirtAddr`, each wrapping one
  64-bit `usize`, with their derived ordering, addition, subtraction and
  `Into<usize>`, and their `Debug` rendering (`p`/`v` tag, then `{:#018x}`);
- `PhysAddr::clear_page`, which refuses an address that is not the start of a
  4096-byte page and otherwise zeroes that page;
- relocation: the `Relocatable` capability, by which every virtual address,
  raw pointer and reference the emulator holds to itself is shifted once by
  `EMULATOR_BASE = 0xffff_8000_0000_0000` into the upper half of the address
  space during early boot;
- `ByteSize` and its `Display`, which prints a byte count in MiB, KiB or
  bytes with truncating division.

Files, one module each:

| file | module | contents |
|---|---|---|
| wrappers.dfy | `Wrappers` | `Option`, `Result` |
| machine_word.dfy | `MachineWord` | the 64-bit word, `cmp`, checked and wrapping `+`/`-` |
| numerals.dfy | `Numerals` | decimal and lowercase hexadecimal rendering, parsing back, zero padding |
| addresses.dfy | `Addresses` | `PhysAddr`, `VirtAddr`, their derived operations and `Debug` |
| paging.dfy | `Paging` | `PAGE_SIZE`, `clear_page` over an abstract memory |
| relocation.dfy | `Relocation` | `EMULATOR_BASE`, relocation of addresses, pointers and references |
| byte_size.dfy | `ByteSizes` | `ByteSize` and its `Display` |

Modelling decisions:

- `usize` is the 64-bit word of the target: `Word` is a `nat` below 2^64.
- The derived `+` and `-` on the wrapped `usize` panic on overflow in a debug
  build. `Add` and `Sub` therefore return an `Option`, and `None` stands for
  the panic. `+=` and `-=` are the same functions with the result stored
  back. For relocation, the release-build behaviour (wrap-around modulo
  2^64) is modelled as well, because it shows what a repeated relocation
  does.
- Physical memory is a `map<Word, bv8>`. `clear_page`'s raw write
  `write_bytes(0, PAGE_SIZE)` becomes a loop that stores zero at each of the
  4096 addresses.
- A raw pointer or reference is modelled as its kind (`*const T`, `*mut T`,
  `&T` or `&mut T`) plus its byte address. All five `Relocatable`
  implementations are one function, `Relocation.RelocateValue`, over a
  datatype that holds either a `VirtAddr` or a pointer. `Relocation.Slot`
  is a mutable holder whose `Relocate` method changes the value in place, as
  `relocate(&mut self)` does.
- `Relocation.RelocatePointer` does its arithmetic with `wrapping_byte_add`
  (`Relocation.WrappingByteAdd`), not with the `byte_add` the code calls.
  `byte_add(EMULATOR_BASE.0)` is outside `byte_add`'s safety contract (see
  Findings).
- Formatting functions return `string`.

Overflow:

- Address `+` and `-` take their overflow policy from `usize`, which is
  checked in a debug build.
- A second relocation overflows `usize`. A debug build panics
  (`Relocation.RelocateTwiceOverflows`). Only a release build gives
  `v + 2 * base`, modulo 2^64 (`Relocation.WrappingRelocateTwice`).

## Model

| member | source | states |
|---|---|---|
| MachineWord.CheckedAdd | src/mem_manager/mod.rs:13 | derived `+` on the wrapped `usize` succeeds exactly when the sum stays below 2^64 |
| MachineWord.CheckedSub | src/mem_manager/mod.rs:13 | derived `-` on the wrapped `usize` succeeds exactly when it does not underflow |
| MachineWord.WrappingAdd | src/mem_manager/mod.rs:58 | release-build `+` is the true sum, or the sum less 2^64 when that overflows |
| MachineWord.AddThenSub | src/mem_manager/mod.rs:13 | subtracting `b` undoes a non-overflowing addition of `b` |
| MachineWord.SubThenAdd | src/mem_manager/mod.rs:13 | adding `b` back undoes a non-underflowing subtraction of `b` |
| MachineWord.SubDefinedIffNotLess | src/mem_manager/mod.rs:13 | subtraction is defined exactly when the minuend is not less than the subtrahend in the `usize` order |
| MachineWord.Cmp | src/mem_manager/mod.rs:12 | `cmp` on `usize` is `Less`, `Equal` or `Greater` exactly as the first word is below, equal to or above the second |
| MachineWord.CmpIsTotalOrder | src/mem_manager/mod.rs:12 | `cmp` on `usize` reports `Equal` exactly for equal words; it is antisymmetric, total and transitive |
| Addresses.PhysAddr.Into | src/mem_manager/mod.rs:13-14 | `Into<usize>` returns the word the address was built from |
| Addresses.VirtAddr.Into | src/mem_manager/mod.rs:17-18 | `Into<usize>` returns the word the address was built from |
| Addresses.PhysAddr.Add | src/mem_manager/mod.rs:13-14 | `PhysAddr + PhysAddr` is defined exactly without overflow; the result is the sum of the wrapped words |
| Addresses.PhysAddr.Sub | src/mem_manager/mod.rs:13-14 | `PhysAddr - PhysAddr` is defined exactly when the left side is not below the right; the result is the difference of the wrapped words |
| Addresses.VirtAddr.Add | src/mem_manager/mod.rs:17-18 | `VirtAddr + VirtAddr` is defined exactly without overflow; the result is the sum of the wrapped words |
| Addresses.VirtAddr.Sub | src/mem_manager/mod.rs:17-18 | `VirtAddr - VirtAddr` is defined exactly when the left side is not below the right; the result is the difference of the wrapped words |
| Addresses.PhysAddr.Cmp | src/mem_manager/mod.rs:12 | derived `cmp` on physical addresses is `Equal` exactly for equal addresses and `Less` exactly when the wrapped word is smaller |
| Addresses.PhysAddr.Lt | src/mem_manager/mod.rs:12 | derived `<` on physical addresses holds exactly when the wrapped word is smaller |
| Addresses.PhysAddr.Le | src/mem_manager/mod.rs:12 | derived `<=` on physical addresses holds exactly when the wrapped word is not larger |
| Addresses.VirtAddr.Cmp | src/mem_manager/mod.rs:16 | derived `cmp` on virtual addresses is `Equal` exactly for equal addresses and `Less` exactly when the wrapped word is smaller |
| Addresses.VirtAddr.Lt | src/mem_manager/mod.rs:16 | derived `<` on virtual addresses holds exactly when the wrapped word is smaller |
| Addresses.VirtAddr.Le | src/mem_manager/mod.rs:16 | derived `<=` on virtual addresses holds exactly when the wrapped word is not larger |
| Addresses.PhysOrderIsTotal | src/mem_manager/mod.rs:12 | the derived order on physical addresses is total: `cmp` flips with its arguments, `<=` is `<` or equality, any two are comparable, `<` is transitive |
| Addresses.VirtOrderIsTotal | src/mem_manager/mod.rs:16 | the derived order on virtual addresses is total: `cmp` flips with its arguments, `<=` is `<` or equality, any two are comparable, `<` is transitive |
| Addresses.PhysAddSubInverse | src/mem_manager/mod.rs:13-14 | physical `+ b` and `- b` undo each other whenever they are defined |
| Addresses.VirtAddSubInverse | src/mem_manager/mod.rs:17-18 | virtual `+ b` and `- b` undo each other whenever they are defined |
| Addresses.TaggedHexFormat | src/mem_manager/mod.rs:32-41 | a one-letter tag before `{:#018x}` of any `usize` gives 19 characters: the tag, `0x`, and 16 lowercase hexadecimal digits that read back as the value |
| Addresses.PhysAddr.Debug | src/mem_manager/mod.rs:32-36 | physical `Debug` is `p0x` and then 16 hexadecimal digits that parse back to the address, 19 characters in all |
| Addresses.VirtAddr.Debug | src/mem_manager/mod.rs:37-41 | virtual `Debug` is `v0x` and then 16 hexadecimal digits that parse back to the address, 19 characters in all |
| Addresses.DebugDistinguishes | src/mem_manager/mod.rs:32-41 | `Debug` is injective on each address kind, and a physical address never prints like a virtual one |
| Addresses.VirtDebugExample | src/mem_manager/mod.rs:39 | the virtual address 0xffff800000000000 prints as `v0xffff800000000000` |
| Addresses.PhysDebugExample | src/mem_manager/mod.rs:34 | the physical address 0 prints as `p0x0000000000000000` |
| Numerals.ToDigits | src/mem_manager/mod.rs:34 | the digits `{}` and `{:x}` print are non-empty digits of the base, without leading zeros |
| Numerals.ParseToDigits | src/mem_manager/mod.rs:34 | reading the printed digits back gives the printed number |
| Numerals.ToDigitsLength | src/mem_manager/mod.rs:34 | a number below base^k needs at most k digits, so the zero padding of `{:#018x}` is never exceeded |
| Numerals.ParseLeadingZeros | src/mem_manager/mod.rs:34 | the zero padding of `{:#018x}` does not change the value the digits denote |
| Numerals.AlternateHex | src/mem_manager/mod.rs:34 | `{:#0Wx}` starts with `0x`; for a value that fits in `W - 2` hexadecimal digits it is exactly `W` characters, and the digits read back as the value |
| Numerals.HexFieldFixedWidth | src/mem_manager/mod.rs:34 | a value below 16^k, zero-padded to k hexadecimal digits, has exactly k digits that read back as the value |
| Paging.AlignedPageFits | src/mem_manager/mod.rs:23-26 | a page-aligned address is followed by 4096 bytes that all lie within the 64-bit address space |
| Paging.ClearPage | src/mem_manager/mod.rs:22-29 | `Err` exactly for an unaligned address, and then memory is unchanged; on `Ok` the 4096 bytes from the address are zero, all other bytes keep their values, and the result is the reference `ZeroedPage` |
| Paging.ZeroedPage | src/mem_manager/mod.rs:24-28 | after zeroing, memory covers exactly the old addresses plus the page |
| Paging.ZeroedPageIdempotent | src/mem_manager/mod.rs:24-28 | clearing a page a second time changes nothing |
| Relocation.TryRelocate | src/mem_manager/mod.rs:56-60 | debug-build `*self += EMULATOR_BASE` succeeds exactly below 2^47; the result lies in the upper half, and subtracting the base from it gives the original back |
| Relocation.Relocate | src/mem_manager/mod.rs:43-46 | relocating a low-half address lands in `[EMULATOR_BASE, 2^64)`, and the original is the result minus the base |
| Relocation.RelocateTwiceOverflows | src/mem_manager/mod.rs:58 | relocation is not idempotent: a relocated address is out of the relocatable range, so a second `+=` overflows |
| Relocation.RelocatePreservesOrder | src/mem_manager/mod.rs:56-60 | relocation is injective and preserves `<` in both directions |
| Relocation.RelocateOntoUpperHalf | src/mem_manager/mod.rs:43-46 | every upper-half address is the relocation of a low-half address |
| Relocation.WrappingRelocate | src/mem_manager/mod.rs:58 | release-build `+=` agrees with the debug build on the low half; above it, the address moves 2^47 down |
| Relocation.WrappingRelocateTwice | src/mem_manager/mod.rs:58 | in a release build, relocating twice gives `v + 2 * base` modulo 2^64; no address is left unchanged, so relocating again always changes the value |
| Relocation.ByteAdd | src/mem_manager/mod.rs:64 | `byte_add(count)`, where its safety contract holds, keeps the pointer kind and moves the address exactly `count` bytes |
| Relocation.PointerRelocationBreaksByteAdd | src/mem_manager/mod.rs:62-82 | `byte_add(EMULATOR_BASE.0)` is outside the safety contract of `byte_add` for every pointer |
| Relocation.WrappingByteAdd | src/mem_manager/mod.rs:64 | `wrapping_byte_add` adds modulo 2^64 and agrees with `byte_add` wherever that is defined |
| Relocation.RelocatePointer | src/mem_manager/mod.rs:62-82 | relocating a raw pointer or reference keeps its kind and moves its byte address exactly as relocating a `VirtAddr` of that value does |
| Relocation.RelocateValue | src/mem_manager/mod.rs:48-82 | `Relocatable::relocate` keeps the value's type and moves its position up by exactly `EMULATOR_BASE` into the upper half |
| Relocation.RelocationIsUniform | src/mem_manager/mod.rs:52-82 | values of any relocatable type that held one position before relocation hold one position after it, and that position cannot be relocated again |
| Relocation.Slot.Relocate | src/mem_manager/mod.rs:52-54 | `relocate(&mut self)` replaces the held value by its relocation |
| ByteSizes.DivideTwice | src/mem_manager/mod.rs:92 | `n / 1024 / 1024` truncates the same as `n / 1048576` |
| ByteSizes.Display | src/mem_manager/mod.rs:89-98 | `Display` prints the whole-unit count in the largest unit that fits (MiB, then KiB, then bytes), then a space and the unit name |
| ByteSizes.LargestFittingUnitUnique | src/mem_manager/mod.rs:91-97 | the thresholds 1048576 and 1024 select the one largest unit that fits |
| ByteSizes.DisplayedCountBounds | src/mem_manager/mod.rs:91-97 | the printed count is the truncated quotient; it is at least 1 for a non-zero size, and below 1024 unless the unit is MiB |
| ByteSizes.DisplayRoundTrip | src/mem_manager/mod.rs:89-98 | reading a rendering back gives the chosen unit and the truncated count |
| ByteSizes.DisplayExamplesBytes | src/mem_manager/mod.rs:95-96 | 0 prints as "0 bytes" and 1023 as "1023 bytes" |
| ByteSizes.DisplayExamplesUnits | src/mem_manager/mod.rs:91-94 | 1024 prints as "1 KiB", 1048575 as "1023 KiB" and 1048576 as "1 MiB" |

## Left out

- The raw write in `clear_page` (`ptr.write_bytes`) is replaced by an abstract memory map. The model does not say whether the page is mapped, owned by the caller, or accessed concurrently.
- Reference relocation is modelled only as address arithmetic. Whether a live `T` exists at the shifted address is a property of the boot-time memory move, which is outside this file.
- The submodules `phys` and `virt` are not part of this model.
- The derives `Default`, `Hash`, `Clone` and `Copy` are not modelled. Neither are the `derive_more` and `core::fmt::Formatter` machinery and the `fmt::Result` of a failing formatter.
- The pointee type `T` of pointers and references is not modelled. `byte_add` counts bytes, so `size_of::<T>()` plays no part.
- Release-build wrap-around of address `+` and `-` is not modelled. It appears only in relocation, where it shows what a repeated relocation does.
- `ByteSize`'s derived `Debug` prints `ByteSize(n)` and is not modelled. Its derived `Add`, `Sub` and ordering are not modelled separately: they are the same derives on a wrapped `usize` as those of the address types. `ByteSize` has no `Into`.
- `Paging.ClearPage` assumes the identity mapping: the physical address is used directly as the pointer `self.0 as *mut u8`, so the memory map is indexed by the address number. That `PhysAddr(0)` passes the alignment test and then writes through a null pointer is not modelled.
- The guarantee that the boot sequence relocates each value exactly once is not modelled. It lives in the callers of `Relocatable`, outside this file.

## Findings

| source | as written | input that shows it | evidently intended | confidence | as-written member | corrected member |
|---|---|---|---|---|---|---|
| src/mem_manager/mod.rs:62-82 | pointers and references are relocated with `byte_add(EMULATOR_BASE.0)`; the safety contract of `byte_add` requires the byte offset to fit in an `isize` | any pointer, e.g. a `*const u8` at 0x1000: the offset 0xffff_8000_0000_0000 exceeds `isize::MAX` = 0x7fff_ffff_ffff_ffff, so the call is undefined behaviour | plain address arithmetic modulo 2^64, as `wrapping_byte_add` performs it, which moves a low-half pointer exactly `EMULATOR_BASE` up | medium, not executed | Relocation.PointerRelocationBreaksByteAdd | Relocation.RelocatePointer |

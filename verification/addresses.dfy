/** The two address newtypes `PhysAddr` and `VirtAddr`. Each wraps one
    `usize`; ordering, addition, subtraction and the conversion into `usize`
    are derived from the wrapped word, and `Debug` prints the word in
    fixed-width hexadecimal behind a one-letter tag. Being distinct
    datatypes, the two kinds can never be compared, added or converted into
    each other. */
module Addresses {
  import opened Wrappers
  import opened MachineWord
  import Numerals

  /** `{:#018x}`: the width of the hexadecimal field of `Debug`, prefix
      included. */
  const DEBUG_HEX_WIDTH: nat := 18

  /** A physical address. */
  datatype PhysAddr = PhysAddr(value: Word)
  {
    /** `Into<usize>`. */
    function Into(): (r: Word)
      ensures PhysAddr(r) == this
    {
      value
    }

    /** The derived `Ord::cmp`, which compares the wrapped words. */
    function Cmp(other: PhysAddr): (o: Ordering)
      ensures o == Equal <==> this == other
      ensures o == Less <==> value < other.value
    {
      MachineWord.Cmp(value, other.value)
    }

    /** `<` as derived `PartialOrd` answers it, from `cmp`. */
    predicate Lt(other: PhysAddr)
      ensures Lt(other) <==> value < other.value
    {
      Cmp(other) == Less
    }

    /** `<=` as derived `PartialOrd` answers it, from `cmp`. */
    predicate Le(other: PhysAddr)
      ensures Le(other) <==> value <= other.value
    {
      Cmp(other) != Greater
    }

    /** The derived `Add` (and `AddAssign`): adds the wrapped words; `None`
        is the overflow panic of a debug build. */
    function Add(other: PhysAddr): (r: Option<PhysAddr>)
      ensures r.Some? <==> value + other.value < WORD_MODULUS
      ensures r.Some? ==> r.value.value - other.value == value
    {
      match CheckedAdd(value, other.value)
      case Some(w) => Some(PhysAddr(w))
      case None => None
    }

    /** The derived `Sub` (and `SubAssign`): subtracts the wrapped words;
        `None` is the underflow panic of a debug build. */
    function Sub(other: PhysAddr): (r: Option<PhysAddr>)
      ensures r.Some? <==> !Lt(other)
      ensures r.Some? ==> r.value.value + other.value == value
    {
      match CheckedSub(value, other.value)
      case Some(w) => Some(PhysAddr(w))
      case None => None
    }

    /** `Debug`: "p" followed by `{:#018x}` of the wrapped word, which is
        "p0x" and then 16 lowercase hexadecimal digits whose value is the
        address. */
    function Debug(): (s: string)
      ensures |s| == 19 && s[..3] == "p0x"
      ensures Numerals.AllDigits(s[3..], 16)
      ensures Numerals.ParseDigits(s[3..], 16) == value
    {
      TaggedHexFormat('p', value);
      "p" + Numerals.AlternateHex(value, DEBUG_HEX_WIDTH)
    }
  }

  /** A virtual address. */
  datatype VirtAddr = VirtAddr(value: Word)
  {
    /** `Into<usize>`. */
    function Into(): (r: Word)
      ensures VirtAddr(r) == this
    {
      value
    }

    /** The derived `Ord::cmp`, which compares the wrapped words. */
    function Cmp(other: VirtAddr): (o: Ordering)
      ensures o == Equal <==> this == other
      ensures o == Less <==> value < other.value
    {
      MachineWord.Cmp(value, other.value)
    }

    /** `<` as derived `PartialOrd` answers it, from `cmp`. */
    predicate Lt(other: VirtAddr)
      ensures Lt(other) <==> value < other.value
    {
      Cmp(other) == Less
    }

    /** `<=` as derived `PartialOrd` answers it, from `cmp`. */
    predicate Le(other: VirtAddr)
      ensures Le(other) <==> value <= other.value
    {
      Cmp(other) != Greater
    }

    /** The derived `Add` (and `AddAssign`): adds the wrapped words; `None`
        is the overflow panic of a debug build. */
    function Add(other: VirtAddr): (r: Option<VirtAddr>)
      ensures r.Some? <==> value + other.value < WORD_MODULUS
      ensures r.Some? ==> r.value.value - other.value == value
    {
      match CheckedAdd(value, other.value)
      case Some(w) => Some(VirtAddr(w))
      case None => None
    }

    /** The derived `Sub` (and `SubAssign`): subtracts the wrapped words;
        `None` is the underflow panic of a debug build. */
    function Sub(other: VirtAddr): (r: Option<VirtAddr>)
      ensures r.Some? <==> !Lt(other)
      ensures r.Some? ==> r.value.value + other.value == value
    {
      match CheckedSub(value, other.value)
      case Some(w) => Some(VirtAddr(w))
      case None => None
    }

    /** `Debug`: "v" followed by `{:#018x}` of the wrapped word, which is
        "v0x" and then 16 lowercase hexadecimal digits whose value is the
        address. */
    function Debug(): (s: string)
      ensures |s| == 19 && s[..3] == "v0x"
      ensures Numerals.AllDigits(s[3..], 16)
      ensures Numerals.ParseDigits(s[3..], 16) == value
    {
      TaggedHexFormat('v', value);
      "v" + Numerals.AlternateHex(value, DEBUG_HEX_WIDTH)
    }
  }

  /** The derived order on physical addresses is a total order: `cmp`
      flips with its arguments, `<=` is `<` or equality, any two addresses
      are comparable, and `<` is transitive. */
  lemma PhysOrderIsTotal(a: PhysAddr, b: PhysAddr, c: PhysAddr)
    ensures a.Cmp(b) == Less <==> b.Cmp(a) == Greater
    ensures a.Le(b) <==> a.Lt(b) || a == b
    ensures a.Le(b) || b.Le(a)
    ensures a.Lt(b) && b.Lt(c) ==> a.Lt(c)
  {
  }

  /** The derived order on virtual addresses is a total order: `cmp` flips
      with its arguments, `<=` is `<` or equality, any two addresses are
      comparable, and `<` is transitive. */
  lemma VirtOrderIsTotal(a: VirtAddr, b: VirtAddr, c: VirtAddr)
    ensures a.Cmp(b) == Less <==> b.Cmp(a) == Greater
    ensures a.Le(b) <==> a.Lt(b) || a == b
    ensures a.Le(b) || b.Le(a)
    ensures a.Lt(b) && b.Lt(c) ==> a.Lt(c)
  {
  }

  /** Subtracting what was added gives the physical address back, and
      adding back what was subtracted does too. */
  lemma PhysAddSubInverse(a: PhysAddr, b: PhysAddr)
    ensures a.Add(b).Some? ==> a.Add(b).value.Sub(b) == Some(a)
    ensures a.Sub(b).Some? ==> a.Sub(b).value.Add(b) == Some(a)
  {
  }

  /** Subtracting what was added gives the virtual address back, and adding
      back what was subtracted does too. */
  lemma VirtAddSubInverse(a: VirtAddr, b: VirtAddr)
    ensures a.Add(b).Some? ==> a.Add(b).value.Sub(b) == Some(a)
    ensures a.Sub(b).Some? ==> a.Sub(b).value.Add(b) == Some(a)
  {
  }

  /** 16 hexadecimal digits cover every `usize`. */
  lemma HexDigitsCoverWord()
    ensures Numerals.Pow(16, 16) == WORD_MODULUS
  {
    assert Numerals.Pow(16, 4) == 0x1_0000;
    assert Numerals.Pow(16, 8) == 0x1_0000_0000 by {
      Numerals.PowAdd(16, 4, 4);
    }
    Numerals.PowAdd(16, 8, 8);
  }

  /** What both `Debug` impls print for a word behind their one-letter
      tag: 19 characters, the tag, "0x", and 16 lowercase hexadecimal
      digits that read back as the word. */
  lemma TaggedHexFormat(tag: char, w: Word)
    ensures var s := [tag] + Numerals.AlternateHex(w, DEBUG_HEX_WIDTH);
      && |s| == 19 && s[0] == tag && s[1..3] == "0x"
      && Numerals.AllDigits(s[3..], 16)
      && Numerals.ParseDigits(s[3..], 16) == w
  {
    HexDigitsCoverWord();
    var hex := Numerals.AlternateHex(w, DEBUG_HEX_WIDTH);
    var s := [tag] + hex;
    assert s[1..3] == hex[..2];
    assert s[3..] == hex[2..];
  }

  /** `Debug` tells addresses apart: equal renderings mean equal addresses
      of the same kind, and a physical address never renders like a virtual
      one. */
  lemma DebugDistinguishes(p: PhysAddr, q: PhysAddr, v: VirtAddr, w: VirtAddr)
    ensures p.Debug() == q.Debug() ==> p == q
    ensures v.Debug() == w.Debug() ==> v == w
    ensures p.Debug() != v.Debug()
  {
    assert p.Debug()[..3][0] == 'p' && v.Debug()[..3][0] == 'v';
  }

  /** `Debug` of the relocation base taken as a virtual address. */
  lemma VirtDebugExample()
    ensures VirtAddr(0xffff_8000_0000_0000).Debug() == "v0xffff800000000000"
  {
    BaseHexDigits();
    assert Numerals.HexField(0xffff_8000_0000_0000, 16) == "ffff800000000000";
  }

  /** The minimal hexadecimal digits of 0xffff_8000_0000_0000. */
  lemma BaseHexDigits()
    ensures Numerals.ToDigits(0xffff_8000_0000_0000, 16) == "ffff800000000000"
  {
    LeadingHexDigits();
    SixteenToEleven();
    Numerals.HexShifted(0xffff8, 11);
  }

  /** The minimal hexadecimal digits of 0xffff8. */
  lemma LeadingHexDigits()
    ensures Numerals.ToDigits(0xffff8, 16) == "ffff8"
  {
    Numerals.AppendDigit(0xf, 0xf);
    Numerals.AppendDigit(0xff, 0xf);
    Numerals.AppendDigit(0xfff, 0xf);
    Numerals.AppendDigit(0xffff, 0x8);
  }

  /** 16^11 written out. */
  lemma SixteenToEleven()
    ensures Numerals.Pow(16, 11) == 0x1000_0000_0000
  {
    assert Numerals.Pow(16, 3) == 0x1000;
    assert Numerals.Pow(16, 8) == 0x1_0000_0000 by {
      assert Numerals.Pow(16, 4) == 0x1_0000;
      Numerals.PowAdd(16, 4, 4);
    }
    Numerals.PowAdd(16, 8, 3);
  }

  /** `Debug` of the physical address zero. */
  lemma PhysDebugExample()
    ensures PhysAddr(0).Debug() == "p0x0000000000000000"
  {
    assert Numerals.ToDigits(0, 16) == "0";
    assert Numerals.HexField(0, 16) == "0000000000000000";
  }
}

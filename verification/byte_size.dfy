/** `ByteSize`, a byte count wrapped for display, and its `Display`, which
    picks MiB, KiB or bytes by threshold and truncates the count to whole
    units. */
module ByteSizes {
  import opened Wrappers
  import opened MachineWord
  import Numerals

  /** A byte count. */
  datatype ByteSize = ByteSize(count: Word)

  /** The units `Display` chooses from. */
  datatype Unit = Bytes | KiB | MiB

  /** How many bytes one unit stands for. */
  function UnitSize(u: Unit): nat
  {
    match u
    case Bytes => 1
    case KiB => 1024
    case MiB => 1024 * 1024
  }

  /** What is printed after the number: a space and the unit's name. */
  function UnitSuffix(u: Unit): string
  {
    match u
    case Bytes => " bytes"
    case KiB => " KiB"
    case MiB => " MiB"
  }

  /** `u` is the largest unit of which `n` bytes make at least one whole
      unit, or `Bytes` when there is none (zero bytes). */
  predicate IsLargestFittingUnit(u: Unit, n: nat)
  {
    && (UnitSize(u) <= n || u == Bytes)
    && forall w: Unit :: UnitSize(w) <= n ==> UnitSize(w) <= UnitSize(u)
  }

  /** Dividing by 1024 twice truncates the same as dividing by 1024 * 1024. */
  lemma DivideTwice(n: nat)
    ensures n / 1024 / 1024 == n / (1024 * 1024)
  {
    var q := n / (1024 * 1024);
    var r := n % (1024 * 1024);
    assert n == q * 1024 * 1024 + (r / 1024) * 1024 + r % 1024;
    assert n / 1024 == q * 1024 + r / 1024;
  }

  /** Exactly one unit is the largest that fits any byte count. */
  lemma LargestFittingUnitUnique(n: nat, u: Unit, w: Unit)
    ensures IsLargestFittingUnit(if n >= 1024 * 1024 then MiB else if n >= 1024 then KiB else Bytes, n)
    ensures IsLargestFittingUnit(u, n) && IsLargestFittingUnit(w, n) ==> u == w
  {
  }

  /** `Display for ByteSize`, with `{}` of a `usize` written in decimal:
      the number of whole units of the largest unit that fits, then a space
      and the unit's name. */
  function Display(b: ByteSize): (s: string)
    ensures forall u: Unit :: IsLargestFittingUnit(u, b.count) ==>
      s == Numerals.ToDigits(b.count / UnitSize(u), 10) + UnitSuffix(u)
  {
    var n := b.count;
    var fitting := if n >= 1024 * 1024 then MiB else if n >= 1024 then KiB else Bytes;
    assert forall u: Unit :: IsLargestFittingUnit(u, n) ==> u == fitting by {
      forall u: Unit | IsLargestFittingUnit(u, n)
        ensures u == fitting
      {
        LargestFittingUnitUnique(n, u, fitting);
      }
    }
    DivideTwice(n);
    if n >= 1024 * 1024 then Numerals.ToDigits(n / 1024 / 1024, 10) + " MiB"
    else if n >= 1024 then Numerals.ToDigits(n / 1024, 10) + " KiB"
    else Numerals.ToDigits(n, 10) + " bytes"
  }

  /** The printed number is the byte count truncated to whole units: it is
      at least one unless the count is zero, and below 1024 unless the unit
      is MiB, so no smaller or larger unit would have been chosen. */
  lemma DisplayedCountBounds(n: nat, u: Unit)
    requires IsLargestFittingUnit(u, n)
    ensures (n / UnitSize(u)) * UnitSize(u) <= n < (n / UnitSize(u) + 1) * UnitSize(u)
    ensures n > 0 ==> n / UnitSize(u) >= 1
    ensures u != MiB ==> n / UnitSize(u) < 1024
  {
    assert UnitSize(MiB) <= n ==> u == MiB;
    assert UnitSize(KiB) <= n < UnitSize(MiB) ==> u == KiB;
  }

  /** Reads a decimal number with at least one digit. */
  function ParseNumber(t: string): (r: Option<nat>)
    ensures r.Some? ==> |t| >= 1 && Numerals.AllDigits(t, 10)
  {
    if |t| >= 1 && Numerals.AllDigits(t, 10) then Some(Numerals.ParseDigits(t, 10)) else None
  }

  /** Reads back what `Display` prints: a number, a space and a unit. */
  function ParseDisplay(s: string): Option<(nat, Unit)>
  {
    if |s| >= 6 && s[|s| - 6..] == " bytes" then
      match ParseNumber(s[..|s| - 6])
      case Some(q) => Some((q, Bytes))
      case None => None
    else if |s| >= 4 && s[|s| - 4..] == " KiB" then
      match ParseNumber(s[..|s| - 4])
      case Some(q) => Some((q, KiB))
      case None => None
    else if |s| >= 4 && s[|s| - 4..] == " MiB" then
      match ParseNumber(s[..|s| - 4])
      case Some(q) => Some((q, MiB))
      case None => None
    else None
  }

  /** Reading a display back recovers the unit chosen and the truncated
      count of whole units. */
  lemma DisplayRoundTrip(b: ByteSize, u: Unit)
    requires IsLargestFittingUnit(u, b.count)
    ensures ParseDisplay(Display(b)) == Some((b.count / UnitSize(u), u))
  {
    var q := b.count / UnitSize(u);
    Numerals.ParseToDigits(q, 10);
    ParseUnitSuffix(Numerals.ToDigits(q, 10), u);
  }

  /** A decimal number followed by a space and a unit name reads back as
      that number and unit. */
  lemma ParseUnitSuffix(digits: string, u: Unit)
    requires |digits| >= 1 && Numerals.AllDigits(digits, 10)
    ensures ParseDisplay(digits + UnitSuffix(u)) == Some((Numerals.ParseDigits(digits, 10), u))
  {
    match u
    case Bytes => ParseBytesSuffix(digits);
    case KiB => ParseKiBSuffix(digits);
    case MiB => ParseMiBSuffix(digits);
  }

  /** A decimal number followed by " bytes" reads back. */
  lemma ParseBytesSuffix(digits: string)
    requires |digits| >= 1 && Numerals.AllDigits(digits, 10)
    ensures ParseDisplay(digits + " bytes") == Some((Numerals.ParseDigits(digits, 10), Bytes))
  {
    var s := digits + " bytes";
    assert s[..|s| - 6] == digits;
    assert s[|s| - 6..] == " bytes";
  }

  /** A decimal number followed by " KiB" reads back. */
  lemma ParseKiBSuffix(digits: string)
    requires |digits| >= 1 && Numerals.AllDigits(digits, 10)
    ensures ParseDisplay(digits + " KiB") == Some((Numerals.ParseDigits(digits, 10), KiB))
  {
    var s := digits + " KiB";
    assert s[..|s| - 4] == digits;
    assert s[|s| - 4..] == " KiB";
    assert |s| >= 6 ==> s[|s| - 6..][5] == 'B';
  }

  /** A decimal number followed by " MiB" reads back. */
  lemma ParseMiBSuffix(digits: string)
    requires |digits| >= 1 && Numerals.AllDigits(digits, 10)
    ensures ParseDisplay(digits + " MiB") == Some((Numerals.ParseDigits(digits, 10), MiB))
  {
    var s := digits + " MiB";
    assert s[..|s| - 4] == digits;
    assert s[|s| - 4..] == " MiB";
    assert |s| >= 6 ==> s[|s| - 6..][5] == 'B';
    assert s[|s| - 4..][1] == 'M';
  }

  /** Sample renderings below the KiB threshold. */
  lemma DisplayExamplesBytes()
    ensures Display(ByteSize(0)) == "0 bytes"
    ensures Display(ByteSize(1023)) == "1023 bytes"
  {
    assert Numerals.ToDigits(0, 10) == "0";
    Decimal1023();
  }

  /** Sample renderings at and around the KiB and MiB thresholds. */
  lemma DisplayExamplesUnits()
    ensures Display(ByteSize(1024)) == "1 KiB"
    ensures Display(ByteSize(1048575)) == "1023 KiB"
    ensures Display(ByteSize(1048576)) == "1 MiB"
  {
    assert Numerals.ToDigits(1, 10) == "1";
    Decimal1023();
    assert 1048575 / 1024 == 1023;
    assert 1048576 / 1024 / 1024 == 1;
  }

  /** 1023 in decimal. */
  lemma Decimal1023()
    ensures Numerals.ToDigits(1023, 10) == "1023"
  {
    assert Numerals.ToDigits(10, 10) == "10";
    assert Numerals.ToDigits(102, 10) == "102";
  }
}

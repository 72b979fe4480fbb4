/** The `usize` machine word of the 64-bit target and the derived
    operations the address newtypes delegate to: total ordering, checked
    addition and subtraction (debug build) and wrapping addition (release
    build). */
module MachineWord {
  import opened Wrappers

  /** 2^64: the number of distinct `usize` values on the target. */
  const WORD_MODULUS: nat := 0x1_0000_0000_0000_0000

  /** A `usize` value. */
  type Word = x: nat | x < WORD_MODULUS

  /** The largest `isize` value, 2^63 - 1. */
  const ISIZE_MAX: nat := 0x7fff_ffff_ffff_ffff

  /** `core::cmp::Ordering`. */
  datatype Ordering = Less | Equal | Greater

  /** `Ord::cmp` on `usize`. */
  function Cmp(a: Word, b: Word): (o: Ordering)
    ensures o == Less <==> a < b
    ensures o == Equal <==> a == b
    ensures o == Greater <==> b < a
  {
    if a < b then Less else if a == b then Equal else Greater
  }

  /** `Ord::cmp` on `usize` is a total order: it is antisymmetric, it reports
      `Equal` exactly for equal words, and `Less` is transitive. */
  lemma CmpIsTotalOrder(a: Word, b: Word, c: Word)
    ensures Cmp(a, b) == Equal <==> a == b
    ensures Cmp(a, b) == Less <==> Cmp(b, a) == Greater
    ensures Cmp(a, b) == Less || Cmp(a, b) == Equal || Cmp(b, a) == Less
    ensures Cmp(a, b) == Less && Cmp(b, c) == Less ==> Cmp(a, c) == Less
  {
  }

  /** `a + b` on `usize` in a debug build: `None` is the overflow panic. */
  function CheckedAdd(a: Word, b: Word): (r: Option<Word>)
    ensures r.Some? <==> a + b < WORD_MODULUS
  {
    if a + b < WORD_MODULUS then Some(a + b) else None
  }

  /** `a - b` on `usize` in a debug build: `None` is the underflow panic. */
  function CheckedSub(a: Word, b: Word): (r: Option<Word>)
    ensures r.Some? <==> b <= a
  {
    if b <= a then Some(a - b) else None
  }

  /** `a + b` on `usize` in a release build, where overflow wraps around. */
  function WrappingAdd(a: Word, b: Word): (r: Word)
    ensures r == a + b || r == a + b - WORD_MODULUS
    ensures a + b < WORD_MODULUS ==> r == a + b
  {
    (a + b) % WORD_MODULUS
  }

  /** Subtraction undoes a checked addition that did not overflow. */
  lemma AddThenSub(a: Word, b: Word)
    requires CheckedAdd(a, b).Some?
    ensures CheckedSub(CheckedAdd(a, b).value, b) == Some(a)
  {
  }

  /** Addition undoes a checked subtraction that did not underflow. */
  lemma SubThenAdd(a: Word, b: Word)
    requires CheckedSub(a, b).Some?
    ensures CheckedAdd(CheckedSub(a, b).value, b) == Some(a)
  {
  }

  /** Checked subtraction succeeds exactly when the subtrahend is not
      greater than the minuend in the `usize` order. */
  lemma SubDefinedIffNotLess(a: Word, b: Word)
    ensures CheckedSub(a, b).Some? <==> Cmp(a, b) != Less
  {
  }
}

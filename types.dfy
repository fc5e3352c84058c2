/**
 * The two input-validity descriptors whose legal values can be listed for the
 * operator: an inclusive `usize` range and a two-token confirmation.
 */
module Types {
  import opened Wrappers
  import opened Text

  type Usize = n: nat | n <= USIZE_MAX

  /** The integers lo, lo + 1, ..., hi in ascending order (none when lo > hi), as `lo..=hi`. */
  function Values(lo: nat, hi: nat): (r: seq<nat>)
    ensures |r| == if lo <= hi then hi - lo + 1 else 0
    ensures forall k :: 0 <= k < |r| ==> r[k] == lo + k
    decreases hi + 1 - lo
  {
    if lo > hi then [] else [lo] + Values(lo + 1, hi)
  }

  /** Each value rendered with `to_string`. */
  function Numerals(xs: seq<nat>): seq<string>
  {
    seq(|xs|, k requires 0 <= k < |xs| => NatToString(xs[k]))
  }

  /** Reads each item of a listing back as a `usize`. */
  function ParseNumbers(items: seq<string>): Option<seq<nat>>
  {
    if items == [] then Some([])
    else
      match ParseUsize(items[0])
      case None => None
      case Some(n) =>
        match ParseNumbers(items[1..])
        case None => None
        case Some(rest) => Some([n] + rest)
  }

  /**
   * An inclusive selection range. The datatype constructor plays the part of
   * `RangeUsize::new`, which stores both bounds as given.
   */
  datatype RangeUsize = RangeUsize(lo: Usize, hi: Usize)
  {
    predicate Contains(x: nat) {
      lo <= x <= hi
    }

    /** The legal values as "[lo, lo+1, ..., hi]". */
    function ValidValues(): string {
      "[" + JoinComma(Numerals(Values(lo, hi))) + "]"
    }
  }

  /** A two-valued confirmation, `confirm` or `cancel`. */
  datatype Confirmation = Confirmation(confirm: string, cancel: string)
  {
    /** The canonical yes/no gate. */
    static function YesOrNo(): Confirmation
    {
      Confirmation("yes", "no")
    }

    /** The legal values as "[confirm, cancel]". */
    function ValidValues(): string {
      "[" + confirm + ", " + cancel + "]"
    }
  }

  lemma {:induction false} NumeralsParse(xs: seq<nat>)
    requires forall k :: 0 <= k < |xs| ==> xs[k] <= USIZE_MAX
    ensures ParseNumbers(Numerals(xs)) == Some(xs)
    decreases |xs|
  {
    if xs != [] {
      NumeralRoundTrip(xs[0]);
      NumeralsParse(xs[1..]);
      assert Numerals(xs)[1..] == Numerals(xs[1..]);
      assert [xs[0]] + xs[1..] == xs;
    }
  }

  /**
   * The listing of a range names every integer from lo to hi, ascending, and
   * nothing else: read back, it yields exactly hi - lo + 1 values lo, lo+1, ..., hi.
   */
  lemma RangeListingRoundTrip(r: RangeUsize)
    ensures var items := ParseListing(r.ValidValues());
            && items.Some?
            && |items.value| == (if r.lo <= r.hi then r.hi - r.lo + 1 else 0)
            && ParseNumbers(items.value) == Some(Values(r.lo, r.hi))
  {
    var xs := Values(r.lo, r.hi);
    var ns := Numerals(xs);
    forall k | 0 <= k < |ns| ensures ns[k] != [] && ',' !in ns[k] {
      assert AllDigits(ns[k]);
    }
    ListingRoundTrip(ns);
    NumeralsParse(xs);
  }

  /** An inverted range lists nothing. */
  lemma EmptyRangeListing(r: RangeUsize)
    requires r.lo > r.hi
    ensures r.ValidValues() == "[]"
  {
  }

  lemma RangeListingExample()
    ensures RangeUsize(1, 3).ValidValues() == "[1, 2, 3]"
    ensures RangeUsize(0, 2).ValidValues() == "[0, 1, 2]"
  {
    assert Values(1, 3) == [1, 2, 3];
    assert Values(0, 2) == [0, 1, 2];
  }

  /** A confirmation's listing reads back as its two tokens, confirm first. */
  lemma ConfirmationListingRoundTrip(c: Confirmation)
    requires c.confirm != [] && ',' !in c.confirm
    requires c.cancel != [] && ',' !in c.cancel
    ensures ParseListing(c.ValidValues()) == Some([c.confirm, c.cancel])
  {
    assert JoinComma([c.confirm, c.cancel]) == c.confirm + ", " + c.cancel;
    assert c.ValidValues() == "[" + JoinComma([c.confirm, c.cancel]) + "]";
    ListingRoundTrip([c.confirm, c.cancel]);
  }

  lemma YesOrNoListing()
    ensures Confirmation.YesOrNo().ValidValues() == "[yes, no]"
  {
  }
}

/** Optional indices.

    The triangulator stores "an index or nothing" in a single machine word:
    `OptionIndex` wraps a `usize` and reserves `usize::MAX` for "nothing".
    `Option` is the ordinary optional value the encoding stands for; the rest
    of the model works on `Option<nat>` and relies on the round trip proved
    here.
 */
module OptionIndexes {

  datatype Option<+T> = None | Some(value: T)

  /** The largest 64-bit `usize`, the "no index" sentinel. */
  const USIZE_MAX: nat := 0xFFFF_FFFF_FFFF_FFFF

  /** A `usize` that is either an index or the sentinel `USIZE_MAX`. */
  datatype OptionIndex = OptionIndex(raw: nat)
  {
    /** A value a `usize` can hold. */
    predicate Fits() { raw <= USIZE_MAX }

    /** `is_some`: any value other than the sentinel. */
    predicate IsSome()
    {
      this != NoneIndex()
    }

    /** `is_none`: exactly the sentinel. */
    predicate IsNone()
    {
      this == NoneIndex()
    }

    /** `get`: the decoded optional index. */
    function Get(): (r: Option<nat>)
      ensures r.Some? <==> IsSome()
      ensures r.Some? ==> r.value < USIZE_MAX || !Fits()
    {
      if IsSome() then Some(raw) else None
    }
  }

  /** `OptionIndex::some`; the source asserts the index is not the sentinel. */
  function SomeIndex(idx: nat): (r: OptionIndex)
    requires idx < USIZE_MAX
    ensures r.Fits() && r.IsSome()
    ensures r.Get() == Some(idx)
  {
    OptionIndex(idx)
  }

  /** `OptionIndex::none`: the one `usize` value `some` cannot produce. */
  function NoneIndex(): (r: OptionIndex)
    ensures r.Fits()
    ensures forall o: OptionIndex :: o.Fits() && o != r ==> o.raw < USIZE_MAX
  {
    OptionIndex(USIZE_MAX)
  }

  /** Encodes an optional index (the inverse of `Get`). */
  function Encode(o: Option<nat>): (r: OptionIndex)
    requires o.Some? ==> o.value < USIZE_MAX
    ensures r.Fits()
  {
    match o
    case None => NoneIndex()
    case Some(i) => SomeIndex(i)
  }

  /** `is_some` and `is_none` are complementary on every value. */
  lemma SomeNoneComplementary(x: OptionIndex)
    ensures x.IsSome() != x.IsNone()
    ensures x.IsNone() <==> x.Get() == None
  {
  }

  /** Decoding after encoding gives back the optional index. */
  lemma DecodeEncode(o: Option<nat>)
    requires o.Some? ==> o.value < USIZE_MAX
    ensures Encode(o).Get() == o
  {
  }

  /** Encoding after decoding gives back every value a `usize` can hold. */
  lemma EncodeDecode(x: OptionIndex)
    requires x.Fits()
    ensures x.Get().Some? ==> x.Get().value < USIZE_MAX
    ensures Encode(x.Get()) == x
  {
  }
}

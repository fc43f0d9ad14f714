/** The closed enumeration of filter kinds (`ZimLabs.CoreLib.Common.FilterType`). */
module FilterTypes {

  /** The four filter kinds, in declaration order. */
  datatype FilterType = Contains | Equals | StartsWith | EndsWith

  /** The underlying integer of each member: C# numbers enum members from 0
      in declaration order. */
  function Ordinal(t: FilterType): (n: nat)
    ensures n < 4
  {
    match t
    case Contains => 0
    case Equals => 1
    case StartsWith => 2
    case EndsWith => 3
  }

  /** The member with the given underlying integer. */
  function FromOrdinal(n: nat): (t: FilterType)
    requires n < 4
    ensures Ordinal(t) == n
  {
    if n == 0 then Contains
    else if n == 1 then Equals
    else if n == 2 then StartsWith
    else EndsWith
  }

  /** Ordinals identify members: the four members are pairwise distinct and
      converting to the ordinal and back is the identity. */
  lemma OrdinalRoundTrip(t: FilterType)
    ensures FromOrdinal(Ordinal(t)) == t
  {
  }

  lemma OrdinalInjective(a: FilterType, b: FilterType)
    requires Ordinal(a) == Ordinal(b)
    ensures a == b
  {
  }

  /** `default(FilterType)`: the member whose underlying integer is 0. */
  function DefaultValue(): (t: FilterType)
    ensures Ordinal(t) == 0
  {
    Contains
  }

  /** Every member, listed in declaration order. */
  function AllFilterTypes(): (all: seq<FilterType>)
    ensures |all| == 4
    ensures forall i :: 0 <= i < |all| ==> Ordinal(all[i]) == i
  {
    [Contains, Equals, StartsWith, EndsWith]
  }

  /** The datatype has exactly the four declared members: every value of it
      is one of them. */
  lemma AllFilterTypesExhaustive(t: FilterType)
    ensures t in AllFilterTypes()
  {
  }
}

/**
 * The four prediction calls for an interface, with the index, short name and description
 * each enum constant is built with. Declaration order is the order of `values()`.
 */
module Calls {

  datatype CallType = Bio | Crystal | Gray | NoPrediction
  {
    /** The index the constant is built with. */
    function Index(): nat
    {
      match this
      case Bio => 0
      case Crystal => 1
      case Gray => 2
      case NoPrediction => 3
    }

    /** The short name the constant is built with. */
    function Name(): string
    {
      match this
      case Bio => "bio"
      case Crystal => "xtal"
      case Gray => "gray"
      case NoPrediction => "nopred"
    }

    /** The description the constant is built with. */
    function Description(): string
    {
      match this
      case Bio => "Biological interface"
      case Crystal => "Crystal interface"
      case Gray => "Can not confidently call biological or crystal interface"
      case NoPrediction => "Can not predict, not enough data available"
    }
  }

  /** The constants in declaration order, as `values()` returns them. */
  function Values(): (r: seq<CallType>)
    ensures |r| == 4
  {
    [Bio, Crystal, Gray, NoPrediction]
  }

  /** Each constant sits in `values()` at its own index: the index is its declaration position. */
  lemma IndexIsPosition()
    ensures forall i :: 0 <= i < |Values()| ==> Values()[i].Index() == i
    ensures forall c: CallType :: c.Index() < |Values()| && Values()[c.Index()] == c
  {
  }

  /** Distinct constants have distinct indices and distinct names. */
  lemma IndicesAndNamesDistinct(a: CallType, b: CallType)
    ensures a.Index() == b.Index() <==> a == b
    ensures a.Name() == b.Name() <==> a == b
  {
  }
}

/**
 * `CollectionIndexPair` (src/containers.rs): a register set paired with one
 * index into it.
 */
module Containers {
  import opened RegisterSets

  datatype CollectionIndexPair = CollectionIndexPair(data: Registers, index: nat)
  {
    /** `get_value`: the register at the stored index; an index past the end panics. */
    function GetValue(): (v: Value)
      reads data
      requires index < |data.values|
      ensures v == data.values[index]
    {
      data.GetValueAtIndex(index)
    }

    /** `get_index`: the stored index. */
    function GetIndex(): (i: nat)
      ensures i == index
    {
      index
    }
  }

  /** `CollectionIndexPair::new`: keeps both components as given. */
  function New(data: Registers, index: nat): (p: CollectionIndexPair)
    ensures p.data == data && p.index == index
  {
    CollectionIndexPair(data, index)
  }

  /** Reading a pair back gives what it was built from. */
  lemma NewThenGet(data: Registers, index: nat)
    requires index < |data.values|
    ensures New(data, index).GetIndex() == index
    ensures New(data, index).GetValue() == data.values[index]
  {
  }
}

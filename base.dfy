/**
 * The version handle every collection returns (persistence/base/BasePersistentCollection.java):
 * the shared storage, the step the handle reads at, the step undo stops at and the element
 * count. A handle is a value: none of its fields changes after construction.
 */
module Base {
  import opened Storage

  datatype Handle<C> = Handle(
    nodes: PersistentContent<C>,
    modificationCount: int,       // the step this version reads at
    startModificationCount: int,  // undo does not go below this step
    count: int)                   // kept as given, never checked against the content

  /** The three-argument constructor: the start step is always 0. */
  function Versioned<C>(nodes: PersistentContent<C>, count: int, modificationCount: int): (h: Handle<C>)
    ensures h.nodes == nodes && h.count == count
    ensures h.modificationCount == modificationCount && h.startModificationCount == 0
  {
    Handle(nodes, modificationCount, 0, count)
  }

  /** The no-argument constructor: step 0, start step 0 and count 0 over the given storage. */
  function Initial<C>(nodes: PersistentContent<C>): (h: Handle<C>)
    ensures h.nodes == nodes && h.count == 0
    ensures h.modificationCount == 0 && h.startModificationCount == 0
  {
    Handle(nodes, 0, 0, 0)
  }

  /** The storage has moved past this version: a write must first rebuild the storage. */
  predicate Behind<C>(h: Handle<C>)
    reads h.nodes, h.nodes.maxModification
  {
    h.nodes.maxModification.value > h.modificationCount
  }
}

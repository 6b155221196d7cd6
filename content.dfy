/**
 * Persistent content (persistence/base/PersistentContent.java): the storage a family of
 * collection versions shares, together with the modification counter it bumps on every
 * update. The counter is an object of its own, so several contents can share one.
 */
module Storage {
  /** ModificationCount: a mutable integer cell, shared by reference. */
  class ModificationCount {
    var value: int

    constructor (value: int)
      ensures this.value == value
    {
      this.value := value;
    }
  }

  /** PersistentContent: the content plus the counter of the latest modification step. */
  class PersistentContent<C> {
    var content: C
    const maxModification: ModificationCount

    /** Keeps the given counter object itself, not a copy of its value. */
    constructor (content: C, step: ModificationCount)
      ensures this.content == content && maxModification == step
      ensures maxModification.value == old(step.value)
    {
      this.content := content;
      maxModification := step;
    }

    /**
     * update: the edit leaves `updated` as the content, then the counter goes up by one,
     * whether or not the edit changed anything. Every content sharing the counter sees it.
     */
    method Update(updated: C)
      modifies this, maxModification
      ensures content == updated
      ensures maxModification.value == old(maxModification.value) + 1
    {
      content := updated;
      maxModification.value := maxModification.value + 1;
    }
  }
}

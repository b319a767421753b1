/** The base of every layout: an instance owns the message its fields were bound to. */
module Layout {
  import opened Storage

  class BitStorageCore {
    const storage: AssembledMessage

    /**
     * Runs after the fields' initialisers (which wrote into the slot's message):
     * takes that message over and leaves a fresh one for the next instance.
     */
    constructor (builder: Builder)
      modifies builder
      ensures storage == old(builder.current) && storage.bytes == old(builder.current.bytes)
      ensures fresh(builder.current) && builder.current.bytes == [] && builder.current != storage
    {
      var frozen := builder.FreezeAndRotateStorage();
      storage := frozen;
    }
  }
}

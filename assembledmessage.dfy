/**
 * The byte buffers that layout instances own, and the process-wide slot that
 * hands a fresh buffer to the fields of the layout being built.
 */
module Storage {
  import opened Bits

  /** The bytes of one message; every field of one layout instance reads and writes the same buffer. */
  class AssembledMessage {
    var bytes: seq<UInt8>

    constructor ()
      ensures bytes == []
    {
      bytes := [];
    }
  }

  /**
   * The static slot: the message that fields created right now bind to.
   * Constructing a `Builder` models program start, when the slot holds an
   * empty message.
   */
  class Builder {
    var current: AssembledMessage

    constructor ()
      ensures fresh(current) && current.bytes == []
    {
      current := new AssembledMessage();
    }

    /** The message fields bind to while a layout is being initialised. */
    method StorageBuildInProgress() returns (m: AssembledMessage)
      ensures m == current
    {
      m := current;
    }

    /** Hands out the message built so far and puts a fresh empty one in the slot. */
    method FreezeAndRotateStorage() returns (frozen: AssembledMessage)
      modifies this
      ensures frozen == old(current) && frozen.bytes == old(current.bytes)
      ensures fresh(current) && current.bytes == [] && current != frozen
    {
      frozen := current;
      current := new AssembledMessage();
    }
  }
}

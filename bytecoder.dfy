/**
 * The interface every coder offers (a word-sized view of a field: reading,
 * writing, and sign extension from a given width) and the errors its
 * initializer reports. The one coder of the library, and so the operations
 * themselves, are in module `Coding`.
 */
module ByteCoder {

  /** Why a field's coordinates are refused. */
  datatype BitfieldRangeError =
    | BadByteIndex       // a byte index is negative or the two indices are in the wrong order
    | BitOrdering        // within a single byte, the most significant bit is below the least significant one
    | ByteWidthExceeded  // a bit position is outside 0 ..< 8
}

/** How the Java and JavaScript code reports failure. Every exception or `Error` the modelled code
    can raise is one `Fault`; an operation that may raise returns a `Result`. */
module Outcomes {

  datatype Option<+T> = None | Some(value: T)

  datatype Fault =
    | NoHiddenMessage      // RuntimeException / Error with the message "There is no hidden message"
    | MessageTooLarge      // RuntimeException "Message too large for current implementation"
    | NumberFormat         // NumberFormatException from Integer.parseInt or Long.parseLong
    | IndexOutOfBounds     // StringIndexOutOfBoundsException from String.substring
    | NullPointer          // NullPointerException when a Huffman walk steps past a missing child
    | BadHeaderWidth       // IllegalArgumentException "headerBits must be 64 or 128"
    | MessageTooLong       // IllegalArgumentException "Message too long for ... header"
    | InvalidBinaryFormat  // JavaScript Error 'Invalid binary format'
    | TraversalFailed      // JavaScript Error 'Huffman tree traversal failed'
    | InvalidTree          // JavaScript Error 'Invalid Huffman tree structure'

  datatype Result<+T> = Ok(value: T) | Thrown(fault: Fault)
}

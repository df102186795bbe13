/** The exceptions the bridge encoder throws, one constructor per `throw` site. */
module BridgeErrors {

  datatype BridgeError =
    | AmountNotPositive                         // "Amount must be greater than 0"
    | SaltNotThirtyTwoBytes                     // "Salt must be exactly 32 bytes"
    | InvalidBaseAddress(address: string)       // the `to` pattern check of the native builder
    | InvalidEthereumAddress(address: string)   // addressToBytes20
    | AmountOutOfRange                          // RangeError of writeBigUInt64LE
    | DataLengthOutOfRange                      // RangeError of writeUInt32LE
}

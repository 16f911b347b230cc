/**
 * The ways the codec and the address builders of src/bitcoin.py can fail.
 * The source raises (a KeyError from the symbol table, an AssertionError from
 * its asserts); the model returns the failure as a value instead.
 */
module Errors {

  datatype Error =
    | InvalidSymbol(symbol: char)   // a character outside the Base58 alphabet
    | InvalidLength(length: nat)    // a digest that is not 20 bytes long
    | DecodedLength(length: nat)    // prefix + 'W11111' does not decode to 25 bytes
    | NonZeroVersion(version: nat)  // the decoded version byte is not 0x00
    | PrefixChanged                 // the finished address does not start with the prefix
    | AlgorithmLength(length: nat)  // an algorithm name that is not 6 characters long

  datatype Result<T> = Ok(value: T) | Err(error: Error)
}

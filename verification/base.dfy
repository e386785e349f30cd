/** Values shared by every layer of the model: an Option standing in for a
    Java reference that may be null, the exceptions the library raises, and a
    Result that carries either a value or one of those exceptions. */
module Base {

  /** A Java reference that may be null. */
  datatype Option<+T> = None | Some(value: T)

  /** The exceptions thrown by the modelled code, one constructor per class. */
  datatype Error =
    /** `Assert.notNull`, `Assert.hasText` or `Assert.isTrue` failed. */
    | IllegalArgument(message: string)
    /** A null reference was dereferenced (a response without a result list). */
    | NullPointer
    /** `new BigInteger(text, 16)` rejected its input. */
    | NumberFormat
    /** The JSON deserializer rejected its input. */
    | JsonSyntax(message: string)
    /** The ledger node reported an error while reading. */
    | DataRetrievalFailure(reason: Option<string>)
    /** A lookup that must find at most one item found more. */
    | IncorrectResultSize(expected: nat, actual: nat)
    /** An entity to save has no identifier. */
    | DataIntegrityViolation(message: string)
    /** An entity with the same identifier is already on the ledger. */
    | DuplicateKey(message: string)
    /** The ledger node reported an error while writing. */
    | DataAccessResourceFailure(reason: Option<string>)

  /** The outcome of a call that either returns a value or throws. */
  datatype Result<+T> = Success(value: T) | Failure(error: Error)
}

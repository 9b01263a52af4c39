/** Option and Result, and the .NET exceptions the modelled code can raise. */
module Wrappers {

  datatype Option<T> = None | Some(value: T)
  {
    predicate IsFailure() { None? }
    function PropagateFailure<U>(): Option<U> requires None? { None }
    function Extract(): T requires Some? { value }
  }

  /**
   * The exceptions the modelled C# code raises, one constructor per kind that
   * the modelled members can reach.  `Diverges` has no C# counterpart: it stands
   * for a loop of the source that would never end (a cycle of Parent or
   * LeftChild links), which the model cuts off.
   */
  datatype Fault =
    | NullReference        // dereferencing a null Node or a missing child
    | KeyNotFound          // Dictionary indexer with a missing key
    | NoElements           // First() on an empty sequence
    | NoMatch              // Single(p) with no element satisfying p
    | MoreThanOneMatch     // Single(p) / SingleOrDefault(p) with several
    | IndexOutOfRange      // List<T> indexer out of range
    | SubstringOutOfRange  // String.Substring past the end
    | EmptyOldValue        // String.Replace with an empty old value
    | InvalidCast          // an explicit cast to the wrong content type
    | DuplicateKey         // Dictionary.Add with a key already present
    | NullKey              // Dictionary indexer with a null key
    | RuntimeBinder        // a dynamic call that cannot be bound
    | Thrown(text: string) // `throw new Exception(text)`
    | Diverges             // (model only) a loop that would not terminate

  /** The `Message` property of each exception, as the .NET Framework words it. */
  function Message(f: Fault): string
  {
    match f
    case NullReference => "Object reference not set to an instance of an object."
    case KeyNotFound => "The given key was not present in the dictionary."
    case NoElements => "Sequence contains no elements"
    case NoMatch => "Sequence contains no matching element"
    case MoreThanOneMatch => "Sequence contains more than one matching element"
    case IndexOutOfRange =>
      "Index was out of range. Must be non-negative and less than the size of the collection.\r\nParameter name: index"
    case SubstringOutOfRange =>
      "Index and length must refer to a location within the string.\r\nParameter name: length"
    case EmptyOldValue => "String cannot be of zero length.\r\nParameter name: oldValue"
    case InvalidCast => "Specified cast is not valid."
    case DuplicateKey => "An item with the same key has already been added."
    case NullKey => "Value cannot be null.\r\nParameter name: key"
    case RuntimeBinder => "Cannot perform runtime binding on a null reference"
    case Thrown(text) => text
    case Diverges => "The operation does not terminate."
  }

  datatype Result<T> = Success(value: T) | Failure(error: Fault)
  {
    predicate IsFailure() { Failure? }
    function PropagateFailure<U>(): Result<U> requires Failure? { Failure(error) }
    function Extract(): T requires Success? { value }
  }

  /** The result of an operation that returns nothing: it either completes or throws. */
  datatype Outcome = Pass | Fail(error: Fault)
  {
    predicate IsFailure() { Fail? }
    function PropagateFailure(): Outcome requires Fail? { this }
  }
}

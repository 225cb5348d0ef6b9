/** Failures of the seller and product services, as values instead of Java exceptions. */
module Errors {

  /** The three kinds of failure the services report; the HTTP layer maps each to one status. */
  datatype ErrorKind = NotFound | InvalidArgument | Conflict

  /** One constructor per error message the services throw, carrying the name or id the message is formatted with. */
  datatype Error =
    | SellerNotFound(sellerName: string)   // SellerNotFoundException
    | ProductNotFound(productName: string) // ProductNotFoundException, looked up by name
    | ProductIdNotFound(productId: int)    // ProductNotFoundException, looked up by id
    | SellerEmpty                          // IllegalArgumentException("Seller parameter cannot be empty")
    | ProductEmpty                         // IllegalArgumentException("Product parameter cannot be empty")
    | SellerTaken(sellerName: string)      // SellerTakenException
    | ProductTaken(productName: string)    // ProductTakenException
  {
    /**
     * The kind a failure is reported as: the exception handler groups the not-found exceptions as 404,
     * IllegalArgumentException as 400, and the taken exceptions as 409.
     */
    function Kind(): (k: ErrorKind)
      ensures k == NotFound <==> SellerNotFound? || ProductNotFound? || ProductIdNotFound?
      ensures k == InvalidArgument <==> SellerEmpty? || ProductEmpty?
      ensures k == Conflict <==> SellerTaken? || ProductTaken?
    {
      match this
      case SellerNotFound(_) => NotFound
      case ProductNotFound(_) => NotFound
      case ProductIdNotFound(_) => NotFound
      case SellerEmpty => InvalidArgument
      case ProductEmpty => InvalidArgument
      case SellerTaken(_) => Conflict
      case ProductTaken(_) => Conflict
    }
  }

  datatype Option<T> = None | Some(value: T)

  /** The result of a query that returns a value or throws. */
  datatype Result<T> = Success(value: T) | Failure(error: Error)

  /** The result of a void service method: it returns normally or throws. */
  datatype Outcome = Pass | Fail(error: Error)
}

/** Failure-carrying datatypes shared by the whole model.

    Python's `None` becomes `Option`, and the exceptions the blog core raises
    (a failed validator `assert`, a database integrity error, a guard in a
    constructor, an abstract render hook) become the `Err` arm of `Result`.
 */
module Wrappers {

  datatype Option<+T> = None | Some(value: T)

  /** The exceptions the core can raise, one constructor per kind. */
  datatype Error =
    | ValidationError(field: string, value: string) // an `assert value in ...` inside a validator
    | IntegrityError(column: string)                 // NOT NULL or UNIQUE violated at save time
    | AttributeError(name: string)                   // reading a missing attribute (anonymous user)
    | RuntimeError                                   // instantiating the abstract portlet base
    | NotImplemented                                 // rendering a portlet that has no template
    | NotFound                                       // a 404 raised while building a response

  datatype Result<+T> = Ok(value: T) | Err(error: Error)
}

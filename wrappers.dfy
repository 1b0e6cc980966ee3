/** Optional values, and the exceptions the models raise, as values. */
module Wrappers {

  datatype Option<+T> = None | Some(value: T)

  /** The Python exceptions the modelled operations raise (or let escape). */
  datatype Exception =
    | ValueError(message: string)
    | AttributeError(message: string)
    | ValidationError   // django.core.exceptions.ValidationError from validate_email
    | Http404           // raised by get_object_or_404
    | IndexError        // indexing an empty list

  /** A Python call either returns a value or raises. */
  datatype Result<+T> = Ok(value: T) | Err(error: Exception)
}

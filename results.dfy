/** Outcomes of the route handlers: a value, or one of the error responses they send. */
module Results {

  datatype Option<+T> = None | Some(value: T) {

    /** The value if present, otherwise `default`: the behaviour of a dictionary's `get(key, default)`. */
    function GetOr(default: T): T {
      if Some? then value else default
    }
  }

  /** The error responses of the API, with the HTTP status each one is sent with. */
  datatype Error =
    | Unauthorized                 // 401: no valid access token
    | Forbidden                    // 403: authenticated, but not an administrator
    | NotFound                     // 404: no such row, or a row the caller may not see
    | MissingFields                // 400: the body lacks a field the handler requires
    | InvalidStatus                // 400: an order status outside the allowed values
    | Unavailable(productId: int)  // 400: the product does not exist or has too little stock
    | Duplicate                    // 409: a category with that name already exists

  datatype Result<+T> = Ok(value: T) | Err(error: Error)
}

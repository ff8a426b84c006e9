/** The `admin_required` decorator: the role check run before every administrator-only handler. */
module Decorators {
  import opened Results
  import opened Models

  /** `token` is the user id carried by the caller's access token, `None` when the request has no
      valid token. A missing token is refused with 401 before any user row is looked at; a token
      whose user row is missing or is not an admin is refused with 403. `Ok(id)` means the wrapped
      handler runs, on behalf of user `id`. */
  function AdminRequired(users: map<int, User>, token: Option<int>): (r: Result<int>)
    ensures r.Ok? <==> token.Some? && token.value in users && users[token.value].role == Admin
    ensures r.Ok? ==> r.value == token.value
    ensures token.None? ==> r == Err(Unauthorized)
    ensures token.Some? && r.Err? ==> r.error == Forbidden
  {
    if token.None? then Err(Unauthorized)
    else if IsAdmin(users, token.value) then Ok(token.value)
    else Err(Forbidden)
  }
}

/** What each service operation does to the table and returns, as pure
    functions of the table before it. The service methods are proved against
    these; the properties of the operations are proved about them. */
module Operations {
  import opened Usuarios

  /** The service's failures: NotFound is raised as HTTP 404, Conflict as 400. */
  datatype Error = NotFound | Conflict

  datatype Result<+T> = Ok(value: T) | Err(error: Error)

  /** The table after an operation, with what the operation returned. */
  datatype Step<+T> = Step(table: Table, result: Result<T>)

  /** The row built from a payload; `createdAt` is the server's clock reading. */
  function NewUsuario(u: UsuarioCrear, now: Timestamp): Usuario {
    Usuario(u.nombre, u.email, u.edad, now)
  }

  /** Create under key `id`: refused when the email is already stored. */
  function Create(t: Table, id: int, u: UsuarioCrear, now: Timestamp): Step<UsuarioResponse> {
    if EmailInUse(t, u.email) then Step(t, Err(Conflict))
    else Step(t[id := NewUsuario(u, now)], Ok(UsuarioResponse(id, NewUsuario(u, now))))
  }

  /** Get by primary key. */
  function Get(t: Table, id: int): Result<UsuarioResponse> {
    if id in t then Ok(UsuarioResponse(id, t[id])) else Err(NotFound)
  }

  /** Update: get by key first, re-check the email only when it changes, then
      replace name, email and age. */
  function Update(t: Table, id: int, u: UsuarioCrear): Step<UsuarioResponse> {
    match Get(t, id)
    case Err(e) => Step(t, Err(e))
    case Ok(found) =>
      if u.email != found.usuario.email && EmailInUse(t, u.email) then Step(t, Err(Conflict))
      else
        var updated := found.usuario.(nombre := u.nombre, email := u.email, edad := u.edad);
        Step(t[id := updated], Ok(UsuarioResponse(id, updated)))
  }

  /** Delete: get by key first, then remove the row. */
  function Delete(t: Table, id: int): Step<bool> {
    match Get(t, id)
    case Err(e) => Step(t, Err(e))
    case Ok(_) => Step(t - {id}, Ok(true))
  }
}

/** The user entity: one row of the `usuarios` table and the payload that
    creates or replaces one. */
module Usuarios {

  datatype Option<+T> = None | Some(value: T)

  /** The creation time the database assigns to a row. The service only copies
      it, so the model never looks inside it. */
  datatype Timestamp = Timestamp(instant: int)

  /** The create/update payload: name, email and an optional age. */
  datatype UsuarioCrear = UsuarioCrear(nombre: string, email: string, edad: Option<int>)

  /** A stored row, without its primary key. */
  datatype Usuario = Usuario(nombre: string, email: string, edad: Option<int>, createdAt: Timestamp)

  /** A stored row together with its primary key, as the service hands it back. */
  datatype UsuarioResponse = UsuarioResponse(id: int, usuario: Usuario)

  /** The `usuarios` table, keyed by primary key. */
  type Table = map<int, Usuario>

  /** The unique constraint on the email column: no two rows share an email. */
  ghost predicate EmailsUnique(t: Table) {
    forall i, j :: i in t && j in t && t[i].email == t[j].email ==> i == j
  }

  /** The email lookup `query(Usuario).filter(email == e).first()` finds a row. */
  predicate EmailInUse(t: Table, email: string) {
    exists id :: id in t && t[id].email == email
  }
}

/** The five operations of the user service, run against a session's table.
    Each mirrors one static method of the service and is proved to do what the
    corresponding step function in Operations (or Pagination.Page) says. */
module UsuarioService {
  import opened Usuarios
  import opened Database
  import opened Operations
  import opened Pagination
  import Properties

  /** Create a user. Refused with Conflict when the email is already stored;
      otherwise the row goes in under the next key of the sequence and
      `createdAt` is the server clock reading `now`. */
  method CrearUsuario(db: Session, usuario: UsuarioCrear, now: Timestamp) returns (r: Result<UsuarioResponse>)
    requires db.Valid()
    modifies db
    ensures db.Valid()
    ensures Step(db.usuarios, r) == Create(old(db.usuarios), old(db.nextId), usuario, now)
    ensures r.Ok? ==> r.value.id !in old(db.usuarios)
    ensures db.nextId == if r.Ok? then old(db.nextId) + 1 else old(db.nextId)
  {
    if EmailInUse(db.usuarios, usuario.email) {
      return Err(Conflict);
    }
    Properties.CreateKeepsEmailsUnique(db.usuarios, db.nextId, usuario, now);
    var id := db.nextId;
    var nuevo := Usuario(usuario.nombre, usuario.email, usuario.edad, now);
    db.usuarios := db.usuarios[id := nuevo];
    db.nextId := id + 1;
    r := Ok(UsuarioResponse(id, nuevo));
  }

  /** List one page: skip `skip` rows of the database's row order `order`, then
      return at most `limit` rows. The bounds are those the router enforces. */
  method ObtenerUsuarios(db: Session, skip: int, limit: int, order: seq<int>) returns (rows: seq<UsuarioResponse>)
    requires IsRowOrder(order, db.usuarios)
    requires 0 <= skip && 1 <= limit <= 100
    ensures rows == Page(db.usuarios, order, skip, limit)
    ensures |rows| <= limit
    ensures forall r :: r in rows ==> r.id in db.usuarios && db.usuarios[r.id] == r.usuario
  {
    rows := Page(db.usuarios, order, skip, limit);
    PageWindow(db.usuarios, order, skip, limit);
  }

  /** Get a user by key; NotFound when no row has it. The table is not changed. */
  method ObtenerUsuarioPorId(db: Session, usuarioId: int) returns (r: Result<UsuarioResponse>)
    ensures r == Get(db.usuarios, usuarioId)
  {
    if usuarioId !in db.usuarios {
      return Err(NotFound);
    }
    r := Ok(UsuarioResponse(usuarioId, db.usuarios[usuarioId]));
  }

  /** Update a user: fetch by key (NotFound propagates), re-check the email only
      when it changes, then overwrite name, email and age in place. */
  method ActualizarUsuario(db: Session, usuarioId: int, usuario: UsuarioCrear) returns (r: Result<UsuarioResponse>)
    requires db.Valid()
    modifies db
    ensures db.Valid()
    ensures Step(db.usuarios, r) == Update(old(db.usuarios), usuarioId, usuario)
    ensures db.nextId == old(db.nextId)
  {
    var found := ObtenerUsuarioPorId(db, usuarioId);
    if found.Err? {
      return Err(found.error);
    }
    var actual := found.value.usuario;
    if usuario.email != actual.email {
      if EmailInUse(db.usuarios, usuario.email) {
        return Err(Conflict);
      }
    }
    Properties.UpdateKeepsEmailsUnique(db.usuarios, usuarioId, usuario);
    var actualizado := actual.(nombre := usuario.nombre, email := usuario.email, edad := usuario.edad);
    db.usuarios := db.usuarios[usuarioId := actualizado];
    r := Ok(UsuarioResponse(usuarioId, actualizado));
  }

  /** Delete a user: fetch by key (NotFound propagates), then remove the row. */
  method EliminarUsuario(db: Session, usuarioId: int) returns (r: Result<bool>)
    requires db.Valid()
    modifies db
    ensures db.Valid()
    ensures Step(db.usuarios, r) == Delete(old(db.usuarios), usuarioId)
    ensures db.nextId == old(db.nextId)
  {
    var found := ObtenerUsuarioPorId(db, usuarioId);
    if found.Err? {
      return Err(found.error);
    }
    Properties.DeleteKeepsEmailsUnique(db.usuarios, usuarioId);
    db.usuarios := db.usuarios - {usuarioId};
    r := Ok(true);
  }
}

/** What the service promises about each operation, proved of the step
    functions in Operations. */
module Properties {
  import opened Usuarios
  import opened Operations

  // ---- create ----

  /** Create fails with Conflict exactly when some stored row holds the email,
      and then leaves the table as it was. */
  lemma CreateConflict(t: Table, id: int, u: UsuarioCrear, now: Timestamp)
    ensures Create(t, id, u, now).result == Err(Conflict)
        <==> exists j :: j in t && t[j].email == u.email
    ensures Create(t, id, u, now).result.Err? ==> Create(t, id, u, now).table == t
  {
  }

  /** With a free email and a fresh key, create adds exactly one row carrying
      the payload and returns it; every other row is untouched. */
  lemma CreateAddsOneRow(t: Table, id: int, u: UsuarioCrear, now: Timestamp)
    requires id !in t
    requires forall j :: j in t ==> t[j].email != u.email
    ensures var s := Create(t, id, u, now);
      && s.result.Ok?
      && s.result.value.id == id
      && s.table.Keys == t.Keys + {id}
      && |s.table| == |t| + 1
      && s.table[id] == s.result.value.usuario
      && s.table[id].nombre == u.nombre
      && s.table[id].email == u.email
      && s.table[id].edad == u.edad
      && s.table[id].createdAt == now
      && (forall k :: k in t ==> s.table[k] == t[k])
  {
  }

  /** Create keeps emails unique. */
  lemma CreateKeepsEmailsUnique(t: Table, id: int, u: UsuarioCrear, now: Timestamp)
    requires EmailsUnique(t)
    ensures EmailsUnique(Create(t, id, u, now).table)
  {
  }

  /** Creating twice with the same email: the second is refused and the table
      ends up exactly one row larger than at the start. */
  lemma CreateTwiceSameEmail(t: Table, id1: int, id2: int, u1: UsuarioCrear, u2: UsuarioCrear,
                             now1: Timestamp, now2: Timestamp)
    requires id1 !in t
    requires !EmailInUse(t, u1.email)
    requires u2.email == u1.email
    ensures var s1 := Create(t, id1, u1, now1);
            var s2 := Create(s1.table, id2, u2, now2);
      && s1.result.Ok?
      && s2.result == Err(Conflict)
      && |s2.table| == |t| + 1
  {
    var s1 := Create(t, id1, u1, now1);
    assert s1.table[id1].email == u2.email;
  }

  // ---- get by id ----

  /** Get returns the row stored under the key, and NotFound when there is none. */
  lemma GetFindsStoredRow(t: Table, id: int)
    ensures Get(t, id).Ok? <==> id in t
    ensures id in t ==> Get(t, id).value == UsuarioResponse(id, t[id])
    ensures id !in t ==> Get(t, id).error == NotFound
  {
  }

  // ---- an absent key ----

  /** Update of an absent key fails with NotFound and changes nothing. */
  lemma UpdateAbsentNotFound(t: Table, id: int, u: UsuarioCrear)
    requires id !in t
    ensures Update(t, id, u) == Step(t, Err(NotFound))
  {
  }

  /** Delete of an absent key fails with NotFound and changes nothing. */
  lemma DeleteAbsentNotFound(t: Table, id: int)
    requires id !in t
    ensures Delete(t, id) == Step(t, Err(NotFound))
  {
  }

  // ---- update ----

  /** On a stored row, update fails with Conflict exactly when the email changes
      to one already stored; the holder is then another row, and the table is
      left as it was. */
  lemma UpdateConflict(t: Table, id: int, u: UsuarioCrear)
    requires id in t
    ensures Update(t, id, u).result == Err(Conflict)
        <==> u.email != t[id].email && EmailInUse(t, u.email)
    ensures Update(t, id, u).result == Err(Conflict) ==>
      && Update(t, id, u).table == t
      && exists j :: j in t && j != id && t[j].email == u.email
  {
  }

  /** While emails are unique, update of a stored row is refused exactly when
      another row holds the requested email. */
  lemma UpdateConflictIffOtherHolder(t: Table, id: int, u: UsuarioCrear)
    requires EmailsUnique(t)
    requires id in t
    ensures Update(t, id, u).result == Err(Conflict)
        <==> exists j :: j in t && j != id && t[j].email == u.email
  {
  }

  /** Keeping the row's own email skips the check: update of a stored row
      then always succeeds. */
  lemma UpdateSameEmailSucceeds(t: Table, id: int, u: UsuarioCrear)
    requires id in t
    requires u.email == t[id].email
    ensures Update(t, id, u).result.Ok?
  {
  }

  /** A successful update replaces exactly name, email and age of the target
      row, keeps its key and creation time, and touches no other row. */
  lemma UpdateOverwritesPayload(t: Table, id: int, u: UsuarioCrear)
    requires Update(t, id, u).result.Ok?
    ensures var s := Update(t, id, u);
      && id in t
      && s.table.Keys == t.Keys
      && s.result.value == UsuarioResponse(id, s.table[id])
      && s.table[id].nombre == u.nombre
      && s.table[id].email == u.email
      && s.table[id].edad == u.edad
      && s.table[id].createdAt == t[id].createdAt
      && (forall k :: k in t && k != id ==> s.table[k] == t[k])
  {
  }

  /** Update keeps emails unique. */
  lemma UpdateKeepsEmailsUnique(t: Table, id: int, u: UsuarioCrear)
    requires EmailsUnique(t)
    ensures EmailsUnique(Update(t, id, u).table)
  {
  }

  // ---- delete ----

  /** Delete of a stored key removes exactly that row and keeps the others. */
  lemma DeleteRemovesRow(t: Table, id: int)
    requires id in t
    ensures var s := Delete(t, id);
      && s.result == Ok(true)
      && s.table.Keys == t.Keys - {id}
      && |s.table| == |t| - 1
      && (forall k :: k in s.table ==> s.table[k] == t[k])
  {
  }

  /** After a delete, getting or deleting the same key again fails with NotFound. */
  lemma DeleteThenNotFound(t: Table, id: int)
    requires id in t
    ensures Get(Delete(t, id).table, id) == Err(NotFound)
    ensures Delete(Delete(t, id).table, id) == Step(Delete(t, id).table, Err(NotFound))
  {
  }

  /** Delete keeps emails unique. */
  lemma DeleteKeepsEmailsUnique(t: Table, id: int)
    requires EmailsUnique(t)
    ensures EmailsUnique(Delete(t, id).table)
  {
  }
}

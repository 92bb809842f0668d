/** The database session the service works through, reduced to the one table
    it touches and the sequence that hands out primary keys. */
module Database {
  import opened Usuarios

  class Session {
    /** The rows of the `usuarios` table. */
    var usuarios: Table
    /** The next value of the primary-key sequence. */
    var nextId: int

    /** Emails are unique and every stored key was handed out by the sequence. */
    ghost predicate Valid()
      reads this
    {
      && EmailsUnique(usuarios)
      && forall id :: id in usuarios ==> id < nextId
    }

    /** A freshly created, empty table whose key sequence starts at 1. */
    constructor ()
      ensures Valid()
      ensures usuarios == map[] && nextId == 1
    {
      usuarios := map[];
      nextId := 1;
    }
  }
}

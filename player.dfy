/** The `players` table: the stored row and the mutable entity. */
module PlayerEntity {
  import opened Wrappers

  /** One stored player. `id` is the generated primary key and `name` is a
      NOT NULL column; `gameId` is a plain string back-reference. */
  datatype PlayerRow = PlayerRow(id: string, name: string, gameId: Option<string>, isReady: bool)

  /** The entity object, filled in field by field before it is saved. */
  class Player {
    var id: Option<string>
    var name: Option<string>
    var gameId: Option<string>
    var isReady: bool

    /** A new entity: no id yet, null columns, and `isReady` false. */
    constructor ()
      ensures id == None && name == None && gameId == None && !isReady
    {
      id, name, gameId, isReady := None, None, None, false;
    }
  }
}

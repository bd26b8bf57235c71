/** In-model stand-ins for the two repository interfaces: a games table keyed
    by `gameId` (with the order in which a full scan lists it) and a players
    table keyed by the generated player id. Each repository enforces the
    table's own constraints and nothing more. */
module Repositories {
  import opened Wrappers
  import opened GameEntity
  import opened PlayerEntity

  /** No id appears twice in a list of ids. */
  predicate Distinct(ids: seq<string>) {
    forall i, j :: 0 <= i < j < |ids| ==> ids[i] != ids[j]
  }

  /** No game appears twice in a listing. It is `Distinct` of the listing's
      `Ids` (lemma `DistinctIdsIsDistinct`), stated on the rows themselves so
      that proofs about listings need no id projection. */
  predicate DistinctIds(s: seq<GameRow>) {
    forall i, j :: 0 <= i < j < |s| ==> s[i].gameId != s[j].gameId
  }

  /** The ids of a listing, in listing order. */
  function Ids(s: seq<GameRow>): (r: seq<string>)
    ensures |r| == |s| && forall i :: 0 <= i < |s| ==> r[i] == s[i].gameId
  {
    seq(|s|, i requires 0 <= i < |s| => s[i].gameId)
  }

  /** The two notions of "no id twice" agree. */
  lemma DistinctIdsIsDistinct(s: seq<GameRow>)
    ensures DistinctIds(s) <==> Distinct(Ids(s))
  {
  }

  /** The unique constraint on `gameCode`: two different rows never share a
      non-null code. */
  ghost predicate CodesUnique(rows: map<string, GameRow>) {
    forall a, b :: a in rows && b in rows && a != b && rows[a].gameCode.Some? ==>
      rows[a].gameCode != rows[b].gameCode
  }

  /** Writing `code` under `gameId` keeps the unique constraint. */
  predicate CodeFree(rows: map<string, GameRow>, gameId: string, code: Option<string>) {
    code.None? || forall id :: id in rows && id != gameId ==> rows[id].gameCode != code
  }

  /** Writing a row whose code is free keeps the unique constraint. */
  lemma {:induction false} PutKeepsCodesUnique(rows: map<string, GameRow>, id: string, g: GameRow)
    requires CodesUnique(rows) && CodeFree(rows, id, g.gameCode)
    ensures CodesUnique(rows[id := g])
  {
    var rows' := rows[id := g];
    forall a, b | a in rows' && b in rows' && a != b && rows'[a].gameCode.Some?
      ensures rows'[a].gameCode != rows'[b].gameCode
    {
      if a == id {
        assert rows'[b] == rows[b];
      } else if b == id {
        assert rows'[a] == rows[a];
      } else {
        assert rows'[a] == rows[a] && rows'[b] == rows[b];
      }
    }
  }

  /** Appending an id not yet listed keeps a listing free of repeats. */
  lemma {:induction false} AppendKeepsDistinct(ids: seq<string>, id: string)
    requires Distinct(ids) && id !in ids
    ensures Distinct(ids + [id])
  {
    var ids' := ids + [id];
    forall i, j | 0 <= i < j < |ids'| ensures ids'[i] != ids'[j] {
      if j == |ids| {
        assert ids'[i] == ids[i] && ids[i] in ids;
      } else {
        assert ids'[i] == ids[i] && ids'[j] == ids[j];
      }
    }
  }

  /** A stored game may be written back with its own code. */
  lemma OwnCodeIsFree(rows: map<string, GameRow>, id: string)
    requires CodesUnique(rows) && id in rows
    ensures CodeFree(rows, id, rows[id].gameCode)
  {
  }

  /** The rows a scan visits, in scan order. */
  function RowsIn(ids: seq<string>, rows: map<string, GameRow>): (r: seq<GameRow>)
    requires forall i :: 0 <= i < |ids| ==> ids[i] in rows
    ensures |r| == |ids|
    ensures forall i :: 0 <= i < |ids| ==> r[i] == rows[ids[i]]
  {
    if ids == [] then [] else [rows[ids[0]]] + RowsIn(ids[1..], rows)
  }

  /** The first row of a listing that carries `code`: a derived query by code. */
  function FirstWithCode(s: seq<GameRow>, code: string): (r: Option<GameRow>)
    ensures r.Some? ==> r.value in s && r.value.gameCode == Some(code)
    ensures r.None? ==> forall i :: 0 <= i < |s| ==> s[i].gameCode != Some(code)
  {
    if s == [] then None
    else if s[0].gameCode == Some(code) then Some(s[0])
    else FirstWithCode(s[1..], code)
  }

  /** In a listing of exactly the stored rows, the first row with a code in
      use is the one stored row that holds it. */
  lemma {:induction false} FirstWithUniqueCode(rows: map<string, GameRow>, all: seq<GameRow>, code: string, id: string)
    requires CodesUnique(rows)
    requires forall g :: g in all <==> g in rows.Values
    requires id in rows && rows[id].gameCode == Some(code)
    ensures FirstWithCode(all, code) == Some(rows[id])
  {
    var r := FirstWithCode(all, code);
    assert rows[id] in rows.Values;
    var i :| 0 <= i < |all| && all[i] == rows[id];
    assert r.Some?;
    assert r.value in rows.Values;
    var other :| other in rows && rows[other] == r.value;
    assert other == id;
  }

  /** The scan order with `id` taken out. */
  function Erase(ids: seq<string>, id: string): (r: seq<string>)
    ensures forall x :: x in r <==> x in ids && x != id
    ensures Distinct(ids) ==> Distinct(r)
  {
    if ids == [] then []
    else if ids[0] == id then Erase(ids[1..], id)
    else
      var rest := Erase(ids[1..], id);
      assert Distinct(ids) ==> ids[0] !in ids[1..] && Distinct(ids[1..]);
      [ids[0]] + rest
  }

  class GameRepository {
    var rows: map<string, GameRow>
    var order: seq<string>

    /** The table's constraints: `gameId` is the key, `player1Id` is NOT
        NULL, `gameCode` is unique; `order` lists every key exactly once. */
    ghost predicate Valid()
      reads this
    {
      && Distinct(order)
      && (forall i :: 0 <= i < |order| ==> order[i] in rows)
      && (forall id :: id in rows ==> id in order)
      && (forall id :: id in rows ==> rows[id].gameId == id && rows[id].player1Id.Some?)
      && CodesUnique(rows)
    }

    constructor ()
      ensures Valid() && rows == map[] && order == []
    {
      rows, order := map[], [];
    }

    /** `findById`: the row stored under the key, if any. */
    function FindById(id: string): (r: Option<GameRow>)
      reads this
      ensures r.Some? <==> id in rows
      ensures r.Some? ==> r.value == rows[id] && r.value in rows.Values
    {
      if id in rows then Some(rows[id]) else None
    }

    /** `findAll`: every stored game, each exactly once. */
    function FindAll(): (r: seq<GameRow>)
      reads this
      requires Valid()
      ensures forall g :: g in r <==> g in rows.Values
      ensures DistinctIds(r)
    {
      var r := RowsIn(order, rows);
      assert forall g :: g in rows.Values ==> g in r by {
        forall g | g in rows.Values ensures g in r {
          var id :| id in rows && rows[id] == g;
          var i :| 0 <= i < |order| && order[i] == id;
          assert r[i] == g;
        }
      }
      r
    }

    /** `findByGameCode`: the stored game with this join code, if any. */
    function FindByGameCode(code: string): (r: Option<GameRow>)
      reads this
      requires Valid()
      ensures r.Some? ==> r.value in rows.Values && r.value.gameCode == Some(code)
      ensures r.None? ==> forall id :: id in rows ==> rows[id].gameCode != Some(code)
      ensures forall id :: id in rows && rows[id].gameCode == Some(code) ==> r == Some(rows[id])
    {
      var all := FindAll();
      var r := FirstWithCode(all, code);
      forall id | id in rows && rows[id].gameCode == Some(code) ensures r == Some(rows[id]) {
        FirstWithUniqueCode(rows, all, code, id);
      }
      r
    }

    /** `save`: an upsert by primary key. It fails, changing nothing, when
        `player1Id` is null or another row already holds the same code. */
    method Save(g: Game) returns (saved: bool)
      requires Valid()
      modifies this
      ensures Valid()
      ensures saved <==> g.player1Id.Some? && CodeFree(old(rows), g.gameId, g.gameCode)
      ensures saved ==> rows == old(rows)[g.gameId := g.Row()]
      ensures saved ==> order == if g.gameId in old(rows) then old(order) else old(order) + [g.gameId]
      ensures !saved ==> rows == old(rows) && order == old(order)
    {
      saved := g.player1Id.Some? && CodeFree(rows, g.gameId, g.gameCode);
      if saved {
        if g.gameId !in rows {
          assert g.gameId !in order;
          AppendKeepsDistinct(order, g.gameId);
          order := order + [g.gameId];
        }
        PutKeepsCodesUnique(rows, g.gameId, g.Row());
        rows := rows[g.gameId := g.Row()];
      }
    }

    /** `delete`: removes the row with the entity's id; no-op if absent. */
    method Delete(g: Game)
      requires Valid()
      modifies this
      ensures Valid()
      ensures rows == old(rows) - {g.gameId}
      ensures order == Erase(old(order), g.gameId)
    {
      rows := rows - {g.gameId};
      order := Erase(order, g.gameId);
      assert forall i :: 0 <= i < |order| ==> order[i] in rows by {
        forall i | 0 <= i < |order| ensures order[i] in rows {
          assert order[i] in order;
        }
      }
    }
  }

  class PlayerRepository {
    var rows: map<string, PlayerRow>

    /** `id` is the key of its row. */
    ghost predicate Valid()
      reads this
    {
      forall id :: id in rows ==> rows[id].id == id
    }

    constructor ()
      ensures Valid() && rows == map[]
    {
      rows := map[];
    }

    /** `save`: a player without an id gets `generatedId` (the generator's
        next UUID, unused so far); the row is then written under its id.
        A null name violates NOT NULL: nothing is written and no id is set. */
    method Save(p: Player, generatedId: string) returns (saved: bool)
      requires Valid()
      requires generatedId !in rows
      modifies this, p
      ensures Valid()
      ensures saved <==> p.name.Some?
      ensures p.name == old(p.name) && p.gameId == old(p.gameId) && p.isReady == old(p.isReady)
      ensures saved ==> p.id == (if old(p.id).Some? then old(p.id) else Some(generatedId))
      ensures saved ==> rows == old(rows)[p.id.value := PlayerRow(p.id.value, p.name.value, p.gameId, p.isReady)]
      ensures !saved ==> unchanged(this) && p.id == old(p.id)
    {
      saved := p.name.Some?;
      if saved {
        if p.id.None? {
          p.id := Some(generatedId);
        }
        rows := rows[p.id.value := PlayerRow(p.id.value, p.name.value, p.gameId, p.isReady)];
      }
    }

    /** Transaction rollback: the table returns to the contents it had when
        the transaction began. */
    method Restore(snapshot: map<string, PlayerRow>)
      requires forall id :: id in snapshot ==> snapshot[id].id == id
      modifies this
      ensures Valid() && rows == snapshot
    {
      rows := snapshot;
    }
  }
}

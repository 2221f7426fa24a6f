/** The committed table, and the repository bound to one transaction over it. */
module RefreshSessionRepositories {
  import opened Prelude
  import opened Sessions

  class Store {
    var rows: Table

    constructor ()
      ensures rows == map[]
    {
      rows := map[];
    }
  }

  /** Reads the committed rows and its own pending writes; a commit will write no other row. */
  class RefreshSessionRepository {
    const store: Store
    var writes: Table

    constructor (store: Store)
      ensures this.store == store && writes == map[]
    {
      this.store, writes := store, map[];
    }

    function Rows(): Table
      reads this, store
    {
      store.rows + writes
    }

    /** Inserts the row unless its identifier or its hash is in use. */
    method Create(row: Row) returns (error: Option<Error>)
      modifies this
      ensures error == if IsFree(old(Rows()), row.id, row.hash) then None else Some(IntegrityError)
      ensures Rows() == if error.None? then old(Rows())[row.id := row] else old(Rows())
    {
      if row.id in Rows() || exists id :: id in Rows() && Rows()[id].hash == row.hash {
        return Some(IntegrityError);
      }
      writes := writes[row.id := row];
      return None;
    }

    method GetByTokenHash(hash: Hash) returns (row: Option<Row>)
      requires HashesDistinct(Rows())
      ensures var found := Lookup(Rows(), hash);
              row == if found.Some? then Some(Rows()[found.value]) else None
    {
      if exists id :: id in Rows() && Rows()[id].hash == hash {
        var id :| id in Rows() && Rows()[id].hash == hash;
        return Some(Rows()[id]);
      }
      return None;
    }

    /** Changes the row only if the stored hash still matches; the new hash must not be another row's. */
    method ReplaceTokenHash(id: SessionId, expected: Hash, replacement: Hash, usedAt: Instant, counter: nat)
      returns (result: Result<Option<Row>, Error>)
      modifies this
      ensures var updated := Sessions.ReplaceTokenHash(old(Rows()), id, expected, replacement, usedAt, counter);
              if updated.Some? && IsTaken(old(Rows()), id, replacement) then
                result == Failure(IntegrityError) && Rows() == old(Rows())
              else
                result == Success(updated) &&
                Rows() == if updated.Some? then old(Rows())[id := updated.value] else old(Rows())
    {
      if id !in Rows() || Rows()[id].hash != expected {
        return Success(None);
      }
      if exists other :: other in Rows() && other != id && Rows()[other].hash == replacement {
        return Failure(IntegrityError);
      }
      var row := Rows()[id].(hash := replacement, lastUsedAt := Some(usedAt), rotationCounter := counter);
      writes := writes[id := row];
      return Success(Some(row));
    }

    method Revoke(id: SessionId, revokedAt: Instant)
      modifies this
      ensures var rows := old(Rows());
              Rows() == if id in rows then rows[id := rows[id].(revokedAt := Some(revokedAt))] else rows
    {
      if id in Rows() {
        writes := writes[id := Rows()[id].(revokedAt := Some(revokedAt))];
      }
    }
  }
}

/**
 * The idempotency key table and the interceptor's use of it: claim, remember, release. The unique
 * index on the scope is the lock, and a row's id, never used twice, is what fences late writes.
 */
module IdempotencyKeys {
  import opened Options
  import opened JsonText
  import opened CanonicalJson

  const KEY_TTL_MS := 24 * 60 * 60 * 1000

  /** What the unique index covers. */
  datatype Scope = Scope(key: string, userId: string, endpoint: string)

  datatype Response = Response(status: int, body: Json)

  datatype Row = Row(scope: Scope, hash: Units, response: Option<Response>, expiresAt: int)

  type Id = nat
  type Table = map<Id, Row>

  /** SHA-256 is taken as injective, so the hash stands for the text it is taken of. */
  function HashBody(body: Json): Units {
    Canonicalise(body)
  }

  ghost predicate UniqueScopes(t: Table) {
    forall i, k {:trigger t[i], t[k]} | i in t && k in t && t[i].scope == t[k].scope :: i == k
  }

  predicate Holds(t: Table, id: Id, scope: Scope) {
    id in t && t[id].scope == scope
  }

  ghost predicate Free(t: Table, scope: Scope) {
    forall id: Id | id in t :: t[id].scope != scope
  }

  function NewRow(scope: Scope, hash: Units, now: int): Row {
    Row(scope, hash, None, now + KEY_TTL_MS)
  }

  /** The stored body is never undefined. */
  function Stored(r: Response): Response {
    if r.body.Undefined? then Response(r.status, Null) else r
  }

  function Remembered(t: Table, id: Id, r: Response): Table {
    if id in t then t[id := t[id].(response := Some(Stored(r)))] else t
  }

  /** What an existing row means to a request. */
  datatype Reading = Expired | HashConflict | InProgress | Replay(response: Response)

  function Read(row: Row, hash: Units, now: int): Reading {
    if row.expiresAt <= now then Expired
    else if row.hash != hash then HashConflict
    else match row.response
      case None => InProgress
      case Some(r) => Replay(r)
  }

  datatype Claim = Claimed(id: Id) | Replayed(response: Response) | Refused(why: Reading)

  class IdempotencyKeyTable {
    var rows: Table
    /** Every id handed out so far is below this one. */
    var nextId: Id

    ghost predicate Valid()
      reads this
    {
      UniqueScopes(rows) && forall id | id in rows :: id < nextId
    }

    constructor ()
      ensures Valid() && rows == map[]
    {
      rows, nextId := map[], 0;
    }

    /** The insert: refused by the unique index when the scope is held. */
    method TryInsert(scope: Scope, hash: Units, now: int) returns (created: Option<Id>)
      requires Valid()
      modifies this
      ensures Valid()
      ensures created.Some? <==> Free(old(rows), scope)
      ensures created.None? ==> rows == old(rows) && nextId == old(nextId)
      ensures created.Some? ==> created.value == old(nextId) && created.value !in old(rows) && nextId == old(nextId) + 1
      ensures created.Some? ==> rows == old(rows)[created.value := NewRow(scope, hash, now)]
    {
      if id :| id in rows && rows[id].scope == scope {
        return None;
      }
      created := Some(nextId);
      rows := rows[nextId := NewRow(scope, hash, now)];
      nextId := nextId + 1;
    }

    method FindUnique(scope: Scope) returns (found: Option<Id>)
      requires Valid()
      ensures found.Some? ==> Holds(rows, found.value, scope)
      ensures found.None? <==> Free(rows, scope)
    {
      if id :| id in rows && rows[id].scope == scope {
        return Some(id);
      }
      return None;
    }

    method Delete(id: Id)
      requires Valid()
      modifies this`rows
      ensures Valid() && rows == old(rows) - {id}
    {
      rows := rows - {id};
    }

    /**
     * Takes the key, or reports what the existing holder means. An expired row is taken out of the
     * way and the key claimed anew, under a new id.
     */
    method ClaimKey(scope: Scope, hash: Units, now: int) returns (claim: Claim)
      requires Valid()
      modifies this
      ensures Valid()
      ensures claim.Claimed? ==>
                && claim.id == old(nextId) && claim.id !in old(rows)
                && (forall id | Holds(old(rows), id, scope) :: old(rows)[id].expiresAt <= now)
                && claim.id in rows && rows[claim.id] == NewRow(scope, hash, now)
                && (forall id | id != claim.id :: id in rows <==> id in old(rows) && old(rows)[id].scope != scope)
                && (forall id | id != claim.id && id in rows :: rows[id] == old(rows)[id])
      ensures !claim.Claimed? ==>
                && rows == old(rows)
                && exists id :: Holds(rows, id, scope) && Read(rows[id], hash, now) == (if claim.Replayed? then Replay(claim.response) else claim.why)
      ensures claim.Refused? ==> claim.why == HashConflict || claim.why == InProgress
      ensures claim.Claimed? ==> rows[claim.id].expiresAt == now + 86_400_000
      decreases if Free(rows, scope) then 0 else 1
    {
      var created := TryInsert(scope, hash, now);
      if created.Some? {
        return Claimed(created.value);
      }
      var existing := FindUnique(scope);
      if existing.None? || rows[existing.value].expiresAt <= now {
        if existing.Some? {
          Delete(existing.value);
        }
        claim := ClaimKey(scope, hash, now);
        return;
      }
      var row := rows[existing.value];
      if row.hash != hash {
        return Refused(HashConflict);
      }
      if row.response.None? {
        return Refused(InProgress);
      }
      return Replayed(row.response.value);
    }

    /** Updates the row if it is still there; a failure is swallowed. */
    method Remember(id: Id, r: Response)
      requires Valid()
      modifies this`rows
      ensures Valid() && rows.Keys == old(rows).Keys && rows == Remembered(old(rows), id, r)
      ensures forall k | k in rows && k != id :: rows[k] == old(rows)[k]
      ensures id in rows ==>
                && rows[id].response.Some? && rows[id].response.value.status == r.status
                && rows[id].response.value.body == (if r.body.Undefined? then Null else r.body)
                && rows[id] == old(rows)[id].(response := rows[id].response)
    {
      if id in rows {
        rows := rows[id := rows[id].(response := Some(Stored(r)))];
      }
    }

    method Release(id: Id)
      requires Valid()
      modifies this`rows
      ensures Valid() && rows == old(rows) - {id}
    {
      Delete(id);
    }
  }
}

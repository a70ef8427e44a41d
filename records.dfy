/** The `emails` table: one row per draft or sent mail, keyed by a serial id. */
module Records {
  import opened Wrappers
  import opened MailTypes

  /** A row of the `emails` table. Times are milliseconds. */
  datatype EmailRecord = EmailRecord(
    id: nat,
    to: string,
    subject: string,
    body: string,
    kind: Kind,
    status: Option<Status>,
    scheduledAt: Option<int>,
    createdAt: int,
    userId: string)

  /** The row a `where id = .. and userId = ..` clause selects, further restricted to
      one type when `kind` is given; ids that are not row keys (negative ones, say)
      select nothing. */
  function Selected(rows: map<nat, EmailRecord>, id: int, userId: string, kind: Option<Kind>): (r: Option<EmailRecord>)
    ensures r.Some? <==> id >= 0 && id in rows && rows[id].userId == userId && (kind.None? || rows[id].kind == kind.value)
    ensures r.Some? ==> r.value == rows[id]
  {
    if id >= 0 && id in rows && rows[id].userId == userId && (kind.None? || rows[id].kind == kind.value)
    then Some(rows[id]) else None
  }

  class EmailTable {
    var rows: map<nat, EmailRecord>
    /** The next value of the serial id column. */
    var nextId: nat

    /** Every row is stored under its own id, and every id is below the next one. */
    ghost predicate Valid()
      reads this
    {
      forall id | id in rows :: rows[id].id == id && id < nextId
    }

    constructor ()
      ensures Valid() && rows == map[] && nextId == 1
    {
      rows, nextId := map[], 1;
    }

    /** `insert ... returning`: a new row under the next serial id. */
    method Insert(to: string, subject: string, body: string, kind: Kind, status: Option<Status>,
                  scheduledAt: Option<int>, createdAt: int, userId: string) returns (r: EmailRecord)
      requires Valid()
      modifies this
      ensures Valid()
      ensures r == EmailRecord(old(nextId), to, subject, body, kind, status, scheduledAt, createdAt, userId)
      ensures r.id !in old(rows) && rows == old(rows)[r.id := r]
    {
      r := EmailRecord(nextId, to, subject, body, kind, status, scheduledAt, createdAt, userId);
      rows := rows[nextId := r];
      nextId := nextId + 1;
    }

    /** `delete ... where id, userId[, type] returning`: removes the selected row, if
        any, and returns it. No other row changes. */
    method Delete(id: int, userId: string, kind: Option<Kind>) returns (deleted: Option<EmailRecord>)
      requires Valid()
      modifies this`rows
      ensures Valid()
      ensures deleted == Selected(old(rows), id, userId, kind)
      ensures rows == if deleted.Some? then old(rows) - {deleted.value.id} else old(rows)
    {
      deleted := Selected(rows, id, userId, kind);
      if deleted.Some? {
        rows := rows - {deleted.value.id};
      }
    }

    /** `update ... set ... where id`: the row with that id becomes `r`. */
    method Put(r: EmailRecord)
      requires Valid() && r.id in rows
      modifies this`rows
      ensures Valid()
      ensures rows == old(rows)[r.id := r]
    {
      rows := rows[r.id := r];
    }

    /** `update ... set status where id`: the row with that id, if any, takes the
        status. */
    method SetStatus(id: nat, status: Status)
      requires Valid()
      modifies this`rows
      ensures Valid()
      ensures rows == if id in old(rows) then old(rows)[id := old(rows)[id].(status := Some(status))] else old(rows)
    {
      if id in rows {
        rows := rows[id := rows[id].(status := Some(status))];
      }
    }
  }
}

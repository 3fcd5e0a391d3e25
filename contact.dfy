/** The contact form endpoint (`/api/contact`): checks the method and the four
    required fields, then appends at most one row to the `contacts` table. */
module Contact {
  import opened Wrappers

  /** The JSON body; a field is None when it is absent or null. */
  datatype ContactData = ContactData(name: Option<string>, email: Option<string>, company: Option<string>, message: Option<string>)

  /** A row of `contacts`, stamped with the store's `datetime('now')`. */
  datatype ContactRow = ContactRow(name: string, email: string, company: string, message: string, createdAt: int)

  datatype Body =
    | Text(text: string)     // the plain-text 405 answer
    | Success                // `{success: true}`
    | Error(message: string)

  datatype Reply = Reply(status: int, body: Body)

  /** JavaScript truthiness of a string field: present and not the empty
      string (a whitespace-only value is truthy). */
  predicate Truthy(field: Option<string>) {
    field.Some? && field.value != ""
  }

  /** All four required fields are truthy. */
  predicate Complete(d: ContactData) {
    Truthy(d.name) && Truthy(d.email) && Truthy(d.company) && Truthy(d.message)
  }

  /** A POST whose body parsed and holds all four fields. */
  predicate Accepted(httpMethod: string, body: Option<ContactData>) {
    httpMethod == "POST" && body.Some? && Complete(body.value)
  }

  function RowOf(d: ContactData, now: int): ContactRow
    requires Complete(d)
  {
    ContactRow(d.name.value, d.email.value, d.company.value, d.message.value, now)
  }

  /** The `contacts` table; an unreachable store fails every insert. */
  class Contacts {
    var rows: seq<ContactRow>
    var reachable: bool

    constructor (reachable: bool)
      ensures rows == [] && this.reachable == reachable
    {
      rows := [];
      this.reachable := reachable;
    }

    /** `INSERT INTO contacts (...) VALUES (...)`: appends the row, or fails
        and changes nothing. */
    method Insert(row: ContactRow) returns (ok: bool)
      modifies this
      ensures reachable == old(reachable) && ok == reachable
      ensures rows == if ok then old(rows) + [row] else old(rows)
    {
      ok := reachable;
      if ok {
        rows := rows + [row];
      }
    }
  }

  /** The handler. `body` is None when the body cannot be read as JSON,
      or is the JSON `null` (reading a field of it throws);
      `db` is null when no database is bound. */
  method Handle(httpMethod: string, body: Option<ContactData>, db: Contacts?, now: int) returns (reply: Reply)
    modifies db
    ensures httpMethod != "POST" ==> reply == Reply(405, Text("Method not allowed"))
    ensures httpMethod == "POST" && body.None? ==> reply == Reply(500, Error("Failed to process request"))
    ensures httpMethod == "POST" && body.Some? && !Complete(body.value) ==>
      reply == Reply(400, Error("Missing required fields"))
    ensures Accepted(httpMethod, body) && db == null ==> reply == Reply(200, Success)
    ensures Accepted(httpMethod, body) && db != null ==>
      reply == if old(db.reachable) then Reply(200, Success) else Reply(500, Error("Failed to process request"))
    ensures db != null ==> db.reachable == old(db.reachable)
    ensures db != null && Accepted(httpMethod, body) && old(db.reachable) ==>
      db.rows == old(db.rows) + [RowOf(body.value, now)]
    ensures db != null && !(Accepted(httpMethod, body) && old(db.reachable)) ==> db.rows == old(db.rows)
  {
    if httpMethod != "POST" {
      return Reply(405, Text("Method not allowed"));
    }
    if body.None? {
      return Reply(500, Error("Failed to process request"));
    }
    var data := body.value;
    if !Truthy(data.name) || !Truthy(data.email) || !Truthy(data.company) || !Truthy(data.message) {
      return Reply(400, Error("Missing required fields"));
    }
    if db == null {
      return Reply(200, Success);
    }
    var ok := db.Insert(RowOf(data, now));
    if !ok {
      return Reply(500, Error("Failed to process request"));
    }
    reply := Reply(200, Success);
  }
}

/**
 * The six route handlers of the user service, with the database abstracted
 * away. A handler is a function from its parsed input and the outcome of
 * every awaited call (`req.json()`, `db.execute`) to the statements it sent
 * to the database and the response it wrote. A statement is only sent when
 * the handler reaches it, so the outcomes of later calls are ignored once an
 * earlier one has decided the response.
 */
module Handlers {
  import opened Strings
  import opened QueryBuilder

  datatype Option<T> = None | Some(value: T)

  /** A JSON value of a request body, a query string or a row. */
  datatype Value = Null | Bool(b: bool) | Num(n: int) | Str(s: string)

  /** The entries of a JavaScript object, in the order in which `Object.keys`
      and `Object.values` both enumerate them. */
  type Entries = seq<(string, Value)>

  predicate DistinctKeys(o: Entries)
  {
    forall i, j :: 0 <= i < j < |o| ==> o[i].0 != o[j].0
  }

  /** A parsed object: no key appears twice. */
  type JsObject = o: Entries | DistinctKeys(o)

  /** A row of the users table as the driver returns it. */
  type Row = JsObject

  /** `Object.keys(o)`. */
  function Keys(o: Entries): seq<string>
  {
    seq(|o|, i requires 0 <= i < |o| => o[i].0)
  }

  /** `Object.values(o)`. */
  function Values(o: Entries): seq<Value>
  {
    seq(|o|, i requires 0 <= i < |o| => o[i].1)
  }

  /** The value destructuring `const { name } = o` binds; None is `undefined`,
      which is what a key the object lacks yields. Only own keys are looked up,
      which matches destructuring for names that `Object.prototype` does not
      define (such as the three columns of an insert); `constructor` or
      `toString` would be found on the prototype instead. */
  function Field(o: Entries, name: string): (r: Option<Value>)
    ensures r.None? <==> name !in Keys(o)
    ensures r.Some? ==> (name, r.value) in o
  {
    if |o| == 0 then None
    else if o[0].0 == name then
      assert Keys(o)[0] == name;
      Some(o[0].1)
    else
      assert Keys(o) == [o[0].0] + Keys(o[1..]);
      Field(o[1..], name)
  }

  /** What an awaited call produced: a value, or the message of the error it
      threw (which the handler's catch block turns into a 500). */
  datatype Exec<T> = Ok(value: T) | Threw(message: string)

  /** The metadata the driver returns for a write. */
  datatype WriteInfo = WriteInfo(affectedRows: nat, insertId: int)

  /** A parameterized statement as passed to `db.execute`. */
  datatype Statement = Statement(sql: string, params: seq<Value>)

  /** The `result` member of a response envelope. */
  datatype Payload =
    | NoResult                     // `{ success }` alone
    | Failure(error: string)       // `result: { error }`
    | Created(id: int)             // `result: { id: insertId }`
    | Users(users: seq<Row>)       // `result: { users: [...] }`
    | User(user: Option<Row>)      // `result: { users: rows[0] }`
    | Deleted(row: Option<Row>)    // `result: rows[0]`

  /** The JSON body of a response: the usual envelope, or the bare
      `{ error }` object of get-by-id's 404. */
  datatype Body = Envelope(success: bool, result: Payload) | Bare(error: string)

  datatype Response = Response(status: nat, body: Body)

  /** Everything a handler does that can be observed. */
  datatype Outcome = Outcome(executed: seq<Statement>, response: Response)

  const InsertSql := "INSERT INTO users (full_name, role, efficiency) VALUES (?, ?, ?)"
  const SelectByIdSql := "SELECT * FROM users WHERE id = ?"
  const DeleteByIdSql := "DELETE FROM users WHERE id = ?"
  const TruncateSql := "TRUNCATE users"
  const ListPrefix := "SELECT * FROM users "
  const UpdatePrefix := "UPDATE users SET "
  const UpdateSuffix := " WHERE id = ?"

  const UndefinedFieldsMessage := "Undefined fields that shouldn't be null"
  const EmptyBodyMessage := "Empty body"
  const UserNotFoundMessage := "User not found"
  const EmptyTableMessage := "Empty table"

  /** `rows[0]`, which is `undefined` for an empty result. */
  function FirstRow(rows: seq<Row>): Option<Row>
  {
    if |rows| > 0 then Some(rows[0]) else None
  }

  /** A body lacks one of the columns an insert needs. */
  predicate MissingRequired(o: Entries)
  {
    "full_name" !in Keys(o) || "role" !in Keys(o) || "efficiency" !in Keys(o)
  }

  /** POST /create. Any of full_name, role, efficiency undefined is a 400 and
      nothing is inserted; otherwise the insert is sent with the three values
      in column order, and its id comes back with 201. Both 500 paths say
      `success: true`, as the source does. */
  function Create(body: Exec<JsObject>, insert: Exec<WriteInfo>): (r: Outcome)
    ensures r.response.status in {201, 400, 500}
    ensures r.response.status == 400 <==> body.Ok? && MissingRequired(body.value)
    ensures r.response.status == 400 ==>
              r.executed == [] && r.response.body == Envelope(false, Failure(UndefinedFieldsMessage))
    ensures |r.executed| <= 1
    ensures r.executed != [] <==> body.Ok? && !MissingRequired(body.value)
    ensures r.executed != [] ==>
              && r.executed[0].sql == InsertSql
              && |r.executed[0].params| == 3
              && ("full_name", r.executed[0].params[0]) in body.value
              && ("role", r.executed[0].params[1]) in body.value
              && ("efficiency", r.executed[0].params[2]) in body.value
    ensures r.response.status == 201 <==> r.executed != [] && insert.Ok?
    ensures r.response.status == 201 ==> r.response.body == Envelope(true, Created(insert.value.insertId))
    ensures r.response.status == 500 ==>
              r.response.body == Envelope(true, Failure(if body.Threw? then body.message else insert.message))
  {
    match body
    case Threw(m) => Outcome([], Response(500, Envelope(true, Failure(m))))
    case Ok(o) =>
      var fields := [Field(o, "full_name"), Field(o, "role"), Field(o, "efficiency")];
      if None in fields then
        Outcome([], Response(400, Envelope(false, Failure(UndefinedFieldsMessage))))
      else
        var stmt := Statement(InsertSql, [fields[0].value, fields[1].value, fields[2].value]);
        match insert
        case Threw(m) => Outcome([stmt], Response(500, Envelope(true, Failure(m))))
        case Ok(w) => Outcome([stmt], Response(201, Envelope(true, Created(w.insertId))))
  }

  /** The SELECT of GET /get: the query parameters become the WHERE clause,
      their values the parameters, both in enumeration order. */
  function ListStatement(query: JsObject): (s: Statement)
    ensures |s.params| == |query|
    ensures forall i :: 0 <= i < |query| ==> s.params[i] == query[i].1
  {
    Statement(ListPrefix + ConditionClause(Keys(query)), Values(query))
  }

  /** GET /get: 200 with the rows whatever they are (an empty list too);
      the 500 path says `success: true`. */
  function ListUsers(query: JsObject, rows: Exec<seq<Row>>): (r: Outcome)
    ensures r.executed == [ListStatement(query)]
    ensures r.response.status == 200 <==> rows.Ok?
    ensures rows.Ok? ==> r.response.body == Envelope(true, Users(rows.value))
    ensures rows.Threw? ==> r.response == Response(500, Envelope(true, Failure(rows.message)))
  {
    var stmt := ListStatement(query);
    match rows
    case Threw(m) => Outcome([stmt], Response(500, Envelope(true, Failure(m))))
    case Ok(rs) => Outcome([stmt], Response(200, Envelope(true, Users(rs))))
  }

  /** GET /get/:id: 200 with the first row found, a bare 404 when there is
      none; the 500 path says `success: true`. */
  function GetUser(id: string, rows: Exec<seq<Row>>): (r: Outcome)
    ensures r.executed == [Statement(SelectByIdSql, [Str(id)])]
    ensures r.response.status in {200, 404, 500}
    ensures r.response.status == 200 <==> rows.Ok? && |rows.value| > 0
    ensures r.response.status == 200 ==> r.response.body == Envelope(true, Users([rows.value[0]]))
    ensures r.response.status == 404 <==> rows.Ok? && |rows.value| == 0
    ensures r.response.status == 404 ==> r.response.body == Bare(UserNotFoundMessage)
    ensures r.response.status == 500 ==> r.response.body == Envelope(true, Failure(rows.message))
  {
    var stmt := Statement(SelectByIdSql, [Str(id)]);
    match rows
    case Threw(m) => Outcome([stmt], Response(500, Envelope(true, Failure(m))))
    case Ok(rs) =>
      if |rs| > 0 then Outcome([stmt], Response(200, Envelope(true, Users([rs[0]]))))
      else Outcome([stmt], Response(404, Bare(UserNotFoundMessage)))
  }

  /** The UPDATE of PATCH /update/:id: one assignment per body key, then the
      id; the parameters are the body's values followed by the id. */
  function UpdateStatement(id: string, body: JsObject): (s: Statement)
    ensures |s.params| == |body| + 1
    ensures forall i :: 0 <= i < |body| ==> s.params[i] == body[i].1
    ensures s.params[|body|] == Str(id)
  {
    Statement(UpdatePrefix + AssignmentClause(Keys(body)) + UpdateSuffix, Values(body) + [Str(id)])
  }

  /** PATCH /update/:id. An empty body is a 400 and nothing is executed;
      otherwise the UPDATE is sent, no affected row is a 404, and an affected
      row is re-read and returned with 200. Every 500 says `success: false`. */
  function UpdateUser(id: string, body: Exec<JsObject>, update: Exec<WriteInfo>, reread: Exec<seq<Row>>): (r: Outcome)
    ensures r.response.status in {200, 400, 404, 500}
    ensures r.response.status == 400 <==> body.Ok? && |body.value| == 0
    ensures r.response.status == 400 ==>
              r.executed == [] && r.response.body == Envelope(false, Failure(EmptyBodyMessage))
    ensures r.executed != [] <==> body.Ok? && |body.value| > 0
    ensures r.executed != [] ==> r.executed[0] == UpdateStatement(id, body.value)
    ensures body.Ok? && |body.value| > 0 && update.Threw? ==>
              r.executed == [UpdateStatement(id, body.value)]
    ensures body.Ok? && |body.value| > 0 && update.Ok? && update.value.affectedRows > 0 ==>
              r.executed == [UpdateStatement(id, body.value), Statement(SelectByIdSql, [Str(id)])]
    ensures r.response.status == 200 <==>
              body.Ok? && |body.value| > 0 && update.Ok? && update.value.affectedRows > 0 && reread.Ok?
    ensures r.response.status == 200 ==>
              && r.executed == [UpdateStatement(id, body.value), Statement(SelectByIdSql, [Str(id)])]
              && r.response.body == Envelope(true, User(FirstRow(reread.value)))
    ensures r.response.status == 404 <==>
              body.Ok? && |body.value| > 0 && update.Ok? && update.value.affectedRows == 0
    ensures r.response.status == 404 ==>
              r.executed == [UpdateStatement(id, body.value)]
              && r.response.body == Envelope(false, Failure(UserNotFoundMessage))
    ensures r.response.status == 500 ==>
              r.response.body == Envelope(false, Failure(
                if body.Threw? then body.message else if update.Threw? then update.message else reread.message))
  {
    match body
    case Threw(m) => Outcome([], Response(500, Envelope(false, Failure(m))))
    case Ok(o) =>
      if |Keys(o)| == 0 then
        Outcome([], Response(400, Envelope(false, Failure(EmptyBodyMessage))))
      else
        var upd := UpdateStatement(id, o);
        match update
        case Threw(m) => Outcome([upd], Response(500, Envelope(false, Failure(m))))
        case Ok(w) =>
          if w.affectedRows > 0 then
            var sel := Statement(SelectByIdSql, [Str(id)]);
            match reread
            case Threw(m) => Outcome([upd, sel], Response(500, Envelope(false, Failure(m))))
            case Ok(rows) => Outcome([upd, sel], Response(200, Envelope(true, User(FirstRow(rows)))))
          else
            Outcome([upd], Response(404, Envelope(false, Failure(UserNotFoundMessage))))
  }

  /** DELETE /delete: TRUNCATE, then 200 when rows were affected and 404
      when none were. The 500 path says `success: false`. */
  function DeleteAll(truncate: Exec<WriteInfo>): (r: Outcome)
    ensures r.executed == [Statement(TruncateSql, [])]
    ensures r.response.status in {200, 404, 500}
    ensures r.response.status == 200 <==> truncate.Ok? && truncate.value.affectedRows > 0
    ensures r.response.status == 200 ==> r.response.body == Envelope(true, NoResult)
    ensures r.response.status == 404 <==> truncate.Ok? && truncate.value.affectedRows == 0
    ensures r.response.status == 404 ==> r.response.body == Envelope(false, Failure(EmptyTableMessage))
    ensures r.response.status == 500 ==> r.response.body == Envelope(false, Failure(truncate.message))
  {
    var stmt := Statement(TruncateSql, []);
    match truncate
    case Threw(m) => Outcome([stmt], Response(500, Envelope(false, Failure(m))))
    case Ok(w) =>
      if w.affectedRows > 0 then Outcome([stmt], Response(200, Envelope(true, NoResult)))
      else Outcome([stmt], Response(404, Envelope(false, Failure(EmptyTableMessage))))
  }

  /** DELETE /delete/:id: read the row, delete by id, then 200 with the row
      read before the delete when rows were affected and 404 when none were.
      When the read fails the delete is not sent. The 500 path says
      `success: true`. */
  function DeleteUser(id: string, rows: Exec<seq<Row>>, delete: Exec<WriteInfo>): (r: Outcome)
    ensures rows.Threw? ==> r == Outcome([Statement(SelectByIdSql, [Str(id)])],
                                         Response(500, Envelope(true, Failure(rows.message))))
    ensures rows.Ok? ==> r.executed == [Statement(SelectByIdSql, [Str(id)]), Statement(DeleteByIdSql, [Str(id)])]
    ensures r.response.status in {200, 404, 500}
    ensures r.response.status == 200 <==> rows.Ok? && delete.Ok? && delete.value.affectedRows > 0
    ensures r.response.status == 200 ==> r.response.body == Envelope(true, Deleted(FirstRow(rows.value)))
    ensures r.response.status == 404 <==> rows.Ok? && delete.Ok? && delete.value.affectedRows == 0
    ensures r.response.status == 404 ==> r.response.body == Envelope(false, Failure(UserNotFoundMessage))
    ensures r.response.status == 500 ==>
              r.response.body == Envelope(true, Failure(if rows.Threw? then rows.message else delete.message))
  {
    var sel := Statement(SelectByIdSql, [Str(id)]);
    match rows
    case Threw(m) => Outcome([sel], Response(500, Envelope(true, Failure(m))))
    case Ok(found) =>
      var del := Statement(DeleteByIdSql, [Str(id)]);
      match delete
      case Threw(m) => Outcome([sel, del], Response(500, Envelope(true, Failure(m))))
      case Ok(w) =>
        if w.affectedRows > 0 then Outcome([sel, del], Response(200, Envelope(true, Deleted(FirstRow(found)))))
        else Outcome([sel, del], Response(404, Envelope(false, Failure(UserNotFoundMessage))))
  }
}

# rulyu user service: a Dafny model of its query builders and handlers

The service is an HTTP front end over one MySQL table,
`users(id, full_name, role, efficiency)`. It has six routes: create, list
with filters, get by id, update by id, delete all and delete by id. Two
small builders are its only real logic. Given the field names of a request,
they write the dynamic parts of the SQL: `getQueryForCondition` builds the
`WHERE` clause of the list query, and `getQueryForInsert` builds the `SET`
list of the UPDATE. The rest of each handler validates the input, sends
statements to the database and picks a status code and a JSON envelope from
what comes back.

The model has four modules, each in its own file:

- `Strings` (`strings.dfy`): `Join`, which is JavaScript's `Array.prototype.join`, and
  `Split`, which is `String.prototype.split` on one character. It proves the
  round trips between them; `?` characters are counted with `multiset(s)['?']`.
- `QueryBuilder` (`query_builder.dfy`): the two builders. Each one's shape is
  proved against a reference description. When the text is split at its
  `?` marks, piece i ends with `keys[i] + " = "`. The pieces are joined by
  `" AND "` in the WHERE clause and by `","` in the SET list. This fixes
  where every separator sits. A count of `" AND "` occurrences would not hold:
  the keys `["a", "AND b"]` give `" WHERE a = ? AND AND b = ?"`, which has
  two `" AND "` for one separator.
- `Handlers` (`handlers.dfy`): the six handlers as pure functions. Each takes
  its parsed input plus **the outcome of each awaited call** (`req.json()` and
  every `db.execute`): a value, or the message of a thrown error. It returns
  the statements it sent and the response it wrote. A statement counts as sent
  only if the handler reaches it.
- `Binding` (`binding.dfy`): how the `?` characters of each statement line
  up with its parameter list. Query-string parameter i and body value i go
  with the i-th `?`, which is written right after their own field name. The
  update's id goes with the last `?`. Every statement any handler sends has
  as many `?` characters as parameters. These are facts about the characters
  of the SQL text, not about how MySQL's lexer reads it.

The `success` flags are recorded exactly as the source writes them. The 500
responses of create, list, get-by-id and delete-by-id carry
`success: true`; those of update and delete-all carry `success: false`.
Get-by-id's 404 is a bare `{ error }` object and has no envelope. A
response written with `res.json` and no `res.status` has status 200.

The builders take an ordered array of names and keep duplicates; there are
six routes; delete-by-id reads the row before it deletes it.

## Model

| member | source | states |
|---|---|---|
| QueryBuilder.ConditionClause | index.js:21-26 | The condition is "" exactly when there are no keys; for any key it is non-empty |
| QueryBuilder.AssignmentClause | index.js:33-38 | The SET list is "" exactly when there are no keys |
| QueryBuilder.JoinPlaceholders | index.js:25 | A prefix followed by the `k = ?` items joined with a separator equals the per-key segments (prefix or separator, then `k = `), each closed by `?` |
| QueryBuilder.ConditionPieces | index.js:21-25 | Split at `?`, `prefix + condition` gives `prefix + " WHERE " + k0 + " = "`, then `" AND " + ki + " = "` for each later key in input order, then ""; with no keys it gives just the prefix. Keys must not contain `?` |
| QueryBuilder.ConditionPlaceholderCount | index.js:25 | The condition holds exactly one `?` per key when no key holds one |
| QueryBuilder.AssignmentPieces | index.js:37 | Split at `?`, `prefix + SET list + suffix` gives the per-key segments (prefix, then `"," + ki + " = "`) in order, then the pieces of the suffix; the `?` count is the number of keys plus the suffix's |
| QueryBuilder.AssignmentSplitsIntoPlaceholders | index.js:37 | Split at ",", the SET list gives back exactly the `k = ?` items in input order, with no empty piece from a leading or trailing comma, when no key holds a comma |
| QueryBuilder.ConditionSnoc | index.js:25 | Adding one more key adds `" AND " + key + " = ?"` at the end of the condition |
| QueryBuilder.AssignmentSnoc | index.js:37 | Adding one more key adds `"," + key + " = ?"` at the end of the SET list |
| Strings.SplitJoin | index.js:37 | Splitting at `c` a join made with `c` returns the parts, when no part contains `c` |
| Handlers.Field | index.js:48 | For a name not defined on `Object.prototype`, the destructured field is `undefined` exactly when the body lacks the key, and otherwise it is the value stored under that key |
| Handlers.Create | index.js:46-77 | 400 (with `success: false`) exactly when the body parsed but one of full_name, role, efficiency is missing, and then nothing is sent; otherwise one INSERT is sent with those three values in column order; 201 with `insertId` exactly when that insert returned; both 500 paths carry `success: true` and the thrown message |
| Handlers.ListStatement | index.js:86-91 | The list query has one parameter per query-string entry, and parameter i is entry i's value |
| Handlers.ListUsers | index.js:84-106 | Exactly one SELECT is sent; 200 with the rows (an empty list included) exactly when it returned; otherwise 500 with `success: true` |
| Handlers.GetUser | index.js:109-132 | One SELECT by id; 200 with `[rows[0]]` exactly when a row came back, a bare 404 `{ error: "User not found" }` exactly when none did, 500 with `success: true` on a throw |
| Handlers.UpdateStatement | index.js:151-156 | The UPDATE has `|body| + 1` parameters: the body's values in key order, then the id |
| Handlers.UpdateUser | index.js:139-184 | 400 `Empty body` exactly when the body parsed with no keys, and then nothing is sent; otherwise the UPDATE is sent first; a throwing UPDATE sends nothing more; when `affectedRows > 0` exactly the UPDATE and the re-read are sent; 200 exactly when `affectedRows > 0` and the re-read returned, with the re-read row; 404 exactly when `affectedRows` is 0, and then nothing else is sent; every 500 carries `success: false` and the message of the call that threw |
| Handlers.DeleteAll | index.js:191-214 | One TRUNCATE; 200 `{ success: true }` exactly when `affectedRows > 0`, 404 `Empty table` exactly when it is 0, 500 with `success: false` on a throw |
| Handlers.DeleteUser | index.js:217-249 | The select by id is sent first; if it throws, the result is 500 and no delete is sent; otherwise the delete follows; 200 exactly when `affectedRows > 0`, carrying the row read before the delete; 404 exactly when it is 0; 500 carries `success: true` and the message of the call that threw |
| Binding.ConditionNamesInOrder | index.js:25 | `prefix + condition` has one `?` per key, and the i-th `?` comes right after `keys[i] + " = "` |
| Binding.AssignmentNamesInOrder | index.js:152-154 | `prefix + SET list + lead + name + " = ?"` has one `?` per key and one more, and each comes right after its own name |
| Binding.ListBindsInOrder | index.js:86-91 | The list query puts parameter i with the i-th `?`, which follows query key i, with as many `?` characters as parameters, when no key holds `?` |
| Binding.UpdateBindsInOrder | index.js:151-155 | The UPDATE puts body value i with the `?` after body key i and the id with the last `?` (after `id = `), with n+1 `?` characters for n+1 parameters |
| Binding.ByIdBindsId | index.js:219-225 | The select-by-id and delete-by-id texts each have one `?`, right after `id = `, for their one parameter |
| Binding.InsertBalanced | index.js:59-62 | The INSERT text has three `?` characters for its three values |
| Binding.TruncateBalanced | index.js:193 | TRUNCATE has no `?` and no parameter |
| Binding.BalancedCountsPlaceholders | index.js:59-62 | A statement is balanced exactly when its text holds as many `?` as it has parameters |
| Binding.EveryStatementBalanced | index.js:46-249 | Whatever the database answers, every statement any of the six handlers sends has exactly one parameter per `?` character, when no field name holds `?` |

## Left out

- The MySQL pool, `db.execute` and the configuration read by dotenv are I/O
  and a foreign library. Each call is replaced by an abstract outcome: rows,
  a `WriteInfo(affectedRows, insertId)`, or a thrown message.
- HyperExpress routing, `res.status().json()` serialisation and `app.listen`
  are framework plumbing. A response is modelled as a status and a body datatype.
- `req.json()` is modelled as an outcome that holds either a parsed object or
  a thrown message. JSON bodies that are not objects (arrays, strings, null)
  and values that are floats, nested objects or arrays are not modelled.
  `Value` has only null, booleans, integers and strings.
- The order of `Object.keys` is not modelled. That order puts integer-like
  keys first, and an object here is its entries in enumeration order. Keys
  and values use that same order, so the binding facts do not depend on it.
- The interleaving of concurrent requests and the race between delete-by-id's
  select and its delete depend on concurrency and on the database.
- What the database does with a statement, including the `affectedRows` that
  TRUNCATE reports, is server behaviour. So the end-to-end properties stay
  unmodelled: create then get, update changes only the given fields, and
  truncate empties the table.
- Field names are never escaped or checked against an allowlist, and the
  model adds neither. The placeholder and binding lemmas therefore assume
  that no field name contains `?`.
- Binding.EveryStatementBalanced: counts `?` characters, not the placeholders
  MySQL's lexer finds. A field name holding `#`, `-- `, `/*`, a quote or a
  backtick (for example the query key of `GET /get?role%23=x`) can turn a
  later `?` into comment or literal text, so the server may see fewer
  placeholders than the text has `?`. SQL lexing is not modelled.
- The contents of driver error messages are modelled as an opaque string
  that is passed through unchanged.

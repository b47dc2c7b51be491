/**
 * How the `?` characters of the statements the handlers send line up with
 * their parameter lists: each statement has as many `?` characters as
 * parameters, and in the dynamic ones the i-th `?` follows the name of the
 * field whose value is parameter i. These are facts about the characters of
 * the text. Field names are pasted into the SQL text unescaped, so they hold
 * only for names that contain no `?` themselves; and MySQL's lexer reads a
 * `?` inside a comment or a quoted literal as text, not as a placeholder, so
 * a name that opens one can hide a later `?` from the server.
 */
module Binding {
  import opened Strings
  import opened QueryBuilder
  import opened Handlers

  /** There are as many `?` characters in the statement's text as
      parameters: splitting the text at them leaves one piece more. */
  predicate Balanced(s: Statement)
  {
    |Split(s.sql, '?')| == |s.params| + 1
  }

  /** Balanced says the number of `?` equals the number of parameters. */
  lemma BalancedCountsPlaceholders(s: Statement)
    ensures Balanced(s) <==> multiset(s.sql)['?'] == |s.params|
  {
    SplitCount(s.sql, '?');
  }

  /** `sql` has one `?` per name, and the i-th `?` is written right
      after `names[i] + " = "`. */
  predicate NamesInOrder(sql: string, names: seq<string>)
  {
    var pieces := Split(sql, '?');
    && |pieces| == |names| + 1
    && forall i :: 0 <= i < |names| ==> EndsWith(pieces[i], names[i] + " = ")
  }

  /** Placeholder i of `sql` follows `names[i]`, and parameter i goes with it. */
  predicate BindsInOrder(sql: string, names: seq<string>, params: seq<Value>)
  {
    NamesInOrder(sql, names) && |names| == |params|
  }

  lemma EndsWithAppend(s: string, t: string)
    ensures EndsWith(s + t, t)
  {
    assert (s + t)[|s + t| - |t|..] == t;
  }

  /** Each segment ends with the name written before its `?`. */
  lemma SegmentsEndWithNames(first: string, sep: string, keys: seq<string>)
    ensures forall i :: 0 <= i < |keys| ==> EndsWith(Segments(first, sep, keys)[i], keys[i] + " = ")
  {
    forall i | 0 <= i < |keys|
      ensures EndsWith(Segments(first, sep, keys)[i], keys[i] + " = ")
    {
      var lead := if i == 0 then first else sep;
      assert Segments(first, sep, keys)[i] == lead + (keys[i] + " = ");
      EndsWithAppend(lead, keys[i] + " = ");
    }
  }

  /** `prefix + getQueryForCondition(keys)` names the keys in order. */
  lemma ConditionNamesInOrder(prefix: string, keys: seq<string>)
    requires '?' !in prefix && FreeOf(keys, '?')
    ensures NamesInOrder(prefix + ConditionClause(keys), keys)
  {
    ConditionPieces(prefix, keys);
    SegmentsEndWithNames(prefix + " WHERE ", " AND ", keys);
  }

  /** `lead + name + " = ?"` names `name` at its only `?`. */
  lemma OneNameInOrder(lead: string, name: string)
    requires '?' !in lead && '?' !in name
    ensures NamesInOrder(lead + name + " = ?", [name])
  {
    var text := lead + (name + " = ");
    assert '?' !in " = ";
    assert Join([text], "?") == text;
    SplitJoinThen([text], '?', "");
    assert lead + name + " = ?" == Join([text], "?") + "?" + "";
    assert Split("", '?') == [""];
    EndsWithAppend(lead, name + " = ");
  }

  /** `prefix + getQueryForInsert(keys) + lead + name + " = ?"` names the keys
      in order and then `name`. */
  lemma AssignmentNamesInOrder(prefix: string, keys: seq<string>, lead: string, name: string)
    requires |keys| > 0 && '?' !in prefix && FreeOf(keys, '?') && '?' !in lead && '?' !in name
    ensures NamesInOrder(prefix + AssignmentClause(keys) + (lead + name + " = ?"), keys + [name])
  {
    var suffix := lead + name + " = ?";
    OneNameInOrder(lead, name);
    AssignmentPieces(prefix, keys, suffix);
    SegmentsEndWithNames(prefix, ",", keys);
    var pieces := Split(prefix + AssignmentClause(keys) + suffix, '?');
    assert pieces == Segments(prefix, ",", keys) + Split(suffix, '?');
    var names := keys + [name];
    forall i | 0 <= i < |names|
      ensures EndsWith(pieces[i], names[i] + " = ")
    {
      if i < |keys| {
        assert pieces[i] == Segments(prefix, ",", keys)[i];
      } else {
        assert pieces[i] == Split(suffix, '?')[0];
      }
    }
  }

  /** The fixed SQL text around the `?` marks holds no `?` of its own. */
  lemma FixedTextFree()
    ensures '?' !in ListPrefix
    ensures '?' !in UpdatePrefix
    ensures '?' !in " WHERE "
    ensures '?' !in "SELECT * FROM users"
    ensures '?' !in "DELETE FROM users"
  {
    assert ListPrefix == "SELECT " + "* FROM " + "users ";
    assert UpdatePrefix == "UPDATE " + "users " + "SET ";
    assert "SELECT * FROM users" == "SELECT " + "* FROM " + "users";
    assert "DELETE FROM users" == "DELETE " + "FROM " + "users";
  }

  /** GET /get binds the value of query parameter i to the i-th `?`, which
      follows that parameter's name, when no name holds a `?`. */
  lemma ListBindsInOrder(query: JsObject)
    requires FreeOf(Keys(query), '?')
    ensures BindsInOrder(ListStatement(query).sql, Keys(query), ListStatement(query).params)
    ensures forall i :: 0 <= i < |query| ==> ListStatement(query).params[i] == query[i].1
  {
    FixedTextFree();
    ConditionNamesInOrder(ListPrefix, Keys(query));
  }

  /** PATCH /update/:id binds body value i to the i-th `?`, which follows
      body key i, and the id to the last `?`, which follows "id = ",
      when the body is non-empty and no key holds a `?`. */
  lemma UpdateBindsInOrder(id: string, body: JsObject)
    requires |body| > 0 && FreeOf(Keys(body), '?')
    ensures BindsInOrder(UpdateStatement(id, body).sql, Keys(body) + ["id"], UpdateStatement(id, body).params)
    ensures forall i :: 0 <= i < |body| ==> UpdateStatement(id, body).params[i] == body[i].1
    ensures UpdateStatement(id, body).params[|body|] == Str(id)
  {
    FixedTextFree();
    assert '?' !in "id";
    assert UpdateSuffix == " WHERE " + "id" + " = ?";
    AssignmentNamesInOrder(UpdatePrefix, Keys(body), " WHERE ", "id");
  }

  /** The by-id statements bind the id to their one `?`. */
  lemma ByIdBindsId(id: string)
    ensures BindsInOrder(SelectByIdSql, ["id"], [Str(id)])
    ensures BindsInOrder(DeleteByIdSql, ["id"], [Str(id)])
  {
    FixedTextFree();
    assert '?' !in "id";
    assert SelectByIdSql == "SELECT * FROM users" + " WHERE " + "id" + " = ?";
    assert DeleteByIdSql == "DELETE FROM users" + " WHERE " + "id" + " = ?";
    OneNameInOrder("SELECT * FROM users" + " WHERE ", "id");
    OneNameInOrder("DELETE FROM users" + " WHERE ", "id");
  }

  // The facts below about the fixed SQL texts are taken in small steps: the
  // verifier compares string literals character by character.

  lemma InsertTableFree()
    ensures '?' !in "INSERT INTO users (full_name, role, "
  {
    assert "INSERT INTO users (full_name, role, " == "INSERT INTO users " + "(full_name, role, ";
    assert "INSERT INTO users " == "INSERT " + "INTO " + "users ";
  }

  lemma InsertColumnsFree()
    ensures '?' !in "INSERT INTO users (full_name, role, efficiency) VALUES ("
  {
    InsertTableFree();
    assert "INSERT INTO users (full_name, role, efficiency) VALUES ("
        == "INSERT INTO users (full_name, role, " + "efficiency) VALUES (";
    assert "efficiency) VALUES (" == "efficiency) " + "VALUES (";
  }

  lemma InsertSqlLead()
    ensures InsertSql == "INSERT INTO users (full_name, role, efficiency) VALUES (" + "?, ?, ?)"
  {
    assert InsertSql == "INSERT INTO users (full_name, role, " + "efficiency) VALUES (?, ?, ?)";
    assert "efficiency) VALUES (?, ?, ?)" == "efficiency) VALUES (" + "?, ?, ?)";
  }

  /** The INSERT is its column list and two ", " and ")" joined by `?`. */
  lemma InsertSqlJoined()
    ensures InsertSql == Join(["INSERT INTO users (full_name, role, efficiency) VALUES (", ", ", ", ", ")"], "?")
  {
    var lead := "INSERT INTO users (full_name, role, efficiency) VALUES (";
    var parts := [lead, ", ", ", ", ")"];
    assert parts[1..] == [", ", ", ", ")"] && parts[1..][1..] == [", ", ")"];
    assert Join([", ", ")"], "?") == ", " + "?" + ")";
    assert Join([", ", ", ", ")"], "?") == ", " + "?" + (", " + "?" + ")");
    assert Join(parts, "?") == lead + "?" + (", " + "?" + (", " + "?" + ")"));
    assert "?, ?, ?)" == "?" + (", " + "?" + (", " + "?" + ")"));
    InsertSqlLead();
  }

  /** The INSERT has three `?` characters. */
  lemma InsertBalanced(full_name: Value, role: Value, efficiency: Value)
    ensures Balanced(Statement(InsertSql, [full_name, role, efficiency]))
  {
    var parts := ["INSERT INTO users (full_name, role, efficiency) VALUES (", ", ", ", ", ")"];
    InsertSqlJoined();
    InsertColumnsFree();
    assert FreeOf(parts, '?');
    SplitJoin(parts, '?');
  }

  /** TRUNCATE has no `?`. */
  lemma TruncateBalanced()
    ensures Balanced(Statement(TruncateSql, []))
  {
    assert TruncateSql == "TRUNCATE" + " users";
    SplitFree(TruncateSql, '?');
  }

  lemma CreateBalanced(body: Exec<JsObject>, insert: Exec<WriteInfo>)
    ensures forall s :: s in Create(body, insert).executed ==> Balanced(s)
  {
    var c := Create(body, insert);
    if c.executed != [] {
      var p := c.executed[0].params;
      InsertBalanced(p[0], p[1], p[2]);
      assert c.executed[0] == Statement(InsertSql, [p[0], p[1], p[2]]);
    }
  }

  lemma BindsBalanced(s: Statement, names: seq<string>)
    requires BindsInOrder(s.sql, names, s.params)
    ensures Balanced(s)
  {
  }

  lemma ByIdBalanced(id: string)
    ensures Balanced(Statement(SelectByIdSql, [Str(id)]))
    ensures Balanced(Statement(DeleteByIdSql, [Str(id)]))
  {
    ByIdBindsId(id);
    BindsBalanced(Statement(SelectByIdSql, [Str(id)]), ["id"]);
    BindsBalanced(Statement(DeleteByIdSql, [Str(id)]), ["id"]);
  }

  lemma UpdateBalanced(id: string, body: Exec<JsObject>, update: Exec<WriteInfo>, reread: Exec<seq<Row>>)
    requires body.Ok? ==> FreeOf(Keys(body.value), '?')
    ensures forall s :: s in UpdateUser(id, body, update, reread).executed ==> Balanced(s)
  {
    var r := UpdateUser(id, body, update, reread);
    if r.executed != [] {
      var upd := UpdateStatement(id, body.value);
      var sel := Statement(SelectByIdSql, [Str(id)]);
      assert r.executed == [upd] || r.executed == [upd, sel];
      UpdateBindsInOrder(id, body.value);
      BindsBalanced(upd, Keys(body.value) + ["id"]);
      ByIdBalanced(id);
    }
  }

  /** Every statement any handler sends has exactly one parameter per `?`
      character, whatever the database answers, provided no field name of a
      query string or a body holds a `?`. */
  lemma EveryStatementBalanced(
    id: string, query: JsObject, body: Exec<JsObject>, write: Exec<WriteInfo>, rows: Exec<seq<Row>>)
    requires FreeOf(Keys(query), '?')
    requires body.Ok? ==> FreeOf(Keys(body.value), '?')
    ensures forall s :: s in Create(body, write).executed ==> Balanced(s)
    ensures forall s :: s in ListUsers(query, rows).executed ==> Balanced(s)
    ensures forall s :: s in GetUser(id, rows).executed ==> Balanced(s)
    ensures forall s :: s in UpdateUser(id, body, write, rows).executed ==> Balanced(s)
    ensures forall s :: s in DeleteAll(write).executed ==> Balanced(s)
    ensures forall s :: s in DeleteUser(id, rows, write).executed ==> Balanced(s)
  {
    CreateBalanced(body, write);
    UpdateBalanced(id, body, write, rows);
    TruncateBalanced();
    ListBindsInOrder(query);
    BindsBalanced(ListStatement(query), Keys(query));
    ByIdBalanced(id);
  }
}

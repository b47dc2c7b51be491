/**
 * The two SQL-fragment builders of the user service. Both map every field
 * name `k` to `k = ?` in input order and join the results; field names are
 * pasted into the SQL text as they are (no escaping, no allowlist), and only
 * values travel as parameters.
 */
module QueryBuilder {
  import opened Strings

  /** The assignment or comparison written for one field, `${element} = ?`. */
  function Placeholder(key: string): string
  {
    key + " = ?"
  }

  /** `[...keys].map(element => `${element} = ?`)`. */
  function Placeholders(keys: seq<string>): seq<string>
  {
    seq(|keys|, i requires 0 <= i < |keys| => Placeholder(keys[i]))
  }

  /** getQueryForCondition: "" for no keys, otherwise " WHERE " followed by the
      placeholders joined with " AND ". */
  function ConditionClause(keys: seq<string>): (r: string)
    ensures r == "" <==> |keys| == 0
  {
    if |keys| == 0 then "" else " WHERE " + Join(Placeholders(keys), " AND ")
  }

  /** getQueryForInsert, which builds the SET list of an UPDATE: "" for no keys,
      otherwise the placeholders joined with ",". */
  function AssignmentClause(keys: seq<string>): (r: string)
    ensures r == "" <==> |keys| == 0
  {
    if |keys| == 0 then "" else Join(Placeholders(keys), ",")
  }

  /** The SQL text that precedes each `?` of a fragment: piece i names keys[i]
      and ends with " = ", and it starts with `first` for i == 0 and with the
      separator `sep` otherwise. */
  function Segments(first: string, sep: string, keys: seq<string>): seq<string>
  {
    seq(|keys|, i requires 0 <= i < |keys| => (if i == 0 then first else sep) + keys[i] + " = ")
  }

  /** `first` then the joined placeholders is the segments, each closed by `?`. */
  lemma {:induction false} JoinPlaceholders(first: string, sep: string, keys: seq<string>)
    requires |keys| > 0
    ensures first + Join(Placeholders(keys), sep) == Join(Segments(first, sep, keys), "?") + "?"
    decreases |keys|
  {
    var k := keys[0];
    var head := first + k + " = ";
    if |keys| == 1 {
      assert Placeholders(keys) == [k + " = ?"];
      assert Segments(first, sep, keys) == [head];
      assert first + (k + " = ?") == head + "?";
    } else {
      var rest := keys[1..];
      assert Placeholders(keys) == [Placeholder(k)] + Placeholders(rest);
      assert Placeholders(keys)[1..] == Placeholders(rest);
      assert Segments(first, sep, keys) == [head] + Segments(sep, sep, rest);
      assert Segments(first, sep, keys)[1..] == Segments(sep, sep, rest);
      JoinPlaceholders(sep, sep, rest);
      var tail := Join(Segments(sep, sep, rest), "?");
      assert sep + Join(Placeholders(rest), sep) == tail + "?";
      calc {
        first + Join(Placeholders(keys), sep);
        first + (Placeholder(k) + sep + Join(Placeholders(rest), sep));
        head + "?" + (sep + Join(Placeholders(rest), sep));
        head + "?" + (tail + "?");
        (head + "?" + tail) + "?";
      }
    }
  }

  /** No segment holds `?` when no key does. */
  lemma SegmentsFree(first: string, sep: string, keys: seq<string>)
    requires '?' !in first && '?' !in sep && FreeOf(keys, '?')
    ensures FreeOf(Segments(first, sep, keys), '?')
  {
    forall i | 0 <= i < |keys|
      ensures '?' !in Segments(first, sep, keys)[i]
    {
      assert '?' !in " = ";
      assert '?' !in keys[i];
    }
  }

  /** The i-th `?` of `prefix + getQueryForCondition(keys)` comes right after
      keys[i] + " = ", and the comparisons are separated by " AND ", provided
      no key holds a `?`. */
  lemma {:induction false} ConditionPieces(prefix: string, keys: seq<string>)
    requires '?' !in prefix && FreeOf(keys, '?')
    ensures Split(prefix + ConditionClause(keys), '?')
         == if |keys| == 0 then [prefix] else Segments(prefix + " WHERE ", " AND ", keys) + [""]
  {
    if |keys| == 0 {
      assert prefix + ConditionClause(keys) == prefix + "" == prefix;
      SplitAfterFreePrefix(prefix, "", '?');
      assert Split("", '?') == [""];
    } else {
      NonEmptyConditionPieces(prefix, keys);
    }
  }

  lemma NonEmptyConditionPieces(prefix: string, keys: seq<string>)
    requires |keys| > 0 && '?' !in prefix && FreeOf(keys, '?')
    ensures Split(prefix + ConditionClause(keys), '?') == Segments(prefix + " WHERE ", " AND ", keys) + [""]
  {
    var first := prefix + " WHERE ";
    var segs := Segments(first, " AND ", keys);
    JoinPlaceholders(first, " AND ", keys);
    assert prefix + ConditionClause(keys) == Join(segs, "?") + "?" + "";
    SegmentsFree(first, " AND ", keys);
    SplitJoinThen(segs, '?', "");
  }

  /** `prefix + getQueryForCondition(keys)` holds exactly |keys| `?` characters
      when neither the prefix nor any key holds one. */
  lemma {:induction false} ConditionPlaceholderCount(prefix: string, keys: seq<string>)
    requires '?' !in prefix && FreeOf(keys, '?')
    ensures multiset(prefix + ConditionClause(keys))['?'] == |keys|
  {
    ConditionPieces(prefix, keys);
    SplitCount(prefix + ConditionClause(keys), '?');
  }

  /** The i-th `?` of `prefix + getQueryForInsert(keys) + suffix` comes right
      after keys[i] + " = ", the assignments are separated by ",", and the
      `?` characters of `suffix` follow, provided no key holds a `?`. */
  lemma {:induction false} AssignmentPieces(prefix: string, keys: seq<string>, suffix: string)
    requires |keys| > 0 && '?' !in prefix && FreeOf(keys, '?')
    ensures Split(prefix + AssignmentClause(keys) + suffix, '?')
         == Segments(prefix, ",", keys) + Split(suffix, '?')
    ensures multiset(prefix + AssignmentClause(keys) + suffix)['?'] == |keys| + multiset(suffix)['?']
  {
    var s := prefix + AssignmentClause(keys) + suffix;
    var segs := Segments(prefix, ",", keys);
    JoinPlaceholders(prefix, ",", keys);
    assert s == Join(segs, "?") + "?" + suffix;
    SegmentsFree(prefix, ",", keys);
    SplitJoinThen(segs, '?', suffix);
    SplitCount(s, '?');
    SplitCount(suffix, '?');
  }

  /** Splitting getQueryForInsert(keys) on "," gives back the assignments one
      by one, in input order, when no key holds a comma. */
  lemma {:induction false} AssignmentSplitsIntoPlaceholders(keys: seq<string>)
    requires FreeOf(keys, ',')
    ensures Split(AssignmentClause(keys), ',') == if |keys| == 0 then [""] else Placeholders(keys)
  {
    if |keys| > 0 {
      forall i | 0 <= i < |keys|
        ensures ',' !in Placeholders(keys)[i]
      {
        assert ',' !in " = ?";
        assert ',' !in keys[i];
      }
      SplitJoin(Placeholders(keys), ',');
    }
  }

  /** Adding a key appends " AND " and its comparison to the WHERE clause. */
  lemma {:induction false} ConditionSnoc(keys: seq<string>, key: string)
    requires |keys| > 0
    ensures ConditionClause(keys + [key]) == ConditionClause(keys) + " AND " + Placeholder(key)
  {
    assert Placeholders(keys + [key]) == Placeholders(keys) + [Placeholder(key)];
    JoinAppend(Placeholders(keys), [Placeholder(key)], " AND ");
  }

  /** Adding a key appends "," and its assignment to the SET list. */
  lemma {:induction false} AssignmentSnoc(keys: seq<string>, key: string)
    requires |keys| > 0
    ensures AssignmentClause(keys + [key]) == AssignmentClause(keys) + "," + Placeholder(key)
  {
    assert Placeholders(keys + [key]) == Placeholders(keys) + [Placeholder(key)];
    JoinAppend(Placeholders(keys), [Placeholder(key)], ",");
  }
}

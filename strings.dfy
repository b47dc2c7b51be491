/**
 * String operations of JavaScript that the query builders and their callers
 * rely on: `Array.prototype.join` and `String.prototype.split` on a single
 * character. Occurrences of a character are counted with `multiset(s)[c]`.
 */
module Strings {

  /** `parts.join(sep)`: the parts in order, `sep` between neighbours, no
      leading or trailing separator; the join of no parts is "". */
  function Join(parts: seq<string>, sep: string): string
  {
    if |parts| == 0 then ""
    else if |parts| == 1 then parts[0]
    else parts[0] + sep + Join(parts[1..], sep)
  }

  /** `s.split(c)`: the maximal pieces of `s` free of `c`, in order; the result
      is never empty, and joining the pieces with `c` gives `s` back. */
  function Split(s: string, c: char): (r: seq<string>)
    ensures |r| >= 1
    ensures forall i :: 0 <= i < |r| ==> c !in r[i]
  {
    if |s| == 0 then [""]
    else
      var rest := Split(s[1..], c);
      if s[0] == c then [""] + rest
      else [[s[0]] + rest[0]] + rest[1..]
  }

  predicate EndsWith(s: string, suffix: string)
  {
    |suffix| <= |s| && s[|s| - |suffix|..] == suffix
  }

  predicate FreeOf(parts: seq<string>, c: char)
  {
    forall i :: 0 <= i < |parts| ==> c !in parts[i]
  }

  /** Joining two non-empty lists is joining their joins. */
  lemma {:induction false} JoinAppend(a: seq<string>, b: seq<string>, sep: string)
    requires |a| > 0 && |b| > 0
    ensures Join(a + b, sep) == Join(a, sep) + sep + Join(b, sep)
  {
    if |a| == 1 {
      assert (a + b)[1..] == b;
    } else {
      assert (a + b)[1..] == a[1..] + b;
      JoinAppend(a[1..], b, sep);
    }
  }

  /** A prefix free of `c` is glued to the first piece of what follows it. */
  lemma {:induction false} SplitAfterFreePrefix(a: string, b: string, c: char)
    requires c !in a
    ensures Split(a + b, c) == [a + Split(b, c)[0]] + Split(b, c)[1..]
  {
    if |a| > 0 {
      assert (a + b)[1..] == a[1..] + b;
      SplitAfterFreePrefix(a[1..], b, c);
      var r := Split(b, c);
      var rest := Split(a[1..] + b, c);
      assert (a + b)[0] == a[0] && a[0] != c;
      assert Split(a + b, c) == [[a[0]] + rest[0]] + rest[1..];
      assert [a[0]] + (a[1..] + r[0]) == a + r[0];
    } else {
      assert a + b == b;
      var r := Split(b, c);
      assert a + r[0] == r[0];
      assert r == [r[0]] + r[1..];
    }
  }

  /** A string free of `c` is its own only piece. */
  lemma SplitFree(s: string, c: char)
    requires c !in s
    ensures Split(s, c) == [s]
  {
    SplitAfterFreePrefix(s, "", c);
    assert s + "" == s;
    assert Split("", c) == [""];
  }

  lemma SplitLeadingSeparator(s: string, c: char)
    ensures Split([c] + s, c) == [""] + Split(s, c)
  {
    assert ([c] + s)[1..] == s;
  }

  /** Splitting on `c` undoes joining with `c` when no part holds `c`. */
  lemma {:induction false} SplitJoin(parts: seq<string>, c: char)
    requires |parts| > 0 && FreeOf(parts, c)
    ensures Split(Join(parts, [c]), c) == parts
  {
    var head := parts[0];
    if |parts| == 1 {
      SplitAfterFreePrefix(head, "", c);
      assert head + "" == head;
    } else {
      var tail := Join(parts[1..], [c]);
      var rest := [c] + tail;
      assert Join(parts, [c]) == head + rest;
      SplitAfterFreePrefix(head, rest, c);
      SplitLeadingSeparator(tail, c);
      SplitJoin(parts[1..], c);
      assert Split(rest, c) == [""] + parts[1..];
      assert Split(head + rest, c) == [head + ""] + parts[1..];
      assert head + "" == head;
      assert parts == [head] + parts[1..];
    }
  }

  /** There is one piece more than `s` has occurrences of `c`. */
  lemma {:induction false} SplitCount(s: string, c: char)
    ensures |Split(s, c)| == multiset(s)[c] + 1
  {
    if |s| > 0 {
      SplitCount(s[1..], c);
      assert s == [s[0]] + s[1..];
      assert multiset(s) == multiset([s[0]]) + multiset(s[1..]);
    }
  }

  /** Joining the pieces of a split with the same character gives the string
      back: splitting loses nothing. */
  lemma {:induction false} JoinSplit(s: string, c: char)
    ensures Join(Split(s, c), [c]) == s
  {
    if |s| > 0 {
      var rest := Split(s[1..], c);
      JoinSplit(s[1..], c);
      assert s == [s[0]] + s[1..];
      if s[0] == c {
        assert Split(s, c) == [""] + rest;
        assert ([""] + rest)[1..] == rest;
        assert Join(Split(s, c), [c]) == "" + [c] + Join(rest, [c]);
      } else {
        assert Split(s, c) == [[s[0]] + rest[0]] + rest[1..];
        if |rest| > 1 {
          assert Join(rest, [c]) == rest[0] + [c] + Join(rest[1..], [c]);
          assert ([[s[0]] + rest[0]] + rest[1..])[1..] == rest[1..];
        }
      }
    }
  }

  /** What follows a `c`-joined list and one more `c` splits on its own. */
  lemma {:induction false} SplitJoinThen(parts: seq<string>, c: char, tail: string)
    requires |parts| > 0 && FreeOf(parts, c)
    ensures Split(Join(parts, [c]) + [c] + tail, c) == parts + Split(tail, c)
  {
    var q := Split(tail, c);
    JoinSplit(tail, c);
    JoinAppend(parts, q, [c]);
    assert FreeOf(parts + q, c);
    SplitJoin(parts + q, c);
  }
}

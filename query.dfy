/** What the list queries of the models do to a table's rows: a WHERE
    predicate, ORDER BY a creation stamp, LIMIT n; plus the two text
    operations the queries rely on (ILIKE '%v%' and ORDER BY on text). */
module Query {
  import opened Results

  /** The rows are in strictly ascending `key` order. */
  ghost predicate Increasing<T>(s: seq<T>, key: T -> int) {
    forall i, j {:trigger key(s[i]), key(s[j])} :: 0 <= i < j < |s| ==> key(s[i]) < key(s[j])
  }

  /** The rows are in strictly descending `key` order. */
  ghost predicate Decreasing<T>(s: seq<T>, key: T -> int) {
    forall i, j :: 0 <= i < j < |s| ==> key(s[i]) > key(s[j])
  }

  /** `WHERE p`: the rows satisfying `p`, in table order. */
  function Where<T(!new)>(s: seq<T>, p: T -> bool): (r: seq<T>)
    ensures |r| <= |s|
    ensures forall x :: x in r <==> x in s && p(x)
  {
    if s == [] then []
    else
      assert forall x :: x in s <==> x == s[0] || x in s[1..];
      (if p(s[0]) then [s[0]] else []) + Where(s[1..], p)
  }

  /** Every row of the tail comes after the head. */
  lemma HeadFirst<T>(s: seq<T>, key: T -> int)
    requires Increasing(s, key) && s != []
    ensures forall x :: x in s[1..] ==> key(s[0]) < key(x)
  {
    forall x | x in s[1..] ensures key(s[0]) < key(x) {
      var k :| 0 <= k < |s[1..]| && s[1..][k] == x;
      assert s[k + 1] == x;
    }
  }

  lemma IncreasingTail<T>(s: seq<T>, key: T -> int)
    requires Increasing(s, key) && s != []
    ensures Increasing(s[1..], key)
  {
    forall i, j | 0 <= i < j < |s[1..]| ensures key(s[1..][i]) < key(s[1..][j]) {
      assert s[1..][i] == s[i + 1] && s[1..][j] == s[j + 1];
    }
  }

  lemma IncreasingCons<T>(x: T, rest: seq<T>, key: T -> int)
    requires Increasing(rest, key)
    requires forall y :: y in rest ==> key(x) < key(y)
    ensures Increasing([x] + rest, key)
  {
    var r := [x] + rest;
    forall i, j | 0 <= i < j < |r| ensures key(r[i]) < key(r[j]) {
      assert r[j] == rest[j - 1] && rest[j - 1] in rest;
      if i > 0 {
        assert r[i] == rest[i - 1];
      }
    }
  }

  /** Filtering keeps the table's order. */
  lemma {:induction false} WhereIncreasing<T(!new)>(s: seq<T>, p: T -> bool, key: T -> int)
    requires Increasing(s, key)
    ensures Increasing(Where(s, p), key)
  {
    if s != [] {
      IncreasingTail(s, key);
      WhereIncreasing(s[1..], p, key);
      HeadFirst(s, key);
      var rest := Where(s[1..], p);
      if p(s[0]) {
        IncreasingCons(s[0], rest, key);
      }
    }
  }

  /** `LIMIT n`: the first `n` rows, all of them when there are fewer. */
  function Limit<T>(s: seq<T>, n: nat): (r: seq<T>)
    ensures |r| <= n && r <= s
    ensures |s| <= n ==> r == s
    ensures |s| > n ==> |r| == n
  {
    if |s| <= n then s else s[..n]
  }

  /** `WHERE p ORDER BY key LIMIT n` over a table kept in `key` order. */
  function Select<T(!new)>(s: seq<T>, p: T -> bool, n: nat): seq<T> {
    Limit(Where(s, p), n)
  }

  /** What a list query returns, stated without reference to how: only
      matching rows of the table, at most `n` of them, and all matching rows
      when fewer than `n` come back. */
  lemma SelectFacts<T(!new)>(s: seq<T>, p: T -> bool, n: nat)
    ensures |Select(s, p, n)| <= n
    ensures forall x :: x in Select(s, p, n) ==> x in s && p(x)
    ensures |Select(s, p, n)| < n ==> forall x :: x in s && p(x) ==> x in Select(s, p, n)
    ensures |Where(s, p)| <= n ==> Select(s, p, n) == Where(s, p)
  {
    var w := Where(s, p);
    var r := Select(s, p, n);
    forall x | x in r ensures x in w {
      var k :| 0 <= k < |r| && r[k] == x;
      assert w[k] == x;
    }
  }

  /** Over a table kept in `key` order the rows come back in that order, and
      when the limit cuts the list it keeps the oldest: every matching row
      left out is newer than every row returned. */
  lemma SelectOrdered<T(!new)>(s: seq<T>, p: T -> bool, n: nat, key: T -> int)
    requires Increasing(s, key)
    ensures forall x, y :: x in s && p(x) && x !in Select(s, p, n) && y in Select(s, p, n) ==> key(y) < key(x)
    ensures Increasing(Select(s, p, n), key)
  {
    var w := Where(s, p);
    var r := Select(s, p, n);
    WhereIncreasing(s, p, key);
    forall x, y | x in s && p(x) && x !in r && y in r ensures key(y) < key(x) {
      assert x in w;
      var kx :| 0 <= kx < |w| && w[kx] == x;
      var ky :| 0 <= ky < |r| && r[ky] == y;
      assert w[ky] == y;
      assert forall k :: 0 <= k < |r| ==> w[k] == r[k] && r[k] in r;
    }
  }

  /** Filtering a table with one more row filters the old rows the same. */
  lemma {:induction false} WhereSnoc<T(!new)>(s: seq<T>, x: T, p: T -> bool)
    ensures Where(s + [x], p) == Where(s, p) + (if p(x) then [x] else [])
  {
    if s != [] {
      assert (s + [x])[1..] == s[1..] + [x];
      WhereSnoc(s[1..], x, p);
    }
  }

  /** A filter every row passes keeps the whole table. */
  lemma {:induction false} WhereAll<T(!new)>(s: seq<T>, p: T -> bool)
    requires forall i :: 0 <= i < |s| ==> p(s[i])
    ensures Where(s, p) == s
  {
    if s != [] {
      assert forall i :: 1 <= i < |s| ==> s[1..][i - 1] == s[i];
      WhereAll(s[1..], p);
    }
  }

  /** A list with no member is the empty list. */
  lemma EmptyIff<T>(s: seq<T>)
    ensures (forall x :: x !in s) <==> s == []
  {
    if s != [] {
      assert s[0] in s;
    }
  }

  /** Two filters that agree on every row select the same rows. */
  lemma {:induction false} WhereSame<T(!new)>(s: seq<T>, p: T -> bool, q: T -> bool)
    requires forall i :: 0 <= i < |s| ==> p(s[i]) == q(s[i])
    ensures Where(s, p) == Where(s, q)
  {
    if s != [] {
      assert forall i :: 1 <= i < |s| ==> s[1..][i - 1] == s[i];
      WhereSame(s[1..], p, q);
    }
  }

  /** The rows in the opposite order (`ORDER BY ... DESC` of a table kept in
      ascending order). */
  function Reverse<T>(s: seq<T>): (r: seq<T>)
    ensures |r| == |s|
    ensures forall i :: 0 <= i < |s| ==> r[i] == s[|s| - 1 - i]
  {
    if s == [] then [] else Reverse(s[1..]) + [s[0]]
  }

  lemma ReverseDecreasing<T>(s: seq<T>, key: T -> int)
    requires Increasing(s, key)
    ensures Decreasing(Reverse(s), key)
  {
  }

  lemma ReverseSame<T>(s: seq<T>)
    ensures forall x :: x in Reverse(s) <==> x in s
  {
    var r := Reverse(s);
    forall x | x in s ensures x in r {
      var k :| 0 <= k < |s| && s[k] == x;
      assert r[|s| - 1 - k] == x;
    }
  }

  /** Every row's `key` is below `bound` (a serial counter, the clock). */
  ghost predicate Below<T>(s: seq<T>, key: T -> int, bound: int) {
    forall i :: 0 <= i < |s| ==> key(s[i]) < bound
  }

  /** The last row's `key` is below `bound`; in an increasing table that
      bounds every row (see BelowLast). */
  ghost predicate LastBelow<T>(s: seq<T>, key: T -> int, bound: int) {
    s == [] || key(s[|s| - 1]) < bound
  }

  lemma BelowLast<T>(s: seq<T>, key: T -> int, bound: int)
    requires Increasing(s, key)
    ensures LastBelow(s, key, bound) <==> Below(s, key, bound)
  {
    if s != [] && LastBelow(s, key, bound) {
      forall i | 0 <= i < |s| ensures key(s[i]) < bound {
        if i < |s| - 1 {
          assert key(s[i]) < key(s[|s| - 1]);
        }
      }
    }
  }

  /** Appending a row newer than the whole table keeps it in order. */
  lemma IncreasingSnoc<T>(s: seq<T>, x: T, key: T -> int)
    requires Increasing(s, key) && Below(s, key, key(x))
    ensures Increasing(s + [x], key)
  {
    var r := s + [x];
    forall i, j | 0 <= i < j < |r| ensures key(r[i]) < key(r[j]) {
      assert r[i] == s[i];
      if j < |s| {
        assert r[j] == s[j];
      }
    }
  }

  /** A filtered table keeps every bound of the table. */
  lemma WhereBelow<T(!new)>(s: seq<T>, p: T -> bool, key: T -> int, bound: int)
    requires Below(s, key, bound)
    ensures Below(Where(s, p), key, bound)
  {
    var r := Where(s, p);
    forall i | 0 <= i < |r| ensures key(r[i]) < bound {
      assert r[i] in r;
      var k :| 0 <= k < |s| && s[k] == r[i];
    }
  }

  /** The first row satisfying `p`, as `rows[0]` of a query. */
  function First<T(==)>(s: seq<T>, p: T -> bool): (r: Option<T>)
    ensures r.None? <==> forall i :: 0 <= i < |s| ==> !p(s[i])
    ensures r.Some? ==> exists i :: 0 <= i < |s| && s[i] == r.value && p(r.value) && forall j :: 0 <= j < i ==> !p(s[j])
  {
    if s == [] then None
    else if p(s[0]) then Some(s[0])
    else
      var r := First(s[1..], p);
      assert forall i :: 1 <= i < |s| ==> s[1..][i - 1] == s[i];
      if r.Some? then
        var k :| 0 <= k < |s[1..]| && s[1..][k] == r.value && p(r.value) && forall j :: 0 <= j < k ==> !p(s[1..][j]);
        assert s[k + 1] == r.value;
        r
      else r
  }

  /** `UPDATE ... WHERE p`: every row satisfying `p` becomes `x`. */
  function ReplaceWhere<T>(s: seq<T>, p: T -> bool, x: T): (r: seq<T>)
    ensures |r| == |s|
    ensures forall i :: 0 <= i < |s| ==> r[i] == if p(s[i]) then x else s[i]
  {
    seq(|s|, i requires 0 <= i < |s| => if p(s[i]) then x else s[i])
  }

  /** No two rows share a `key` (a primary key or a pair the code keeps
      unique). */
  ghost predicate Unique<T, K>(s: seq<T>, key: T -> K) {
    forall i, j {:trigger key(s[i]), key(s[j])} :: 0 <= i < j < |s| ==> key(s[i]) != key(s[j])
  }

  lemma UniqueSnoc<T, K>(s: seq<T>, x: T, key: T -> K)
    requires Unique(s, key) && forall i :: 0 <= i < |s| ==> key(s[i]) != key(x)
    ensures Unique(s + [x], key)
  {
    var r := s + [x];
    forall i, j | 0 <= i < j < |r| ensures key(r[i]) != key(r[j]) {
      assert r[i] == s[i];
      if j < |s| {
        assert r[j] == s[j];
      }
    }
  }

  lemma {:induction false} UniqueWhere<T(!new), K>(s: seq<T>, p: T -> bool, key: T -> K)
    requires Unique(s, key)
    ensures Unique(Where(s, p), key)
  {
    if s != [] {
      var rest := Where(s[1..], p);
      assert Unique(s[1..], key) by {
        forall i, j | 0 <= i < j < |s[1..]| ensures key(s[1..][i]) != key(s[1..][j]) {
          assert s[1..][i] == s[i + 1] && s[1..][j] == s[j + 1];
        }
      }
      UniqueWhere(s[1..], p, key);
      if p(s[0]) {
        var r := [s[0]] + rest;
        forall i, j | 0 <= i < j < |r| ensures key(r[i]) != key(r[j]) {
          assert r[j] == rest[j - 1] && rest[j - 1] in rest;
          var k :| 0 <= k < |s[1..]| && s[1..][k] == rest[j - 1];
          assert s[k + 1] == r[j];
          if i > 0 {
            assert r[i] == rest[i - 1];
          }
        }
      }
    }
  }

  /** `rows.map(f)`. */
  function Map<T, U>(s: seq<T>, f: T -> U): (r: seq<U>)
    ensures |r| == |s| && forall i :: 0 <= i < |s| ==> r[i] == f(s[i])
  {
    seq(|s|, i requires 0 <= i < |s| => f(s[i]))
  }

  lemma MapIn<T, U>(s: seq<T>, f: T -> U)
    ensures forall y :: y in Map(s, f) <==> exists x :: x in s && f(x) == y
  {
    var r := Map(s, f);
    forall y | y in r ensures exists x :: x in s && f(x) == y {
      var k :| 0 <= k < |r| && r[k] == y;
      assert s[k] in s;
    }
    forall x | x in s ensures f(x) in r {
      var k :| 0 <= k < |s| && s[k] == x;
      assert r[k] == f(x);
    }
  }

  /** A rewrite that keeps every row's `key` keeps the table's order and
      bound in that key. */
  lemma SameKeys<T>(s: seq<T>, r: seq<T>, key: T -> int, bound: int)
    requires |r| == |s| && forall i :: 0 <= i < |s| ==> key(r[i]) == key(s[i])
    ensures Increasing(s, key) ==> Increasing(r, key)
    ensures Below(s, key, bound) ==> Below(r, key, bound)
    ensures LastBelow(s, key, bound) ==> LastBelow(r, key, bound)
  {
  }

  /** A rewrite that keeps every row's `key` keeps that key unique. */
  lemma SameUnique<T, K>(s: seq<T>, r: seq<T>, key: T -> K)
    requires |r| == |s| && forall i :: 0 <= i < |s| ==> key(r[i]) == key(s[i])
    ensures Unique(s, key) ==> Unique(r, key)
  {
  }

  // ---------------------------------------------------------------- text

  /** ASCII lower-casing of one character. */
  function Lower(c: char): char {
    if 'A' <= c <= 'Z' then ((c as int) + 32) as char else c
  }

  function LowerAll(s: string): (r: string)
    ensures |r| == |s| && forall i :: 0 <= i < |s| ==> r[i] == Lower(s[i])
  {
    seq(|s|, i requires 0 <= i < |s| => Lower(s[i]))
  }

  /** `needle` occurs somewhere in `hay`. */
  function Contains(hay: string, needle: string): (b: bool)
    ensures b <==> exists i :: 0 <= i <= |hay| && needle <= hay[i..]
  {
    if needle <= hay then
      assert needle <= hay[0..];
      true
    else if hay == [] then false
    else
      assert forall i :: 1 <= i <= |hay| ==> hay[1..][i - 1..] == hay[i..];
      Contains(hay[1..], needle)
  }

  /** `hay ILIKE '%needle%'`, with ASCII case folding and `needle` read
      literally: its `%` and `_` are no wildcards and its backslash is no
      escape character. */
  predicate ILike(hay: string, needle: string) {
    Contains(LowerAll(hay), LowerAll(needle))
  }

  /** Text order of `ORDER BY`, taken as code-point order: a proper prefix
      sorts first. */
  predicate StrLeq(a: string, b: string) {
    if a == [] then true
    else if b == [] then false
    else if a[0] != b[0] then a[0] < b[0]
    else StrLeq(a[1..], b[1..])
  }

  lemma {:induction false} StrLeqTotal(a: string, b: string)
    ensures StrLeq(a, b) || StrLeq(b, a)
  {
    if a != [] && b != [] && a[0] == b[0] {
      StrLeqTotal(a[1..], b[1..]);
    }
  }

  lemma {:induction false} StrLeqTransitive(a: string, b: string, c: string)
    requires StrLeq(a, b) && StrLeq(b, c)
    ensures StrLeq(a, c)
  {
    if a != [] && b != [] && c != [] && a[0] == b[0] && b[0] == c[0] {
      StrLeqTransitive(a[1..], b[1..], c[1..]);
    }
  }

  ghost predicate SortedStrings(s: seq<string>) {
    forall i, j {:trigger StrLeq(s[i], s[j])} :: 0 <= i < j < |s| ==> StrLeq(s[i], s[j])
  }

  lemma BelowSorted(x: string, s: seq<string>)
    requires SortedStrings(s) && s != [] && StrLeq(x, s[0])
    ensures SortedStrings([x] + s)
  {
    forall j | 0 <= j < |s| ensures StrLeq(x, s[j]) {
      if j > 0 {
        StrLeqTransitive(x, s[0], s[j]);
      }
    }
    var r := [x] + s;
    forall i, j | 0 <= i < j < |r| ensures StrLeq(r[i], r[j]) {
      assert r[j] == s[j - 1];
      if i > 0 {
        assert r[i] == s[i - 1];
      }
    }
  }

  /** Inserting `x` into the tail of a sorted list whose head sorts before
      `x` keeps the whole list sorted. */
  lemma AboveHead(x: string, s: seq<string>, rest: seq<string>)
    requires SortedStrings(s) && s != [] && !StrLeq(x, s[0])
    requires SortedStrings(rest) && multiset(rest) == multiset(s[1..]) + multiset{x}
    ensures SortedStrings([s[0]] + rest)
    ensures multiset([s[0]] + rest) == multiset(s) + multiset{x}
  {
    StrLeqTotal(x, s[0]);
    assert s == [s[0]] + s[1..];
    forall y | y in rest ensures StrLeq(s[0], y) {
      assert y in multiset(rest);
      if y != x {
        var k :| 0 <= k < |s[1..]| && s[1..][k] == y;
        assert s[k + 1] == y;
      }
    }
    var r := [s[0]] + rest;
    forall i, j | 0 <= i < j < |r| ensures StrLeq(r[i], r[j]) {
      assert r[j] == rest[j - 1] && rest[j - 1] in rest;
      if i > 0 {
        assert r[i] == rest[i - 1];
      }
    }
  }

  function InsertString(x: string, s: seq<string>): (r: seq<string>)
    requires SortedStrings(s)
    ensures SortedStrings(r)
    ensures multiset(r) == multiset(s) + multiset{x}
  {
    if s == [] then [x]
    else if StrLeq(x, s[0]) then
      BelowSorted(x, s);
      assert [x] + s == [x] + ([s[0]] + s[1..]);
      [x] + s
    else
      assert SortedStrings(s[1..]) by {
        forall i, j | 0 <= i < j < |s[1..]| ensures StrLeq(s[1..][i], s[1..][j]) {
          assert s[1..][i] == s[i + 1] && s[1..][j] == s[j + 1];
        }
      }
      var rest := InsertString(x, s[1..]);
      AboveHead(x, s, rest);
      [s[0]] + rest
  }

  /** `ORDER BY` on a text column: the same names, in text order. */
  function SortStrings(s: seq<string>): (r: seq<string>)
    ensures SortedStrings(r)
    ensures multiset(r) == multiset(s)
  {
    if s == [] then []
    else
      assert s == [s[0]] + s[1..];
      InsertString(s[0], SortStrings(s[1..]))
  }

  /** Sorting keeps the number of names and which names occur. */
  lemma SortStringsSame(s: seq<string>)
    ensures |SortStrings(s)| == |s|
    ensures forall x :: x in SortStrings(s) <==> x in s
  {
    var r := SortStrings(s);
    assert |r| == |multiset(r)| == |multiset(s)| == |s|;
    forall x ensures x in r <==> x in s {
      assert x in r <==> x in multiset(r);
      assert x in s <==> x in multiset(s);
    }
  }
}

/**
 * Python's ordering of strings and the stable sort `sorted()` / `list.sort()`
 * uses, as an insertion sort keyed by a string.
 */
module Sorting {

  /** Python's `a <= b` on strings: lexicographic by code point, a proper
      prefix coming first. */
  predicate StrLe(a: string, b: string)
    decreases |a|
  {
    |a| == 0 || (|b| > 0 && (a[0] < b[0] || (a[0] == b[0] && StrLe(a[1..], b[1..]))))
  }

  lemma {:induction false} StrLeRefl(a: string)
    ensures StrLe(a, a)
    decreases |a|
  {
    if |a| > 0 { StrLeRefl(a[1..]); }
  }

  lemma {:induction false} StrLeTotal(a: string, b: string)
    ensures StrLe(a, b) || StrLe(b, a)
    decreases |a|
  {
    if |a| > 0 && |b| > 0 && a[0] == b[0] {
      StrLeTotal(a[1..], b[1..]);
    }
  }

  lemma {:induction false} StrLeTrans(a: string, b: string, c: string)
    requires StrLe(a, b) && StrLe(b, c)
    ensures StrLe(a, c)
    decreases |a|
  {
    if |a| > 0 && a[0] == b[0] == c[0] {
      StrLeTrans(a[1..], b[1..], c[1..]);
    }
  }

  lemma {:induction false} StrLeAntisym(a: string, b: string)
    requires StrLe(a, b) && StrLe(b, a)
    ensures a == b
    decreases |a|
  {
    if |a| > 0 {
      StrLeAntisym(a[1..], b[1..]);
      assert a == [a[0]] + a[1..] && b == [b[0]] + b[1..];
    }
  }

  function Identity(s: string): string { s }

  predicate SortedBy<T>(s: seq<T>, key: T -> string) {
    forall i, j :: 0 <= i < j < |s| ==> StrLe(key(s[i]), key(s[j]))
  }

  predicate Sorted(s: seq<string>) {
    SortedBy(s, Identity)
  }

  /** A key that is at most the first key of a sorted sequence is at most all of them. */
  lemma BelowSorted<T>(k: string, s: seq<T>, key: T -> string)
    requires SortedBy(s, key) && |s| > 0 && StrLe(k, key(s[0]))
    ensures forall j :: 0 <= j < |s| ==> StrLe(k, key(s[j]))
  {
    forall j | 0 <= j < |s| ensures StrLe(k, key(s[j])) {
      if j > 0 { StrLeTrans(k, key(s[0]), key(s[j])); }
    }
  }

  /** Inserts `x` before the first element whose key is not below its own,
      so that earlier elements with an equal key stay in front of it. */
  function InsertBy<T>(x: T, s: seq<T>, key: T -> string): (r: seq<T>)
    requires SortedBy(s, key)
    ensures |r| == |s| + 1
    ensures multiset(r) == multiset(s) + multiset{x}
    ensures forall y :: y in r ==> y == x || y in s
    ensures SortedBy(r, key)
    decreases |s|
  {
    if |s| == 0 then [x]
    else if StrLe(key(x), key(s[0])) then
      BelowSorted(key(x), s, key);
      [x] + s
    else
      var rest := InsertBy(x, s[1..], key);
      InsertAfterHead(x, s, rest, key);
      [s[0]] + rest
  }

  /** The step of `InsertBy` past a head whose key is below that of `x`. */
  lemma InsertAfterHead<T>(x: T, s: seq<T>, rest: seq<T>, key: T -> string)
    requires SortedBy(s, key) && |s| > 0 && !StrLe(key(x), key(s[0]))
    requires multiset(rest) == multiset(s[1..]) + multiset{x}
    requires forall y :: y in rest ==> y == x || y in s[1..]
    requires SortedBy(rest, key)
    ensures multiset([s[0]] + rest) == multiset(s) + multiset{x}
    ensures forall y :: y in [s[0]] + rest ==> y == x || y in s
    ensures SortedBy([s[0]] + rest, key)
  {
    StrLeTotal(key(x), key(s[0]));
    assert s == [s[0]] + s[1..];
    assert forall y :: y in s[1..] ==> StrLe(key(s[0]), key(y)) by {
      forall y | y in s[1..] ensures StrLe(key(s[0]), key(y)) {
        var j :| 0 <= j < |s[1..]| && s[1..][j] == y;
        assert s[j + 1] == y;
      }
    }
    ConsSorted(s[0], rest, key);
  }

  /** A head whose key is at most every key of a sorted tail keeps the order. */
  lemma ConsSorted<T>(h: T, rest: seq<T>, key: T -> string)
    requires SortedBy(rest, key)
    requires forall y :: y in rest ==> StrLe(key(h), key(y))
    ensures SortedBy([h] + rest, key)
  {
    var r := [h] + rest;
    forall i, j | 0 <= i < j < |r| ensures StrLe(key(r[i]), key(r[j])) {
      assert r[j] == rest[j - 1];
      if i > 0 { assert r[i] == rest[i - 1]; }
    }
  }

  /** Python's stable `sorted(s, key=key)`. */
  function SortBy<T>(s: seq<T>, key: T -> string): (r: seq<T>)
    ensures |r| == |s|
    ensures multiset(r) == multiset(s)
    ensures SortedBy(r, key)
    decreases |s|
  {
    if |s| == 0 then []
    else
      assert s == [s[0]] + s[1..];
      InsertBy(s[0], SortBy(s[1..], key), key)
  }

  function Sort(s: seq<string>): (r: seq<string>)
    ensures multiset(r) == multiset(s) && Sorted(r)
  {
    SortBy(s, Identity)
  }

  lemma SortedTail(s: seq<string>)
    requires Sorted(s) && |s| > 0
    ensures Sorted(s[1..])
  {
    forall i, j | 0 <= i < j < |s| - 1 ensures StrLe(Identity(s[1..][i]), Identity(s[1..][j])) {
      assert s[1..][i] == s[i + 1] && s[1..][j] == s[j + 1];
    }
  }

  lemma MultisetTail(s: seq<string>)
    requires |s| > 0
    ensures multiset(s[1..]) == multiset(s) - multiset{s[0]}
  {
    assert s == [s[0]] + s[1..];
    assert multiset(s) == multiset{s[0]} + multiset(s[1..]);
  }

  /** The first element of a sorted sequence is at most every element. */
  lemma FirstIsLeast(s: seq<string>, v: string)
    requires Sorted(s) && v in s
    ensures StrLe(s[0], v)
  {
    var j :| 0 <= j < |s| && s[j] == v;
    if j > 0 { assert StrLe(Identity(s[0]), Identity(s[j])); } else { StrLeRefl(v); }
  }

  /** Two sorted arrangements of one multiset start with the same string. */
  lemma SameHeads(a: seq<string>, b: seq<string>)
    requires Sorted(a) && Sorted(b) && multiset(a) == multiset(b) && |a| > 0
    ensures |b| > 0 && a[0] == b[0]
  {
    assert |b| > 0 by { assert |multiset(b)| == |multiset(a)|; }
    assert a[0] in multiset(b) && b[0] in multiset(a);
    FirstIsLeast(a, b[0]);
    FirstIsLeast(b, a[0]);
    StrLeAntisym(a[0], b[0]);
  }

  /** A sorted arrangement of a multiset of strings is unique: sorting
      depends only on which strings there are, not on their first order. */
  lemma {:induction false} SortedUnique(a: seq<string>, b: seq<string>)
    requires Sorted(a) && Sorted(b) && multiset(a) == multiset(b)
    ensures a == b
    decreases |a|
  {
    if |a| > 0 {
      SameHeads(a, b);
      SortedTail(a);
      SortedTail(b);
      MultisetTail(a);
      MultisetTail(b);
      SortedUnique(a[1..], b[1..]);
      assert a == [a[0]] + a[1..] && b == [b[0]] + b[1..];
    }
  }
}

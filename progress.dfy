/**
 * The progress record `progress.json`: the set of `week/name` ids already
 * put into an exam, stored as a sorted JSON list of strings.
 */
module Progress {
  import opened Sorting

  /** What the progress file holds: nothing, something that does not load as
      a list of strings, or a list of strings. */
  datatype StoredProgress = Missing | Unreadable | Saved(entries: seq<string>)

  function Elems(s: seq<string>): set<string> {
    set x | x in s
  }

  predicate Distinct(s: seq<string>) {
    forall i, j :: 0 <= i < j < |s| ==> s[i] != s[j]
  }

  /** `load_processed_paths`: a missing or unreadable file is the empty set. */
  function LoadProcessedPaths(stored: StoredProgress): (paths: set<string>)
    ensures stored.Saved? ==> forall x :: x in paths <==> x in stored.entries
    ensures !stored.Saved? ==> paths == {}
  {
    match stored
    case Saved(entries) => Elems(entries)
    case _ => {}
  }

  /** `save_processed_paths`: `sorted(list(paths))`. The list holds every id
      once and in order, so loading it back gives the same set. */
  method SaveProcessedPaths(paths: set<string>) returns (stored: StoredProgress)
    ensures stored.Saved? && Sorted(stored.entries) && Distinct(stored.entries)
    ensures LoadProcessedPaths(stored) == paths
    ensures |stored.entries| == |paths|
  {
    var list: seq<string> := [];
    var rest := paths;
    while rest != {}
      invariant Distinct(list)
      invariant forall x :: x in list ==> x !in rest
      invariant Elems(list) + rest == paths
      invariant |list| + |rest| == |paths|
      decreases |rest|
    {
      var x :| x in rest;
      list := list + [x];
      rest := rest - {x};
    }
    var sorted := Sort(list);
    SortKeepsElems(list);
    stored := Saved(sorted);
  }

  /** Sorting a list without repetitions keeps its elements and adds none twice. */
  lemma SortKeepsElems(list: seq<string>)
    requires Distinct(list)
    ensures Distinct(Sort(list)) && Elems(Sort(list)) == Elems(list)
  {
    var sorted := Sort(list);
    DistinctMultiset(list, sorted);
    forall x ensures x in sorted <==> x in list {
      assert x in sorted <==> x in multiset(sorted);
      assert x in list <==> x in multiset(list);
    }
  }

  lemma {:induction false} AtMostOnce(s: seq<string>, x: string)
    requires Distinct(s)
    ensures multiset(s)[x] <= 1
    decreases |s|
  {
    if |s| > 0 {
      var t := s[1..];
      assert s == [s[0]] + t;
      AtMostOnce(t, x);
      if s[0] == x {
        assert x !in t;
      }
    }
  }

  lemma TwiceCounts(s: seq<string>, i: nat, j: nat)
    requires i < j < |s| && s[i] == s[j]
    ensures multiset(s)[s[i]] >= 2
  {
    assert s == s[..i] + [s[i]] + s[i + 1..j] + [s[j]] + s[j + 1..];
  }

  /** Rearranging a list without repetitions leaves it without repetitions. */
  lemma DistinctMultiset(a: seq<string>, b: seq<string>)
    requires Distinct(a) && multiset(a) == multiset(b)
    ensures Distinct(b)
  {
    forall i, j | 0 <= i < j < |b| ensures b[i] != b[j] {
      if b[i] == b[j] {
        TwiceCounts(b, i, j);
        AtMostOnce(a, b[i]);
        assert false;
      }
    }
  }

  lemma {:induction false} SameElemsMultiset(a: seq<string>, b: seq<string>)
    requires Distinct(a) && Distinct(b) && Elems(a) == Elems(b)
    ensures multiset(a) == multiset(b)
  {
    forall x ensures multiset(a)[x] == multiset(b)[x] {
      AtMostOnce(a, x);
      AtMostOnce(b, x);
      assert x in a <==> x in multiset(a);
      assert x in b <==> x in multiset(b);
      assert x in a <==> x in b by {
        assert x in a <==> x in Elems(a);
        assert x in b <==> x in Elems(b);
      }
    }
  }

  /** The saved file content depends only on the set: two sorted lists without
      repetitions that load as the same set are the same list. */
  lemma SavedFormUnique(a: seq<string>, b: seq<string>)
    requires Sorted(a) && Distinct(a) && Sorted(b) && Distinct(b)
    requires LoadProcessedPaths(Saved(a)) == LoadProcessedPaths(Saved(b))
    ensures a == b
  {
    assert Elems(a) == Elems(b);
    SameElemsMultiset(a, b);
    SortedUnique(a, b);
  }
}

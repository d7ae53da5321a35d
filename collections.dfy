/**
  Facts about finite sequences and sets used across the model: repetition
  in a sequence and the sizes of sets.
 */
module Collections {

  /** No element occurs twice. */
  predicate Distinct<T(==)>(s: seq<T>)
  {
    forall i, j :: 0 <= i < j < |s| ==> s[i] != s[j]
  }

  /** A sequence has at most as many distinct elements as entries, and exactly as many when none repeats. */
  lemma {:induction false} CardSeqSet<T>(s: seq<T>)
    ensures |set d | d in s| <= |s|
    ensures |set d | d in s| == |s| <==> Distinct(s)
  {
    if s != [] {
      var n := |s| - 1;
      var prefix := s[..n];
      CardSeqSet(prefix);
      DistinctSnoc(s);
      assert s == prefix + [s[n]];
      if s[n] in prefix {
        assert (set d | d in s) == (set d | d in prefix);
      } else {
        assert (set d | d in s) == (set d | d in prefix) + {s[n]};
      }
    }
  }

  /** A sequence is duplicate-free exactly when its prefix is and its last element is new. */
  lemma DistinctSnoc<T>(s: seq<T>)
    requires s != []
    ensures Distinct(s) <==> Distinct(s[..|s| - 1]) && s[|s| - 1] !in s[..|s| - 1]
  {
    var n := |s| - 1;
    var prefix := s[..n];
    if s[n] in prefix {
      var i :| 0 <= i < n && prefix[i] == s[n];
      assert s[i] == s[n];
    } else if !Distinct(prefix) {
      var i, j :| 0 <= i < j < n && prefix[i] == prefix[j];
      assert s[i] == s[j];
    } else {
      forall i, j | 0 <= i < j < |s|
        ensures s[i] != s[j]
      {
        if j == n { assert s[i] in prefix; }
        else { assert prefix[i] == s[i] && prefix[j] == s[j]; }
      }
    }
  }

  /** A subset is no larger, and a subset of the same size is the whole set. */
  lemma {:induction false} SubsetCard<T>(a: set<T>, b: set<T>)
    requires a <= b
    ensures |a| <= |b|
    ensures |a| == |b| ==> a == b
    decreases a
  {
    if a != {} {
      var x :| x in a;
      SubsetCard(a - {x}, b - {x});
      if |a| == |b| {
        assert a - {x} == b - {x};
        assert a == (a - {x}) + {x} && b == (b - {x}) + {x};
      }
    }
  }
}

/** Counting subsets. */
module Sets {

  /** A subset is no larger, and as large only when it is the whole set. */
  lemma {:induction false} SubsetCount<T>(a: set<T>, b: set<T>)
    requires a <= b
    ensures |a| <= |b| && (|a| == |b| ==> a == b)
    decreases b
  {
    if x :| x in b {
      if x in a {
        SubsetCount(a - {x}, b - {x});
        assert a == (a - {x}) + {x} && b == (b - {x}) + {x};
      } else {
        SubsetCount(a, b - {x});
        assert |b| == |b - {x}| + 1;
      }
    }
  }
}

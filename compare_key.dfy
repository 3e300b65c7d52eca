/**
 * The search-result ranking key (`SearchResultIndexMetadataCompareKeyGen`):
 * a record's `search_result_index`, 0 when the record has none, compared
 * through the integer difference of the two indices. Python integers are
 * unbounded, so the difference never wraps.
 */
module CompareKey {
  import opened Wrappers

  datatype Key = Key(extra: int) {

    /** `compare_to_other`: negative, zero or positive as this key is below, equal to or above `other`. */
    function CompareToOther(other: Key): int {
      extra - other.extra
    }

    predicate Eq(other: Key) { CompareToOther(other) == 0 }
    predicate Ne(other: Key) { CompareToOther(other) != 0 }
    predicate Lt(other: Key) { CompareToOther(other) < 0 }
    predicate Le(other: Key) { CompareToOther(other) <= 0 }
    predicate Gt(other: Key) { CompareToOther(other) > 0 }
    predicate Ge(other: Key) { CompareToOther(other) >= 0 }
  }

  /** The constructor: `getattr(mi, 'search_result_index', 0)`. */
  function KeyOf(searchResultIndex: Option<int>): (k: Key)
    ensures searchResultIndex.None? ==> k.extra == 0
    ensures searchResultIndex.Some? ==> k.extra == searchResultIndex.value
  {
    Key(searchResultIndex.GetOr(0))
  }

  /** Every operator compares the two indices (absent read as 0) as integers. */
  lemma OperatorsFollowIndices(a: Option<int>, b: Option<int>)
    ensures var i, j := a.GetOr(0), b.GetOr(0);
      && (KeyOf(a).Eq(KeyOf(b)) <==> i == j)
      && (KeyOf(a).Ne(KeyOf(b)) <==> i != j)
      && (KeyOf(a).Lt(KeyOf(b)) <==> i < j)
      && (KeyOf(a).Le(KeyOf(b)) <==> i <= j)
      && (KeyOf(a).Gt(KeyOf(b)) <==> i > j)
      && (KeyOf(a).Ge(KeyOf(b)) <==> i >= j)
  {
  }

  /** The six operators agree with each other: each is derived from `<` and `==` as for integers. */
  lemma OperatorsConsistent(a: Key, b: Key)
    ensures a.Ne(b) <==> !a.Eq(b)
    ensures a.Le(b) <==> a.Lt(b) || a.Eq(b)
    ensures a.Gt(b) <==> b.Lt(a)
    ensures a.Ge(b) <==> b.Le(a)
    ensures a.Eq(b) <==> b.Eq(a)
  {
  }

  /** `<` is a strict total order on keys, `==` the equality of their indices, and `<=` a total preorder. */
  lemma KeysTotallyOrdered(a: Key, b: Key, c: Key)
    ensures !a.Lt(a) && a.Eq(a) && a.Le(a)
    ensures a.Lt(b) && b.Lt(c) ==> a.Lt(c)
    ensures a.Le(b) && b.Le(c) ==> a.Le(c)
    ensures a.Le(b) && b.Le(a) ==> a.Eq(b)
    ensures a.Le(b) || b.Le(a)
    ensures (a.Lt(b) && !a.Eq(b) && !a.Gt(b)) || (!a.Lt(b) && a.Eq(b) && !a.Gt(b)) || (!a.Lt(b) && !a.Eq(b) && a.Gt(b))
    ensures a.Eq(b) <==> a == b
  {
  }
}

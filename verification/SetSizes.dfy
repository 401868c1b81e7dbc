/** How the size of a set changes. */
module SetSizes {
  lemma SubsetCount<T>(a: set<T>, b: set<T>)
    requires a <= b
    ensures |a| <= |b|
  {
    assert b == a + (b - a);
  }

  /** Sets that differ in t at most. */
  lemma CountOne<T>(a: set<T>, a': set<T>, t: T)
    requires a' - {t} == a - {t}
    ensures |a'| == |a| + (if t in a' then 1 else 0) - (if t in a then 1 else 0)
  {
    if t in a { assert a == (a - {t}) + {t}; } else { assert a == a - {t}; }
    if t in a' { assert a' == (a' - {t}) + {t}; } else { assert a' == a' - {t}; }
  }
}

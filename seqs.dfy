/** Facts about sequences without repeated elements, used by the connectivity search (a chain
    visits every position at most once) and by the occupancy listing (one entry per cell). */
module Seqs {

  /** No element occurs twice. */
  predicate Distinct<T(==)>(s: seq<T>) {
    forall i, j :: 0 <= i < j < |s| ==> s[i] != s[j]
  }

  /** The set of elements of `s`. */
  function Elements<T>(s: seq<T>): set<T> {
    set x | x in s
  }

  /** A sequence never has more distinct elements than entries, and exactly as many
      as entries when it has no repeats. */
  lemma {:induction false} ElementsCardinality<T>(s: seq<T>)
    ensures |Elements(s)| <= |s|
    ensures Distinct(s) <==> |Elements(s)| == |s|
  {
    if s != [] {
      var t := s[1..];
      ElementsCardinality(t);
      assert Elements(s) == {s[0]} + Elements(t);
      if s[0] in t {
        assert Elements(s) == Elements(t);
        var k :| 0 <= k < |t| && t[k] == s[0];
        assert s[0] == s[k + 1];
      } else {
        assert |Elements(s)| == |Elements(t)| + 1;
        if Distinct(t) {
          forall i, j | 0 <= i < j < |s| ensures s[i] != s[j] {
            if i > 0 { assert s[i] == t[i - 1] && s[j] == t[j - 1]; }
            else { assert s[j] == t[j - 1]; }
          }
        } else {
          var i, j :| 0 <= i < j < |t| && t[i] == t[j];
          assert s[i + 1] == s[j + 1];
        }
      }
    }
  }

  /** A sequence without repeats whose entries are all drawn from `pool` is no longer than
      the number of distinct entries of `pool`. */
  lemma Pigeonhole<T>(s: seq<T>, pool: seq<T>)
    requires Distinct(s)
    requires forall i :: 0 <= i < |s| ==> s[i] in pool
    ensures |s| <= |Elements(pool)|
  {
    ElementsCardinality(s);
    SubsetCardinality(Elements(s), Elements(pool));
  }

  /** A subset is no larger than its superset. */
  lemma {:induction false} SubsetCardinality<T>(a: set<T>, b: set<T>)
    requires a <= b
    ensures |a| <= |b|
    decreases a
  {
    if a != {} {
      var x :| x in a;
      SubsetCardinality(a - {x}, b - {x});
    }
  }
}

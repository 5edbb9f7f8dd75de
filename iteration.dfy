/**
 * The order in which the model walks a hash set or the key set of a hash map.
 * Java promises no particular order; the model fixes one, ascending order,
 * so that every loop over a set visits each element exactly once and the
 * order-dependent results (first strict maximum, DFS order) are determined.
 */
module Iteration {

  /** No element occurs twice. */
  ghost predicate NoDuplicates<T>(s: seq<T>) {
    forall i, j | 0 <= i < j < |s| :: s[i] != s[j]
  }

  /** m is the least element of s. */
  predicate IsLeast(m: int, s: set<int>) {
    m in s && forall x | x in s :: m <= x
  }

  lemma {:induction false} HasMinimum(s: set<int>)
    requires s != {}
    ensures exists m :: IsLeast(m, s)
    decreases |s|
  {
    if forall x :: x !in s {
      assert false;
    }
    var y :| y in s;
    var rest := s - {y};
    if rest == {} {
      forall x | x in s ensures y <= x {
        assert x !in rest;
      }
      assert IsLeast(y, s);
    } else {
      HasMinimum(rest);
      var m :| IsLeast(m, rest);
      var least := if y < m then y else m;
      forall x | x in s ensures least <= x {
        if x != y {
          assert x in rest;
        }
      }
      assert IsLeast(least, s);
    }
  }

  /** The least element of a non-empty set. */
  function Minimum(s: set<int>): (m: int)
    requires s != {}
    ensures m in s
    ensures forall x | x in s :: m <= x
  {
    HasMinimum(s);
    var m :| IsLeast(m, s);
    m
  }

  /** The elements of s, each once, in ascending order. */
  function Ascending(s: set<int>): (r: seq<int>)
    ensures |r| == |s|
    ensures forall x :: x in r <==> x in s
    decreases |s|
  {
    if s == {} then []
    else
      var m := Minimum(s);
      [m] + Ascending(s - {m})
  }

  /** Ascending lists its elements in strictly increasing order. */
  lemma {:induction false} AscendingIsSorted(s: set<int>)
    ensures forall i, j | 0 <= i < j < |Ascending(s)| :: Ascending(s)[i] < Ascending(s)[j]
    decreases |s|
  {
    if s != {} {
      var m := Minimum(s);
      var rest := Ascending(s - {m});
      AscendingIsSorted(s - {m});
      var r := Ascending(s);
      assert r == [m] + rest;
      forall i, j | 0 <= i < j < |r| ensures r[i] < r[j] {
        assert r[j] == rest[j - 1];
        if i == 0 {
          assert rest[j - 1] in s - {m};
        } else {
          assert r[i] == rest[i - 1];
        }
      }
    }
  }

  /** Hence no element is listed twice. */
  lemma AscendingHasNoDuplicates(s: set<int>)
    ensures NoDuplicates(Ascending(s))
  {
    AscendingIsSorted(s);
  }
}

/**
 * Definitions shared by the four engines: the commit outcome, and the
 * iteration order of the ordered containers (`std::set<ll>`, the keys of a
 * `std::map<ll, ...>`) that every engine walks in ascending key order.
 */
module Common {

  /** Outcome of validation in the optimistic engines. */
  datatype Status = Commit | Abort

  /** `m` is the smallest element of `s`. */
  predicate IsLeast(m: int, s: set<int>) {
    m in s && forall y :: y in s ==> m <= y
  }

  /** Every finite, non-empty set of integers has a smallest element. */
  lemma {:induction false} LeastExists(s: set<int>)
    requires s != {}
    ensures exists m :: IsLeast(m, s)
  {
    assert exists y :: y in s by {
      if forall y :: y !in s {
        assert false;
      }
    }
    var x :| x in s;
    if s == {x} {
      assert IsLeast(x, s);
    } else {
      LeastExists(s - {x});
      var m :| IsLeast(m, s - {x});
      assert forall y :: y in s ==> y == x || y in s - {x};
      if x < m {
        assert IsLeast(x, s);
      } else {
        assert IsLeast(m, s);
      }
    }
  }

  /** The first element of an ordered set (`s.begin()`). */
  function Least(s: set<int>): (m: int)
    requires s != {}
    ensures m in s
    ensures forall y :: y in s ==> m <= y
  {
    LeastExists(s);
    var m :| IsLeast(m, s);
    m
  }

  /**
   * The elements of an ordered set in the order its iterator visits them:
   * every element exactly once, strictly ascending.
   */
  function Ascending(s: set<int>): (r: seq<int>)
    ensures |r| == |s|
    ensures forall x :: x in r <==> x in s
    ensures forall i :: 0 <= i < |r| ==> r[i] in s
    ensures forall i, j :: 0 <= i < j < |r| ==> r[i] < r[j]
    decreases |s|
  {
    if s == {} then []
    else
      var m := Least(s);
      [m] + Ascending(s - {m})
  }
}

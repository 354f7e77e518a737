// The key order of a BTreeMap: ascending.
module OrderedMap {
  predicate Increasing(s: seq<nat>) {
    forall i, j :: 0 <= i < j < |s| ==> s[i] < s[j]
  }

  lemma {:induction false} MinExists(s: set<nat>)
    requires s != {}
    ensures exists m: nat :: m in s && forall x :: x in s ==> m <= x
  {
    var y :| y in s;
    if s != {y} {
      var rest := s - {y};
      assert s == rest + {y};
      MinExists(rest);
      var m: nat :| m in rest && forall x :: x in rest ==> m <= x;
      var least := if y < m then y else m;
      forall x | x in s
        ensures least <= x
      {
        if x != y {
          assert x in rest;
        }
      }
      assert least in s;
    }
  }

  function Min(s: set<nat>): (m: nat)
    requires s != {}
    ensures m in s && forall x :: x in s ==> m <= x
  {
    MinExists(s);
    var m: nat :| m in s && forall x :: x in s ==> m <= x;
    m
  }

  // The elements of s in ascending order.
  function Sorted(s: set<nat>): seq<nat> {
    if s == {} then []
    else
      var m := Min(s);
      [m] + Sorted(s - {m})
  }

  lemma {:induction false} SortedFacts(s: set<nat>)
    ensures Increasing(Sorted(s)) && |Sorted(s)| == |s|
    ensures forall x :: x in Sorted(s) <==> x in s
  {
    if s != {} {
      var m := Min(s);
      SortedFacts(s - {m});
      var t := Sorted(s - {m});
      forall j | 0 <= j < |t|
        ensures m < t[j]
      {
        assert t[j] in t;
      }
    }
  }

  // Only one ascending sequence lists a given set.
  lemma {:induction false} SortedUnique(s: set<nat>, r: seq<nat>)
    requires Increasing(r) && forall x :: x in r <==> x in s
    ensures r == Sorted(s)
    decreases |r|
  {
    if |r| > 0 {
      assert r[0] in r;
      var m := Min(s);
      assert m in r;
      assert r[0] == m;
      var t := r[1..];
      assert r == [m] + t;
      forall x
        ensures x in t <==> x in s - {m}
      {
        if x in t {
          assert x in r;
        }
        if x in s - {m} {
          assert x in r;
        }
      }
      SortedUnique(s - {m}, t);
    } else {
      assert forall x :: x in s ==> x in r;
      assert s == {};
    }
  }
}

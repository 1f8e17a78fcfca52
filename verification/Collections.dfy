/** Finite sets of ids listed in ascending order, the order in which an ordered key-value store yields them. */
module Collections {

  lemma MaxExists(s: set<nat>)
    requires s != {}
    ensures exists m :: m in s && forall x :: x in s ==> x <= m
  {
    var x :| x in s;
    var rest := s - {x};
    assert s == rest + {x};
    if rest == {} {
      assert forall y :: y in s ==> y <= x;
    } else {
      MaxExists(rest);
      var m :| m in rest && forall y :: y in rest ==> y <= m;
      var top := if m < x then x else m;
      assert top in s && forall y :: y in rest + {x} ==> y <= top;
    }
  }

  function Max(s: set<nat>): (m: nat)
    requires s != {}
    ensures m in s && forall x :: x in s ==> x <= m
  {
    MaxExists(s);
    var m :| m in s && forall x :: x in s ==> x <= m;
    m
  }

  ghost predicate Ascending(xs: seq<nat>) {
    forall i, j :: 0 <= i < j < |xs| ==> xs[i] < xs[j]
  }

  /** The members of `s`, ascending. */
  function Sorted(s: set<nat>): (xs: seq<nat>)
    ensures Ascending(xs)
    ensures forall x :: x in xs <==> x in s
    ensures |xs| == |s|
  {
    if s == {} then [] else
      var m := Max(s);
      Sorted(s - {m}) + [m]
  }

  /** The values at the listed keys. */
  function Values<T>(m: map<nat, T>, keys: seq<nat>): (r: seq<T>)
    requires forall k :: k in keys ==> k in m
    ensures |r| == |keys| && forall i :: 0 <= i < |keys| ==> r[i] == m[keys[i]]
  {
    seq(|keys|, i requires 0 <= i < |keys| => m[keys[i]])
  }

  /** The last entry of an ascending listing is the largest member, and the rest lists the others. */
  lemma AscendingSplit(xs: seq<nat>, s: set<nat>)
    requires s != {} && Ascending(xs)
    requires forall x :: x in xs <==> x in s
    ensures xs != [] && xs[|xs| - 1] == Max(s)
    ensures forall x :: x in xs[..|xs| - 1] <==> x in s - {Max(s)}
  {
    var m := Max(s);
    assert m in xs;
    var n := |xs| - 1;
    var k :| 0 <= k <= n && xs[k] == m;
    assert xs[n] in s;
    forall x ensures x in xs[..n] <==> x in s - {m} {
      if x in xs[..n] {
        var i :| 0 <= i < n && xs[i] == x;
        assert x in xs;
      }
      if x in s - {m} {
        var i :| 0 <= i <= n && xs[i] == x;
        assert xs[..n][i] == x;
      }
    }
  }

  lemma HasMember(xs: seq<nat>)
    ensures xs == [] || exists x :: x in xs
  {
    if xs != [] { assert xs[0] in xs; }
  }

  /** There is only one ascending listing of a set. */
  lemma {:induction false} SortedUnique(xs: seq<nat>, s: set<nat>)
    requires Ascending(xs)
    requires forall x :: x in xs <==> x in s
    ensures xs == Sorted(s)
  {
    if s == {} {
      HasMember(xs);
    } else {
      AscendingSplit(xs, s);
      var init := xs[..|xs| - 1];
      assert xs == init + [xs[|xs| - 1]];
      SortedUnique(init, s - {Max(s)});
    }
  }

  /** A new largest member goes to the end. */
  lemma SortedAppend(s: set<nat>, x: nat)
    requires forall y :: y in s ==> y < x
    ensures Sorted(s + {x}) == Sorted(s) + [x]
  {
    SortedUnique(Sorted(s) + [x], s + {x});
  }
}

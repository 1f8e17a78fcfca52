/** Finite sets of store keys listed in the order a prefix iteration visits them. */
module KeyOrder {

  /** No two keys of `s` share a rank. */
  ghost predicate Ranked<K(!new)>(s: set<K>, rank: K -> nat) {
    forall x, y :: x in s && y in s && rank(x) == rank(y) ==> x == y
  }

  predicate IsLast<K(==)>(s: set<K>, rank: K -> nat, k: K) {
    k in s && forall x :: x in s ==> rank(x) <= rank(k)
  }

  lemma {:induction false} LastExists<K(!new)>(s: set<K>, rank: K -> nat)
    requires s != {}
    ensures exists k :: IsLast(s, rank, k)
    decreases |s|
  {
    var x :| x in s;
    var rest := s - {x};
    assert s == rest + {x};
    if rest == {} {
      assert IsLast(s, rank, x);
    } else {
      LastExists(rest, rank);
      var k :| IsLast(rest, rank, k);
      assert IsLast(s, rank, if rank(k) < rank(x) then x else k);
    }
  }

  function Last<K(==,!new)>(s: set<K>, rank: K -> nat): (k: K)
    requires s != {} && Ranked(s, rank)
    ensures IsLast(s, rank, k)
  {
    LastExists(s, rank);
    var k :| IsLast(s, rank, k);
    k
  }

  ghost predicate Ascends<K>(ks: seq<K>, rank: K -> nat) {
    forall i, j :: 0 <= i < j < |ks| ==> rank(ks[i]) < rank(ks[j])
  }

  /** The keys of `s` by ascending rank. */
  function Listing<K(==,!new)>(s: set<K>, rank: K -> nat): (ks: seq<K>)
    requires Ranked(s, rank)
    ensures Ascends(ks, rank)
    ensures forall k :: k in ks <==> k in s
    decreases |s|
  {
    if s == {} then [] else
      var k := Last(s, rank);
      Listing(s - {k}, rank) + [k]
  }
}

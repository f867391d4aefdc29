/**
 What it means for a set of signers to satisfy a key list, in terms of the members
 that must be satisfied rather than of counting them, and the order of the leaves.
 */
module Thresholds {
  import opened Keys
  import opened Wrappers

  /** The members that are satisfied, by their positions. */
  ghost function SatisfiedAt(signers: set<PublicKey>, keys: seq<Key>): set<nat> {
    set i | 0 <= i < |keys| && Satisfied(signers, keys[i])
  }

  lemma {:induction false} CountIsNumberOfPositions(signers: set<PublicKey>, keys: seq<Key>)
    ensures CountSatisfied(signers, keys) == |SatisfiedAt(signers, keys)| <= |keys|
  {
    if keys == [] {
      assert SatisfiedAt(signers, keys) == {};
    } else {
      var last := |keys| - 1;
      CountIsNumberOfPositions(signers, keys[..last]);
      var front := SatisfiedAt(signers, keys[..last]);
      assert SatisfiedAt(signers, keys) == if Satisfied(signers, keys[last]) then front + {last} else front;
    }
  }

  function Positions(n: nat): (r: set<nat>)
    ensures |r| == n && forall i: nat :: i in r <==> i < n
  {
    if n == 0 then {} else Positions(n - 1) + {n - 1}
  }

  lemma SubsetOfSameSize<T>(a: set<T>, b: set<T>)
    requires a <= b && |a| >= |b|
    ensures a == b
  {
    assert b == a + (b - a);
    assert |b| == |a| + |b - a|;
  }

  lemma {:induction false} SubsetOfSize<T>(a: set<T>, n: nat) returns (b: set<T>)
    requires n <= |a|
    ensures b <= a && |b| == n
  {
    if n == |a| {
      b := a;
    } else {
      var x :| x in a;
      b := SubsetOfSize(a - {x}, n);
    }
  }

  lemma SmallerSubset<T>(a: set<T>, b: set<T>)
    requires a <= b
    ensures |a| <= |b|
  {
    assert b == a + (b - a);
  }

  /** A public key must sign itself; without a threshold, and with the threshold 0, every member must. */
  lemma EveryoneMustSign(signers: set<PublicKey>, pk: PublicKey, keys: seq<Key>)
    ensures Satisfied(signers, Leaf(pk)) <==> pk in signers
    ensures Satisfied(signers, KeyList(keys, None))
            <==> keys != [] && forall i :: 0 <= i < |keys| ==> Satisfied(signers, keys[i])
    ensures Satisfied(signers, KeyList(keys, Some(0))) <==> Satisfied(signers, KeyList(keys, None))
  {
    var found, all := SatisfiedAt(signers, keys), Positions(|keys|);
    CountIsNumberOfPositions(signers, keys);
    if |found| >= |keys| {
      assert found <= all;
      SubsetOfSameSize(found, all);
      forall i | 0 <= i < |keys|
        ensures Satisfied(signers, keys[i])
      {
        assert i in all && i in found;
      }
    }
    if forall i :: 0 <= i < |keys| ==> Satisfied(signers, keys[i]) {
      assert found == all;
    }
  }

  /** With the threshold t, some t members must sign. */
  lemma SomeMustSign(signers: set<PublicKey>, keys: seq<Key>, t: nat)
    requires t > 0
    ensures Satisfied(signers, KeyList(keys, Some(t)))
            <==> exists chosen: set<nat> ::
                   |chosen| == t && forall i :: i in chosen ==> i < |keys| && Satisfied(signers, keys[i])
  {
    var found := SatisfiedAt(signers, keys);
    CountIsNumberOfPositions(signers, keys);
    if Satisfied(signers, KeyList(keys, Some(t))) {
      var chosen := SubsetOfSize(found, t);
      assert |chosen| == t && forall i :: i in chosen ==> i < |keys| && Satisfied(signers, keys[i]);
    }
    if chosen: set<nat> :| |chosen| == t && forall i :: i in chosen ==> i < |keys| && Satisfied(signers, keys[i]) {
      assert chosen <= found;
      SmallerSubset(chosen, found);
    }
  }

  /** The leaves of a list are those of its members in order, at every depth. */
  lemma {:induction false} LeavesInOrder(pk: PublicKey, key: Key, xs: seq<Key>, ys: seq<Key>, threshold: Option<nat>)
    ensures Leaves(Leaf(pk)) == [pk] && Leaves(KeyList([], threshold)) == []
    ensures Leaves(KeyList([key], threshold)) == Leaves(key)
    ensures Leaves(KeyList(xs + ys, threshold)) == Leaves(KeyList(xs, threshold)) + Leaves(KeyList(ys, threshold))
    decreases |ys|
  {
    assert [key][..0] == [];
    if ys == [] {
      assert xs + ys == xs;
    } else {
      assert (xs + ys)[..|xs + ys| - 1] == xs + ys[..|ys| - 1];
      LeavesInOrder(pk, key, xs, ys[..|ys| - 1], threshold);
    }
  }
}

/**
 The signatures to keep when a signed transaction is too large:
 computeShortenedPublicKeyList promises the smallest set of the given public
 keys that still satisfies a key list.

 The function Shortened says what the loop computes. It answers null exactly when
 the given keys do not satisfy the list, and what it returns satisfies the list.
 */
module ShortenedKeys {
  import opened Wrappers
  import opened Keys
  import opened Sorting

  type PublicKeys = seq<PublicKey>

  function Size(r: PublicKeys): int {
    |r|
  }

  function Flat(rs: seq<PublicKeys>): PublicKeys {
    if rs == [] then [] else Flat(rs[..|rs| - 1]) + rs[|rs| - 1]
  }

  /** The members that are available public keys themselves. */
  function Direct(avail: set<PublicKey>, keys: seq<Key>): PublicKeys {
    if keys == [] then []
    else
      var last := keys[|keys| - 1];
      var front := Direct(avail, keys[..|keys| - 1]);
      if last.Leaf? && last.pk in avail then front + [last.pk] else front
  }

  /** The non-empty results of the members that are lists. */
  function Nested(avail: set<PublicKey>, keys: seq<Key>): seq<PublicKeys>
    decreases keys, 0
  {
    if keys == [] then []
    else
      var last := keys[|keys| - 1];
      var front := Nested(avail, keys[..|keys| - 1]);
      if last.Leaf? then front
      else
        var r := Shortened(avail, last);
        if r.Some? && r.value != [] then front + [r.value] else front
  }

  function Shortened(avail: set<PublicKey>, keyList: Key): Option<PublicKeys>
    requires keyList.KeyList?
    decreases keyList, 1
  {
    var threshold := Required(keyList);
    var result := Direct(avail, keyList.keys);
    var secondary := Nested(avail, keyList.keys);
    if 0 < threshold <= |result| then Some(result[..threshold])
    else if |result| + |secondary| >= threshold then
      Some(result + Flat(Sort(Size, secondary)[..threshold - |result|]))
    else None
  }

  lemma {:induction false} DirectExtends(avail: set<PublicKey>, keys: seq<Key>, i: nat)
    requires i <= |keys|
    ensures Direct(avail, keys[..i]) <= Direct(avail, keys)
  {
    if i < |keys| {
      var front := keys[..|keys| - 1];
      DirectExtends(avail, front, i);
      assert front[..i] == keys[..i];
    } else {
      assert keys[..i] == keys;
    }
  }

  lemma OneMoreMember(avail: set<PublicKey>, keys: seq<Key>, i: nat)
    requires i < |keys|
    ensures Direct(avail, keys[..i + 1]) ==
            if keys[i].Leaf? && keys[i].pk in avail then Direct(avail, keys[..i]) + [keys[i].pk]
            else Direct(avail, keys[..i])
    ensures Nested(avail, keys[..i + 1]) ==
            if keys[i].KeyList? && Shortened(avail, keys[i]).Some? && Shortened(avail, keys[i]).value != []
            then Nested(avail, keys[..i]) + [Shortened(avail, keys[i]).value]
            else Nested(avail, keys[..i])
  {
    assert keys[..i + 1][..i] == keys[..i];
  }

  lemma EnoughDirectKeys(avail: set<PublicKey>, keyList: Key, i: nat, result: PublicKeys)
    requires keyList.KeyList? && i <= |keyList.keys|
    requires result == Direct(avail, keyList.keys[..i]) && |result| == Required(keyList) > 0
    ensures Shortened(avail, keyList) == Some(result)
  {
    DirectExtends(avail, keyList.keys, i);
    assert Direct(avail, keyList.keys)[..|result|] == result;
  }

  /** The loop over the members, with its early return, and the merge that follows it. */
  method ComputeShortenedPublicKeyList(publicKeys: set<PublicKey>, keyList: Key) returns (r: Option<PublicKeys>)
    requires keyList.KeyList?
    ensures r == Shortened(publicKeys, keyList)
    decreases keyList
  {
    var result: PublicKeys := [];
    var secondary: seq<PublicKeys> := [];
    var keys := keyList.keys;
    var threshold := Required(keyList);
    for i := 0 to |keys|
      invariant result == Direct(publicKeys, keys[..i])
      invariant secondary == Nested(publicKeys, keys[..i])
      invariant threshold == 0 || |result| < threshold
    {
      var key := keys[i];
      OneMoreMember(publicKeys, keys, i);
      if key.Leaf? {
        if key.pk in publicKeys {
          result := result + [key.pk];
          if |result| == threshold {
            EnoughDirectKeys(publicKeys, keyList, i + 1, result);
            return Some(result);
          }
        }
      } else {
        var resultingKeys := ComputeShortenedPublicKeyList(publicKeys, key);
        if resultingKeys.Some? && |resultingKeys.value| > 0 {
          secondary := secondary + [resultingKeys.value];
        }
      }
    }
    assert keys[..|keys|] == keys;
    if |result| + |secondary| >= threshold {
      secondary := Sort(Size, secondary);
      return Some(result + Flat(secondary[..threshold - |result|]));
    }
    return None;
  }

  // ----- One candidate for each member that can be satisfied -----

  /** What the algorithm would keep for one member, if the member can be satisfied. */
  function Candidate(avail: set<PublicKey>, key: Key): Option<PublicKeys>
    decreases key, 2
  {
    match key
    case Leaf(pk) => if pk in avail then Some([pk]) else None
    case KeyList(_, _) => var r := Shortened(avail, key); if r.Some? && r.value != [] then r else None
  }

  function Candidates(avail: set<PublicKey>, keys: seq<Key>): seq<PublicKeys> {
    if keys == [] then []
    else
      var c := Candidate(avail, keys[|keys| - 1]);
      var front := Candidates(avail, keys[..|keys| - 1]);
      if c.Some? then front + [c.value] else front
  }

  function Singles(pks: PublicKeys): seq<PublicKeys> {
    seq(|pks|, i requires 0 <= i < |pks| => [pks[i]])
  }

  /** The candidates in the order in which they are taken: public keys, then lists by size. */
  function Picks(avail: set<PublicKey>, keys: seq<Key>): seq<PublicKeys> {
    Singles(Direct(avail, keys)) + Sort(Size, Nested(avail, keys))
  }

  lemma {:induction false} FlatConcat(xs: seq<PublicKeys>, ys: seq<PublicKeys>)
    ensures Flat(xs + ys) == Flat(xs) + Flat(ys)
  {
    if ys == [] {
      assert xs + ys == xs;
    } else {
      assert (xs + ys)[..|xs + ys| - 1] == xs + ys[..|ys| - 1];
      FlatConcat(xs, ys[..|ys| - 1]);
    }
  }

  lemma {:induction false} FlatSingles(pks: PublicKeys)
    ensures Flat(Singles(pks)) == pks
  {
    if pks != [] {
      assert Singles(pks)[..|pks| - 1] == Singles(pks[..|pks| - 1]);
      FlatSingles(pks[..|pks| - 1]);
    }
  }

  /** Both branches of the algorithm keep the first `threshold` picks. */
  lemma ShortenedTakesFirstPicks(avail: set<PublicKey>, keyList: Key)
    requires keyList.KeyList?
    ensures var picks := Picks(avail, keyList.keys);
            Shortened(avail, keyList) ==
            if Required(keyList) <= |picks| then Some(Flat(picks[..Required(keyList)])) else None
  {
    var result, secondary := Direct(avail, keyList.keys), Nested(avail, keyList.keys);
    var t := Required(keyList);
    var picks := Picks(avail, keyList.keys);
    assert |picks| == |result| + |secondary|;
    if 0 < t <= |result| {
      assert picks[..t] == Singles(result[..t]);
      FlatSingles(result[..t]);
    } else if t == 0 {
      assert keyList.keys == [];
    } else if t <= |picks| {
      var q := t - |result|;
      assert picks[..t] == Singles(result) + Sort(Size, secondary)[..q];
      FlatConcat(Singles(result), Sort(Size, secondary)[..q]);
      FlatSingles(result);
    }
  }

  lemma {:induction false} CandidatesAreNonEmpty(avail: set<PublicKey>, keys: seq<Key>)
    ensures forall c :: c in Candidates(avail, keys) ==> |c| >= 1
    ensures forall c :: c in Nested(avail, keys) ==> |c| >= 1
  {
    if keys != [] {
      CandidatesAreNonEmpty(avail, keys[..|keys| - 1]);
    }
  }

  lemma {:induction false} CandidatesSplit(avail: set<PublicKey>, keys: seq<Key>)
    ensures multiset(Candidates(avail, keys)) ==
            multiset(Singles(Direct(avail, keys))) + multiset(Nested(avail, keys))
  {
    if keys != [] {
      var front, last := keys[..|keys| - 1], keys[|keys| - 1];
      CandidatesSplit(avail, front);
      var d, c := Direct(avail, front), Candidate(avail, last);
      if c.None? {
        assert Candidates(avail, keys) == Candidates(avail, front);
        assert Direct(avail, keys) == d && Nested(avail, keys) == Nested(avail, front);
      } else if last.Leaf? {
        assert Direct(avail, keys) == d + [last.pk];
        assert Singles(d + [last.pk]) == Singles(d) + [c.value];
        assert Nested(avail, keys) == Nested(avail, front);
        Snoc(Singles(d), c.value);
        Snoc(Candidates(avail, front), c.value);
      } else {
        assert Direct(avail, keys) == d;
        assert Nested(avail, keys) == Nested(avail, front) + [c.value];
        Snoc(Nested(avail, front), c.value);
        Snoc(Candidates(avail, front), c.value);
      }
    }
  }

  lemma PicksArePermutedCandidates(avail: set<PublicKey>, keys: seq<Key>)
    ensures multiset(Picks(avail, keys)) == multiset(Candidates(avail, keys))
    ensures |Picks(avail, keys)| == |Candidates(avail, keys)|
  {
    CandidatesSplit(avail, keys);
    SortSorts(Size, Nested(avail, keys));
    assert |multiset(Picks(avail, keys))| == |multiset(Candidates(avail, keys))|;
  }

  lemma SortedNestedAreNonEmpty(avail: set<PublicKey>, keys: seq<Key>)
    ensures forall p :: p in Sort(Size, Nested(avail, keys)) ==> |p| >= 1
  {
    CandidatesAreNonEmpty(avail, keys);
    forall p | p in Sort(Size, Nested(avail, keys))
      ensures |p| >= 1
    {
      SortHas(Size, Nested(avail, keys), p);
    }
  }

  lemma PicksAreSorted(avail: set<PublicKey>, keys: seq<Key>)
    ensures SortedBy(Size, Picks(avail, keys))
    ensures forall p :: p in Picks(avail, keys) ==> |p| >= 1
  {
    SortSorts(Size, Nested(avail, keys));
    SortedNestedAreNonEmpty(avail, keys);
    var singles, sorted := Singles(Direct(avail, keys)), Sort(Size, Nested(avail, keys));
    assert forall i :: 0 <= i < |singles| ==> Size(singles[i]) == 1;
    assert forall i :: 0 <= i < |sorted| ==> Size(sorted[i]) >= 1;
  }

  /** The given public keys of a list, and the answers of its member lists, are taken in the order of its members. */
  lemma {:induction false} MembersInOrder(avail: set<PublicKey>, pk: PublicKey, key: Key, xs: seq<Key>, ys: seq<Key>)
    requires key.KeyList?
    ensures Direct(avail, [Leaf(pk)]) == (if pk in avail then [pk] else []) && Nested(avail, [Leaf(pk)]) == []
    ensures Direct(avail, [key]) == []
    ensures var r := Shortened(avail, key);
            Nested(avail, [key]) == if r.None? || r.value == [] then [] else [r.value]
    ensures Direct(avail, xs + ys) == Direct(avail, xs) + Direct(avail, ys)
    ensures Nested(avail, xs + ys) == Nested(avail, xs) + Nested(avail, ys)
    decreases |ys|
  {
    assert [key][..0] == [] && [Leaf(pk)][..0] == [];
    if ys == [] {
      assert xs + ys == xs;
    } else {
      assert (xs + ys)[..|xs + ys| - 1] == xs + ys[..|ys| - 1];
      MembersInOrder(avail, pk, key, xs, ys[..|ys| - 1]);
    }
  }

  /** Public keys of the list itself come before those of nested lists, in order. */
  lemma DirectKeysComeFirst(avail: set<PublicKey>, keyList: Key)
    requires keyList.KeyList?
    ensures var r, direct := Shortened(avail, keyList), Direct(avail, keyList.keys);
            r.Some? ==>
              if Required(keyList) <= |direct| then r.value == direct[..Required(keyList)] else direct <= r.value
  {
    if Required(keyList) == 0 {
      assert keyList.keys == [];
      assert Flat([]) == [] && Sort(Size, []) == [];
    }
  }

  // ----- What is returned satisfies the list -----

  /** 1 for a candidate that consists of members of s only. */
  ghost function Within(s: set<PublicKey>): PublicKeys -> int {
    (c: PublicKeys) => if SetOf(c) <= s then 1 else 0
  }

  lemma {:induction false} FlatContains(rs: seq<PublicKeys>, i: nat)
    requires i < |rs|
    ensures SetOf(rs[i]) <= SetOf(Flat(rs))
  {
    if i < |rs| - 1 {
      FlatContains(rs[..|rs| - 1], i);
    }
  }

  lemma {:induction false} FlatIsFrom(rs: seq<PublicKeys>, s: set<PublicKey>)
    requires forall r :: r in rs ==> SetOf(r) <= s
    ensures SetOf(Flat(rs)) <= s
  {
    if rs != [] {
      FlatIsFrom(rs[..|rs| - 1], s);
      assert SetOf(rs[|rs| - 1]) <= s;
      assert forall pk :: pk in Flat(rs) ==> pk in SetOf(Flat(rs[..|rs| - 1])) || pk in SetOf(rs[|rs| - 1]);
    }
  }

  lemma {:induction false} SumWithinAtLeast(s: set<PublicKey>, rs: seq<PublicKeys>, t: nat)
    requires t <= |rs|
    requires forall i :: 0 <= i < t ==> SetOf(rs[i]) <= s
    ensures Sum(Within(s), rs) >= t
  {
    if rs != [] {
      SumWithinAtLeast(s, rs[..|rs| - 1], if t == |rs| then t - 1 else t);
    }
  }

  lemma {:induction false} CandidateIsSound(avail: set<PublicKey>, key: Key)
    ensures var c := Candidate(avail, key);
            c.Some? ==> Satisfied(SetOf(c.value), key) && SetOf(c.value) <= avail * SetOf(Leaves(key))
    decreases key, 1
  {
    if key.KeyList? && Candidate(avail, key).Some? {
      var keys, t := key.keys, Required(key);
      ShortenedTakesFirstPicks(avail, key);
      var picks := Picks(avail, keys);
      var r := Flat(picks[..t]);
      var s := SetOf(r);
      CandidatesAreSound(avail, keys, s);
      PicksArePermutedCandidates(avail, keys);
      SumPermutation(Within(s), picks, Candidates(avail, keys));
      forall i | 0 <= i < t
        ensures SetOf(picks[i]) <= s
      {
        FlatContains(picks[..t], i);
      }
      SumWithinAtLeast(s, picks, t);
      forall p | p in picks[..t]
        ensures SetOf(p) <= avail * SetOf(LeavesOf(keys))
      {
        assert p in multiset(picks);
        assert p in Candidates(avail, keys);
      }
      FlatIsFrom(picks[..t], avail * SetOf(LeavesOf(keys)));
    }
  }

  lemma {:induction false} CandidatesAreSound(avail: set<PublicKey>, keys: seq<Key>, s: set<PublicKey>)
    ensures CountSatisfied(s, keys) >= Sum(Within(s), Candidates(avail, keys))
    ensures forall c :: c in Candidates(avail, keys) ==> SetOf(c) <= avail * SetOf(LeavesOf(keys))
    decreases keys, 0
  {
    if keys != [] {
      var front, last := keys[..|keys| - 1], keys[|keys| - 1];
      CandidatesAreSound(avail, front, s);
      CandidateIsSound(avail, last);
      assert SetOf(LeavesOf(keys)) == SetOf(LeavesOf(front)) + SetOf(Leaves(last));
      var c := Candidate(avail, last);
      if c.Some? {
        var cs := Candidates(avail, keys);
        assert cs[..|cs| - 1] == Candidates(avail, front) && cs[|cs| - 1] == c.value;
        if SetOf(c.value) <= s {
          SatisfactionIsMonotone(SetOf(c.value), s, last);
        }
      }
    }
  }

  // ----- Something is returned whenever the list can be satisfied -----

  lemma {:induction false} CandidateIsComplete(avail: set<PublicKey>, key: Key, s: set<PublicKey>)
    requires s <= avail && Satisfied(s, key)
    ensures Candidate(avail, key).Some?
    decreases key, 1
  {
    if key.KeyList? {
      CandidatesAreComplete(avail, key.keys, s);
      ShortenedTakesFirstPicks(avail, key);
      PicksArePermutedCandidates(avail, key.keys);
      PicksAreSorted(avail, key.keys);
      var picks := Picks(avail, key.keys);
      assert picks[0] in picks;
      FlatContains(picks[..Required(key)], 0);
      assert picks[0][0] in SetOf(picks[0]);
    }
  }

  lemma {:induction false} CandidatesAreComplete(avail: set<PublicKey>, keys: seq<Key>, s: set<PublicKey>)
    requires s <= avail
    ensures CountSatisfied(s, keys) <= |Candidates(avail, keys)|
    decreases keys, 0
  {
    if keys != [] {
      CandidatesAreComplete(avail, keys[..|keys| - 1], s);
      if Satisfied(s, keys[|keys| - 1]) {
        CandidateIsComplete(avail, keys[|keys| - 1], s);
      }
    }
  }

  // ----- The results -----

  /**
   null exactly when the given keys do not satisfy the list; otherwise given keys
   of the list that satisfy it. Only an empty list with no threshold, which
   nothing satisfies, gives an empty array instead of null.
   */
  lemma ShortenedSatisfies(avail: set<PublicKey>, keyList: Key)
    requires keyList.KeyList?
    ensures var r := Shortened(avail, keyList);
            && (r.None? <==> !Satisfied(avail, keyList) && Required(keyList) > 0)
            && (Required(keyList) == 0 ==> r == Some([]))
            && (r.Some? && Required(keyList) > 0 ==>
                  && Satisfied(SetOf(r.value), keyList)
                  && SetOf(r.value) <= avail * SetOf(Leaves(keyList)))
  {
    var r, t := Shortened(avail, keyList), Required(keyList);
    ShortenedTakesFirstPicks(avail, keyList);
    CandidateIsSound(avail, keyList);
    if Satisfied(avail, keyList) {
      CandidateIsComplete(avail, keyList, avail);
    }
    var picks := Picks(avail, keyList.keys);
    if t == 0 {
      assert picks[..0] == [];
    } else if r.Some? {
      PicksAreSorted(avail, keyList.keys);
      assert picks[0] in picks;
      FlatContains(picks[..t], 0);
      assert picks[0][0] in SetOf(picks[0]);
      assert keyList.keys != [];
      SatisfactionIsMonotone(SetOf(r.value), avail, keyList);
    }
  }
}

/**
 How small the answer of computeShortenedPublicKeyList is. When no given public key
 occurs more than k times in the list, it is at most k times as large as the smallest
 set that satisfies the list. This bound is reached for every k; for k = 1 it is the
 documented promise.
 */
module SmallestKeys {
  import opened Wrappers
  import opened Keys
  import opened Sorting
  import opened ShortenedKeys

  // ----- A lower bound on the signers -----

  /**
   How far a candidate falls below the cutoff m. Taking exactly the candidates
   below the cutoff makes the sum of the shortfalls as small as it can be.
   */
  ghost function Shortfall(m: int): PublicKeys -> int {
    (c: PublicKeys) => if |c| < m then |c| - m else 0
  }

  lemma {:induction false} ShortfallOfSmall(m: int, rs: seq<PublicKeys>)
    requires forall i :: 0 <= i < |rs| ==> |rs[i]| <= m
    ensures Sum(Shortfall(m), rs) == |Flat(rs)| - m * |rs|
  {
    if rs != [] {
      ShortfallOfSmall(m, rs[..|rs| - 1]);
      assert m * |rs| == m * (|rs| - 1) + m;
    }
  }

  lemma {:induction false} ShortfallOfLarge(m: int, rs: seq<PublicKeys>)
    requires forall i :: 0 <= i < |rs| ==> |rs[i]| >= m
    ensures Sum(Shortfall(m), rs) == 0
  {
    if rs != [] {
      ShortfallOfLarge(m, rs[..|rs| - 1]);
    }
  }

  lemma ShortfallOfSorted(rs: seq<PublicKeys>, t: nat)
    requires SortedBy(Size, rs) && 0 < t <= |rs|
    ensures var m := |rs[t - 1]|; Sum(Shortfall(m), rs) == |Flat(rs[..t])| - m * t
  {
    var m, small, large := |rs[t - 1]|, rs[..t], rs[t..];
    forall i | 0 <= i < |small|
      ensures |small[i]| <= m
    {
      assert Size(rs[i]) <= Size(rs[t - 1]);
    }
    forall i | 0 <= i < |large|
      ensures |large[i]| >= m
    {
      assert Size(rs[t - 1]) <= Size(rs[t + i]);
    }
    ShortfallOfSmall(m, small);
    ShortfallOfLarge(m, large);
    SumConcat(Shortfall(m), small, large);
    assert small + large == rs;
  }

  /** How many entries of xs are in s. */
  function Occurrences(s: set<PublicKey>, xs: PublicKeys): nat {
    if xs == [] then 0
    else Occurrences(s, xs[..|xs| - 1]) + if xs[|xs| - 1] in s then 1 else 0
  }

  lemma {:induction false} OccurrencesConcat(s: set<PublicKey>, xs: PublicKeys, ys: PublicKeys)
    ensures Occurrences(s, xs + ys) == Occurrences(s, xs) + Occurrences(s, ys)
  {
    if ys == [] {
      assert xs + ys == xs;
    } else {
      assert (xs + ys)[..|xs + ys| - 1] == xs + ys[..|ys| - 1];
      OccurrencesConcat(s, xs, ys[..|ys| - 1]);
    }
  }

  lemma MultiplyAtLeast(m: nat, t: nat, k: nat)
    requires t <= k
    ensures m * t <= m * k
  {
  }

  /** m for each member that s satisfies. */
  ghost function Dues(s: set<PublicKey>, keys: seq<Key>, m: int): int {
    if keys == [] then 0
    else Dues(s, keys[..|keys| - 1], m) + if Satisfied(s, keys[|keys| - 1]) then m else 0
  }

  lemma {:induction false} DuesArePerMember(s: set<PublicKey>, keys: seq<Key>, m: int)
    ensures Dues(s, keys, m) == m * CountSatisfied(s, keys)
  {
    if keys != [] {
      var k := CountSatisfied(s, keys[..|keys| - 1]);
      DuesArePerMember(s, keys[..|keys| - 1], m);
      assert m * (k + 1) == m * k + m;
    }
  }

  /** The leaves that sign number at least the dues of the satisfied members plus the shortfalls. */
  lemma {:induction false} SignersOutweighCandidates(avail: set<PublicKey>, keys: seq<Key>, s: set<PublicKey>, m: int)
    requires s <= avail
    ensures Occurrences(s, LeavesOf(keys)) >= Dues(s, keys, m) + Sum(Shortfall(m), Candidates(avail, keys))
    decreases keys, 0
  {
    if keys != [] {
      var front, last := keys[..|keys| - 1], keys[|keys| - 1];
      OccurrencesConcat(s, LeavesOf(front), Leaves(last));
      assert LeavesOf(keys) == LeavesOf(front) + Leaves(last);
      SignersOutweighCandidates(avail, front, s, m);
      CandidateSum(avail, keys, Shortfall(m));
      assert Dues(s, keys, m) == Dues(s, front, m) + if Satisfied(s, last) then m else 0;
      if Satisfied(s, last) {
        CandidateIsMinimal(avail, last, s);
      }
    }
  }

  lemma CandidateSum(avail: set<PublicKey>, keys: seq<Key>, f: PublicKeys -> int)
    requires keys != []
    ensures var c := Candidate(avail, keys[|keys| - 1]);
            Sum(f, Candidates(avail, keys)) ==
            Sum(f, Candidates(avail, keys[..|keys| - 1])) + if c.Some? then f(c.value) else 0
  {
    var c, cs := Candidate(avail, keys[|keys| - 1]), Candidates(avail, keys);
    if c.Some? {
      assert cs[..|cs| - 1] == Candidates(avail, keys[..|keys| - 1]) && cs[|cs| - 1] == c.value;
    }
  }

  lemma {:induction false} CandidateIsMinimal(avail: set<PublicKey>, key: Key, s: set<PublicKey>)
    requires s <= avail && Satisfied(s, key)
    ensures Candidate(avail, key).Some? && |Candidate(avail, key).value| <= Occurrences(s, Leaves(key))
    decreases key, 1
  {
    CandidateIsComplete(avail, key, s);
    match key
    case Leaf(pk) =>
      assert [pk][..0] == [];
    case KeyList(keys, _) =>
      var t, picks := Required(key), Picks(avail, keys);
      ShortenedTakesFirstPicks(avail, key);
      PicksAreSorted(avail, keys);
      PicksArePermutedCandidates(avail, keys);
      ShortfallOfSorted(picks, t);
      var m := |picks[t - 1]|;
      SumPermutation(Shortfall(m), picks, Candidates(avail, keys));
      SignersOutweighCandidates(avail, keys, s, m);
      DuesArePerMember(s, keys, m);
      MultiplyAtLeast(m, t, CountSatisfied(s, keys));
  }

  lemma {:induction false} SizeOfSet(xs: PublicKeys)
    ensures |SetOf(xs)| <= |xs|
    ensures |SetOf(xs)| == |xs| <==> Distinct(xs)
  {
    if xs != [] {
      var front, last := xs[..|xs| - 1], xs[|xs| - 1];
      SizeOfSet(front);
      assert SetOf(xs) == SetOf(front) + {last};
      assert last in front <==> exists i :: 0 <= i < |front| && front[i] == last;
      assert forall i :: 0 <= i < |front| ==> xs[i] == front[i];
    }
  }

  // ----- The results -----

  /** No given key occurs more than k times. */
  ghost predicate OccursAtMost(k: nat, avail: set<PublicKey>, xs: PublicKeys) {
    forall pk :: pk in avail ==> Occurrences({pk}, xs) <= k
  }

  lemma {:induction false} OccurrencesOfUnion(s: set<PublicKey>, pk: PublicKey, xs: PublicKeys)
    requires pk !in s
    ensures Occurrences(s + {pk}, xs) == Occurrences(s, xs) + Occurrences({pk}, xs)
  {
    if xs != [] {
      OccurrencesOfUnion(s, pk, xs[..|xs| - 1]);
    }
  }

  lemma {:induction false} NoOccurrences(xs: PublicKeys)
    ensures Occurrences({}, xs) == 0
  {
    if xs != [] {
      NoOccurrences(xs[..|xs| - 1]);
    }
  }

  lemma OneTimeMore(k: nat, n: nat)
    ensures k * (n + 1) == k * n + k
  {
  }

  lemma {:induction false} OccurrencesAreBounded(k: nat, avail: set<PublicKey>, s: set<PublicKey>, xs: PublicKeys)
    requires s <= avail && OccursAtMost(k, avail, xs)
    ensures Occurrences(s, xs) <= k * |s|
  {
    if s == {} {
      NoOccurrences(xs);
    } else {
      var pk :| pk in s;
      var rest := s - {pk};
      assert s == rest + {pk};
      OccurrencesOfUnion(rest, pk, xs);
      OccurrencesAreBounded(k, avail, rest, xs);
      OneTimeMore(k, |rest|);
    }
  }

  /**
   For every list: when no given key occurs more than k times in it, the answer is at
   most k times as large as any set of given keys that satisfies the list.
   */
  lemma ShortenedIsWithinFactor(k: nat, avail: set<PublicKey>, keyList: Key, s: set<PublicKey>)
    requires keyList.KeyList? && OccursAtMost(k, avail, Leaves(keyList))
    requires s <= avail && Satisfied(s, keyList)
    ensures Shortened(avail, keyList).Some? && |Shortened(avail, keyList).value| <= k * |s|
  {
    CandidateIsMinimal(avail, keyList, s);
    OccurrencesAreBounded(k, avail, s, Leaves(keyList));
  }

  /** No available key occurs twice. */
  ghost predicate DistinctWithin(avail: set<PublicKey>, xs: PublicKeys) {
    forall i, j :: 0 <= i < j < |xs| && xs[i] in avail ==> xs[i] != xs[j]
  }

  lemma {:induction false} DistinctOccursOnce(avail: set<PublicKey>, xs: PublicKeys, pk: PublicKey)
    requires DistinctWithin(avail, xs) && pk in avail
    ensures Occurrences({pk}, xs) <= 1
    ensures Occurrences({pk}, xs) == 1 ==> pk in xs
  {
    if xs != [] {
      DistinctOccursOnce(avail, xs[..|xs| - 1], pk);
    }
  }

  /** The documented promise, for every list in which none of the given public keys occurs twice. */
  lemma ShortenedIsSmallest(avail: set<PublicKey>, keyList: Key)
    requires keyList.KeyList? && DistinctWithin(avail, Leaves(keyList))
    ensures var r := Shortened(avail, keyList);
            r.Some? ==>
              && Distinct(r.value)
              && forall s :: s <= avail && Satisfied(s, keyList) ==> |r.value| <= |s|
  {
    var r := Shortened(avail, keyList);
    if r.Some? {
      ShortenedSatisfies(avail, keyList);
      forall pk | pk in avail
        ensures Occurrences({pk}, Leaves(keyList)) <= 1
      {
        DistinctOccursOnce(avail, Leaves(keyList), pk);
      }
      forall s | s <= avail && Satisfied(s, keyList)
        ensures |r.value| <= |s|
      {
        ShortenedIsWithinFactor(1, avail, keyList, s);
      }
      SizeOfSet(r.value);
    }
  }

  // ----- Shared keys -----

  /** A 1-of-2 list of each key with the shared one; all of the lists must sign. */
  function SharedList(own: PublicKeys, shared: PublicKey): Key {
    KeyList(Pairs(own, shared), None)
  }

  function Pairs(own: PublicKeys, shared: PublicKey): seq<Key> {
    seq(|own|, i requires 0 <= i < |own| => KeyList([Leaf(own[i]), Leaf(shared)], Some(1)))
  }

  lemma PairOfLeaves(avail: set<PublicKey>, x: PublicKey, y: PublicKey)
    requires y in avail
    ensures var pair := KeyList([Leaf(x), Leaf(y)], Some(1));
            && Satisfied(avail, pair)
            && Shortened(avail, pair) == Some([if x in avail then x else y])
  {
    var keys := [Leaf(x), Leaf(y)];
    assert keys[..1] == [Leaf(x)] && [Leaf(x)][..0] == [];
    assert keys[..0] == [] && keys[..2] == keys;
    OneMoreMember(avail, keys, 0);
    OneMoreMember(avail, keys, 1);
    assert Direct(avail, keys) == if x in avail then [x, y] else [y];
    assert Direct(avail, keys)[..1] == [if x in avail then x else y];
    assert CountSatisfied(avail, [Leaf(x)]) == if x in avail then 1 else 0;
  }

  lemma LeavesOfPair(x: PublicKey, y: PublicKey)
    ensures LeavesOf([Leaf(x), Leaf(y)]) == [x, y]
  {
    var keys := [Leaf(x), Leaf(y)];
    assert [Leaf(x)][..0] == [] && LeavesOf([Leaf(x)]) == [x];
    assert keys[..1] == [Leaf(x)];
  }

  lemma OccurrencesOfTwo(s: set<PublicKey>, x: PublicKey, y: PublicKey)
    ensures Occurrences(s, [x, y]) == (if x in s then 1 else 0) + (if y in s then 1 else 0)
  {
    assert [x][..0] == [] && Occurrences(s, [x]) == if x in s then 1 else 0;
    assert [x, y][..1] == [x];
  }

  lemma {:induction false} PairsAreKept(avail: set<PublicKey>, own: PublicKeys, shared: PublicKey)
    requires SetOf(own) <= avail && shared in avail
    ensures Direct(avail, Pairs(own, shared)) == []
    ensures Nested(avail, Pairs(own, shared)) == Singles(own)
  {
    var pairs := Pairs(own, shared);
    if own != [] {
      var front, last := own[..|own| - 1], own[|own| - 1];
      assert pairs[..|pairs| - 1] == Pairs(front, shared);
      assert last in SetOf(own) && SetOf(front) <= SetOf(own);
      PairsAreKept(avail, front, shared);
      PairOfLeaves(avail, last, shared);
      assert Singles(own) == Singles(front) + [[last]];
    }
  }

  lemma {:induction false} SharedKeySatisfiesPairs(own: PublicKeys, shared: PublicKey)
    ensures CountSatisfied({shared}, Pairs(own, shared)) == |own|
  {
    var pairs := Pairs(own, shared);
    if own != [] {
      assert pairs[..|pairs| - 1] == Pairs(own[..|own| - 1], shared);
      SharedKeySatisfiesPairs(own[..|own| - 1], shared);
      PairOfLeaves({shared}, own[|own| - 1], shared);
    }
  }

  lemma {:induction false} OccurrencesInPairs(s: set<PublicKey>, own: PublicKeys, shared: PublicKey)
    ensures Occurrences(s, LeavesOf(Pairs(own, shared))) ==
            Occurrences(s, own) + if shared in s then |own| else 0
  {
    var pairs := Pairs(own, shared);
    if own != [] {
      var front, last := own[..|own| - 1], own[|own| - 1];
      assert pairs[..|pairs| - 1] == Pairs(front, shared);
      OccurrencesInPairs(s, front, shared);
      LeavesOfPair(last, shared);
      OccurrencesConcat(s, LeavesOf(Pairs(front, shared)), [last, shared]);
      OccurrencesOfTwo(s, last, shared);
      assert LeavesOf(pairs) == LeavesOf(Pairs(front, shared)) + [last, shared];
    }
  }

  lemma {:induction false} FlatOfOnes(rs: seq<PublicKeys>)
    requires forall i :: 0 <= i < |rs| ==> |rs[i]| == 1
    ensures |Flat(rs)| == |rs|
  {
    if rs != [] {
      FlatOfOnes(rs[..|rs| - 1]);
    }
  }

  lemma SharedListKeepsAll(avail: set<PublicKey>, own: PublicKeys, shared: PublicKey)
    requires own != [] && SetOf(own) <= avail && shared in avail
    ensures var r := Shortened(avail, SharedList(own, shared)); r.Some? && |r.value| == |own|
  {
    PairsAreKept(avail, own, shared);
    var singles := Singles(own);
    var sorted := Sort(Size, singles);
    forall i | 0 <= i < |sorted|
      ensures |sorted[i]| == 1
    {
      SortHas(Size, singles, sorted[i]);
    }
    FlatOfOnes(sorted);
    assert sorted[..|own|] == sorted;
  }

  /**
   The bound is reached for every k: of k lists that share a key, one key each is kept,
   though the shared key alone is enough.
   */
  lemma FactorIsReached(own: PublicKeys, shared: PublicKey)
    requires own != [] && Distinct(own) && shared !in own
    ensures var avail, keyList := SetOf(own) + {shared}, SharedList(own, shared);
            && OccursAtMost(|own|, avail, Leaves(keyList)) && Satisfied({shared}, keyList)
            && Shortened(avail, keyList).Some? && |Shortened(avail, keyList).value| == |own| * |{shared}|
  {
    var avail := SetOf(own) + {shared};
    SharedListKeepsAll(avail, own, shared);
    SharedKeySatisfiesPairs(own, shared);
    forall pk | pk in avail
      ensures Occurrences({pk}, Leaves(SharedList(own, shared))) <= |own|
    {
      OccurrencesInPairs({pk}, own, shared);
      DistinctOccursOnce(avail, own, pk);
    }
  }

  /** The documented promise fails for the lists {a, b} and {c, b}: b alone is enough, but two keys are kept. */
  lemma SharedKeysMayBeKeptTwice()
    ensures exists avail, keyList: Key, s ::
              && keyList.KeyList? && s <= avail && Satisfied(s, keyList)
              && Shortened(avail, keyList).Some? && |s| < |Shortened(avail, keyList).value|
  {
    var a, b, c := PublicKey("a"), PublicKey("b"), PublicKey("c");
    assert a.raw != b.raw && b.raw != c.raw && a.raw != c.raw;
    FactorIsReached([a, c], b);
    assert {b} <= SetOf([a, c]) + {b} && |{b}| == 1;
  }

  lemma IntersectionIsSmaller(s: set<PublicKey>, t: set<PublicKey>)
    ensures |s * t| <= |s|
  {
    assert s == s * t + (s - t);
  }
}

/**
 Nested threshold keys generated for the performance tests: "p of n" lists whose
 members are "t of k" lists of fresh keys, and the fewest signatures that
 satisfy such a key.
 */
module ComplexKeys {
  import opened Wrappers
  import opened Keys
  import opened Sorting
  import opened ShortenedKeys
  import opened SmallestKeys

  datatype PrivateKey = PrivateKey(raw: string, publicKey: PublicKey)

  /** "threshold of numKeys" for one member list. */
  datatype ChildKeyConfig = ChildKeyConfig(threshold: nat, numKeys: nat)

  datatype Metadata = Metadata(parentThreshold: nat, childCount: nat, totalKeys: nat, childConfigs: seq<ChildKeyConfig>)

  datatype ComplexKeyResult = ComplexKeyResult(
    adminKey: Key,
    allPrivateKeys: seq<PrivateKey>,
    publicKeyToPrivateKey: map<string, PrivateKey>,
    metadata: Metadata)

  function TotalKeys(cs: seq<ChildKeyConfig>): nat {
    if cs == [] then 0 else TotalKeys(cs[..|cs| - 1]) + cs[|cs| - 1].numKeys
  }

  function Publics(ks: seq<PrivateKey>): seq<PublicKey> {
    seq(|ks|, i requires 0 <= i < |ks| => ks[i].publicKey)
  }

  function LeafKeys(pks: seq<PublicKey>): seq<Key> {
    seq(|pks|, i requires 0 <= i < |pks| => Leaf(pks[i]))
  }

  /** The member lists, which take their keys one after the other from pks. */
  function Children(cs: seq<ChildKeyConfig>, pks: seq<PublicKey>): seq<Key>
    requires TotalKeys(cs) <= |pks|
  {
    if cs == [] then []
    else
      var front, last := cs[..|cs| - 1], cs[|cs| - 1];
      Children(front, pks) + [KeyList(LeafKeys(pks[TotalKeys(front)..TotalKeys(cs)]), Some(last.threshold))]
  }

  function ThresholdKey(p: nat, cs: seq<ChildKeyConfig>, pks: seq<PublicKey>): Key
    requires TotalKeys(cs) <= |pks|
  {
    KeyList(Children(cs, pks), Some(p))
  }

  /** A Map filled in order, so that the last key with a given public key stays. */
  function Lookup(ks: seq<PrivateKey>): map<string, PrivateKey> {
    if ks == [] then map[]
    else Lookup(ks[..|ks| - 1])[ks[|ks| - 1].publicKey.raw := ks[|ks| - 1]]
  }

  lemma {:induction false} TotalOfPrefix(cs: seq<ChildKeyConfig>, i: nat)
    requires i <= |cs|
    ensures TotalKeys(cs[..i]) <= TotalKeys(cs)
  {
    if i < |cs| {
      assert cs[..|cs| - 1][..i] == cs[..i];
      TotalOfPrefix(cs[..|cs| - 1], i);
    } else {
      assert cs[..i] == cs;
    }
  }

  lemma PrefixStep(cs: seq<ChildKeyConfig>, c: nat, pks: seq<PublicKey>)
    requires c < |cs| && TotalKeys(cs) <= |pks|
    ensures TotalKeys(cs[..c + 1]) == TotalKeys(cs[..c]) + cs[c].numKeys <= |pks|
    ensures Children(cs[..c + 1], pks) ==
            Children(cs[..c], pks)
            + [KeyList(LeafKeys(pks[TotalKeys(cs[..c])..TotalKeys(cs[..c + 1])]), Some(cs[c].threshold))]
  {
    assert cs[..c + 1][..c] == cs[..c];
    TotalOfPrefix(cs, c + 1);
  }

  lemma LookupStep(ks: seq<PrivateKey>, i: nat)
    requires i < |ks|
    ensures ks[..i + 1] == ks[..i] + [ks[i]]
    ensures Lookup(ks[..i + 1]) == Lookup(ks[..i])[ks[i].publicKey.raw := ks[i]]
  {
    assert ks[..i + 1][..i] == ks[..i];
  }

  lemma PublicsOfPrefix(ks: seq<PrivateKey>, n: nat)
    requires n <= |ks|
    ensures Publics(ks[..n]) == Publics(ks)[..n]
  {
  }

  /** The public keys of a generated key are those of its private keys, in order. */
  lemma GeneratedLeaves(p: nat, cs: seq<ChildKeyConfig>, generated: seq<PrivateKey>)
    requires TotalKeys(cs) <= |generated|
    ensures Leaves(ThresholdKey(p, cs, Publics(generated))) == Publics(generated[..TotalKeys(cs)])
  {
    LeavesOfThresholdKey(cs, Publics(generated));
    PublicsOfPrefix(generated, TotalKeys(cs));
  }

  /** The inner loop: the next n generated keys join the list and the map. */
  method GenerateMemberKeys(
    n: nat, generated: seq<PrivateKey>, soFar: seq<PrivateKey>, lookup: map<string, PrivateKey>)
    returns (keys: seq<PublicKey>, allPrivateKeys: seq<PrivateKey>, publicKeyToPrivateKey: map<string, PrivateKey>)
    requires |soFar| + n <= |generated| && soFar == generated[..|soFar|] && lookup == Lookup(soFar)
    ensures keys == Publics(generated)[|soFar|..|soFar| + n]
    ensures allPrivateKeys == generated[..|soFar| + n]
    ensures publicKeyToPrivateKey == Lookup(allPrivateKeys)
  {
    keys, allPrivateKeys, publicKeyToPrivateKey := [], soFar, lookup;
    for i := 0 to n
      invariant allPrivateKeys == generated[..|soFar| + i]
      invariant publicKeyToPrivateKey == Lookup(allPrivateKeys)
      invariant |keys| == i && forall k :: 0 <= k < i ==> keys[k] == generated[|soFar| + k].publicKey
    {
      var privateKey := generated[|allPrivateKeys|];
      LookupStep(generated, |soFar| + i);
      allPrivateKeys := allPrivateKeys + [privateKey];
      publicKeyToPrivateKey := publicKeyToPrivateKey[privateKey.publicKey.raw := privateKey];
      keys := keys + [privateKey.publicKey];
    }
  }

  /** `generated` are the results of the successive calls of PrivateKey.generateED25519. */
  method GenerateComplexThresholdKey(
    parentThreshold: nat, childConfig: seq<ChildKeyConfig>, generated: seq<PrivateKey>)
    returns (result: ComplexKeyResult)
    requires TotalKeys(childConfig) <= |generated|
    ensures var privateKeys := generated[..TotalKeys(childConfig)];
            result == ComplexKeyResult(
              ThresholdKey(parentThreshold, childConfig, Publics(generated)), privateKeys, Lookup(privateKeys),
              Metadata(parentThreshold, |childConfig|, |privateKeys|, childConfig))
    ensures Leaves(result.adminKey) == Publics(result.allPrivateKeys)
  {
    var allPrivateKeys: seq<PrivateKey> := [];
    var publicKeyToPrivateKey: map<string, PrivateKey> := map[];
    var children: seq<Key> := [];
    ghost var pks := Publics(generated);
    for c := 0 to |childConfig|
      invariant TotalKeys(childConfig[..c]) <= |generated|
      invariant allPrivateKeys == generated[..TotalKeys(childConfig[..c])]
      invariant publicKeyToPrivateKey == Lookup(allPrivateKeys)
      invariant children == Children(childConfig[..c], pks)
    {
      var config := childConfig[c];
      PrefixStep(childConfig, c, pks);
      var keys;
      keys, allPrivateKeys, publicKeyToPrivateKey :=
        GenerateMemberKeys(config.numKeys, generated, allPrivateKeys, publicKeyToPrivateKey);
      children := children + [KeyList(LeafKeys(keys), Some(config.threshold))];
    }
    assert childConfig[..|childConfig|] == childConfig;
    var adminKey := KeyList(children, Some(parentThreshold));
    GeneratedLeaves(parentThreshold, childConfig, generated);
    result := ComplexKeyResult(adminKey, allPrivateKeys, publicKeyToPrivateKey,
                               Metadata(parentThreshold, |childConfig|, |allPrivateKeys|, childConfig));
  }

  lemma {:induction false} LeavesOfLeafKeys(pks: seq<PublicKey>)
    ensures LeavesOf(LeafKeys(pks)) == pks
  {
    if pks != [] {
      assert LeafKeys(pks)[..|pks| - 1] == LeafKeys(pks[..|pks| - 1]);
      LeavesOfLeafKeys(pks[..|pks| - 1]);
    }
  }

  lemma {:induction false} LeavesOfThresholdKey(cs: seq<ChildKeyConfig>, pks: seq<PublicKey>)
    requires TotalKeys(cs) <= |pks|
    ensures LeavesOf(Children(cs, pks)) == pks[..TotalKeys(cs)]
  {
    if cs != [] {
      var front := cs[..|cs| - 1];
      LeavesOfThresholdKey(front, pks);
      LeavesOfLeafKeys(pks[TotalKeys(front)..TotalKeys(cs)]);
      var children := Children(cs, pks);
      assert children[..|children| - 1] == Children(front, pks);
    }
  }

  /** Each member list has its own threshold and its own keys, in the order of the configuration. */
  lemma {:induction false} MemberListAt(cs: seq<ChildKeyConfig>, pks: seq<PublicKey>, i: nat)
    requires TotalKeys(cs) <= |pks| && i < |cs|
    ensures |Children(cs, pks)| == |cs|
    ensures var from := TotalKeys(cs[..i]);
            && from + cs[i].numKeys <= |pks|
            && Children(cs, pks)[i] == KeyList(LeafKeys(pks[from..from + cs[i].numKeys]), Some(cs[i].threshold))
  {
    var front := cs[..|cs| - 1];
    ChildrenCount(front, pks);
    if i < |front| {
      assert front[..i] == cs[..i];
      MemberListAt(front, pks, i);
    }
  }

  // ----- The fewest signatures -----

  /** How many of its keys must sign for a member list. */
  function Need(c: ChildKeyConfig): nat {
    if c.threshold != 0 then c.threshold else c.numKeys
  }

  /** The needs of the member lists that can be satisfied at all. */
  function Needs(cs: seq<ChildKeyConfig>): seq<int> {
    if cs == [] then []
    else
      var front, last := Needs(cs[..|cs| - 1]), cs[|cs| - 1];
      if 0 < Need(last) <= last.numKeys then front + [Need(last)] else front
  }

  function Itself(n: int): int {
    n
  }

  /** The sum of the p smallest numbers. */
  ghost function SumOfSmallest(p: nat, ns: seq<int>): int
    requires p <= |ns|
  {
    Sum(Itself, Sort(Itself, ns)[..p])
  }

  /** Some signer set of this size satisfies the key, and no smaller one does. */
  ghost predicate FewestSigners(key: Key, n: int) {
    && (exists s :: Satisfied(s, key) && |s| == n)
    && (forall s :: Satisfied(s, key) ==> |s| >= n)
  }

  function Sizes(rs: seq<PublicKeys>): seq<int> {
    seq(|rs|, i requires 0 <= i < |rs| => |rs[i]|)
  }

  lemma {:induction false} InsertSizes(r: PublicKeys, rs: seq<PublicKeys>)
    ensures Sizes(Insert(Size, r, rs)) == Insert(Itself, |r|, Sizes(rs))
  {
    if rs != [] && |r| > |rs[0]| {
      InsertSizes(r, rs[1..]);
      assert Sizes(rs)[1..] == Sizes(rs[1..]);
    }
  }

  lemma {:induction false} SortSizes(rs: seq<PublicKeys>)
    ensures Sizes(Sort(Size, rs)) == Sort(Itself, Sizes(rs))
  {
    if rs != [] {
      SortSizes(rs[1..]);
      InsertSizes(rs[0], Sort(Size, rs[1..]));
      assert Sizes(rs)[1..] == Sizes(rs[1..]);
    }
  }

  lemma {:induction false} SizeOfFlat(rs: seq<PublicKeys>)
    ensures |Flat(rs)| == Sum(Itself, Sizes(rs))
  {
    if rs != [] {
      SizeOfFlat(rs[..|rs| - 1]);
      assert Sizes(rs)[..|rs| - 1] == Sizes(rs[..|rs| - 1]);
    }
  }

  lemma {:induction false} DirectLeafKeys(avail: set<PublicKey>, pks: seq<PublicKey>)
    requires SetOf(pks) <= avail
    ensures Direct(avail, LeafKeys(pks)) == pks
    ensures Nested(avail, LeafKeys(pks)) == []
  {
    if pks != [] {
      var front := pks[..|pks| - 1];
      assert LeafKeys(pks)[..|pks| - 1] == LeafKeys(front);
      assert pks[|pks| - 1] in SetOf(pks);
      assert SetOf(front) <= SetOf(pks);
      DirectLeafKeys(avail, front);
    }
  }

  lemma ShortenedMemberList(avail: set<PublicKey>, pks: seq<PublicKey>, c: ChildKeyConfig)
    requires SetOf(pks) <= avail && c.numKeys == |pks|
    ensures var r := Shortened(avail, KeyList(LeafKeys(pks), Some(c.threshold)));
            if Need(c) <= c.numKeys then r.Some? && |r.value| == Need(c) else r.None?
  {
    DirectLeafKeys(avail, pks);
    var member := KeyList(LeafKeys(pks), Some(c.threshold));
    assert Required(member) == Need(c);
    assert Sort(Size, []) == [] && Flat([]) == [];
  }

  lemma {:induction false} NestedChildren(avail: set<PublicKey>, cs: seq<ChildKeyConfig>, pks: seq<PublicKey>)
    requires TotalKeys(cs) <= |pks| && SetOf(pks) <= avail
    ensures Direct(avail, Children(cs, pks)) == []
    ensures Sizes(Nested(avail, Children(cs, pks))) == Needs(cs)
  {
    if cs != [] {
      var front, last := cs[..|cs| - 1], cs[|cs| - 1];
      NestedChildren(avail, front, pks);
      var mine := pks[TotalKeys(front)..TotalKeys(cs)];
      assert SetOf(mine) <= SetOf(pks);
      ShortenedMemberList(avail, mine, last);
      var children := Children(cs, pks);
      assert children[..|children| - 1] == Children(front, pks);
      var member := KeyList(LeafKeys(mine), Some(last.threshold));
      assert children[|children| - 1] == member;
    }
  }

  lemma ShortenedThresholdKey(p: nat, cs: seq<ChildKeyConfig>, pks: seq<PublicKey>)
    requires TotalKeys(cs) <= |pks| && cs != []
    ensures var key := ThresholdKey(p, cs, pks);
            var r := Shortened(SetOf(pks), key);
            && (r.Some? <==> Required(key) <= |Needs(cs)|)
            && (r.Some? ==> |r.value| == SumOfSmallest(Required(key), Needs(cs)))
  {
    var key, avail := ThresholdKey(p, cs, pks), SetOf(pks);
    var t, nested := Required(key), Nested(avail, key.keys);
    NestedChildren(avail, cs, pks);
    ShortenedTakesFirstPicks(avail, key);
    SortSizes(nested);
    assert Picks(avail, key.keys) == Sort(Size, nested);
    assert |nested| == |Needs(cs)|;
    if t <= |nested| {
      SizeOfFlat(Sort(Size, nested)[..t]);
      assert Sizes(Sort(Size, nested)[..t]) == Sort(Itself, Needs(cs))[..t];
    }
  }

  /** Signers from outside the key may be left out. */
  lemma SignersOfTheKey(s: set<PublicKey>, p: nat, cs: seq<ChildKeyConfig>, pks: seq<PublicKey>)
    requires TotalKeys(cs) <= |pks| && Satisfied(s, ThresholdKey(p, cs, pks))
    ensures var inside := s * SetOf(pks);
            && Satisfied(inside, ThresholdKey(p, cs, pks)) && |inside| <= |s|
            && Satisfied(SetOf(pks), ThresholdKey(p, cs, pks))
  {
    var key, inside := ThresholdKey(p, cs, pks), s * SetOf(pks);
    LeavesOfThresholdKey(cs, pks);
    SatisfactionDependsOnLeaves(s, inside, key);
    SatisfactionIsMonotone(inside, SetOf(pks), key);
    IntersectionIsSmaller(s, SetOf(pks));
  }

  /**
   The generated key can be satisfied exactly when enough member lists can be; the
   fewest signers are then the sum of the p smallest needs.
   */
  lemma FewestSignersOfThresholdKey(p: nat, cs: seq<ChildKeyConfig>, pks: seq<PublicKey>)
    requires TotalKeys(cs) <= |pks| && Distinct(pks[..TotalKeys(cs)])
    ensures var key := ThresholdKey(p, cs, pks);
            && ((exists s :: Satisfied(s, key)) <==> cs != [] && Required(key) <= |Needs(cs)|)
            && (cs != [] && Required(key) <= |Needs(cs)| ==>
                  FewestSigners(key, SumOfSmallest(Required(key), Needs(cs))))
  {
    var key, avail := ThresholdKey(p, cs, pks), SetOf(pks);
    LeavesOfThresholdKey(cs, pks);
    ShortenedSatisfies(avail, key);
    ShortenedIsSmallest(avail, key);
    ChildrenCount(cs, pks);
    forall s | Satisfied(s, key)
      ensures Satisfied(avail, key)
    {
      SignersOfTheKey(s, p, cs, pks);
    }
    if cs != [] {
      ShortenedThresholdKey(p, cs, pks);
      var r := Shortened(avail, key);
      if r.Some? {
        SizeOfSet(r.value);
        assert Satisfied(SetOf(r.value), key);
        forall s | Satisfied(s, key)
          ensures |s| >= |r.value|
        {
          SignersOfTheKey(s, p, cs, pks);
        }
      }
    }
  }

  lemma {:induction false} ChildrenCount(cs: seq<ChildKeyConfig>, pks: seq<PublicKey>)
    requires TotalKeys(cs) <= |pks|
    ensures |Children(cs, pks)| == |cs|
  {
    if cs != [] {
      ChildrenCount(cs[..|cs| - 1], pks);
    }
  }

  lemma {:induction false} SumOfEqual(n: int, ns: seq<int>)
    requires forall i :: 0 <= i < |ns| ==> ns[i] == n
    ensures Sum(Itself, ns) == n * |ns|
  {
    if ns != [] {
      SumOfEqual(n, ns[..|ns| - 1]);
      assert n * |ns| == n * (|ns| - 1) + n;
    }
  }

  /** When every member list needs the same number of signatures. */
  lemma SumOfSmallestEqual(p: nat, n: int, ns: seq<int>)
    requires p <= |ns| && forall i :: 0 <= i < |ns| ==> ns[i] == n
    ensures SumOfSmallest(p, ns) == n * p
  {
    var taken := Sort(Itself, ns)[..p];
    forall i | 0 <= i < |taken|
      ensures taken[i] == n
    {
      SortHas(Itself, ns, taken[i]);
    }
    SumOfEqual(n, taken);
  }

  /** One signature is enough for every member list. */
  predicate NeedOne(cs: seq<ChildKeyConfig>) {
    forall i :: 0 <= i < |cs| ==> cs[i].threshold == 1 && cs[i].numKeys > 0
  }

  lemma {:induction false} NeedsOfOnes(cs: seq<ChildKeyConfig>)
    requires NeedOne(cs)
    ensures |Needs(cs)| == |cs| && forall i :: 0 <= i < |cs| ==> Needs(cs)[i] == 1
  {
    if cs != [] {
      NeedsOfOnes(cs[..|cs| - 1]);
      assert Need(cs[|cs| - 1]) == 1;
    }
  }

  /** Then the fewest signers are as many as the parent threshold. */
  lemma FewestSignersOfOnes(p: nat, cs: seq<ChildKeyConfig>, pks: seq<PublicKey>)
    requires 0 < p <= |cs| && NeedOne(cs)
    requires TotalKeys(cs) <= |pks| && Distinct(pks[..TotalKeys(cs)])
    ensures FewestSigners(ThresholdKey(p, cs, pks), p)
  {
    NeedsOfOnes(cs);
    FewestSignersOfThresholdKey(p, cs, pks);
    SumOfSmallestEqual(p, 1, Needs(cs));
  }

  // ----- The configuration of account 0.0.2 -----

  /** Member lists that are alternately 1 of 2 and 1 of 3. */
  function AlternatingConfig(length: nat): (cs: seq<ChildKeyConfig>)
    ensures |cs| == length && NeedOne(cs)
  {
    seq(length, i requires 0 <= i < length => ChildKeyConfig(1, if i % 2 == 0 then 2 else 3))
  }

  lemma AlternatingStep(length: nat)
    requires length > 0
    ensures var cs := AlternatingConfig(length);
            && cs[..length - 1] == AlternatingConfig(length - 1)
            && cs[length - 1].numKeys == if length % 2 == 1 then 2 else 3
  {
  }

  lemma {:induction false} AlternatingTotals(length: nat)
    ensures TotalKeys(AlternatingConfig(length)) == (length + 1) / 2 * 2 + length / 2 * 3
  {
    if length > 0 {
      AlternatingTotals(length - 1);
      AlternatingStep(length);
    }
  }

  /** 72 keys in all, of which 17 signatures are enough and 16 never are. */
  lemma HederaStyleKey(pks: seq<PublicKey>)
    requires |pks| >= TotalKeys(AlternatingConfig(29)) && Distinct(pks)
    ensures TotalKeys(AlternatingConfig(29)) == 72
    ensures FewestSigners(ThresholdKey(17, AlternatingConfig(29), pks), 17)
  {
    AlternatingTotals(29);
    FewestSignersOfOnes(17, AlternatingConfig(29), pks);
  }

  // ----- Storing a key -----

  datatype ComplexKeyJson = ComplexKeyJson(privateKeys: seq<string>, publicKeys: seq<string>)

  function SerializeComplexKey(result: ComplexKeyResult): ComplexKeyJson {
    var ks := result.allPrivateKeys;
    ComplexKeyJson(seq(|ks|, i requires 0 <= i < |ks| => ks[i].raw),
                   seq(|ks|, i requires 0 <= i < |ks| => ks[i].publicKey.raw))
  }

  /** `derive` is the derivation of the public key that PrivateKey.fromStringED25519 performs. */
  method DeserializeComplexKey(json: ComplexKeyJson, derive: string -> PublicKey)
    returns (privateKeys: seq<PrivateKey>, publicKeyToPrivateKey: map<string, PrivateKey>)
    ensures |privateKeys| == |json.privateKeys|
    ensures forall i :: 0 <= i < |privateKeys| ==>
              privateKeys[i] == PrivateKey(json.privateKeys[i], derive(json.privateKeys[i]))
    ensures publicKeyToPrivateKey == Lookup(privateKeys)
  {
    privateKeys := seq(|json.privateKeys|, i requires 0 <= i < |json.privateKeys| =>
      PrivateKey(json.privateKeys[i], derive(json.privateKeys[i])));
    publicKeyToPrivateKey := map[];
    for i := 0 to |privateKeys|
      invariant publicKeyToPrivateKey == Lookup(privateKeys[..i])
    {
      assert privateKeys[..i + 1][..i] == privateKeys[..i];
      publicKeyToPrivateKey := publicKeyToPrivateKey[privateKeys[i].publicKey.raw := privateKeys[i]];
    }
    assert privateKeys[..|privateKeys|] == privateKeys;
  }

  /** A stored key is read back with the same private keys in the same order and the same lookup map. */
  method StoreAndLoad(result: ComplexKeyResult, derive: string -> PublicKey)
    returns (privateKeys: seq<PrivateKey>, publicKeyToPrivateKey: map<string, PrivateKey>)
    requires forall k :: k in result.allPrivateKeys ==> k.publicKey == derive(k.raw)
    requires result.publicKeyToPrivateKey == Lookup(result.allPrivateKeys)
    ensures privateKeys == result.allPrivateKeys
    ensures publicKeyToPrivateKey == result.publicKeyToPrivateKey
  {
    var json := SerializeComplexKey(result);
    privateKeys, publicKeyToPrivateKey := DeserializeComplexKey(json, derive);
    forall i | 0 <= i < |privateKeys|
      ensures privateKeys[i] == result.allPrivateKeys[i]
    {
      assert result.allPrivateKeys[i] in result.allPrivateKeys;
    }
  }

  /** The map has, for each public key, the last private key that belongs to it. */
  lemma {:induction false} LookupFindsLast(ks: seq<PrivateKey>, i: nat)
    requires i < |ks| && forall j :: i < j < |ks| ==> ks[j].publicKey.raw != ks[i].publicKey.raw
    ensures ks[i].publicKey.raw in Lookup(ks) && Lookup(ks)[ks[i].publicKey.raw] == ks[i]
  {
    if i < |ks| - 1 {
      LookupFindsLast(ks[..|ks| - 1], i);
    }
  }

  /** The stored public keys are those that the stored private keys derive, one for one. */
  lemma SerializedKeysBelongTogether(result: ComplexKeyResult, derive: string -> PublicKey)
    requires forall i :: 0 <= i < |result.allPrivateKeys| ==>
               result.allPrivateKeys[i].publicKey == derive(result.allPrivateKeys[i].raw)
    ensures var json := SerializeComplexKey(result);
            && |json.privateKeys| == |json.publicKeys| == |result.allPrivateKeys|
            && forall i :: 0 <= i < |json.privateKeys| ==>
                 && json.privateKeys[i] == result.allPrivateKeys[i].raw
                 && json.publicKeys[i] == derive(json.privateKeys[i]).raw
  {
  }

  lemma DistinctParts(xs: PublicKeys, ys: PublicKeys)
    requires Distinct(xs + ys)
    ensures Distinct(xs) && Distinct(ys)
    ensures SetOf(xs) !! SetOf(ys)
  {
    assert forall i :: 0 <= i < |xs| ==> xs[i] == (xs + ys)[i];
    assert forall i :: 0 <= i < |ys| ==> ys[i] == (xs + ys)[|xs| + i];
  }

  /** With distinct public keys, the lookup map finds exactly the generated private keys. */
  lemma {:induction false} LookupFindsEveryKey(ks: seq<PrivateKey>)
    requires Distinct(Publics(ks))
    ensures forall i :: 0 <= i < |ks| ==> ks[i].publicKey.raw in Lookup(ks) && Lookup(ks)[ks[i].publicKey.raw] == ks[i]
    ensures forall raw :: raw in Lookup(ks) ==> exists i :: 0 <= i < |ks| && ks[i].publicKey.raw == raw
  {
    if ks != [] {
      var front, last := ks[..|ks| - 1], ks[|ks| - 1];
      assert Publics(ks) == Publics(front) + [last.publicKey];
      DistinctParts(Publics(front), [last.publicKey]);
      LookupFindsEveryKey(front);
      forall i | 0 <= i < |front|
        ensures ks[i].publicKey.raw != last.publicKey.raw
      {
        assert Publics(front)[i] in SetOf(Publics(front));
        assert last.publicKey in SetOf([last.publicKey]);
      }
      forall raw | raw in Lookup(ks)
        ensures exists i :: 0 <= i < |ks| && ks[i].publicKey.raw == raw
      {
        if raw in Lookup(front) {
          var i :| 0 <= i < |front| && front[i].publicKey.raw == raw;
          assert ks[i].publicKey.raw == raw;
        }
      }
    }
  }
}

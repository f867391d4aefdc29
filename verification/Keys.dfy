/**
 Hedera keys: a public key, or a list of keys with an optional threshold.
 What it means for a set of signers to satisfy a key, and the public keys a key
 is made of.
 */
module Keys {
  import opened Wrappers

  datatype PublicKey = PublicKey(raw: string)

  /** The SDK's PublicKey and KeyList; setThreshold was never called when threshold is None. */
  datatype Key =
    | Leaf(pk: PublicKey)
    | KeyList(keys: seq<Key>, threshold: Option<nat>)

  /** How many members must sign: `threshold || keys.length`, so that 0 counts as unset. */
  function Required(key: Key): nat
    requires key.KeyList?
  {
    if key.threshold.Some? && key.threshold.value != 0 then key.threshold.value else |key.keys|
  }

  predicate Satisfied(signers: set<PublicKey>, key: Key)
    decreases key, 1
  {
    match key
    case Leaf(pk) => pk in signers
    case KeyList(keys, _) => keys != [] && CountSatisfied(signers, keys) >= Required(key)
  }

  function CountSatisfied(signers: set<PublicKey>, keys: seq<Key>): nat
    decreases keys, 0
  {
    if keys == [] then 0
    else
      var last := |keys| - 1;
      CountSatisfied(signers, keys[..last]) + if Satisfied(signers, keys[last]) then 1 else 0
  }

  /** The public keys of a key from left to right, with repetitions. */
  function Leaves(key: Key): seq<PublicKey>
    decreases key, 1
  {
    match key
    case Leaf(pk) => [pk]
    case KeyList(keys, _) => LeavesOf(keys)
  }

  function LeavesOf(keys: seq<Key>): seq<PublicKey>
    decreases keys, 0
  {
    if keys == [] then []
    else LeavesOf(keys[..|keys| - 1]) + Leaves(keys[|keys| - 1])
  }

  /** Counts the satisfied members one by one. */
  method HasValidSignatureKey(publicKeys: seq<PublicKey>, key: Key) returns (valid: bool)
    ensures valid <==> Satisfied(SetOf(publicKeys), key)
    decreases key
  {
    match key
    case Leaf(pk) =>
      valid := pk in publicKeys;
    case KeyList(keys, _) =>
      if |keys| == 0 {
        return false;
      }
      var currentThreshold := 0;
      for i := 0 to |keys|
        invariant currentThreshold == CountSatisfied(SetOf(publicKeys), keys[..i])
      {
        var memberIsValid := HasValidSignatureKey(publicKeys, keys[i]);
        if memberIsValid {
          currentThreshold := currentThreshold + 1;
        }
        assert keys[..i + 1][..i] == keys[..i];
      }
      assert keys[..|keys|] == keys;
      valid := currentThreshold >= Required(key);
  }

  /** Collects the public keys by recursion into nested lists. */
  method FlattenKeyList(keyList: Key) returns (keys: seq<PublicKey>)
    ensures keys == Leaves(keyList)
    decreases keyList
  {
    match keyList
    case Leaf(pk) =>
      keys := [pk];
    case KeyList(members, _) =>
      keys := [];
      for i := 0 to |members|
        invariant keys == LeavesOf(members[..i])
      {
        var member := members[i];
        if member.Leaf? {
          keys := keys + [member.pk];
        } else {
          var nested := FlattenKeyList(member);
          keys := keys + nested;
        }
        assert members[..i + 1][..i] == members[..i];
      }
      assert members[..|members|] == members;
  }

  /** Only signers among the leaves of the key matter. */
  lemma {:induction false} SatisfactionDependsOnLeaves(s: set<PublicKey>, t: set<PublicKey>, key: Key)
    requires forall pk :: pk in Leaves(key) ==> (pk in s <==> pk in t)
    ensures Satisfied(s, key) == Satisfied(t, key)
    decreases key, 1
  {
    if key.KeyList? {
      CountDependsOnLeaves(s, t, key.keys);
    }
  }

  lemma {:induction false} CountDependsOnLeaves(s: set<PublicKey>, t: set<PublicKey>, keys: seq<Key>)
    requires forall pk :: pk in LeavesOf(keys) ==> (pk in s <==> pk in t)
    ensures CountSatisfied(s, keys) == CountSatisfied(t, keys)
    decreases keys, 0
  {
    if keys != [] {
      CountDependsOnLeaves(s, t, keys[..|keys| - 1]);
      SatisfactionDependsOnLeaves(s, t, keys[|keys| - 1]);
    }
  }

  /** More signers never make a satisfied key unsatisfied. */
  lemma {:induction false} SatisfactionIsMonotone(s: set<PublicKey>, t: set<PublicKey>, key: Key)
    requires s <= t
    ensures Satisfied(s, key) ==> Satisfied(t, key)
    decreases key, 1
  {
    if key.KeyList? {
      CountIsMonotone(s, t, key.keys);
    }
  }

  lemma {:induction false} CountIsMonotone(s: set<PublicKey>, t: set<PublicKey>, keys: seq<Key>)
    requires s <= t
    ensures CountSatisfied(s, keys) <= CountSatisfied(t, keys)
    decreases keys, 0
  {
    if keys != [] {
      CountIsMonotone(s, t, keys[..|keys| - 1]);
      SatisfactionIsMonotone(s, t, keys[|keys| - 1]);
    }
  }
}

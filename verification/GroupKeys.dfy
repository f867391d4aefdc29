/**
 The account key that the organization tests assemble in the complex key editor:
 users in groups of a given size, one signature per group, and half of the
 groups (rounded up) at the root. The editor changes one key in place; a change
 addresses the root by the path "0" and group g by the path "0-g".
 */
module GroupKeys {
  import opened Wrappers
  import opened Keys
  import opened Sorting
  import opened ComplexKeys

  function CeilDiv(n: nat, g: nat): nat
    requires g > 0
  {
    (n + g - 1) / g
  }

  /** The number of users in the first k groups. */
  function Before(k: nat, n: nat, g: nat): (r: nat)
    ensures r <= n
  {
    if k == 0 then 0
    else if n - Before(k - 1, n, g) < g then n
    else Before(k - 1, n, g) + g
  }

  /** The first k groups, each of which needs one signature. */
  function Groups(k: nat, n: nat, g: nat): (cs: seq<ChildKeyConfig>)
    ensures |cs| == k
  {
    if k == 0 then [] else Groups(k - 1, n, g) + [ChildKeyConfig(1, Before(k, n, g) - Before(k - 1, n, g))]
  }

  lemma TotalOfOneMore(cs: seq<ChildKeyConfig>, c: ChildKeyConfig)
    ensures TotalKeys(cs + [c]) == TotalKeys(cs) + c.numKeys
  {
    assert (cs + [c])[..|cs|] == cs;
  }

  lemma {:induction false} GroupsTotal(k: nat, n: nat, g: nat)
    ensures TotalKeys(Groups(k, n, g)) == Before(k, n, g)
  {
    if k == 0 {
      assert Groups(k, n, g) == [];
    } else {
      var before := Before(k - 1, n, g);
      GroupsTotal(k - 1, n, g);
      TotalOfOneMore(Groups(k - 1, n, g), ChildKeyConfig(1, Before(k, n, g) - before));
    }
  }

  /** Before the users run out, every group is full. */
  lemma {:induction false} FullGroups(k: nat, n: nat, g: nat)
    ensures Before(k, n, g) == if k * g <= n then k * g else n
  {
    if k > 0 {
      FullGroups(k - 1, n, g);
      assert k * g == (k - 1) * g + g;
    }
  }

  lemma {:induction false} NonEmptyGroups(k: nat, n: nat, g: nat)
    requires g > 0 && (k > 0 ==> Before(k - 1, n, g) < n)
    ensures NeedOne(Groups(k, n, g))
    ensures forall i :: 0 <= i < k ==> Groups(k, n, g)[i].numKeys <= g
  {
    if k > 0 {
      NonEmptyGroups(k - 1, n, g);
    }
  }

  lemma MultiplyMonotone(a: nat, b: nat, g: nat)
    requires a <= b
    ensures a * g <= b * g
  {
  }

  lemma CeilDivBounds(n: nat, g: nat)
    requires g > 0
    ensures n <= CeilDiv(n, g) * g <= n + g - 1
  {
    assert n + g - 1 == CeilDiv(n, g) * g + (n + g - 1) % g;
  }

  /** The group count is the least that covers all users. */
  lemma GroupCount(n: nat, g: nat)
    requires g > 0
    ensures Before(CeilDiv(n, g), n, g) == n
    ensures forall k: nat :: k < CeilDiv(n, g) ==> Before(k, n, g) == k * g < n
  {
    CeilDivBounds(n, g);
    FullGroups(CeilDiv(n, g), n, g);
    forall k: nat | k < CeilDiv(n, g)
      ensures Before(k, n, g) == k * g < n
    {
      MultiplyMonotone(k + 1, CeilDiv(n, g), g);
      assert (k + 1) * g == k * g + g;
      FullGroups(k, n, g);
    }
  }

  class ComplexKeyEditor {
    var root: Key

    constructor ()
      ensures root == KeyList([], None)
    {
      root := KeyList([], None);
    }

    method AddThresholdKeyAtRoot()
      requires root.KeyList?
      modifies this
      ensures root == KeyList(old(root).keys + [KeyList([], None)], old(root).threshold)
    {
      root := KeyList(root.keys + [KeyList([], None)], root.threshold);
    }

    /** A public key that the list already contains is refused. */
    method AddPublicKeyAt(g: nat, pk: PublicKey)
      requires root.KeyList? && g < |root.keys| && root.keys[g].KeyList?
      modifies this
      ensures var group := old(root).keys[g];
              root == KeyList(
                old(root).keys[g := if Leaf(pk) in group.keys then group
                                    else KeyList(group.keys + [Leaf(pk)], group.threshold)],
                old(root).threshold)
    {
      var group := root.keys[g];
      if Leaf(pk) !in group.keys {
        root := KeyList(root.keys[g := KeyList(group.keys + [Leaf(pk)], group.threshold)], root.threshold);
      } else {
        assert root.keys[g := group] == root.keys;
      }
    }

    method SelectThresholdAt(g: nat, threshold: nat)
      requires root.KeyList? && g < |root.keys| && root.keys[g].KeyList?
      modifies this
      ensures var group := KeyList(old(root).keys[g].keys, Some(threshold));
              root == KeyList(old(root).keys[g := group], old(root).threshold)
    {
      root := KeyList(root.keys[g := KeyList(root.keys[g].keys, Some(threshold))], root.threshold);
    }

    method SelectThresholdAtRoot(threshold: nat)
      requires root.KeyList?
      modifies this
      ensures root == KeyList(old(root).keys, Some(threshold))
    {
      root := KeyList(root.keys, Some(threshold));
    }
  }

  /** The public keys of users 1 to n; user 0 creates the transaction. */
  function Members(users: seq<PublicKey>, n: nat): seq<PublicKey>
    requires n < |users|
  {
    users[1..n + 1]
  }

  function GroupKey(users: seq<PublicKey>, n: nat, g: nat): Key
    requires n < |users| && g > 0
  {
    GroupsTotal(CeilDiv(n, g), n, g);
    ThresholdKey(CeilDiv(CeilDiv(n, g), 2), Groups(CeilDiv(n, g), n, g), Members(users, n))
  }

  lemma NotYetInGroup(mine: seq<PublicKey>, j: nat)
    requires Distinct(mine) && j < |mine|
    ensures Leaf(mine[j]) !in LeafKeys(mine[..j])
    ensures LeafKeys(mine[..j]) + [Leaf(mine[j])] == LeafKeys(mine[..j + 1])
  {
  }

  /** The users of group k. */
  ghost function GroupMembers(users: seq<PublicKey>, k: nat, n: nat, g: nat): seq<PublicKey>
    requires n < |users|
  {
    assert Before(k, n, g) <= Before(k + 1, n, g);
    Members(users, n)[Before(k, n, g)..Before(k + 1, n, g)]
  }

  /** The lists of the first k groups. */
  ghost function GroupLists(users: seq<PublicKey>, k: nat, n: nat, g: nat): (r: seq<Key>)
    requires n < |users|
  {
    GroupsTotal(k, n, g);
    Children(Groups(k, n, g), Members(users, n))
  }

  lemma GroupStep(users: seq<PublicKey>, k: nat, n: nat, g: nat)
    requires n < |users|
    ensures |GroupLists(users, k, n, g)| == k
    ensures GroupLists(users, k + 1, n, g) ==
            GroupLists(users, k, n, g) + [KeyList(LeafKeys(GroupMembers(users, k, n, g)), Some(1))]
  {
    GroupsTotal(k, n, g);
    GroupsTotal(k + 1, n, g);
    ChildrenCount(Groups(k, n, g), Members(users, n));
    assert Groups(k + 1, n, g)[..k] == Groups(k, n, g);
  }

  lemma ReplaceTwice<T>(xs: seq<T>, i: nat, x: T, y: T)
    requires i < |xs|
    ensures xs[i := x][i := y] == xs[i := y]
  {
  }

  lemma ReplaceLast<T>(xs: seq<T>, x: T, y: T)
    ensures (xs + [x])[|xs| := y] == xs + [y]
  {
  }

  /** The members of group k are users k * g + 1 and so on, as many as there are. */
  lemma MemberAt(users: seq<PublicKey>, k: nat, j: nat, n: nat, g: nat)
    requires g > 0 && k < CeilDiv(n, g) && j <= g && n < |users|
    ensures var mine := GroupMembers(users, k, n, g);
            && |mine| <= g && (j < |mine| <==> j < g && k * g + j < n)
            && (j < |mine| ==> mine[j] == users[k * g + j + 1])
  {
    GroupCount(n, g);
    var from, to := Before(k, n, g), Before(k + 1, n, g);
    assert from == k * g < n;
    assert to == if n - from < g then n else from + g;
    var mine := GroupMembers(users, k, n, g);
    assert |mine| == to - from;
    if j < |mine| {
      assert mine[j] == Members(users, n)[from + j] == users[1..n + 1][from + j];
    }
  }

  /** The inner loop: the users of one group enter the empty list at the end of the root. */
  method AddGroupMembers(editor: ComplexKeyEditor, users: seq<PublicKey>,
                         groupIdx: nat, numberOfUsers: nat, groupSize: nat)
    requires groupSize > 0 && groupIdx < CeilDiv(numberOfUsers, groupSize) && numberOfUsers < |users|
    requires Distinct(Members(users, numberOfUsers))
    requires editor.root.KeyList? && |editor.root.keys| == groupIdx + 1
    requires editor.root.keys[groupIdx] == KeyList([], None)
    modifies editor
    ensures editor.root == KeyList(
              old(editor.root).keys[groupIdx :=
                KeyList(LeafKeys(GroupMembers(users, groupIdx, numberOfUsers, groupSize)), None)],
              old(editor.root).threshold)
  {
    ghost var mine := GroupMembers(users, groupIdx, numberOfUsers, groupSize);
    var j := 0;
    assert LeafKeys(mine[..0]) == [];
    while j < groupSize
      invariant 0 <= j <= |mine|
      invariant editor.root == KeyList(old(editor.root).keys[groupIdx := KeyList(LeafKeys(mine[..j]), None)],
                                       old(editor.root).threshold)
    {
      MemberAt(users, groupIdx, j, numberOfUsers, groupSize);
      var userIdx := groupIdx * groupSize + j;
      if userIdx >= numberOfUsers {
        break;
      }
      NotYetInGroup(mine, j);
      ReplaceTwice(old(editor.root).keys, groupIdx,
                   KeyList(LeafKeys(mine[..j]), None), KeyList(LeafKeys(mine[..j + 1]), None));
      editor.AddPublicKeyAt(groupIdx, users[userIdx + 1]);
      j := j + 1;
    }
    MemberAt(users, groupIdx, j, numberOfUsers, groupSize);
    assert mine[..j] == mine;
  }

  /** The outer loop of path edits builds the key of the grouped users. */
  method CreateComplexKeyForUsers(users: seq<PublicKey>, numberOfUsers: nat, groupSize: nat)
    returns (editor: ComplexKeyEditor)
    requires groupSize > 0 && 0 < numberOfUsers < |users|
    requires Distinct(Members(users, numberOfUsers))
    ensures fresh(editor)
    ensures editor.root == GroupKey(users, numberOfUsers, groupSize)
  {
    editor := new ComplexKeyEditor();
    var groupCount := CeilDiv(numberOfUsers, groupSize);
    assert GroupLists(users, 0, numberOfUsers, groupSize) == [];
    for groupIdx := 0 to groupCount
      invariant fresh(editor)
      invariant editor.root == KeyList(GroupLists(users, groupIdx, numberOfUsers, groupSize), None)
    {
      GroupStep(users, groupIdx, numberOfUsers, groupSize);
      ghost var done := editor.root.keys;
      editor.AddThresholdKeyAtRoot();
      AddGroupMembers(editor, users, groupIdx, numberOfUsers, groupSize);
      ghost var group := editor.root.keys[groupIdx];
      ReplaceLast(done, KeyList([], None), group);
      ReplaceLast(done, group, KeyList(group.keys, Some(1)));
      editor.SelectThresholdAt(groupIdx, 1);
    }
    editor.SelectThresholdAtRoot(CeilDiv(groupCount, 2));
  }

  /**
   Every user is in exactly one group, in order; every group but the last is full and no
   group is empty; and the fewest signers are one from each of half the groups.
   */
  lemma GroupKeyIsBalanced(users: seq<PublicKey>, n: nat, g: nat)
    requires g > 0 && 0 < n < |users| && Distinct(users[1..n + 1])
    ensures var key := GroupKey(users, n, g);
            && Leaves(key) == users[1..n + 1]
            && |key.keys| == CeilDiv(n, g) && (forall i :: 0 <= i < |key.keys| ==> key.keys[i].KeyList?)
            && (forall i :: 0 <= i < CeilDiv(n, g) ==>
                  && key.keys[i].threshold == Some(1)
                  && 0 < |key.keys[i].keys| == if i < CeilDiv(n, g) - 1 then g else n - (CeilDiv(n, g) - 1) * g)
            && FewestSigners(key, CeilDiv(CeilDiv(n, g), 2))
  {
    GroupKeyShape(users, n, g);
    GroupKeySigners(users, n, g);
  }

  lemma GroupKeyShape(users: seq<PublicKey>, n: nat, g: nat)
    requires g > 0 && 0 < n < |users|
    ensures var key, count := GroupKey(users, n, g), CeilDiv(n, g);
            && Leaves(key) == Members(users, n)
            && |key.keys| == count
            && forall i :: 0 <= i < count ==>
                 && key.keys[i].KeyList? && key.keys[i].threshold == Some(1)
                 && |key.keys[i].keys| == if i < count - 1 then g else n - (count - 1) * g
  {
    var count := CeilDiv(n, g);
    var cs, pks := Groups(count, n, g), Members(users, n);
    GroupCount(n, g);
    GroupsTotal(count, n, g);
    LeavesOfThresholdKey(cs, pks);
    ChildSizes(cs, pks);
    FullSizes(n, g);
    assert pks[..n] == pks;
  }

  lemma GroupKeySigners(users: seq<PublicKey>, n: nat, g: nat)
    requires g > 0 && 0 < n < |users| && Distinct(Members(users, n))
    ensures FewestSigners(GroupKey(users, n, g), CeilDiv(CeilDiv(n, g), 2))
    ensures n - (CeilDiv(n, g) - 1) * g > 0
  {
    var count := CeilDiv(n, g);
    var cs, pks := Groups(count, n, g), Members(users, n);
    GroupCount(n, g);
    GroupsTotal(count, n, g);
    NonEmptyGroups(count, n, g);
    assert pks[..n] == pks;
    HalfIsPositive(count);
    FewestSignersOfOnes(CeilDiv(count, 2), cs, pks);
  }

  lemma HalfIsPositive(count: nat)
    ensures CeilDiv(count, 2) <= count && (count > 0 ==> CeilDiv(count, 2) > 0)
  {
  }

  lemma GroupAt(k: nat, n: nat, g: nat, i: nat)
    requires i < k
    ensures Groups(k, n, g)[i] == ChildKeyConfig(1, Before(i + 1, n, g) - Before(i, n, g))
  {
    if i < k - 1 {
      GroupAt(k - 1, n, g, i);
    }
  }

  lemma FullSizes(n: nat, g: nat)
    requires g > 0
    ensures var count := CeilDiv(n, g);
            forall i :: 0 <= i < count ==>
              var c := Groups(count, n, g)[i];
              c.threshold == 1 && c.numKeys == if i < count - 1 then g else n - (count - 1) * g
  {
    var count := CeilDiv(n, g);
    GroupCount(n, g);
    forall i | 0 <= i < count
      ensures Groups(count, n, g)[i].threshold == 1
      ensures Groups(count, n, g)[i].numKeys == if i < count - 1 then g else n - (count - 1) * g
    {
      GroupAt(count, n, g, i);
      if i < count - 1 {
        assert Before(i + 1, n, g) == (i + 1) * g == i * g + g;
      }
    }
  }

  lemma {:induction false} ChildSizes(cs: seq<ChildKeyConfig>, pks: seq<PublicKey>)
    requires TotalKeys(cs) <= |pks|
    ensures |Children(cs, pks)| == |cs|
    ensures forall i :: 0 <= i < |cs| ==>
              var child := Children(cs, pks)[i];
              child.KeyList? && child.threshold == Some(cs[i].threshold) && |child.keys| == cs[i].numKeys
  {
    if cs != [] {
      ChildSizes(cs[..|cs| - 1], pks);
    }
  }
}

/**
 Collecting the signatures of several keys on one transaction, in the back-end
 format (node, transaction id, public key) and in the V1 format (node, public key).
 */
module Signatures {
  import opened Wrappers

  type PkMap = map<string, string>
  type TxMap = map<string, PkMap>
  type SignatureMap = map<string, TxMap>
  type V1Map = map<string, PkMap>

  // ----- Merging -----

  /** Merges key by key; f merges what both maps have under a key. */
  function MergeMaps<V>(f: (V, V) -> V, a: map<string, V>, b: map<string, V>): map<string, V> {
    map n | n in a.Keys + b.Keys ::
      if n in a && n in b then f(a[n], b[n]) else if n in b then b[n] else a[n]
  }

  /** Object.assign: the second map wins. */
  function Assign(a: PkMap, b: PkMap): PkMap {
    a + b
  }

  function MergeTx(a: TxMap, b: TxMap): TxMap {
    MergeMaps(Assign, a, b)
  }

  function Merge(a: SignatureMap, b: SignatureMap): SignatureMap {
    MergeMaps(MergeTx, a, b)
  }

  class SignatureMapObject {
    var m: SignatureMap

    constructor ()
      ensures m == map[]
    {
      m := map[];
    }
  }

  /** One key more of b is merged; before that, the merged map has under it what a has. */
  lemma MergeOneMore<V>(f: (V, V) -> V, a: map<string, V>, b: map<string, V>, rest: set<string>, n: string)
    requires n in rest && n in b
    ensures var done := MergeMaps(f, a, b - rest);
            && MergeMaps(f, a, b - (rest - {n})) == done[n := if n in a then f(a[n], b[n]) else b[n]]
            && (n in done <==> n in a) && (n in a ==> done[n] == a[n])
  {
  }

  lemma MergeEnds<V>(f: (V, V) -> V, a: map<string, V>, b: map<string, V>)
    ensures MergeMaps(f, a, b - b.Keys) == a
    ensures b - {} == b
  {
  }

  lemma MergeIntoEmpty<V>(f: (V, V) -> V, b: map<string, V>)
    ensures MergeMaps(f, map[], b) == b
  {
  }

  /** The loop over the nodes of the source, in any order. */
  method MergeSignatureMaps(target: SignatureMapObject, source: SignatureMap)
    modifies target
    ensures target.m == Merge(old(target.m), source)
  {
    ghost var before := target.m;
    var nodes := source.Keys;
    MergeEnds(MergeTx, before, source);
    while nodes != {}
      invariant nodes <= source.Keys
      invariant target.m == Merge(before, source - nodes)
    {
      var nodeId :| nodeId in nodes;
      MergeOneMore(MergeTx, before, source, nodes, nodeId);
      MergeIntoEmpty(Assign, source[nodeId]);
      if nodeId !in target.m {
        target.m := target.m[nodeId := map[]];
      }
      MergeNode(target, nodeId, source[nodeId]);
      nodes := nodes - {nodeId};
    }
  }

  /** The loop over the transactions of one node. */
  method MergeNode(target: SignatureMapObject, nodeId: string, txMap: TxMap)
    requires nodeId in target.m
    modifies target
    ensures target.m == old(target.m)[nodeId := MergeTx(old(target.m)[nodeId], txMap)]
  {
    var entry := target.m[nodeId];
    ghost var before := entry;
    var txs := txMap.Keys;
    MergeEnds(Assign, before, txMap);
    while txs != {}
      invariant txs <= txMap.Keys
      invariant entry == MergeTx(before, txMap - txs) && target.m == old(target.m)
    {
      var txId :| txId in txs;
      MergeOneMore(Assign, before, txMap, txs, txId);
      if txId !in entry {
        entry := entry[txId := map[]];
      }
      entry := entry[txId := Assign(entry[txId], txMap[txId])];
      assert map[] + txMap[txId] == txMap[txId];
      txs := txs - {txId};
    }
    assert txMap - txs == txMap;
    target.m := target.m[nodeId := entry];
  }

  /** The signature stored at a position. */
  function At(m: SignatureMap, node: string, tx: string, pk: string): Option<string> {
    if node in m && tx in m[node] && pk in m[node][tx] then Some(m[node][tx][pk]) else None
  }

  /** Merging is the pointwise union, in which the second map wins. */
  lemma MergeIsUnion(a: SignatureMap, b: SignatureMap, node: string, tx: string, pk: string)
    ensures At(Merge(a, b), node, tx, pk) ==
            if At(b, node, tx, pk).Some? then At(b, node, tx, pk) else At(a, node, tx, pk)
  {
  }

  /** Nodes and transactions of either map are kept, even those without signatures. */
  lemma MergeKeepsNodes(a: SignatureMap, b: SignatureMap, node: string)
    ensures node in Merge(a, b) <==> node in a || node in b
    ensures node in Merge(a, b) ==>
              forall tx :: tx in Merge(a, b)[node] <==> (node in a && tx in a[node]) || (node in b && tx in b[node])
  {
  }

  lemma MergeMapsAssociative<V(!new)>(f: (V, V) -> V, a: map<string, V>, b: map<string, V>, c: map<string, V>)
    requires forall x, y, z :: f(f(x, y), z) == f(x, f(y, z))
    ensures MergeMaps(f, MergeMaps(f, a, b), c) == MergeMaps(f, a, MergeMaps(f, b, c))
  {
  }

  /** Merging in two different groupings gives the same map. */
  lemma MergeIsAssociative(a: SignatureMap, b: SignatureMap, c: SignatureMap)
    ensures Merge(Merge(a, b), c) == Merge(a, Merge(b, c))
  {
    forall x, y, z
      ensures MergeTx(MergeTx(x, y), z) == MergeTx(x, MergeTx(y, z))
    {
      forall p, q, r
        ensures Assign(Assign(p, q), r) == Assign(p, Assign(q, r))
      {
      }
      MergeMapsAssociative(Assign, x, y, z);
    }
    MergeMapsAssociative(MergeTx, a, b, c);
  }

  // ----- Signing with several keys -----

  /**
   The nodes of a transaction with their transaction ids in order, and the signature that
   the owner of a public key makes for one of them. Ed25519 signing is deterministic
   (section 5.1.6 of RFC 8032), so that the signature is a function. Signature maps list
   a node's transactions in the order in which they were signed, which is that of `bodies`.
   */
  datatype Transaction = Transaction(bodies: Order, sign: (string, string, string) -> string)

  type Order = map<string, seq<string>>

  /** The signatures of several keys for one transaction id, for one node, and for all nodes. */
  function PkSignatures(tx: Transaction, node: string, id: string, pks: set<string>): PkMap {
    map pk | pk in pks :: tx.sign(pk, node, id)
  }

  function NodeSignatures(tx: Transaction, node: string, pks: set<string>): TxMap
    requires node in tx.bodies
  {
    map id | id in tx.bodies[node] :: PkSignatures(tx, node, id, pks)
  }

  /** Every key's signature for every body, and nothing else. */
  function AllSignatures(tx: Transaction, pks: set<string>): SignatureMap {
    map n | n in tx.bodies :: NodeSignatures(tx, n, pks)
  }

  /** The signature at a position is the one that its key makes for its node and its transaction id. */
  lemma SignatureAt(tx: Transaction, pks: set<string>, node: string, id: string, pk: string)
    ensures At(AllSignatures(tx, pks), node, id, pk)
            == if pk in pks && node in tx.bodies && id in tx.bodies[node] then Some(tx.sign(pk, node, id)) else None
  {
  }

  /** pk.signTransaction(tx) in the back-end format. */
  function SignTransaction(tx: Transaction, pk: string): SignatureMap {
    AllSignatures(tx, {pk})
  }

  /** Merging the signatures of one key after the other. */
  function SignAll(tx: Transaction, pks: seq<string>): SignatureMap {
    if pks == [] then map[]
    else Merge(SignAll(tx, pks[..|pks| - 1]), SignTransaction(tx, pks[|pks| - 1]))
  }

  method SignTransactionWithMultipleKeys(tx: Transaction, privateKeys: seq<string>) returns (merged: SignatureMap)
    ensures merged == SignAll(tx, privateKeys)
  {
    var target := new SignatureMapObject();
    for i := 0 to |privateKeys|
      invariant target.m == SignAll(tx, privateKeys[..i])
    {
      MergeSignatureMaps(target, SignTransaction(tx, privateKeys[i]));
      assert privateKeys[..i + 1][..i] == privateKeys[..i];
    }
    assert privateKeys[..|privateKeys|] == privateKeys;
    merged := target.m;
  }

  lemma MergeOfId(tx: Transaction, n: string, id: string, p: set<string>, q: set<string>)
    ensures Assign(PkSignatures(tx, n, id, p), PkSignatures(tx, n, id, q)) == PkSignatures(tx, n, id, p + q)
  {
  }

  /** Merging two maps with the same keys, value by value. */
  lemma MergeSameKeys<V>(f: (V, V) -> V, a: map<string, V>, b: map<string, V>, c: map<string, V>)
    requires a.Keys == b.Keys == c.Keys && forall n :: n in a ==> f(a[n], b[n]) == c[n]
    ensures MergeMaps(f, a, b) == c
  {
  }

  lemma MergeOfNode(tx: Transaction, n: string, p: set<string>, q: set<string>)
    requires n in tx.bodies
    ensures MergeTx(NodeSignatures(tx, n, p), NodeSignatures(tx, n, q)) == NodeSignatures(tx, n, p + q)
  {
    forall id | id in tx.bodies[n]
      ensures Assign(NodeSignatures(tx, n, p)[id], NodeSignatures(tx, n, q)[id]) == NodeSignatures(tx, n, p + q)[id]
    {
      MergeOfId(tx, n, id, p, q);
    }
    MergeSameKeys(Assign, NodeSignatures(tx, n, p), NodeSignatures(tx, n, q), NodeSignatures(tx, n, p + q));
  }

  lemma MergeOfAll(tx: Transaction, p: set<string>, q: set<string>)
    ensures Merge(AllSignatures(tx, p), AllSignatures(tx, q)) == AllSignatures(tx, p + q)
  {
    forall n | n in tx.bodies
      ensures MergeTx(AllSignatures(tx, p)[n], AllSignatures(tx, q)[n]) == AllSignatures(tx, p + q)[n]
    {
      MergeOfNode(tx, n, p, q);
    }
    MergeSameKeys(MergeTx, AllSignatures(tx, p), AllSignatures(tx, q), AllSignatures(tx, p + q));
  }

  lemma {:induction false} SignAllIsUnion(tx: Transaction, pks: seq<string>)
    ensures SignAll(tx, pks) == if pks == [] then map[] else AllSignatures(tx, SetOf(pks))
  {
    if pks != [] {
      var front, last := pks[..|pks| - 1], pks[|pks| - 1];
      SignAllIsUnion(tx, front);
      assert SetOf(pks) == SetOf(front) + {last};
      MergeOfAll(tx, SetOf(front), {last});
      if front == [] {
        MergeIntoEmpty(MergeTx, SignTransaction(tx, last));
        assert SetOf(pks) == {last};
      }
    }
  }

  /** The order and repetition of the keys do not matter. */
  lemma KeyOrderDoesNotMatter(tx: Transaction, xs: seq<string>, ys: seq<string>)
    requires SetOf(xs) == SetOf(ys)
    ensures SignAll(tx, xs) == SignAll(tx, ys)
  {
    SignAllIsUnion(tx, xs);
    SignAllIsUnion(tx, ys);
    EmptySetOf(xs);
    EmptySetOf(ys);
  }

  lemma EmptySetOf(pks: seq<string>)
    ensures SetOf(pks) == {} <==> pks == []
  {
    if pks != [] {
      assert pks[0] in SetOf(pks);
    }
  }

  // ----- The V1 format -----

  /** Every transaction in the order is in the map. */
  predicate Lists(ids: seq<string>, txMap: TxMap) {
    forall i :: 0 <= i < |ids| ==> ids[i] in txMap
  }

  predicate ListsAll(order: Order, m: SignatureMap) {
    forall n :: n in m ==> n in order && Lists(order[n], m[n])
  }

  /** The signatures of a node's transactions, where a later transaction overwrites an earlier one. */
  function Projected(txMap: TxMap, ids: seq<string>): PkMap
    requires Lists(ids, txMap)
  {
    if ids == [] then map[] else Projected(txMap, ids[..|ids| - 1]) + txMap[ids[|ids| - 1]]
  }

  function ToV1(m: SignatureMap, order: Order): V1Map
    requires ListsAll(order, m)
  {
    map n | n in m :: Projected(m[n], order[n])
  }

  /** A public key keeps the signature of the last transaction that it signed. */
  lemma {:induction false} ProjectedIsLast(txMap: TxMap, ids: seq<string>, pk: string)
    requires Lists(ids, txMap)
    ensures pk in Projected(txMap, ids) <==> exists i :: 0 <= i < |ids| && pk in txMap[ids[i]]
    ensures forall i ::
              (0 <= i < |ids| && pk in txMap[ids[i]] && (forall j :: i < j < |ids| ==> pk !in txMap[ids[j]]))
              ==> Projected(txMap, ids)[pk] == txMap[ids[i]][pk]
  {
    if ids != [] {
      var front, last := ids[..|ids| - 1], ids[|ids| - 1];
      ProjectedIsLast(txMap, front, pk);
      assert forall i :: 0 <= i < |front| ==> front[i] == ids[i];
      assert pk in Projected(txMap, ids) <==> pk in Projected(txMap, front) || pk in txMap[last];
    }
  }

  /** The loop over the transactions of a node and their public keys. */
  method ProjectNode(txMap: TxMap, ids: seq<string>) returns (pks: PkMap)
    requires Lists(ids, txMap)
    ensures pks == Projected(txMap, ids)
  {
    pks := map[];
    for i := 0 to |ids|
      invariant pks == Projected(txMap, ids[..i])
    {
      assert ids[..i + 1][..i] == ids[..i];
      pks := AddSignatures(pks, txMap[ids[i]]);
    }
    assert ids[..|ids|] == ids;
  }

  /** The innermost loop, over the public keys of one transaction in any order. */
  method AddSignatures(pks: PkMap, pkMap: PkMap) returns (r: PkMap)
    ensures r == pks + pkMap
  {
    r := pks;
    var left := pkMap.Keys;
    while left != {}
      invariant left <= pkMap.Keys
      invariant r == pks + (pkMap - left)
    {
      var publicKey :| publicKey in left;
      r := r[publicKey := pkMap[publicKey]];
      left := left - {publicKey};
    }
    assert pkMap - {} == pkMap;
  }

  /** The loop over the nodes, in any order. */
  method SignatureMapToV1(m: SignatureMap, order: Order) returns (v: V1Map)
    requires ListsAll(order, m)
    ensures v == ToV1(m, order)
  {
    v := map[];
    var nodes := m.Keys;
    while nodes != {}
      invariant nodes <= m.Keys
      invariant v.Keys == m.Keys - nodes
      invariant forall n :: n in v ==> v[n] == Projected(m[n], order[n])
    {
      var node :| node in nodes;
      var pks := ProjectNode(m[node], order[node]);
      v := v[node := pks];
      nodes := nodes - {node};
    }
  }

  function MergeV1(a: V1Map, b: V1Map): V1Map {
    MergeMaps(Assign, a, b)
  }

  function V1At(v: V1Map, node: string, pk: string): Option<string> {
    if node in v && pk in v[node] then Some(v[node][pk]) else None
  }

  /** The merge of V1 maps is the pointwise union, in which the second map wins. */
  lemma MergeV1IsUnion(a: V1Map, b: V1Map, node: string, pk: string)
    ensures V1At(MergeV1(a, b), node, pk) == if V1At(b, node, pk).Some? then V1At(b, node, pk) else V1At(a, node, pk)
    ensures node in MergeV1(a, b) <==> node in a || node in b
  {
  }

  /** The projection has every node, with the signature of the last transaction that a key signed. */
  lemma ToV1At(m: SignatureMap, order: Order, node: string, pk: string)
    requires ListsAll(order, m)
    ensures node in ToV1(m, order) <==> node in m
    ensures node in m ==>
              (V1At(ToV1(m, order), node, pk).None?
               <==> forall i :: 0 <= i < |order[node]| ==> pk !in m[node][order[node][i]])
    ensures forall i ::
              (node in m && 0 <= i < |order[node]| && pk in m[node][order[node][i]]
               && forall j :: i < j < |order[node]| ==> pk !in m[node][order[node][j]])
              ==> V1At(ToV1(m, order), node, pk) == Some(m[node][order[node][i]][pk])
  {
    if node in m {
      ProjectedIsLast(m[node], order[node], pk);
    }
  }

  /** The loop over the nodes of one key's signatures, in any order. */
  method AddToMerged(mergedSignatures: V1Map, signatureSet: V1Map) returns (merged: V1Map)
    ensures merged == MergeV1(mergedSignatures, signatureSet)
  {
    merged := mergedSignatures;
    var nodes := signatureSet.Keys;
    MergeEnds(Assign, mergedSignatures, signatureSet);
    while nodes != {}
      invariant nodes <= signatureSet.Keys
      invariant merged == MergeV1(mergedSignatures, signatureSet - nodes)
    {
      var node :| node in nodes;
      MergeOneMore(Assign, mergedSignatures, signatureSet, nodes, node);
      var entry := if node in merged then merged[node] else map[];
      assert map[] + signatureSet[node] == signatureSet[node];
      merged := merged[node := entry + signatureSet[node]];
      nodes := nodes - {node};
    }
    assert signatureSet - nodes == signatureSet;
  }

  /** What is left of a node's signatures: those for its last transaction. */
  function LastSignatures(tx: Transaction, n: string, pks: set<string>): PkMap
    requires n in tx.bodies
  {
    var ids := tx.bodies[n];
    if ids == [] then map[] else PkSignatures(tx, n, ids[|ids| - 1], pks)
  }

  function AllV1Signatures(tx: Transaction, pks: set<string>): V1Map {
    map n | n in tx.bodies :: LastSignatures(tx, n, pks)
  }

  lemma {:induction false} ProjectionOfIds(tx: Transaction, n: string, txMap: TxMap, ids: seq<string>, pks: set<string>)
    requires forall i :: 0 <= i < |ids| ==> ids[i] in txMap && txMap[ids[i]] == PkSignatures(tx, n, ids[i], pks)
    ensures Projected(txMap, ids) == if ids == [] then map[] else PkSignatures(tx, n, ids[|ids| - 1], pks)
  {
    if ids != [] {
      ProjectionOfIds(tx, n, txMap, ids[..|ids| - 1], pks);
    }
  }

  lemma ProjectionOfAll(tx: Transaction, pks: set<string>)
    ensures ListsAll(tx.bodies, AllSignatures(tx, pks))
    ensures ToV1(AllSignatures(tx, pks), tx.bodies) == AllV1Signatures(tx, pks)
  {
    forall n | n in tx.bodies
      ensures Lists(tx.bodies[n], NodeSignatures(tx, n, pks))
      ensures Projected(NodeSignatures(tx, n, pks), tx.bodies[n]) == LastSignatures(tx, n, pks)
    {
      ProjectionOfIds(tx, n, NodeSignatures(tx, n, pks), tx.bodies[n], pks);
    }
  }

  lemma MergeOfAllV1(tx: Transaction, p: set<string>, q: set<string>)
    ensures MergeV1(AllV1Signatures(tx, p), AllV1Signatures(tx, q)) == AllV1Signatures(tx, p + q)
  {
    forall n | n in tx.bodies
      ensures Assign(LastSignatures(tx, n, p), LastSignatures(tx, n, q)) == LastSignatures(tx, n, p + q)
    {
      if tx.bodies[n] != [] {
        MergeOfId(tx, n, tx.bodies[n][|tx.bodies[n]| - 1], p, q);
      }
    }
    MergeSameKeys(Assign, AllV1Signatures(tx, p), AllV1Signatures(tx, q), AllV1Signatures(tx, p + q));
  }

  /** What the V1 loop has collected after some keys. */
  function V1After(tx: Transaction, pks: seq<string>): V1Map {
    if pks == [] then map[] else AllV1Signatures(tx, SetOf(pks))
  }

  lemma V1Step(tx: Transaction, pks: seq<string>, i: nat)
    requires i < |pks|
    ensures MergeV1(V1After(tx, pks[..i]), AllV1Signatures(tx, {pks[i]})) == V1After(tx, pks[..i + 1])
  {
    assert SetOf(pks[..i + 1]) == SetOf(pks[..i]) + {pks[i]};
    if i == 0 {
      assert SetOf(pks[..1]) == {pks[0]};
      MergeIntoEmpty(Assign, AllV1Signatures(tx, {pks[0]}));
    } else {
      MergeOfAllV1(tx, SetOf(pks[..i]), {pks[i]});
    }
  }

  lemma V1IsProjection(tx: Transaction, pks: seq<string>)
    ensures ListsAll(tx.bodies, SignAll(tx, pks))
    ensures ToV1(SignAll(tx, pks), tx.bodies) == V1After(tx, pks)
  {
    SignAllIsUnion(tx, pks);
    ProjectionOfAll(tx, SetOf(pks));
  }

  /**
   The loop of the V1 archive, which merges one projection per key, gives the
   projection of the map that merges all keys first, for any number of transactions
   per node.
   */
  method MergedV1Signatures(tx: Transaction, privateKeys: seq<string>) returns (mergedSignatures: V1Map)
    ensures ListsAll(tx.bodies, SignAll(tx, privateKeys))
    ensures mergedSignatures == ToV1(SignAll(tx, privateKeys), tx.bodies)
  {
    mergedSignatures := map[];
    for i := 0 to |privateKeys|
      invariant mergedSignatures == V1After(tx, privateKeys[..i])
    {
      ProjectionOfAll(tx, {privateKeys[i]});
      var signatureSet := SignatureMapToV1(SignTransaction(tx, privateKeys[i]), tx.bodies);
      V1Step(tx, privateKeys, i);
      mergedSignatures := AddToMerged(mergedSignatures, signatureSet);
    }
    assert privateKeys[..|privateKeys|] == privateKeys;
    V1IsProjection(tx, privateKeys);
  }
}

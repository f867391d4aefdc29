/**
 Uploading the signatures of several users for one transaction. The server handles
 an upload in two steps: it loads the stored transaction bytes and the signer rows,
 and later writes the bytes back with the new signatures and inserts the missing
 rows. The client therefore waits for each upload before it starts the next one.
 */
module SequentialSigning {
  /** `stored` are the keys that have signed the stored bytes, `rows` the keys of the signer rows. */
  datatype Server = Server(stored: set<string>, rows: multiset<string>)

  /**
   One request: the keys whose signatures are sent, the keys that belong to the user,
   and whether the other checks pass: the transaction exists, has a status in which it
   can be signed, has not expired, and every signature is valid.
   */
  datatype Upload = Upload(keys: set<string>, owned: set<string>, passesChecks: bool)

  function RowKeys(s: Server): set<string> {
    set k | k in s.rows
  }

  /** Every stored signature has its row and every row its stored signature. */
  predicate Matches(s: Server) {
    s.stored == RowKeys(s)
  }

  predicate Accepted(u: Upload) {
    u.passesChecks && u.keys <= u.owned
  }

  /** The rows that an upload inserts, judged by what it loaded. */
  function NewRows(loaded: Server, u: Upload): set<string> {
    if Accepted(u) then u.keys - RowKeys(loaded) else {}
  }

  /** The second step: bytes are only written when a signature is new to the loaded bytes. */
  function Persist(now: Server, loaded: Server, u: Upload): Server {
    if !Accepted(u) then now
    else Server(if u.keys <= loaded.stored then now.stored else loaded.stored + u.keys,
                now.rows + multiset(NewRows(loaded, u)))
  }

  // ----- The client -----

  /** The uploads one after the other. */
  function UploadAll(s: Server, us: seq<Upload>): Server {
    if us == [] then s
    else
      var before := UploadAll(s, us[..|us| - 1]);
      Persist(before, before, us[|us| - 1])
  }

  class Backend {
    var state: Server

    method UploadOrganizationSignatures(u: Upload) returns (signers: nat)
      modifies this
      ensures state == Persist(old(state), old(state), u)
      ensures signers == |NewRows(old(state), u)|
    {
      var loaded := state;
      state := Persist(state, loaded, u);
      signers := |NewRows(loaded, u)|;
    }
  }

  datatype Outcome =
    | TooFewUsers
    | EmptyTransactionId
    | NothingAccepted
    | Signed(signedUsers: nat, totalAcceptedSigners: int)

  /** The first user is the creator, who does not sign. */
  method SignTransactionByAllUsersViaApi(backend: Backend, users: seq<Upload>, hederaTxId: string)
    returns (outcome: Outcome)
    modifies backend
    ensures |users| < 2 ==> outcome == TooFewUsers && backend.state == old(backend.state)
    ensures |users| >= 2 && hederaTxId == "" ==> outcome == EmptyTransactionId && backend.state == old(backend.state)
    ensures |users| >= 2 && hederaTxId != "" ==>
              var accepted := |backend.state.rows| - |old(backend.state).rows|;
              && backend.state == UploadAll(old(backend.state), users[1..])
              && outcome == if accepted == 0 then NothingAccepted else Signed(|users| - 1, accepted)
  {
    if |users| < 2 {
      return TooFewUsers;
    }
    if hederaTxId == "" {
      return EmptyTransactionId;
    }
    var signers := users[1..];
    var totalAcceptedSigners := 0;
    for i := 0 to |signers|
      invariant backend.state == UploadAll(old(backend.state), signers[..i])
      invariant totalAcceptedSigners == |backend.state.rows| - |old(backend.state).rows|
    {
      assert signers[..i + 1][..i] == signers[..i];
      var accepted := backend.UploadOrganizationSignatures(signers[i]);
      totalAcceptedSigners := totalAcceptedSigners + accepted;
    }
    assert signers[..|signers|] == signers;
    return if totalAcceptedSigners == 0 then NothingAccepted else Signed(|signers|, totalAcceptedSigners);
  }

  /** The keys of the accepted uploads. */
  function AcceptedKeys(us: seq<Upload>): set<string> {
    if us == [] then {}
    else AcceptedKeys(us[..|us| - 1]) + if Accepted(us[|us| - 1]) then us[|us| - 1].keys else {}
  }

  /** An upload that writes back what is still current. */
  lemma FreshUpload(s: Server, u: Upload)
    ensures var keys := if Accepted(u) then u.keys else {};
            && Persist(s, s, u).stored == s.stored + keys
            && RowKeys(Persist(s, s, u)) == RowKeys(s) + keys
  {
    var after := Persist(s, s, u);
    assert forall k :: k in after.rows <==> k in s.rows || k in NewRows(s, u);
    if Accepted(u) && u.keys <= s.stored {
      assert s.stored + u.keys == s.stored;
    }
  }

  /** Nothing is lost: bytes and rows both gain exactly the keys of the accepted uploads. */
  lemma {:induction false} UploadAllKeepsEverySignature(s: Server, us: seq<Upload>)
    ensures UploadAll(s, us).stored == s.stored + AcceptedKeys(us)
    ensures RowKeys(UploadAll(s, us)) == RowKeys(s) + AcceptedKeys(us)
    ensures Matches(s) ==> Matches(UploadAll(s, us))
  {
    if us != [] {
      UploadAllKeepsEverySignature(s, us[..|us| - 1]);
      FreshUpload(UploadAll(s, us[..|us| - 1]), us[|us| - 1]);
    }
  }

  /**
   What an upload does, key by key: when the checks pass and the user owns every key
   sent, each key without a loaded row gets one row, and the bytes become the loaded
   ones with the keys unless they have them all; otherwise nothing happens.
   */
  lemma UploadKeyByKey(now: Server, loaded: Server, u: Upload, key: string)
    ensures var after := Persist(now, loaded, u);
            if u.passesChecks && (forall k :: k in u.keys ==> k in u.owned) then
              && after.rows[key] == now.rows[key] + (if key in u.keys && key !in loaded.rows then 1 else 0)
              && (key in NewRows(loaded, u) <==> key in u.keys && key !in loaded.rows)
              && if forall k :: k in u.keys ==> k in loaded.stored then after.stored == now.stored
                 else key in after.stored <==> key in loaded.stored || key in u.keys
            else
              after == now && NewRows(loaded, u) == {}
  {
  }

  /** With nothing in between, bytes and rows each gain exactly the keys sent. */
  lemma UploadAlone(s: Server, u: Upload)
    ensures var after, fine := Persist(s, s, u), u.passesChecks && (forall k :: k in u.keys ==> k in u.owned);
            && after.stored == s.stored + (if fine then u.keys else {})
            && RowKeys(after) == RowKeys(s) + (if fine then u.keys else {})
  {
    FreshUpload(s, u);
  }

  // ----- All interleavings -----

  datatype Phase = Waiting | Loaded(snapshot: Server) | Done

  datatype State = State(server: Server, phases: seq<Phase>)

  ghost predicate Initial(us: seq<Upload>, s: State) {
    |s.phases| == |us| && forall i :: 0 <= i < |us| ==> s.phases[i] == Waiting
  }

  /** Upload i loads, or writes back what it loaded. */
  predicate Step(us: seq<Upload>, s: State, s': State, i: nat)
    requires |us| == |s.phases|
  {
    && i < |us|
    && match s.phases[i]
       case Waiting => s' == State(s.server, s.phases[i := Loaded(s.server)])
       case Loaded(snapshot) => s' == State(Persist(s.server, snapshot, us[i]), s.phases[i := Done])
       case Done => false
  }

  /** Any upload may take the next step. */
  ghost predicate ConcurrentNext(us: seq<Upload>, s: State, s': State)
    requires |us| == |s.phases|
  {
    exists i: nat :: Step(us, s, s', i)
  }

  /** An upload starts only when all earlier ones are done. */
  ghost predicate SequentialNext(us: seq<Upload>, s: State, s': State)
    requires |us| == |s.phases|
  {
    exists i: nat :: Step(us, s, s', i) && forall j :: 0 <= j < i ==> s.phases[j] == Done
  }

  ghost predicate HasPhases(us: seq<Upload>, run: seq<State>) {
    forall t :: 0 <= t < |run| ==> |run[t].phases| == |us|
  }

  /** Step t + 1 of a run. */
  ghost predicate SequentialStepAfter(us: seq<Upload>, run: seq<State>, t: nat)
    requires HasPhases(us, run) && t + 1 < |run|
  {
    SequentialNext(us, run[t], run[t + 1])
  }

  ghost predicate ConcurrentStepAfter(us: seq<Upload>, run: seq<State>, t: nat)
    requires HasPhases(us, run) && t + 1 < |run|
  {
    ConcurrentNext(us, run[t], run[t + 1])
  }

  ghost predicate SequentialRun(us: seq<Upload>, run: seq<State>) {
    && run != [] && Initial(us, run[0]) && HasPhases(us, run)
    && forall t :: 0 <= t < |run| - 1 ==> SequentialStepAfter(us, run, t)
  }

  ghost predicate ConcurrentRun(us: seq<Upload>, run: seq<State>) {
    && run != [] && Initial(us, run[0]) && HasPhases(us, run)
    && forall t :: 0 <= t < |run| - 1 ==> ConcurrentStepAfter(us, run, t)
  }

  /** The first d uploads are done, the later ones wait, and upload d may have loaded the current state. */
  ghost predicate InOrder(us: seq<Upload>, start: Server, s: State, d: nat)
    requires |us| == |s.phases|
  {
    && d <= |us|
    && s.server == UploadAll(start, us[..d])
    && (forall i :: 0 <= i < d ==> s.phases[i] == Done)
    && (forall i :: d < i < |us| ==> s.phases[i] == Waiting)
    && (d < |us| ==> s.phases[d] == Waiting || s.phases[d] == Loaded(s.server))
  }

  lemma StepKeepsOrder(us: seq<Upload>, start: Server, s: State, s': State, d: nat) returns (d': nat)
    requires |us| == |s.phases| == |s'.phases| && InOrder(us, start, s, d) && SequentialNext(us, s, s')
    ensures InOrder(us, start, s', d')
  {
    var i: nat :| Step(us, s, s', i) && forall j :: 0 <= j < i ==> s.phases[j] == Done;
    assert i == d;
    d' := d;
    if s.phases[i].Loaded? {
      d' := d + 1;
      assert us[..d + 1][..d] == us[..d];
    }
  }

  lemma {:induction false} RunIsInOrder(us: seq<Upload>, run: seq<State>, t: nat) returns (d: nat)
    requires SequentialRun(us, run) && t < |run|
    ensures InOrder(us, run[0].server, run[t], d)
  {
    if t == 0 {
      d := 0;
      assert us[..0] == [];
    } else {
      var before := RunIsInOrder(us, run, t - 1);
      assert SequentialStepAfter(us, run, t - 1);
      d := StepKeepsOrder(us, run[0].server, run[t - 1], run[t], before);
    }
  }

  /**
   In every state of every run of the sequential client, at most one upload is in
   flight, and whenever none is, bytes and rows hold what they held at the start
   and the keys of the accepted uploads that are done.
   */
  lemma SequentialRunIsSafe(us: seq<Upload>, run: seq<State>, t: nat)
    requires SequentialRun(us, run) && t < |run|
    ensures var s := run[t];
            && (forall i, j :: 0 <= i < |us| && 0 <= j < |us| && s.phases[i].Loaded? && s.phases[j].Loaded? ==> i == j)
            && ((forall i :: 0 <= i < |us| ==> !s.phases[i].Loaded?) ==>
                  exists d :: 0 <= d <= |us|
                    && (forall i :: 0 <= i < |us| ==> (s.phases[i] == Done <==> i < d))
                    && s.server.stored == run[0].server.stored + AcceptedKeys(us[..d])
                    && RowKeys(s.server) == RowKeys(run[0].server) + AcceptedKeys(us[..d])
                    && (Matches(run[0].server) ==> Matches(s.server)))
  {
    var d := RunIsInOrder(us, run, t);
    UploadAllKeepsEverySignature(run[0].server, us[..d]);
  }

  // ----- What overlapping uploads lose -----

  /** The keys of the accepted uploads that are done. */
  function DoneKeys(us: seq<Upload>, phases: seq<Phase>): set<string>
    requires |us| == |phases|
  {
    set i, k | 0 <= i < |us| && phases[i] == Done && Accepted(us[i]) && k in us[i].keys :: k
  }

  /** Rows have everything, and the snapshots and the stored bytes have no more than the rows. */
  ghost predicate RowsAreComplete(us: seq<Upload>, start: Server, s: State)
    requires |us| == |s.phases|
  {
    && RowKeys(s.server) == RowKeys(start) + DoneKeys(us, s.phases)
    && s.server.stored <= RowKeys(s.server)
    && forall i :: 0 <= i < |us| && s.phases[i].Loaded? ==>
         var snapshot := s.phases[i].snapshot;
         snapshot.stored <= RowKeys(snapshot) <= RowKeys(s.server)
  }

  lemma PersistedRows(now: Server, loaded: Server, u: Upload)
    ensures RowKeys(Persist(now, loaded, u)) == RowKeys(now) + NewRows(loaded, u)
  {
    var after := Persist(now, loaded, u);
    assert forall k :: k in after.rows <==> k in now.rows || k in NewRows(loaded, u);
  }

  lemma DoneKeysStep(us: seq<Upload>, phases: seq<Phase>, i: nat, next: Phase)
    requires |us| == |phases| && i < |us| && phases[i] != Done
    ensures DoneKeys(us, phases[i := next]) ==
            DoneKeys(us, phases) + if next == Done && Accepted(us[i]) then us[i].keys else {}
  {
    var after := phases[i := next];
    assert forall j :: 0 <= j < |us| && j != i ==> after[j] == phases[j];
  }

  lemma StepKeepsRowsComplete(us: seq<Upload>, start: Server, s: State, s': State, i: nat)
    requires |us| == |s.phases| && RowsAreComplete(us, start, s) && Step(us, s, s', i)
    ensures RowsAreComplete(us, start, s')
  {
    if s.phases[i].Waiting? {
      DoneKeysStep(us, s.phases, i, Loaded(s.server));
    } else {
      DoneKeysStep(us, s.phases, i, Done);
      WriteKeepsRowsComplete(s.server, s.phases[i].snapshot, us[i]);
    }
  }

  lemma WriteKeepsRowsComplete(now: Server, loaded: Server, u: Upload)
    requires now.stored <= RowKeys(now) && loaded.stored <= RowKeys(loaded) <= RowKeys(now)
    ensures var after := Persist(now, loaded, u);
            && RowKeys(after) == RowKeys(now) + (if Accepted(u) then u.keys else {})
            && after.stored <= RowKeys(after)
  {
    PersistedRows(now, loaded, u);
  }

  /**
   In every interleaving of any number of uploads, the rows lose nothing. Signatures
   are therefore lost from the stored bytes exactly when bytes and rows do not match.
   */
  lemma {:induction false} RowsLoseNothing(us: seq<Upload>, run: seq<State>, t: nat)
    requires ConcurrentRun(us, run) && Matches(run[0].server) && t < |run|
    ensures RowsAreComplete(us, run[0].server, run[t])
  {
    if t == 0 {
      assert DoneKeys(us, run[0].phases) == {};
    } else {
      RowsLoseNothing(us, run, t - 1);
      assert ConcurrentStepAfter(us, run, t - 1);
      var i: nat :| Step(us, run[t - 1], run[t], i);
      StepKeepsRowsComplete(us, run[0].server, run[t - 1], run[t], i);
    }
  }

  // ----- Which signatures the stored bytes hold -----

  function KeysOf(us: seq<Upload>, chain: set<nat>): set<string> {
    set i, k | i in chain && i < |us| && k in us[i].keys :: k
  }

  /** The upload that takes step t. */
  ghost function Mover(us: seq<Upload>, run: seq<State>, t: nat): (i: nat)
    requires ConcurrentRun(us, run) && 0 < t < |run|
    ensures Step(us, run[t - 1], run[t], i)
  {
    assert ConcurrentStepAfter(us, run, t - 1);
    var i: nat :| Step(us, run[t - 1], run[t], i);
    i
  }

  /** When upload i loaded what it has at time t. */
  ghost function LoadTime(us: seq<Upload>, run: seq<State>, i: nat, t: nat): (load: nat)
    requires ConcurrentRun(us, run) && i < |us| && t < |run| && run[t].phases[i].Loaded?
    ensures load < t && run[t].phases[i].snapshot == run[load].server
  {
    var mover := Mover(us, run, t);
    if mover == i then t - 1 else LoadTime(us, run, i, t - 1)
  }

  /** The upload's keys are new to the bytes that a chain of uploads gives. */
  predicate AddsTo(us: seq<Upload>, start: Server, chain: set<nat>, i: nat)
    requires i < |us|
  {
    Accepted(us[i]) && !(us[i].keys <= start.stored + KeysOf(us, chain))
  }

  /**
   The uploads that the stored bytes come from: the last one that wrote, those that
   the bytes came from when it loaded, and so on back. It is told by when uploads load
   and write, not by what the server holds.
   */
  ghost function Chain(us: seq<Upload>, run: seq<State>, t: nat): set<nat>
    requires ConcurrentRun(us, run) && t < |run|
  {
    if t == 0 then {}
    else
      var i := Mover(us, run, t);
      if run[t - 1].phases[i].Waiting? then Chain(us, run, t - 1)
      else
        var loaded := Chain(us, run, LoadTime(us, run, i, t - 1));
        if AddsTo(us, run[0].server, loaded, i) then loaded + {i} else Chain(us, run, t - 1)
  }

  lemma KeysOfOneMore(us: seq<Upload>, chain: set<nat>, i: nat)
    requires i < |us|
    ensures KeysOf(us, chain + {i}) == KeysOf(us, chain) + us[i].keys
  {
  }

  lemma WriteFollowsChain(
    us: seq<Upload>, start: Server, now: Server, loaded: Server, i: nat, current: set<nat>, earlier: set<nat>)
    requires i < |us| && now.stored == start.stored + KeysOf(us, current)
    requires loaded.stored == start.stored + KeysOf(us, earlier)
    ensures var chain := if AddsTo(us, start, earlier, i) then earlier + {i} else current;
            Persist(now, loaded, us[i]).stored == start.stored + KeysOf(us, chain)
  {
    KeysOfOneMore(us, earlier, i);
  }

  lemma ChainStep(us: seq<Upload>, run: seq<State>, t: nat, i: nat)
    requires ConcurrentRun(us, run) && 0 < t < |run| && i == Mover(us, run, t)
    ensures if run[t - 1].phases[i].Waiting? then
              run[t].server == run[t - 1].server && Chain(us, run, t) == Chain(us, run, t - 1)
            else
              var load := LoadTime(us, run, i, t - 1);
              var earlier := Chain(us, run, load);
              && run[t].server == Persist(run[t - 1].server, run[load].server, us[i])
              && Chain(us, run, t) ==
                 if AddsTo(us, run[0].server, earlier, i) then earlier + {i} else Chain(us, run, t - 1)
  {
  }

  lemma {:induction false} ChainIsStored(us: seq<Upload>, run: seq<State>, t: nat) returns (chain: set<nat>)
    requires ConcurrentRun(us, run) && t < |run|
    ensures chain == Chain(us, run, t)
    ensures run[t].server.stored == run[0].server.stored + KeysOf(us, chain)
  {
    if t == 0 {
      chain := {};
      assert KeysOf(us, chain) == {};
    } else {
      var i := Mover(us, run, t);
      ChainStep(us, run, t, i);
      var current := ChainIsStored(us, run, t - 1);
      if run[t - 1].phases[i].Waiting? {
        chain := current;
      } else {
        var load := LoadTime(us, run, i, t - 1);
        var earlier := ChainIsStored(us, run, load);
        WriteFollowsChain(us, run[0].server, run[t - 1].server, run[load].server, i, current, earlier);
        chain := if AddsTo(us, run[0].server, earlier, i) then earlier + {i} else current;
      }
    }
  }

  /** In every interleaving of any number of uploads, the bytes hold what they held first and the chain's keys. */
  lemma StoredIsTheChain(us: seq<Upload>, run: seq<State>, t: nat)
    requires ConcurrentRun(us, run) && t < |run|
    ensures run[t].server.stored == run[0].server.stored + KeysOf(us, Chain(us, run, t))
  {
    var _ := ChainIsStored(us, run, t);
  }

  /** Nothing is lost at time t exactly when the chain has the keys of every accepted upload that is done. */
  lemma MatchesIffChainHasAll(us: seq<Upload>, run: seq<State>, t: nat)
    requires ConcurrentRun(us, run) && Matches(run[0].server) && t < |run|
    ensures Matches(run[t].server)
            <==> DoneKeys(us, run[t].phases) <= run[0].server.stored + KeysOf(us, Chain(us, run, t))
  {
    StoredIsTheChain(us, run, t);
    RowsLoseNothing(us, run, t);
  }

  // ----- Two uploads -----

  /** Both uploads had loaded and neither had written. */
  ghost predicate Overlapped(run: seq<State>, t: nat)
    requires t < |run|
  {
    exists e :: 0 <= e <= t && |run[e].phases| == 2 && run[e].phases[0].Loaded? && run[e].phases[1].Loaded?
  }

  /** One upload of two, after it was handled alone. */
  function Alone(start: Server, u: Upload): Server {
    Persist(start, start, u)
  }

  /** What a state of a run of two uploads says about them; i is one of them and j the other. */
  ghost predicate PairState(us: seq<Upload>, start: Server, s: State, overlapped: bool, i: nat, j: nat)
    requires |us| == |s.phases| == 2 && i < 2 && j == 1 - i
  {
    && (s.phases[i] != Done && s.phases[j] != Done ==>
          && s.server == start
          && (s.phases[i].Loaded? ==> s.phases[i].snapshot == start)
          && (overlapped <==> s.phases[i].Loaded? && s.phases[j].Loaded?))
    && (s.phases[i] == Done && s.phases[j] == Waiting ==> s.server == Alone(start, us[i]) && !overlapped)
    && (s.phases[i] == Done && s.phases[j].Loaded? ==>
          && s.server == Alone(start, us[i])
          && s.phases[j].snapshot == if overlapped then start else s.server)
  }

  lemma OverlapSoFar(run: seq<State>, t: nat)
    requires 0 < t < |run| && |run[t].phases| == 2
    ensures Overlapped(run, t) <==> Overlapped(run, t - 1) || (run[t].phases[0].Loaded? && run[t].phases[1].Loaded?)
  {
  }

  lemma PairStep(
    us: seq<Upload>, start: Server, s: State, s': State, k: nat, before: bool, after: bool, i: nat, j: nat)
    requires |us| == |s.phases| == |s'.phases| == 2 && i < 2 && j == 1 - i && Step(us, s, s', k)
    requires PairState(us, start, s, before, i, j) && PairState(us, start, s, before, j, i)
    requires after <==> before || (s'.phases[0].Loaded? && s'.phases[1].Loaded?)
    ensures PairState(us, start, s', after, i, j)
  {
  }

  lemma {:induction false} PairRun(us: seq<Upload>, run: seq<State>, t: nat)
    requires ConcurrentRun(us, run) && |us| == 2 && t < |run|
    ensures PairState(us, run[0].server, run[t], Overlapped(run, t), 0, 1)
    ensures PairState(us, run[0].server, run[t], Overlapped(run, t), 1, 0)
  {
    if t > 0 {
      PairRun(us, run, t - 1);
      assert ConcurrentStepAfter(us, run, t - 1);
      var k: nat :| Step(us, run[t - 1], run[t], k);
      OverlapSoFar(run, t);
      PairStep(us, run[0].server, run[t - 1], run[t], k, Overlapped(run, t - 1), Overlapped(run, t), 0, 1);
      PairStep(us, run[0].server, run[t - 1], run[t], k, Overlapped(run, t - 1), Overlapped(run, t), 1, 0);
    }
  }

  /** Both wrote what they loaded at the start, upload j last. */
  lemma OverlappingWritesMatchIff(start: Server, first: Upload, last: Upload)
    requires Matches(start) && Accepted(first) && Accepted(last)
    ensures Matches(Persist(Alone(start, first), start, last))
            <==> last.keys <= start.stored || first.keys <= start.stored + last.keys
  {
    var middle, after := Alone(start, first), Persist(Alone(start, first), start, last);
    FreshUpload(start, first);
    PersistedRows(middle, start, last);
    assert RowKeys(after) == start.stored + first.keys + last.keys;
    if last.keys <= start.stored {
      assert after.stored == start.stored + first.keys;
    } else {
      assert after.stored == start.stored + last.keys;
      if first.keys <= start.stored + last.keys {
        assert RowKeys(after) == after.stored;
      } else {
        var k :| k in first.keys && k !in start.stored + last.keys;
        assert k in RowKeys(after) && k !in after.stored;
      }
    }
  }

  lemma LastStep(us: seq<Upload>, run: seq<State>) returns (j: nat)
    requires ConcurrentRun(us, run) && |us| == 2 && run[|run| - 1].phases == [Done, Done]
    ensures |run| >= 2 && j < 2
    ensures run[|run| - 2].phases[j].Loaded? && run[|run| - 2].phases[1 - j] == Done
    ensures Step(us, run[|run| - 2], run[|run| - 1], j)
  {
    var n := |run| - 2;
    assert run[0].phases[0] == Waiting;
    assert ConcurrentStepAfter(us, run, n);
    j :| 0 <= j && Step(us, run[n], run[n + 1], j);
    assert run[n + 1].phases[j] == Done && run[n + 1].phases[1 - j] == Done;
    assert run[n].phases[1 - j] == run[n + 1].phases[1 - j];
  }

  /**
   Every interleaving of two accepted uploads, of which upload j writes last: nothing
   is lost if and only if they did not overlap, or the last one had nothing new to write
   when it loaded, or it also sent what the other one wrote.
   */
  lemma TwoUploadsMatchIff(us: seq<Upload>, run: seq<State>, j: nat)
    requires ConcurrentRun(us, run) && |us| == 2 && Accepted(us[0]) && Accepted(us[1])
    requires Matches(run[0].server) && run[|run| - 1].phases == [Done, Done]
    requires j < 2 && |run| >= 2 && run[|run| - 2].phases[j].Loaded?
    ensures var start := run[0].server.stored;
            Matches(run[|run| - 1].server)
            <==> !Overlapped(run, |run| - 1) || us[j].keys <= start || us[1 - j].keys <= start + us[j].keys
  {
    var n, start := |run| - 2, run[0].server;
    var last := LastStep(us, run);
    PairRun(us, run, n);
    OverlapSoFar(run, n + 1);
    var middle := Alone(start, us[1 - j]);
    assert run[n].server == middle;
    if Overlapped(run, n) {
      assert run[n + 1].server == Persist(middle, start, us[j]);
      OverlappingWritesMatchIff(start, us[1 - j], us[j]);
    } else {
      assert run[n + 1].server == Persist(middle, middle, us[j]);
      FreshUpload(start, us[1 - j]);
      FreshUpload(middle, us[j]);
    }
  }

  /**
   Two clients that do not wait for each other lose a signature: both load the same
   bytes, and the second write drops the first signature although both rows exist.
   */
  lemma ConcurrentUploadsLoseASignature()
    ensures exists us: seq<Upload>, run: seq<State> ::
              && ConcurrentRun(us, run) && |us| == 2 && Matches(run[0].server)
              && var last := run[|run| - 1];
                 && last.phases == [Done, Done]
                 && RowKeys(last.server) == us[0].keys + us[1].keys
                 && !Matches(last.server)
  {
    var a, b := Upload({"a"}, {"a"}, true), Upload({"b"}, {"b"}, true);
    var us, empty := [a, b], Server({}, multiset{});
    var s0 := State(empty, [Waiting, Waiting]);
    var s1 := State(empty, [Loaded(empty), Waiting]);
    var s2 := State(empty, [Loaded(empty), Loaded(empty)]);
    var s3 := State(Persist(empty, empty, a), [Done, Loaded(empty)]);
    var s4 := State(Persist(s3.server, empty, b), [Done, Done]);
    assert Step(us, s0, s1, 0) && Step(us, s1, s2, 1) && Step(us, s2, s3, 0) && Step(us, s3, s4, 1);
    var run := [s0, s1, s2, s3, s4];
    assert ConcurrentRun(us, run);
    assert "a" != "b";
    assert RowKeys(s4.server) == {"a", "b"};
    assert "a" in RowKeys(s4.server) && "a" !in s4.server.stored;
    assert run[|run| - 1] == s4;
  }
}

/**
Handing batches downstream: the edge's `publishBatch` and the mesh publisher behind it.
A result of `true` stands for a nil error; what the other side answers is a parameter.
 */
module Delivery {
  import opened EdgeProtocol
  import opened Wrappers

  /** What a batch-capable downstream took, by its contract: exactly the items whose slot is nil. */
  function TookBatch(reply: seq<bool>): set<nat> {
    set i: nat | i < |reply| && reply[i]
  }

  /** What the one-by-one path got through: the items answered nil before the first failure. */
  function TookSingly(reply: nat -> bool, tried: nat): set<nat> {
    set i: nat | i < tried && reply(i)
  }

  /** None of the first `n` items failed. */
  predicate Unbroken(reply: nat -> bool, n: nat) {
    forall i: nat :: i < n ==> reply(i)
  }

  /**
  The edge's `publishBatch`.  After the first failure the one-by-one path leaves nil results
  for items it never tried, so a nil slot alone proves nothing; a prefix of nil slots does.
   */
  method PublishBatch(count: nat, batchCapable: bool, batchReply: seq<bool>, reply: nat -> bool)
    returns (results: seq<bool>, took: set<nat>)
    ensures PrefixHonest(results, 0, took)
    ensures batchCapable && count > 1 ==> results == batchReply && took == TookBatch(batchReply)
    ensures !(batchCapable && count > 1) ==>
              && |results| == count
              // it stops at the first failure, which is the only slot that is not nil
              && (forall i: nat :: i in took <==> i < count && Unbroken(reply, i + 1))
              && (forall i: nat :: i < count ==> (!results[i] <==> Unbroken(reply, i) && !reply(i)))
              // every nil slot was taken exactly when nothing failed before the last item
              && ((forall i :: 0 <= i < count && results[i] ==> i in took) <==> forall i: nat :: i + 1 < count ==> reply(i))
  {
    if batchCapable && count > 1 {
      results, took := batchReply, TookBatch(batchReply);
      BatchHonest(batchReply);
      return;
    }
    results := seq(count, _ => true);
    took := {};
    var index := 0;
    while index < count
      invariant index <= count && |results| == count
      invariant forall i :: 0 <= i < count ==> results[i]
      invariant forall i :: 0 <= i < index ==> reply(i)
      invariant took == TookSingly(reply, index)
    {
      results := results[index := reply(index)];
      if !results[index] {
        FirstFailure(results, index, reply, took);
        return;
      }
      took := took + {index};
      index := index + 1;
    }
  }

  /** The middle of three items fails: the third was never tried, and its slot is nil all the same. */
  method NilWithoutAttempt() returns (results: seq<bool>, took: set<nat>)
    ensures results == [true, false, true] && took == {0}
  {
    var reply := (i: nat) => i != 1;
    results, took := PublishBatch(3, false, [], reply);
    assert reply(0) && !reply(1);
    assert Unbroken(reply, 1) && !Unbroken(reply, 2) && !Unbroken(reply, 3);
  }

  lemma BatchHonest(reply: seq<bool>)
    ensures PrefixHonest(reply, 0, TookBatch(reply))
  {
    forall n: nat | n > 0 && AllOk(reply, n)
      ensures n - 1 in TookBatch(reply)
    {
      assert reply[n - 1];
    }
  }

  lemma FirstFailure(results: seq<bool>, index: nat, reply: nat -> bool, took: set<nat>)
    requires index < |results| && !results[index] && !reply(index)
    requires forall i :: 0 <= i < |results| && i != index ==> results[i]
    requires forall i :: 0 <= i < index ==> reply(i)
    requires took == TookSingly(reply, index)
    ensures PrefixHonest(results, 0, took)
    ensures (forall i :: 0 <= i < |results| && results[i] ==> i in took) <==> forall i: nat :: i + 1 < |results| ==> reply(i)
    ensures forall i: nat :: i in took <==> i < |results| && Unbroken(reply, i + 1)
    ensures forall i: nat :: i < |results| ==> (!results[i] <==> Unbroken(reply, i) && !reply(i))
  {
    forall n: nat | n > index
      ensures !Unbroken(reply, n)
    {
      assert !reply(index);
    }
    forall n: nat | n > 0 && AllOk(results, n)
      ensures n - 1 in took
    {
      assert n <= index;
    }
    if index + 1 < |results| {
      assert results[index + 1] && index + 1 !in took;
      assert !reply(index);
    }
  }

  /** A result list for a batch that starts at `first` licenses the replay loop's delivery step. */
  lemma ResultsLicenseCommit(results: seq<bool>, took: set<nat>, first: nat)
    requires PrefixHonest(results, 0, took)
    ensures PrefixHonest(results, first, set i | i in took :: first + i)
  {
    forall n: nat | n > 0 && AllOk(results, n)
      ensures first + n - 1 in set i | i in took :: first + i
    {
      assert n - 1 in took;
    }
  }

  // ---------------------------------------------------------------- mesh

  /**
  The mesh publisher tries the ranked candidates in order until one takes the event.
  `takes` says which node would; `reported` lists the remote nodes it marked failed.
   */
  method MeshPublish(candidates: seq<string>, origin: string, takes: string -> bool)
    returns (ok: bool, attempts: nat, failed: seq<string>)
    ensures ok <==> exists i :: 0 <= i < |candidates| && takes(candidates[i])
    ensures attempts <= |candidates|
    ensures ok ==> attempts > 0 && takes(candidates[attempts - 1])
    ensures forall i :: 0 <= i < (if ok then attempts - 1 else attempts) ==> !takes(candidates[i])
    ensures !ok ==> attempts == |candidates|
    ensures forall id :: id in failed <==> id != origin && !takes(id) && id in candidates[..attempts]
  {
    failed := [];
    attempts := 0;
    while attempts < |candidates|
      invariant attempts <= |candidates|
      invariant forall i :: 0 <= i < attempts ==> !takes(candidates[i])
      invariant forall id :: id in failed <==> id != origin && id in candidates[..attempts]
    {
      var id := candidates[attempts];
      assert candidates[..attempts + 1] == candidates[..attempts] + [id];
      attempts := attempts + 1;
      if takes(id) { return true, attempts, failed; }
      if id != origin {
        failed := failed + [id];
      }
    }
    return false, attempts, failed;
  }

  /** Whether some node took item `i` when its candidates were asked one by one. */
  ghost predicate TakenBySome(candidates: Option<seq<string>>, takes: string -> bool) {
    candidates.Some? && exists k :: 0 <= k < |candidates.value| && takes(candidates.value[k])
  }

  /**
  The mesh `PublishBatch`.  `owners[i]` is the owner the first routing pass found for item
  `i` (absent when there was no route), `routes[i]` the candidates of the second pass, and
  `batch` the reply of the local batch publisher when the local downstream has one.
   */
  method MeshPublishBatch(origin: string, owners: seq<Option<string>>, routes: seq<Option<seq<string>>>,
                          batch: Option<seq<bool>>, takes: (nat, string) -> bool)
    returns (results: seq<bool>, batched: bool)
    requires |owners| == |routes|
    // The whole batch goes to the local publisher exactly when it owns every item.
    ensures batched <==> owners != [] && batch.Some? && forall i :: 0 <= i < |owners| ==> owners[i] == Some(origin)
    ensures batched ==> results == batch.value
    // Otherwise an item succeeds exactly when it was routed and some candidate took it.
    ensures !batched ==> |results| == |owners|
    ensures !batched ==> forall i :: 0 <= i < |owners| ==>
              (results[i] <==> (batch.None? || owners[i].Some?) && TakenBySome(routes[i], id => takes(i, id)))
  {
    results := seq(|owners|, _ => true);
    if |owners| == 0 { return results, false; }
    if batch.Some? {
      var allLocal := true;
      for i := 0 to |owners|
        invariant |results| == |owners|
        invariant forall j :: 0 <= j < |owners| ==> (results[j] <==> (j >= i || owners[j].Some?))
        invariant allLocal <==> forall j :: 0 <= j < i ==> owners[j] == Some(origin)
      {
        if owners[i].None? {
          results := results[i := false];
          allLocal := false;
        } else if owners[i].value != origin {
          allLocal := false;
        }
      }
      if allLocal { return batch.value, true; }
    }
    for i := 0 to |owners|
      invariant |results| == |owners|
      invariant forall j :: i <= j < |owners| ==> (results[j] <==> (batch.None? || owners[j].Some?))
      invariant forall j :: 0 <= j < i ==>
                  (results[j] <==> (batch.None? || owners[j].Some?) && TakenBySome(routes[j], id => takes(j, id)))
    {
      if results[i] {
        var ok := false;
        if routes[i].Some? {
          var attempts, failed;
          ok, attempts, failed := MeshPublish(routes[i].value, origin, id => takes(i, id));
        }
        results := results[i := ok];
      }
    }
    batched := false;
  }
}

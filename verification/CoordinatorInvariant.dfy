/** What every run of the coordinator keeps. */
module CoordinatorInvariant {
  import opened Order
  import opened Events
  import opened Coordinator

  /** The id at entry `k` was pushed out by `cap` other ids, all different, right behind it. */
  ghost predicate Displaced(cap: nat, entered: seq<string>, k: nat)
  {
    k + cap < |entered| && NoDuplicates(entered[k..k + cap + 1])
  }

  /** Each entry of `id` among the first `mark` was displaced by then. */
  ghost predicate Forgotten(cap: nat, entered: seq<string>, mark: nat, id: string)
  {
    mark <= |entered| && forall k: nat | k < mark && entered[k] == id :: Displaced(cap, entered[..mark], k)
  }

  ghost predicate WindowOk(cap: nat, sub: Sub)
  {
    && sub.evicted <= |sub.entered| && sub.sentIds == sub.entered[sub.evicted..]
    && NoDuplicates(sub.sentIds) && sub.seed <= sub.entered
    && (|sub.sentIds| <= cap || |sub.sentIds| <= |sub.seed|)
    && forall k: nat | k < sub.evicted :: Displaced(cap, sub.entered, k)
  }

  ghost predicate ChainOk(cap: nat, sub: Sub)
  {
    && sub.done <= |sub.chain|
    && (sub.busy ==> Awaiting(sub) && |sub.seed| <= sub.mark && Forgotten(cap, sub.entered, sub.mark, sub.chain[sub.done].event.id))
    && (forall i, j | 0 <= i < |sub.chain| && 0 <= j < |sub.chain| && sub.chain[i].ReleaseEose? && sub.chain[j].ReleaseEose? :: i == j)
    && (sub.eoseSent <==> ReleaseEose in sub.chain)
    && (sub.timer <==> !sub.closed && !sub.eoseSent)
  }

  ghost predicate SubOk(cap: nat, sub: Sub)
  {
    WindowOk(cap, sub) && ChainOk(cap, sub)
  }

  /** What later states of a subscription keep. */
  ghost predicate Extends(sub: Sub, after: Sub)
  {
    && after.key == sub.key && after.seed == sub.seed && sub.chain <= after.chain && sub.done <= after.done
    && sub.entered <= after.entered && (sub.closed ==> after.closed)
    && (after.busy ==> (sub.busy && after.mark == sub.mark) || after.mark == |sub.entered|)
  }

  lemma DisplacedStays(cap: nat, entered: seq<string>, more: seq<string>, k: nat)
    requires Displaced(cap, entered, k)
    ensures Displaced(cap, entered + more, k)
  {
    assert (entered + more)[k..k + cap + 1] == entered[k..k + cap + 1];
  }

  lemma DisplacedEarlier(cap: nat, entered: seq<string>, after: seq<string>, k: nat)
    requires Displaced(cap, entered, k) && entered <= after
    ensures Displaced(cap, after, k)
  {
    assert after == entered + after[|entered|..];
    DisplacedStays(cap, entered, after[|entered|..], k);
  }

  lemma ForgottenStays(cap: nat, entered: seq<string>, after: seq<string>, mark: nat, id: string)
    requires Forgotten(cap, entered, mark, id) && entered <= after
    ensures Forgotten(cap, after, mark, id)
  {
    assert after[..mark] == entered[..mark];
  }

  /** The window before eviction: an id not in it is appended. */
  ghost predicate Grown(sub: Sub, id: string, grown: Sub)
  {
    grown == if id in sub.sentIds then sub
             else sub.(sentIds := sub.sentIds + [id], entered := sub.entered + [id])
  }

  lemma GrowingKeepsWindow(cap: nat, sub: Sub, id: string, grown: Sub)
    requires WindowOk(cap, sub) && Grown(sub, id, grown)
    ensures sub.entered <= grown.entered && grown.sentIds == grown.entered[grown.evicted..]
    ensures NoDuplicates(grown.sentIds) && grown.evicted <= |grown.entered|
    ensures forall k: nat | k < grown.evicted :: Displaced(cap, grown.entered, k)
    ensures |grown.sentIds| <= |sub.sentIds| + 1
  {
    forall k: nat | k < grown.evicted ensures Displaced(cap, grown.entered, k) {
      assert Displaced(cap, sub.entered, k);
      DisplacedEarlier(cap, sub.entered, grown.entered, k);
    }
  }

  lemma OldestDisplaced(cap: nat, entered: seq<string>, k: nat)
    requires k <= |entered| && NoDuplicates(entered[k..]) && |entered| - k > cap
    ensures Displaced(cap, entered, k)
  {
    assert entered[k..k + cap + 1] == entered[k..][..cap + 1];
  }

  /** Dropping the oldest id of a window over its cap: that id has been displaced. */
  lemma EvictingKeepsWindow(cap: nat, sub: Sub)
    requires sub.evicted <= |sub.entered| && sub.sentIds == sub.entered[sub.evicted..]
    requires NoDuplicates(sub.sentIds) && |sub.sentIds| > cap
    requires forall k: nat | k < sub.evicted :: Displaced(cap, sub.entered, k)
    ensures sub.sentIds[1..] == sub.entered[sub.evicted + 1..] && NoDuplicates(sub.sentIds[1..])
    ensures forall k: nat | k < sub.evicted + 1 :: Displaced(cap, sub.entered, k)
  {
    OldestDisplaced(cap, sub.entered, sub.evicted);
  }

  lemma AddKeepsWindow(cap: nat, sub: Sub, id: string)
    requires WindowOk(cap, sub)
    ensures WindowOk(cap, AddSentId(cap, sub, id)) && Extends(sub, AddSentId(cap, sub, id))
  {
    var grown := if id in sub.sentIds then sub
                 else sub.(sentIds := sub.sentIds + [id], entered := sub.entered + [id]);
    GrowingKeepsWindow(cap, sub, id, grown);
    if |grown.sentIds| > cap {
      EvictingKeepsWindow(cap, grown);
    }
  }

  lemma AddKeepsSub(cap: nat, sub: Sub, id: string)
    requires SubOk(cap, sub)
    ensures SubOk(cap, AddSentId(cap, sub, id)) && Extends(sub, AddSentId(cap, sub, id))
  {
    AddKeepsWindow(cap, sub, id);
    if sub.busy {
      ForgottenStays(cap, sub.entered, AddSentId(cap, sub, id).entered, sub.mark, sub.chain[sub.done].event.id);
    }
  }

  lemma EnqueueKeepsSub(cap: nat, sub: Sub, e: Event)
    requires SubOk(cap, sub)
    ensures SubOk(cap, Enqueue(sub, Ingest(e))) && Extends(sub, Enqueue(sub, Ingest(e)))
  {
    var after := Enqueue(sub, Ingest(e));
    assert ReleaseEose in after.chain <==> ReleaseEose in sub.chain;
  }

  lemma ReleaseKeepsSub(cap: nat, sub: Sub)
    requires SubOk(cap, sub) && !sub.eoseSent
    ensures SubOk(cap, Release(sub)) && Extends(sub, Release(sub))
  {
    var after := Release(sub);
    assert after.chain[|sub.chain|] == ReleaseEose;
    forall i | 0 <= i < |sub.chain| ensures !sub.chain[i].ReleaseEose? {
      assert sub.chain[i] in sub.chain;
    }
  }

  lemma ShutKeepsSub(cap: nat, sub: Sub)
    requires SubOk(cap, sub)
    ensures SubOk(cap, Shut(sub)) && Extends(sub, Shut(sub))
  {
  }

  /** An id the window does not hold was displaced each time it entered. */
  lemma NotHeldIsForgotten(cap: nat, sub: Sub, id: string)
    requires WindowOk(cap, sub) && id !in sub.sentIds
    ensures Forgotten(cap, sub.entered, |sub.entered|, id)
  {
    assert sub.entered[..|sub.entered|] == sub.entered;
    forall k | sub.evicted <= k < |sub.entered| ensures sub.entered[k] != id {
      assert sub.entered[k] == sub.sentIds[k - sub.evicted];
    }
  }

  lemma BeginKeepsSub(cap: nat, sub: Sub)
    requires SubOk(cap, sub) && Ready(sub)
    ensures SubOk(cap, Begin(sub)) && Extends(sub, Begin(sub))
  {
    var task := sub.chain[sub.done];
    if task.Ingest? && !sub.closed && task.event.id !in sub.sentIds {
      NotHeldIsForgotten(cap, sub, task.event.id);
    }
  }

  lemma ResumeKeepsSub(cap: nat, sub: Sub, result: IngestResult)
    requires SubOk(cap, sub) && Awaiting(sub)
    ensures SubOk(cap, Resume(cap, sub, result)) && Extends(sub, Resume(cap, sub, result))
  {
    if Accepted(sub, result) {
      AddKeepsSub(cap, sub, sub.chain[sub.done].event.id);
    }
  }

  lemma NewKeepsSub(cap: nat, key: Key, ids: seq<string>)
    ensures SubOk(cap, NewSub(key, ids))
  {
  }
}

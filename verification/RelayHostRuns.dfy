/** Whatever the interleaving, one emulator at a time, and the page's own `WebSocket` back at the end. */
module RelayHostRuns {
  import opened Order
  import opened Events
  import opened RelayHost

  predicate Claims(x: Acquisition, h: nat)
  {
    x == Awaiting(h) || x == Held(h)
  }

  lemma OneApart(before: set<nat>, after: set<nat>, a: nat)
    requires before - {a} == after - {a}
    ensures |after| + (if a in before then 1 else 0) == |before| + (if a in after then 1 else 0)
  {
    assert a in before ==> before == (before - {a}) + {a};
    assert a in after ==> after == (after - {a}) + {a};
  }

  /** Changing one acquisition changes the claims on a host by at most one. */
  lemma ClaimsMove(p: Page, q: Page, a: nat, h: nat)
    requires |q.acquisitions| == |p.acquisitions| && a < |p.acquisitions|
    requires forall b | 0 <= b < |p.acquisitions| && b != a :: q.acquisitions[b] == p.acquisitions[b]
    ensures |Holders(q, h)| + (if Claims(p.acquisitions[a], h) then 1 else 0)
         == |Holders(p, h)| + (if Claims(q.acquisitions[a], h) then 1 else 0)
  {
    OneApart(Holders(p, h), Holders(q, h), a);
  }

  lemma WaiterClaimsNothing(p: Page, h: nat)
    ensures Holders(p.(acquisitions := p.acquisitions + [WaitingForStop]), h) == Holders(p, h)
  {
  }

  /** A claim on `h` shows in its count. */
  lemma ClaimCounts(p: Page, a: nat, h: nat)
    requires Inv(p) && h < |p.hosts| && a < |p.acquisitions| && Claims(p.acquisitions[a], h)
    ensures p.hosts[h].refCount > 0 && p.current == Some(h)
  {
    assert HostOk(p, h);
    assert a in Holders(p, h);
  }

  lemma WaitingKeepsInv(p: Page)
    requires Inv(p)
    ensures Inv(p.(acquisitions := p.acquisitions + [WaitingForStop]))
  {
    var q := p.(acquisitions := p.acquisitions + [WaitingForStop]);
    forall h: nat | h < |q.hosts| ensures HostOk(q, h) {
      assert HostOk(p, h);
      WaiterClaimsNothing(p, h);
    }
  }

  lemma JoinedKeepsInv(p: Page, a: nat)
    requires Inv(p) && a < |p.acquisitions| && p.acquisitions[a].WaitingForStop?
    ensures Inv(Joined(p, a))
  {
    var q := Joined(p, a);
    forall h: nat | h < |q.hosts| ensures HostOk(q, h) {
      ClaimsMove(p, q, a, h);
      if h < |p.hosts| {
        assert HostOk(p, h);
      } else {
        NobodyClaims(p, h);
      }
    }
  }

  lemma NobodyClaims(p: Page, h: nat)
    requires InRange(p) && h >= |p.hosts|
    ensures Holders(p, h) == {}
  {
  }

  lemma RejectedKeepsInv(p: Page, a: nat)
    requires Inv(p) && a < |p.acquisitions| && p.acquisitions[a].WaitingForStop?
    ensures Inv(WithAcquisition(p, a, Rejected))
  {
    var q := WithAcquisition(p, a, Rejected);
    forall h: nat | h < |q.hosts| ensures HostOk(q, h) {
      assert HostOk(p, h);
      ClaimsMove(p, q, a, h);
    }
  }

  lemma SameClaims(p: Page, q: Page, h: nat)
    requires q.acquisitions == p.acquisitions
    ensures Holders(q, h) == Holders(p, h)
  {
  }

  /** A patch goes on over the page's own constructor, because no other host is patched. */
  lemma PatchKeepsInv(p: Page, h: nat)
    requires Inv(p) && h < |p.hosts| && p.hosts[h].phase.Starting?
    ensures p.global == Original && Inv(PatchedBy(p, h))
  {
    assert HostOk(p, h);
    if p.global != Original {
      assert HostOk(p, p.global.host);
    }
    var q := PatchedBy(p, h);
    forall k: nat | k < |q.hosts| ensures HostOk(q, k) {
      assert HostOk(p, k);
      SameClaims(p, q, k);
    }
  }

  lemma ConnectedKeepsInv(p: Page, h: nat, phase: Phase)
    requires Inv(p) && h < |p.hosts|
    requires (p.hosts[h].phase.Connecting? && phase.Ready?)
          || ((p.hosts[h].phase.Starting? || p.hosts[h].phase.Connecting?) && phase.Failing?)
    ensures Inv(WithHost(p, h, p.hosts[h].(phase := phase)))
  {
    assert HostOk(p, h);
    var q := WithHost(p, h, p.hosts[h].(phase := phase));
    forall k: nat | k < |q.hosts| ensures HostOk(q, k) {
      assert HostOk(p, k);
      SameClaims(p, q, k);
    }
  }

  lemma UnpatchKeepsInv(p: Page, h: nat, phase: Phase)
    requires Inv(p) && h < |p.hosts|
    requires (p.hosts[h].phase.Failing? && phase.Failed?) || (p.hosts[h].phase.Stopping? && phase.Restored?)
    ensures Inv(Unpatched(p, h, phase))
  {
    assert HostOk(p, h);
    var q := Unpatched(p, h, phase);
    forall k: nat | k < |q.hosts| ensures HostOk(q, k) {
      assert HostOk(p, k);
      SameClaims(p, q, k);
    }
    if q.global.Patched? {
      assert HostOk(p, q.global.host);
    }
  }

  lemma AbandonedKeepsInv(p: Page, a: nat, h: nat)
    requires Inv(p) && h < |p.hosts| && a < |p.acquisitions| && p.acquisitions[a] == Awaiting(h)
    requires p.hosts[h].phase.Failed? && p.hosts[h].refCount > 0
    ensures Inv(Abandoned(p, a, h))
  {
    assert HostOk(p, h);
    var q := Abandoned(p, a, h);
    forall k: nat | k < |q.hosts| ensures HostOk(q, k) {
      assert HostOk(p, k);
      ClaimsMove(p, q, a, k);
    }
  }

  lemma HeldKeepsInv(p: Page, a: nat, h: nat)
    requires Inv(p) && h < |p.hosts| && a < |p.acquisitions| && p.acquisitions[a] == Awaiting(h)
    requires p.hosts[h].phase.Ready?
    ensures Inv(WithAcquisition(p, a, Held(h)))
  {
    var q := WithAcquisition(p, a, Held(h));
    forall k: nat | k < |q.hosts| ensures HostOk(q, k) {
      assert HostOk(p, k);
      ClaimsMove(p, q, a, k);
    }
  }

  lemma ReleasedKeepsInv(p: Page, a: nat, h: nat)
    requires Inv(p) && h < |p.hosts| && a < |p.acquisitions| && p.acquisitions[a] == Held(h)
    ensures p.hosts[h].refCount > 0 && Inv(ReleasedBy(p, a, h))
  {
    ClaimCounts(p, a, h);
    assert HostOk(p, h);
    var q := ReleasedBy(p, a, h);
    forall k: nat | k < |q.hosts| ensures HostOk(q, k) {
      assert HostOk(p, k);
      ClaimsMove(p, q, a, k);
    }
    if q.hosts[h].refCount == 0 {
      NobodyElseHolds(p, a, h);
    }
  }

  /** When the last claim goes, no other acquisition held the host. */
  lemma NobodyElseHolds(p: Page, a: nat, h: nat)
    requires Inv(p) && h < |p.hosts| && a < |p.acquisitions| && p.acquisitions[a] == Held(h)
    requires p.hosts[h].refCount == 1
    ensures forall b | 0 <= b < |p.acquisitions| && b != a :: p.acquisitions[b] != Held(h)
  {
    assert HostOk(p, h) && a in Holders(p, h);
    forall b | 0 <= b < |p.acquisitions| && b != a ensures p.acquisitions[b] != Held(h) {
      if p.acquisitions[b] == Held(h) {
        Cardinality({a, b}, Holders(p, h));
      }
    }
  }

  lemma TornDownKeepsInv(p: Page, h: nat)
    requires Inv(p) && h < |p.hosts| && p.hosts[h].phase.Restored?
    ensures Inv(TornDown(p, h))
  {
    assert HostOk(p, h);
    var q := TornDown(p, h);
    forall k: nat | k < |q.hosts| ensures HostOk(q, k) {
      assert HostOk(p, k);
      SameClaims(p, q, k);
    }
  }

  lemma DeliverKeepsInv(p: Page, a: nat)
    requires Inv(p) && Enabled(p, Deliver(a))
    ensures Inv(Next(p, Deliver(a)))
  {
    var h := p.acquisitions[a].host;
    ClaimCounts(p, a, h);
    assert HostOk(p, h);
    if p.hosts[h].phase.Failed? {
      AbandonedKeepsInv(p, a, h);
    } else {
      HeldKeepsInv(p, a, h);
    }
  }

  lemma StepKeepsInv(p: Page, step: Step)
    requires Inv(p)
    ensures Inv(Next(p, step))
  {
    if Enabled(p, step) {
      match step
      case Acquire =>
        WaitingKeepsInv(p);
        JoinedKeepsInv(p.(acquisitions := p.acquisitions + [WaitingForStop]), |p.acquisitions|);
      case Recheck(a) => JoinedKeepsInv(p, a);
      case StopRejected(a) => RejectedKeepsInv(p, a);
      case Patch(h) => PatchKeepsInv(p, h);
      case Connected(h) => ConnectedKeepsInv(p, h, Ready);
      case ConnectFailed(h) => ConnectedKeepsInv(p, h, Failing);
      case Restore(h) => UnpatchKeepsInv(p, h, if p.hosts[h].phase.Failing? then Failed else Restored);
      case Deliver(a) => DeliverKeepsInv(p, a);
      case Release(a) => ReleasedKeepsInv(p, a, p.acquisitions[a].host);
      case TeardownDone(h) => TornDownKeepsInv(p, h);
    }
  }

  /** A whole run. */
  ghost function After(steps: seq<Step>): (p: Page)
    ensures Inv(p)
  {
    if steps == [] then Init() else
      var before := After(steps[..|steps| - 1]);
      StepKeepsInv(before, steps[|steps| - 1]);
      Next(before, steps[|steps| - 1])
  }

  ghost predicate Reachable(p: Page)
    ensures Reachable(p) ==> Inv(p)
  {
    exists steps :: p == After(steps)
  }

  // ---- what the page relies on

  /** At most one emulator is started, and what it saved is the page's own constructor. */
  lemma OneEmulator(p: Page, h: nat, k: nat)
    requires Reachable(p) && h < |p.hosts| && k < |p.hosts| && p.hosts[h].saved.Some? && p.hosts[k].saved.Some?
    ensures h == k && p.hosts[h].saved.value == Original && p.global == Patched(h, Original)
  {
    assert HostOk(p, h) && HostOk(p, k);
  }

  /** The global is the page's own exactly when no emulator is started. */
  lemma GlobalIsOriginal(p: Page)
    requires Reachable(p)
    ensures p.global == Original <==> forall h: nat | h < |p.hosts| :: p.hosts[h].saved.None?
  {
    forall h: nat | h < |p.hosts| && p.global == Original ensures p.hosts[h].saved.None? {
      assert HostOk(p, h);
    }
  }

  /** With nothing held, nothing in flight and no teardown pending, the page has its own
      `WebSocket` back. */
  lemma RestoredAtRest(p: Page)
    requires Reachable(p) && p.pendingStop.None?
    requires forall a | 0 <= a < |p.acquisitions| :: !p.acquisitions[a].Awaiting? && !p.acquisitions[a].Held?
    ensures p.global == Original && p.current.None?
  {
    forall h: nat | h < |p.hosts| ensures p.current != Some(h) && p.hosts[h].saved.None? {
      assert HostOk(p, h);
      assert Holders(p, h) == {};
    }
  }

  /** A host someone holds stays up: it is ready, patched over the page's own constructor, and
      is the one further callers join. */
  lemma HeldHostIsUp(p: Page, a: nat)
    requires Reachable(p) && a < |p.acquisitions| && p.acquisitions[a].Held?
    ensures var h := p.acquisitions[a].host;
            h < |p.hosts| && p.hosts[h].phase.Ready? && p.current == Some(h) && p.global == Patched(h, Original)
  {
    var h := p.acquisitions[a].host;
    ClaimCounts(p, a, h);
    assert HostOk(p, h);
  }

  /** The count is exactly the number of callers with a claim. */
  lemma RefCountIsClaims(p: Page, h: nat)
    requires Reachable(p) && h < |p.hosts|
    ensures p.hosts[h].refCount == |Holders(p, h)|
  {
    assert HostOk(p, h);
  }

  /** A new host only ever starts on top of a finished teardown. */
  lemma StartsAfterTeardown(p: Page, step: Step)
    requires Reachable(p) && |Next(p, step).hosts| > |p.hosts|
    ensures p.global == Original && p.pendingStop.None? && p.current.None?
    ensures forall h: nat | h < |p.hosts| :: p.hosts[h].phase.Failed? || p.hosts[h].phase.Stopped?
  {
    forall h: nat | h < |p.hosts|
      ensures (p.hosts[h].phase.Failed? || p.hosts[h].phase.Stopped?) && p.hosts[h].saved.None?
    {
      assert HostOk(p, h);
    }
  }
}

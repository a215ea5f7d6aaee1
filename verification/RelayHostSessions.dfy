/** What becomes of the callers of one page: who starts a relay, who joins it, who waits, and how a
    session runs from the first call to the constructor put back. */
module RelayHostSessions {
  import opened Events
  import opened RelayHost
  import opened RelayHostRuns

  ghost function Onward(p: Page, steps: seq<Step>): (q: Page)
    requires Inv(p)
    ensures Inv(q)
    decreases |steps|
  {
    if steps == [] then p else
      StepKeepsInv(p, steps[0]);
      Onward(Next(p, steps[0]), steps[1..])
  }

  /** No relay is up and none is coming down. */
  ghost predicate AtRest(p: Page)
  {
    Inv(p) && p.current.None? && p.pendingStop.None?
  }

  /** The first caller starts a relay. */
  lemma FirstCallerStarts(p: Page)
    requires AtRest(p)
    ensures Next(p, Acquire) == p.(hosts := p.hosts + [Host(Starting, 1, None)], current := Some(|p.hosts|),
                                   acquisitions := p.acquisitions + [Awaiting(|p.hosts|)])
  {
  }

  /** While a relay is up or coming up, callers join it; none starts another. */
  lemma LaterCallersJoin(p: Page)
    requires Inv(p) && p.current.Some?
    ensures var h := p.current.value;
            Next(p, Acquire) == p.(hosts := p.hosts[h := p.hosts[h].(refCount := p.hosts[h].refCount + 1)],
                                   acquisitions := p.acquisitions + [Awaiting(h)])
  {
  }

  /** While one comes down, callers wait. */
  lemma CallersWaitForTeardown(p: Page)
    requires Inv(p) && p.pendingStop.Some?
    ensures Next(p, Acquire) == p.(acquisitions := p.acquisitions + [WaitingForStop])
  {
  }

  /** A caller that waited starts the relay itself, or joins the one another caller has started. */
  lemma WaiterGoesOn(p: Page, a: nat)
    requires Inv(p) && p.pendingStop.None? && a < |p.acquisitions| && p.acquisitions[a].WaitingForStop?
    ensures var q := Next(p, Recheck(a));
            var h := if p.current.Some? then p.current.value else |p.hosts|;
            q.acquisitions == p.acquisitions[a := Awaiting(h)] && q.current == Some(h)
            && |q.hosts| == if p.current.Some? then |p.hosts| else |p.hosts| + 1
  {
  }

  ghost predicate Serving(p: Page, a: nat, h: nat)
  {
    && Inv(p) && a < |p.acquisitions| && h < |p.hosts| && p.acquisitions[a] == Held(h)
    && p.hosts[h] == Host(Ready, 1, Some(Original)) && p.current == Some(h)
  }

  lemma {:induction false} OnwardBoth(p: Page, first: seq<Step>, rest: seq<Step>)
    requires Inv(p)
    ensures Onward(p, first + rest) == Onward(Onward(p, first), rest)
    decreases |first|
  {
    if first == [] {
      assert first + rest == rest;
    } else {
      StepKeepsInv(p, first[0]);
      assert (first + rest)[1..] == first[1..] + rest;
      OnwardBoth(Next(p, first[0]), first[1..], rest);
    }
  }

  lemma OneStep(p: Page, step: Step)
    requires Inv(p)
    ensures Onward(p, [step]) == Next(p, step)
  {
    StepKeepsInv(p, step);
    assert [step][1..] == [];
  }

  lemma TwoSteps(p: Page, first: Step, second: Step)
    requires Inv(p)
    ensures Inv(Next(p, first)) && Onward(p, [first, second]) == Next(Next(p, first), second)
  {
    StepKeepsInv(p, first);
    OneStep(p, first);
    OneStep(Next(p, first), second);
    OnwardBoth(p, [first], [second]);
    assert [first] + [second] == [first, second];
  }

  /** From rest, the first caller's relay patches the page's own constructor and connects. */
  lemma StartPatches(p: Page)
    requires AtRest(p)
    ensures var a, h := |p.acquisitions|, |p.hosts|;
            Onward(p, [Acquire, Patch(h)])
            == p.(global := Patched(h, Original), hosts := p.hosts + [Host(Connecting, 1, Some(Original))],
                  current := Some(h), acquisitions := p.acquisitions + [Awaiting(h)])
  {
    var h := |p.hosts|;
    FirstCallerStarts(p);
    TwoSteps(p, Acquire, Patch(h));
    PatchKeepsInv(Next(p, Acquire), h);
  }

  lemma ConnectionServes(p: Page, a: nat, h: nat)
    requires Inv(p) && h < |p.hosts| && p.hosts[h] == Host(Connecting, 1, Some(Original)) && p.current == Some(h)
    requires a < |p.acquisitions| && p.acquisitions[a] == Awaiting(h)
    ensures var q := Onward(p, [Connected(h), Deliver(a)]);
            Serving(q, a, h) && q.global == p.global
  {
    TwoSteps(p, Connected(h), Deliver(a));
  }

  /** Once connected, the caller holds it. */
  lemma StartServes(p: Page)
    requires AtRest(p)
    ensures var a, h := |p.acquisitions|, |p.hosts|;
            var q := Onward(p, [Acquire, Patch(h)] + [Connected(h), Deliver(a)]);
            Serving(q, a, h) && q.global == Patched(h, Original)
  {
    var a, h := |p.acquisitions|, |p.hosts|;
    StartPatches(p);
    ConnectionServes(Onward(p, [Acquire, Patch(h)]), a, h);
    OnwardBoth(p, [Acquire, Patch(h)], [Connected(h), Deliver(a)]);
  }

  /** The last holder's release leads back to rest, the page's own constructor in place. */
  lemma ReleaseRestores(p: Page, a: nat, h: nat)
    requires Serving(p, a, h)
    ensures var q := Onward(p, [Release(a), Restore(h), TeardownDone(h)]);
            AtRest(q) && q.global == Original && q.acquisitions == p.acquisitions[a := Released]
            && q.hosts == p.hosts[h := Host(Stopped, 0, None)]
  {
    TwoSteps(p, Release(a), Restore(h));
    var restored := Onward(p, [Release(a), Restore(h)]);
    OneStep(restored, TeardownDone(h));
    OnwardBoth(p, [Release(a), Restore(h)], [TeardownDone(h)]);
    assert [Release(a), Restore(h)] + [TeardownDone(h)] == [Release(a), Restore(h), TeardownDone(h)];
  }

  lemma FailureRestores(p: Page, a: nat, h: nat)
    requires Inv(p) && h < |p.hosts| && p.hosts[h] == Host(Connecting, 1, Some(Original)) && p.current == Some(h)
    requires a < |p.acquisitions| && p.acquisitions[a] == Awaiting(h)
    ensures var q := Onward(p, [ConnectFailed(h), Restore(h), Deliver(a)]);
            AtRest(q) && q.global == Original && q.acquisitions == p.acquisitions[a := Rejected]
  {
    TwoSteps(p, ConnectFailed(h), Restore(h));
    var failed := Onward(p, [ConnectFailed(h), Restore(h)]);
    OneStep(failed, Deliver(a));
    OnwardBoth(p, [ConnectFailed(h), Restore(h)], [Deliver(a)]);
    assert [ConnectFailed(h), Restore(h)] + [Deliver(a)] == [ConnectFailed(h), Restore(h), Deliver(a)];
  }

  /** A start that fails turns its caller away and leaves the page as it was found. */
  lemma FailedStartRestores(p: Page)
    requires AtRest(p)
    ensures var a, h := |p.acquisitions|, |p.hosts|;
            var q := Onward(p, [Acquire, Patch(h)] + [ConnectFailed(h), Restore(h), Deliver(a)]);
            AtRest(q) && q.global == Original && q.acquisitions == p.acquisitions + [Rejected]
  {
    var a, h := |p.acquisitions|, |p.hosts|;
    StartPatches(p);
    var patched := Onward(p, [Acquire, Patch(h)]);
    FailureRestores(patched, a, h);
    OnwardBoth(p, [Acquire, Patch(h)], [ConnectFailed(h), Restore(h), Deliver(a)]);
  }
}

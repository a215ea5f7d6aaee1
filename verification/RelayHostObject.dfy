/** The page's shared-host bookkeeping as the module variables it is. */
module RelayHostObject {
  import opened Events
  import opened RelayHost
  import opened RelayHostRuns

  class HostPage {
    var global: Constructor
    var hosts: seq<Host>
    var current: Option<nat>
    var pendingStop: Option<nat>
    var acquisitions: seq<Acquisition>

    ghost function Abs(): Page
      reads this
    {
      Page(global, hosts, current, pendingStop, acquisitions)
    }

    /** What every interleaving keeps. */
    ghost predicate Valid()
      reads this
    {
      Inv(Abs())
    }

    constructor ()
      ensures Valid() && Abs() == Init()
    {
      global, hosts, current, pendingStop, acquisitions := Original, [], None, None, [];
    }

    /** `acquireRelayHost` up to its first await. */
    method Acquire() returns (a: nat)
      requires Valid()
      modifies this
      ensures Valid() && Abs() == Next(old(Abs()), RelayHost.Acquire)
      ensures a == |old(acquisitions)| < |acquisitions| && !acquisitions[a].Held?
    {
      WaitingKeepsInv(Abs());
      a := |acquisitions|;
      acquisitions := acquisitions + [WaitingForStop];
      JoinOrStart(a);
    }

    /** The loop that waits out a teardown, then the reservation. */
    method JoinOrStart(a: nat)
      requires Valid() && a < |acquisitions| && acquisitions[a].WaitingForStop?
      modifies this`hosts, this`current, this`acquisitions
      ensures Abs() == Joined(old(Abs()), a) && Valid()
      ensures acquisitions[a].WaitingForStop? <==> pendingStop.Some?
    {
      JoinedKeepsInv(Abs(), a);
      if current.None? && pendingStop.Some? {
        assert acquisitions == acquisitions[a := WaitingForStop];
        return;
      }
      if current.None? {
        hosts := hosts + [Host(Starting, 0, None)];
        current := Some(|hosts| - 1);
      }
      var h := current.value;
      hosts := hosts[h := hosts[h].(refCount := hosts[h].refCount + 1)];
      acquisitions := acquisitions[a := Awaiting(h)];
      assert hosts == Joined(old(Abs()), a).hosts;
    }

    method Recheck(a: nat)
      requires Valid() && Enabled(Abs(), RelayHost.Recheck(a))
      modifies this`hosts, this`current, this`acquisitions
      ensures Valid() && Abs() == Next(old(Abs()), RelayHost.Recheck(a))
    {
      JoinOrStart(a);
    }

    /** The emulator's `start`: what it finds and keeps is the page's own constructor. */
    method EmulatorStart(h: nat)
      requires Valid() && Enabled(Abs(), Patch(h))
      modifies this`hosts, this`global
      ensures Valid() && Abs() == Next(old(Abs()), Patch(h))
      ensures old(global) == Original && global == Patched(h, Original)
    {
      PatchKeepsInv(Abs(), h);
      hosts := hosts[h := hosts[h].(phase := Connecting, saved := Some(global))];
      global := Patched(h, global);
    }

    /** The emulator's `stop`: nothing to restore unless it was started, and then the page's own. */
    method EmulatorStop(h: nat)
      requires Valid() && Enabled(Abs(), Restore(h))
      modifies this`hosts, this`global
      ensures Valid() && Abs() == Next(old(Abs()), Restore(h))
      ensures old(hosts)[h].saved.Some? ==> global == Original
    {
      StepKeepsInv(Abs(), Restore(h));
      assert HostOk(Abs(), h);
      var host := hosts[h];
      if host.saved.Some? {
        global := host.saved.value;
        host := host.(saved := None);
      }
      hosts := hosts[h := host.(phase := if host.phase.Failing? then Failed else Restored)];
    }

    /** The host's promise settles for one caller: a handle, or a rejection that gives the
        reservation back. */
    method Settle(a: nat)
      requires Valid() && Enabled(Abs(), Deliver(a))
      modifies this`hosts, this`current, this`acquisitions
      ensures Valid() && Abs() == Next(old(Abs()), Deliver(a))
      ensures acquisitions[a].Held? || acquisitions[a].Rejected?
    {
      var h := acquisitions[a].host;
      StepKeepsInv(Abs(), Deliver(a));
      ClaimCounts(Abs(), a, h);
      assert HostOk(Abs(), h);
      if hosts[h].phase.Failed? {
        hosts := hosts[h := hosts[h].(refCount := hosts[h].refCount - 1)];
        if hosts[h].refCount == 0 && current == Some(h) {
          current := None;
        }
        acquisitions := acquisitions[a := Rejected];
      } else {
        acquisitions := acquisitions[a := Held(h)];
      }
    }

    /** A handle's `release`, which does nothing the second time. */
    method Release(a: nat)
      requires Valid() && a < |acquisitions|
      modifies this
      ensures Valid() && Abs() == Next(old(Abs()), RelayHost.Release(a))
      ensures !acquisitions[a].Held? && (!old(acquisitions)[a].Held? ==> Abs() == old(Abs()))
    {
      StepKeepsInv(Abs(), RelayHost.Release(a));
      if !acquisitions[a].Held? {
        return;
      }
      var h := acquisitions[a].host;
      ClaimCounts(Abs(), a, h);
      acquisitions := acquisitions[a := Released];
      hosts := hosts[h := hosts[h].(refCount := hosts[h].refCount - 1)];
      if hosts[h].refCount > 0 {
        return;
      }
      if current == Some(h) {
        current := None;
      }
      hosts := hosts[h := hosts[h].(phase := Stopping)];
      pendingStop := Some(h);
    }

    method TeardownDone(h: nat)
      requires Valid() && Enabled(Abs(), RelayHost.TeardownDone(h))
      modifies this`hosts, this`pendingStop
      ensures Valid() && Abs() == Next(old(Abs()), RelayHost.TeardownDone(h))
      ensures pendingStop.None?
    {
      TornDownKeepsInv(Abs(), h);
      assert HostOk(Abs(), h);
      hosts := hosts[h := hosts[h].(phase := Stopped)];
      if pendingStop == Some(h) {
        pendingStop := None;
      }
    }
  }
}

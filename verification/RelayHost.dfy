/** One cache relay per page, shared by every widget: acquiring, releasing, and the patched
    global `WebSocket` underneath, over every interleaving. */
module RelayHost {
  import opened Events

  /** What `globalThis.WebSocket` is: the page's own, or a host's patch over what it saved. */
  datatype Constructor = Original | Patched(host: nat, over: Constructor)

  /** Where a host's startup or teardown has got to. */
  datatype Phase = Starting | Connecting | Ready | Failing | Failed | Stopping | Restored | Stopped

  /** `saved` is the emulator's `originalWebSocket`. */
  datatype Host = Host(phase: Phase, refCount: nat, saved: Option<Constructor>)

  /** One call of `acquireRelayHost`. */
  datatype Acquisition = WaitingForStop | Awaiting(host: nat) | Held(host: nat) | Released | Rejected

  datatype Page = Page(
    global: Constructor, hosts: seq<Host>, current: Option<nat>, pendingStop: Option<nat>,
    acquisitions: seq<Acquisition>)

  function Init(): Page
  {
    Page(Original, [], None, None, [])
  }

  function WithHost(p: Page, h: nat, host: Host): Page
    requires h < |p.hosts|
  {
    p.(hosts := p.hosts[h := host])
  }

  function WithAcquisition(p: Page, a: nat, acquisition: Acquisition): Page
    requires a < |p.acquisitions|
  {
    p.(acquisitions := p.acquisitions[a := acquisition])
  }

  predicate InRange(p: Page)
  {
    && (p.current.Some? ==> p.current.value < |p.hosts|)
    && (forall a | 0 <= a < |p.acquisitions| ::
          p.acquisitions[a].Awaiting? || p.acquisitions[a].Held? ==> p.acquisitions[a].host < |p.hosts|)
  }

  /** Past the wait for a teardown: join the running host or start one, reserving it at once. */
  function Joined(p: Page, a: nat): Page
    requires InRange(p) && a < |p.acquisitions|
  {
    if p.current.Some? then
      var h := p.current.value;
      WithAcquisition(WithHost(p, h, p.hosts[h].(refCount := p.hosts[h].refCount + 1)), a, Awaiting(h))
    else if p.pendingStop.Some? then WithAcquisition(p, a, WaitingForStop)
    else
      var h := |p.hosts|;
      WithAcquisition(p.(hosts := p.hosts + [Host(Starting, 1, None)], current := Some(h)), a, Awaiting(h))
  }

  /** The emulator replaces the global constructor, keeping what it found. */
  function PatchedBy(p: Page, h: nat): Page
    requires h < |p.hosts|
  {
    WithHost(p, h, p.hosts[h].(phase := Connecting, saved := Some(p.global))).(global := Patched(h, p.global))
  }

  /** The emulator puts back what it kept, if anything. */
  function Unpatched(p: Page, h: nat, phase: Phase): Page
    requires h < |p.hosts|
  {
    var host := p.hosts[h];
    WithHost(p, h, host.(phase := phase, saved := None))
      .(global := if host.saved.Some? then host.saved.value else p.global)
  }

  /** A caller gives up its reservation of a host that failed to start. */
  function Abandoned(p: Page, a: nat, h: nat): Page
    requires h < |p.hosts| && a < |p.acquisitions| && p.hosts[h].refCount > 0
  {
    var left := p.hosts[h].refCount - 1;
    WithAcquisition(WithHost(p, h, p.hosts[h].(refCount := left)), a, Rejected)
      .(current := if left == 0 && p.current == Some(h) then None else p.current)
  }

  /** A release; the last one publishes the teardown. */
  function ReleasedBy(p: Page, a: nat, h: nat): Page
    requires h < |p.hosts| && a < |p.acquisitions| && p.hosts[h].refCount > 0
  {
    var left := p.hosts[h].refCount - 1;
    var q := WithAcquisition(WithHost(p, h, p.hosts[h].(refCount := left)), a, Released);
    if left > 0 then q
    else WithHost(q, h, q.hosts[h].(phase := Stopping))
           .(current := if p.current == Some(h) then None else p.current, pendingStop := Some(h))
  }

  function TornDown(p: Page, h: nat): Page
    requires h < |p.hosts|
  {
    WithHost(p, h, p.hosts[h].(phase := Stopped)).(pendingStop := if p.pendingStop == Some(h) then None else p.pendingStop)
  }

  datatype Step =
    | Acquire
    | Recheck(a: nat)         // a waiter's teardown settled: it looks again
    | StopRejected(a: nat)    // the teardown a waiter awaited failed
    | Patch(h: nat)
    | Connected(h: nat)
    | ConnectFailed(h: nat)
    | Restore(h: nat)         // `transport.stop()`, after a failed start or in a teardown
    | Deliver(a: nat)         // an acquisition sees its host's promise settle
    | Release(a: nat)
    | TeardownDone(h: nat)

  predicate Enabled(p: Page, step: Step)
  {
    match step
    case Acquire => true
    case Recheck(a) => a < |p.acquisitions| && p.acquisitions[a].WaitingForStop?
    case StopRejected(a) => a < |p.acquisitions| && p.acquisitions[a].WaitingForStop?
    case Patch(h) => h < |p.hosts| && p.hosts[h].phase.Starting?
    case Connected(h) => h < |p.hosts| && p.hosts[h].phase.Connecting?
    case ConnectFailed(h) => h < |p.hosts| && (p.hosts[h].phase.Starting? || p.hosts[h].phase.Connecting?)
    case Restore(h) => h < |p.hosts| && (p.hosts[h].phase.Failing? || p.hosts[h].phase.Stopping?)
    case Deliver(a) =>
      a < |p.acquisitions| && p.acquisitions[a].Awaiting? && p.acquisitions[a].host < |p.hosts|
      && !p.hosts[p.acquisitions[a].host].phase.Starting? && !p.hosts[p.acquisitions[a].host].phase.Connecting?
      && !p.hosts[p.acquisitions[a].host].phase.Failing?
    case Release(a) => a < |p.acquisitions| && p.acquisitions[a].Held? && p.acquisitions[a].host < |p.hosts|
    case TeardownDone(h) => h < |p.hosts| && p.hosts[h].phase.Restored?
  }

  /** The step, or nothing when it cannot happen. */
  function Next(p: Page, step: Step): Page
    requires InRange(p)
  {
    if !Enabled(p, step) then p else
      match step
      case Acquire => Joined(p.(acquisitions := p.acquisitions + [WaitingForStop]), |p.acquisitions|)
      case Recheck(a) => Joined(p, a)
      case StopRejected(a) => WithAcquisition(p, a, Rejected)
      case Patch(h) => PatchedBy(p, h)
      case Connected(h) => WithHost(p, h, p.hosts[h].(phase := Ready))
      case ConnectFailed(h) => WithHost(p, h, p.hosts[h].(phase := Failing))
      case Restore(h) => Unpatched(p, h, if p.hosts[h].phase.Failing? then Failed else Restored)
      case Deliver(a) =>
        var h := p.acquisitions[a].host;
        if p.hosts[h].phase.Failed? then (if p.hosts[h].refCount > 0 then Abandoned(p, a, h) else p)
        else WithAcquisition(p, a, Held(h))
      case Release(a) =>
        var h := p.acquisitions[a].host;
        if p.hosts[h].refCount > 0 then ReleasedBy(p, a, h) else p
      case TeardownDone(h) => TornDown(p, h)
  }

  // ---- what every interleaving keeps

  /** The callers with a claim on a host. */
  ghost function Holders(p: Page, h: nat): set<nat>
  {
    set a | 0 <= a < |p.acquisitions| && (p.acquisitions[a] == Awaiting(h) || p.acquisitions[a] == Held(h))
  }

  /** Phases a host passes through while someone waits for it or holds it. */
  predicate InUse(phase: Phase)
  {
    phase.Starting? || phase.Connecting? || phase.Ready? || phase.Failing?
  }

  predicate TearingDown(phase: Phase)
  {
    phase.Stopping? || phase.Restored?
  }

  ghost predicate HostOk(p: Page, h: nat)
    requires h < |p.hosts|
  {
    var host := p.hosts[h];
    && host.refCount == |Holders(p, h)|
    && (host.refCount > 0 <==> p.current == Some(h))
    && (InUse(host.phase) ==> host.refCount > 0)
    && (host.refCount > 0 ==> InUse(host.phase) || host.phase.Failed?)
    && (TearingDown(host.phase) <==> p.pendingStop == Some(h))
    && (host.saved.Some? ==> host.saved == Some(Original) && p.global == Patched(h, Original))
    && (host.phase.Connecting? || host.phase.Ready? || host.phase.Stopping? ==> host.saved.Some?)
    && (host.phase.Starting? || host.phase.Failed? || host.phase.Restored? || host.phase.Stopped? ==> host.saved.None?)
  }

  ghost predicate SettledOk(p: Page)
  {
    forall a | 0 <= a < |p.acquisitions| && p.acquisitions[a].Held? && p.acquisitions[a].host < |p.hosts| ::
      p.hosts[p.acquisitions[a].host].phase.Ready?
  }

  ghost predicate Inv(p: Page)
  {
    && InRange(p) && SettledOk(p)
    && (p.current.Some? ==> p.pendingStop.None?)
    && (p.pendingStop.Some? ==> p.pendingStop.value < |p.hosts|)
    && (p.global == Original || (p.global.Patched? && p.global.host < |p.hosts| && p.hosts[p.global.host].saved.Some?))
    && forall h: nat | h < |p.hosts| :: HostOk(p, h)
  }
}

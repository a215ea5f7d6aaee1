/** Upstream subscriptions of client REQs, as a state machine: which upstream subscription
    serves which client, what each may still deliver, and in which order. */
module Coordinator {
  import opened Order
  import opened Events

  /** A client's subscription: the client and the subscription id it chose. */
  datatype Key = Key(client: string, subscription: string)

  /** One link of a subscription's promise chain. */
  datatype Task = Ingest(event: Event) | ReleaseEose

  datatype IngestResult = Threw | Ingested(success: bool, superseded: bool)

  /** One client subscription's upstream state. `sentIds` is an insertion-ordered set; `entered`
      and `evicted` are its history. `done` links of `chain` have settled; `busy` says the next
      one is awaiting its ingest, which began when `mark` ids had entered. */
  datatype Sub = Sub(
    key: Key, seed: seq<string>, sentIds: seq<string>, entered: seq<string>, evicted: nat,
    eoseSent: bool, timer: bool, closed: bool, chain: seq<Task>, done: nat, busy: bool, mark: nat)

  /** What went out to a client: for which subscription object, from which link of its chain,
      and for an event which entry of the dedup history holds its id. */
  datatype Sent =
    | Delivered(ref: nat, ticket: nat, event: Event, mark: nat, at: nat)
    | Eose(ref: nat, ticket: nat)

  /** The coordinator. Subscription objects are named by the sequence number in their upstream
      id, so closures over an object outlive its removal from `subs`. */
  datatype State = State(
    cap: nat, states: map<nat, Sub>, subs: set<nat>, byClientSub: map<Key, nat>,
    sequence: nat, pool: set<nat>, wire: seq<Sent>)

  function Init(cap: nat): State
  {
    State(cap, map[], {}, map[], 0, {}, [])
  }

  // ---- one subscription

  function NewSub(key: Key, ids: seq<string>): Sub
  {
    Sub(key, FirstOccurrences(ids), FirstOccurrences(ids), FirstOccurrences(ids), 0, false, true, false, [], 0, false, 0)
  }

  function AddSentId(cap: nat, sub: Sub, id: string): Sub
  {
    var grown := if id in sub.sentIds then sub
                 else sub.(sentIds := sub.sentIds + [id], entered := sub.entered + [id]);
    if |grown.sentIds| > cap then grown.(sentIds := grown.sentIds[1..], evicted := grown.evicted + 1) else grown
  }

  function Enqueue(sub: Sub, task: Task): Sub
  {
    sub.(chain := sub.chain + [task])
  }

  function Shut(sub: Sub): Sub
  {
    sub.(closed := true, timer := false)
  }

  function Release(sub: Sub): Sub
  {
    Enqueue(sub.(eoseSent := true, timer := false), ReleaseEose)
  }

  predicate Ready(sub: Sub)
  {
    sub.done < |sub.chain| && !sub.busy
  }

  /** The next link begins: EOSE goes out, or an event is dropped, or its ingest starts. */
  function Begin(sub: Sub): Sub
    requires Ready(sub)
  {
    match sub.chain[sub.done]
    case ReleaseEose => sub.(done := sub.done + 1)
    case Ingest(e) =>
      if sub.closed || e.id in sub.sentIds then sub.(done := sub.done + 1)
      else sub.(busy := true, mark := |sub.entered|)
  }

  predicate Awaiting(sub: Sub)
  {
    sub.busy && sub.done < |sub.chain| && sub.chain[sub.done].Ingest?
  }

  predicate Accepted(sub: Sub, result: IngestResult)
  {
    result.Ingested? && result.success && !sub.closed
  }

  /** The awaited ingest resolves. */
  function Resume(cap: nat, sub: Sub, result: IngestResult): Sub
    requires Awaiting(sub)
  {
    var after := if Accepted(sub, result) then AddSentId(cap, sub, sub.chain[sub.done].event.id) else sub;
    after.(busy := false, done := sub.done + 1)
  }

  function IndexOf(ids: seq<string>, id: string): (k: nat)
    requires id in ids
    ensures k < |ids| && ids[k] == id
  {
    if ids[0] == id then 0 else 1 + IndexOf(ids[1..], id)
  }

  /** Where an id stands in the dedup history once it has been added. */
  function EntryOf(sub: Sub, id: string): nat
  {
    if id in sub.sentIds then sub.evicted + IndexOf(sub.sentIds, id) else |sub.entered|
  }

  // ---- the coordinator's operations

  function Closed(s: State, key: Key): State
  {
    if key !in s.byClientSub then s else
      var n := s.byClientSub[key];
      s.(byClientSub := s.byClientSub - {key},
         states := if n in s.subs && n in s.states then s.states[n := Shut(s.states[n])] else s.states,
         subs := s.subs - {n}, pool := s.pool - {n})
  }

  /** A REQ: an existing subscription of that id is replaced. */
  function Opened(s: State, key: Key, sentIds: seq<string>): State
  {
    var c := Closed(s, key);
    var n := c.sequence + 1;
    c.(sequence := n, states := c.states[n := NewSub(key, sentIds)], subs := c.subs + {n},
       byClientSub := c.byClientSub[key := n], pool := c.pool + {n})
  }

  /** A set of client subscriptions closed at once. */
  ghost function ClosedAll(s: State, gone: set<Key>): State
  {
    var refs := set key | key in gone && key in s.byClientSub :: s.byClientSub[key];
    s.(byClientSub := s.byClientSub - gone,
       states := map n | n in s.states :: if n in refs && n in s.subs then Shut(s.states[n]) else s.states[n],
       subs := s.subs - refs, pool := s.pool - refs)
  }

  ghost function KeysOf(s: State, client: string): set<Key>
  {
    set key | key in s.byClientSub && key.client == client
  }

  /** A client disconnects. */
  ghost function Disconnected(s: State, client: string): State
  {
    ClosedAll(s, KeysOf(s, client))
  }

  /** The relay shuts down. */
  function Stopped(s: State): State
  {
    s.(states := map n | n in s.states :: if n in s.subs then Shut(s.states[n]) else s.states[n],
       subs := {}, byClientSub := map[], pool := {})
  }

  function Update(s: State, n: nat, sub: Sub, out: seq<Sent>): State
  {
    s.(states := s.states[n := sub], wire := s.wire + out)
  }

  function Marked(s: State, key: Key, id: string): State
  {
    if key !in s.byClientSub then s else
      var n := s.byClientSub[key];
      if n in s.subs && n in s.states then Update(s, n, AddSentId(s.cap, s.states[n], id), []) else s
  }

  function EventArrived(s: State, n: nat, e: Event): State
  {
    if n !in s.subs || n !in s.states || e.id in s.states[n].sentIds then s
    else Update(s, n, Enqueue(s.states[n], Ingest(e)), [])
  }

  /** The aggregated upstream EOSE, or the timeout: whichever is first. */
  function Flushed(s: State, n: nat): State
  {
    if n !in s.subs || n !in s.states || s.states[n].eoseSent then s
    else Update(s, n, Release(s.states[n]), [])
  }

  function Began(s: State, n: nat): State
    requires n in s.states && Ready(s.states[n])
  {
    var sub := s.states[n];
    Update(s, n, Begin(sub), if sub.chain[sub.done].ReleaseEose? && !sub.closed then [Eose(n, sub.done)] else [])
  }

  function Resumed(s: State, n: nat, result: IngestResult): State
    requires n in s.states && Awaiting(s.states[n])
  {
    var sub := s.states[n];
    var e := sub.chain[sub.done].event;
    Update(s, n, Resume(s.cap, sub, result),
           if Accepted(sub, result) && !result.superseded
           then [Delivered(n, sub.done, e, sub.mark, EntryOf(sub, e.id))] else [])
  }

  /** Everything that can happen, in any order. */
  datatype Step =
    | Open(key: Key, sentIds: seq<string>)
    | Close(key: Key)
    | Disconnect(client: string)
    | MarkDelivered(key: Key, id: string)
    | UpstreamEvent(n: nat, event: Event)
    | UpstreamEose(n: nat)
    | Timeout(n: nat)
    | RunTask(n: nat)
    | FinishIngest(n: nat, result: IngestResult)
    | Stop

  ghost function Next(s: State, step: Step): State
  {
    match step
    case Open(key, sentIds) => Opened(s, key, sentIds)
    case Close(key) => Closed(s, key)
    case Disconnect(client) => Disconnected(s, client)
    case MarkDelivered(key, id) => Marked(s, key, id)
    case UpstreamEvent(n, e) => EventArrived(s, n, e)
    case UpstreamEose(n) => Flushed(s, n)
    case Timeout(n) => if n in s.states && s.states[n].timer then Flushed(s, n) else s
    case RunTask(n) => if n in s.states && Ready(s.states[n]) then Began(s, n) else s
    case FinishIngest(n, result) => if n in s.states && Awaiting(s.states[n]) then Resumed(s, n, result) else s
    case Stop => Stopped(s)
  }

  /** A whole run. */
  ghost function After(s: State, steps: seq<Step>): State
  {
    if steps == [] then s else Next(After(s, steps[..|steps| - 1]), steps[|steps| - 1])
  }
}

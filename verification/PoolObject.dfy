/** The pool as the object it is: its methods update pending sets in place. */
module PoolObject {
  import opened Pool

  class UpstreamRelayPool {
    /** The pending sets made so far; `pendingEose` and `microtasks` refer to them by position. */
    var sets: seq<set<string>>
    var pendingEose: map<string, nat>
    var subscriptions: set<string>
    var microtasks: seq<nat>
    /** The id each pending set was made for, as its microtask captured it. */
    var owners: seq<string>
    var stopped: bool
    ghost var openings: seq<Opening>
    ghost var fired: multiset<nat>

    ghost function Abs(): State
      reads this
    {
      State(openings, sets, pendingEose, subscriptions, microtasks, stopped, fired)
    }

    ghost predicate Represents()
      reads this
    {
      Valid(Abs()) && |owners| == |openings| && forall r | 0 <= r < |owners| :: owners[r] == openings[r].id
    }

    constructor ()
      ensures Represents() && Abs() == Init()
    {
      sets, pendingEose, subscriptions, microtasks, owners, stopped := [], map[], {}, [], [], false;
      openings, fired := [], multiset{};
    }

    method CloseSubscription(id: string)
      requires Represents()
      modifies this`openings, this`pendingEose, this`subscriptions
      ensures Represents() && Abs() == Closed(old(Abs()), id)
    {
      if id in pendingEose {
        openings := WithStatus(openings, pendingEose[id], Dropped);
      }
      pendingEose := pendingEose - {id};
      subscriptions := subscriptions - {id};
    }

    method OpenSubscription(id: string, hasFilters: bool, connectedUrls: set<string>)
      requires Represents()
      modifies this
      ensures Represents() && Abs() == Opened(old(Abs()), id, hasFilters, connectedUrls)
    {
      if stopped {
        return;
      }
      CloseSubscription(id);
      if hasFilters {
        subscriptions := subscriptions + {id};
      }
      Await(id, if hasFilters then connectedUrls else {});
    }

    /** A fresh pending set, with a guard queued at once when nobody owes an answer. */
    method Await(id: string, owed: set<string>)
      requires Represents() && id !in pendingEose
      modifies this`openings, this`sets, this`owners, this`pendingEose, this`microtasks
      ensures Represents() && Abs() == Awaited(old(Abs()), id, owed)
    {
      var r := |sets|;
      openings := openings + [Opening(id, owed, {}, Live)];
      sets, owners := sets + [owed], owners + [id];
      pendingEose := pendingEose[id := r];
      if owed == {} {
        microtasks := microtasks + [r];
      }
    }

    method FireEose(id: string)
      requires Represents()
      modifies this`openings, this`pendingEose, this`fired
      ensures Represents() && Abs() == Fire(old(Abs()), id)
    {
      if id in pendingEose {
        openings := WithStatus(openings, pendingEose[id], Fired);
        fired := fired + multiset{pendingEose[id]};
        pendingEose := pendingEose - {id};
      }
    }

    /** `pending.delete(url)` on one set. */
    method Strike(r: nat, url: string)
      requires Represents() && r < |sets|
      modifies this`openings, this`sets
      ensures Represents() && Abs() == Struck(old(Abs()), r, url)
    {
      openings := openings[r := openings[r].(gone := openings[r].gone + {url})];
      sets := sets[r := sets[r] - {url}];
    }

    method HandleRelayEose(url: string, wire: string)
      requires Represents()
      modifies this
      ensures Represents() && Abs() == RelayAnswered(old(Abs()), url, wire)
    {
      match FromWireSubId(wire)
      case None =>
      case Some(id) =>
        if id != "" && id in pendingEose {
          var r := pendingEose[id];
          Strike(r, url);
          if sets[r] == {} {
            FireEose(id);
          }
        }
    }

    /** First every pending set is struck and the completed ones noted, then those fire. */
    method HandleConnectionState(url: string, up: bool)
      requires Represents() && IdsApart(Abs())
      modifies this
      ensures Represents() && Abs() == Next(old(Abs()), ConnectionState(url, up))
    {
      if up {
        return;
      }
      ghost var s := Abs();
      var toFire := StrikeAll(url);
      ghost var done := {};
      while toFire != {}
        invariant done == Completed(s, url) - toFire && toFire <= Completed(s, url)
        invariant Represents() && Abs() == Partly(s, url, s.pending.Keys, done)
        decreases toFire
      {
        var id :| id in toFire;
        MovedOver(Completed(s, url), toFire, done, id);
        FireOneMore(s, url, done, id);
        toFire := toFire - {id};
        done := done + {id};
      }
      assert done == Completed(s, url);
    }

    method FireOneMore(ghost s: State, url: string, ghost done: set<string>, id: string)
      requires Represents() && IdsApart(s) && id in s.pending && id !in done
      requires Abs() == Partly(s, url, s.pending.Keys, done)
      modifies this`openings, this`pendingEose, this`fired
      ensures Represents() && Abs() == Partly(s, url, s.pending.Keys, done + {id})
    {
      FiredOneMore(s, url, s.pending.Keys, done, id);
      FireEose(id);
    }

    method StrikeAll(url: string) returns (toFire: set<string>)
      requires Represents() && IdsApart(Abs())
      modifies this`openings, this`sets
      ensures Represents() && toFire == Completed(old(Abs()), url)
      ensures Abs() == Partly(old(Abs()), url, old(Abs()).pending.Keys, {})
    {
      ghost var s, seen := Abs(), {};
      ghost var all, wanted := s.pending.Keys, Completed(s, url);
      toFire := {};
      StruckNone(s, url);
      var left := pendingEose.Keys;
      while left != {}
        invariant seen == all - left && left <= all && toFire == wanted * seen && pendingEose == s.pending
        invariant Represents() && Abs() == Partly(s, url, seen, {})
        decreases left
      {
        var id :| id in left;
        MovedOver(all, left, seen, id);
        Selected(wanted, toFire, seen, id);
        var completed := StrikeOneMore(s, url, seen, id);
        toFire := if completed then toFire + {id} else toFire;
        left := left - {id};
        seen := seen + {id};
      }
      AllSeen(wanted, all, seen);
    }

    method StrikeOneMore(ghost s: State, url: string, ghost seen: set<string>, id: string) returns (completed: bool)
      requires Represents() && IdsApart(s) && id in s.pending && id !in seen && pendingEose == s.pending
      requires Abs() == Partly(s, url, seen, {})
      modifies this`openings, this`sets
      ensures Represents() && Abs() == Partly(s, url, seen + {id}, {})
      ensures completed <==> id in Completed(s, url)
    {
      StruckOneMore(s, url, seen, id);
      var r := pendingEose[id];
      var held := url in sets[r];
      Strike(r, url);
      completed := held && sets[r] == {};
    }

    /** The next queued guard runs. */
    method RunMicrotask()
      requires Represents() && microtasks != []
      modifies this
      ensures Represents() && Abs() == MicrotaskRan(old(Abs()))
    {
      var r := microtasks[0];
      microtasks := microtasks[1..];
      if owners[r] in pendingEose && pendingEose[owners[r]] == r {
        FireEose(owners[r]);
      }
    }

    method Start()
      requires Represents()
      modifies this`stopped
      ensures Represents() && Abs() == Next(old(Abs()), Pool.Start)
    {
      stopped := false;
    }

    method Stop()
      requires Represents()
      modifies this
      ensures Represents() && Abs() == Stopped(old(Abs()))
    {
      ghost var before, live := openings, RefsOf(Abs(), pendingEose.Keys);
      openings := seq(|before|, r requires 0 <= r < |before| =>
                        if r in live then before[r].(status := Dropped) else before[r]);
      stopped, subscriptions, pendingEose := true, {}, map[];
    }
  }

  /** An id's pending set was made for that id, so different ids wait on different sets. */
  ghost predicate IdsApart(s: State)
  {
    Valid(s) && forall id | id in s.pending :: s.openings[s.pending[id]].id == id
  }

  /** In every run they do. */
  lemma RunsKeepIdsApart(s: State)
    requires Reachable(s)
    ensures IdsApart(s)
  {
  }

  lemma MovedOver<T>(all: set<T>, left: set<T>, seen: set<T>, x: T)
    requires left <= all && seen == all - left && x in left
    ensures seen + {x} == all - (left - {x}) && x !in seen && left - {x} <= all && x in all
  {
  }

  lemma AllSeen<T>(wanted: set<T>, all: set<T>, seen: set<T>)
    requires wanted <= all && seen == all - {}
    ensures seen == all && wanted * seen == wanted
  {
  }

  lemma Selected<T>(wanted: set<T>, chosen: set<T>, seen: set<T>, x: T)
    requires chosen == wanted * seen
    ensures (if x in wanted then chosen + {x} else chosen) == wanted * (seen + {x})
  {
  }

  lemma StruckNone(s: State, url: string)
    requires Valid(s)
    ensures Partly(s, url, {}, {}) == s
  {
    assert s.pending - {} == s.pending && RefsOf(s, {}) == {} && s.fired + multiset({}) == s.fired;
    assert Partly(s, url, {}, {}).openings == s.openings && Partly(s, url, {}, {}).sets == s.sets;
  }

  lemma OneMoreRef(s: State, ids: set<string>, id: string)
    requires IdsApart(s) && id in s.pending && id !in ids
    ensures s.pending[id] !in RefsOf(s, ids) && RefsOf(s, ids + {id}) == RefsOf(s, ids) + {s.pending[id]}
  {
  }

  lemma StruckOneMore(s: State, url: string, seen: set<string>, id: string)
    requires IdsApart(s) && id in s.pending && id !in seen
    ensures Valid(Partly(s, url, seen, {})) && Partly(s, url, seen, {}).pending == s.pending
    ensures Struck(Partly(s, url, seen, {}), s.pending[id], url) == Partly(s, url, seen + {id}, {})
    ensures Partly(s, url, seen, {}).sets[s.pending[id]] == s.sets[s.pending[id]]
  {
    OneMoreRef(s, seen, id);
    assert s.pending - {} == s.pending && RefsOf(s, {}) == {};
    var a, b := Struck(Partly(s, url, seen, {}), s.pending[id], url), Partly(s, url, seen + {id}, {});
    assert a.openings == b.openings && a.sets == b.sets;
  }

  lemma MultisetOfOneMore(refs: set<nat>, r: nat)
    requires r !in refs
    ensures multiset(refs) + multiset{r} == multiset(refs + {r})
  {
  }

  lemma FiredOneMore(s: State, url: string, seen: set<string>, done: set<string>, id: string)
    requires IdsApart(s) && id in s.pending && id !in done
    ensures Valid(Partly(s, url, seen, done))
    ensures Fire(Partly(s, url, seen, done), id) == Partly(s, url, seen, done + {id})
  {
    OneMoreRef(s, done, id);
    var a, b := Fire(Partly(s, url, seen, done), id), Partly(s, url, seen, done + {id});
    assert a.pending == b.pending;
    MultisetOfOneMore(RefsOf(s, done), s.pending[id]);
    assert a.openings == b.openings;
  }
}

/** NIP-01's rule for replaceable and addressable events: which version of a coordinate wins. */
module Replaceable {
  import opened Order
  import opened Events

  /** A coordinate: (kind, pubkey), plus the `d` identifier for addressable kinds. */
  datatype Address = Address(kind: int, pubkey: string, identifier: string)

  /** The first `d` tag's value; none when there is no such tag, or it carries no value. */
  function GetDTagValue(tags: seq<seq<string>>): Option<string>
  {
    if tags == [] then None
    else if |tags[0]| > 0 && tags[0][0] == "d" then (if |tags[0]| > 1 then Some(tags[0][1]) else None)
    else GetDTagValue(tags[1..])
  }

  function ValueOr(o: Option<string>, otherwise: string): string
  {
    if o.Some? then o.value else otherwise
  }

  function AddressOf(e: Event): Address
  {
    Address(e.kind, e.pubkey, if IsAddressableKind(e.kind) then ValueOr(GetDTagValue(e.tags), "") else "")
  }

  /** The stored version wins over the incoming one. */
  predicate Supersedes(stored: Event, incoming: Event)
  {
    stored.id != incoming.id
    && (if stored.createdAt != incoming.createdAt then stored.createdAt > incoming.createdAt
        else StrLess(stored.id, incoming.id))
  }

  /** The version NIP-01 retains: the newest, ties to the lowest id. */
  ghost function Winner(versions: set<Event>): (w: Option<Event>)
    requires DistinctIds(versions)
    ensures w.None? <==> versions == {}
    ensures w.Some? ==> IsLeast(NewestFirst, versions, w.value)
  {
    if versions == {} then None else
      NewestFirstIsStrict(versions);
      LeastExists(NewestFirst, versions);
      var w :| IsLeast(NewestFirst, versions, w);
      Some(w)
  }

  lemma OneWinner(versions: set<Event>, e: Event)
    requires DistinctIds(versions) && IsLeast(NewestFirst, versions, e)
    ensures Winner(versions) == Some(e)
  {
    NewestFirstIsStrict(versions);
  }

  lemma SupersedesIsNewer(a: Event, b: Event)
    requires a.id == b.id ==> a == b
    ensures Supersedes(a, b) <==> a != b && NewestFirst(a, b)
  {
  }

  /** One more version either loses to the winner so far or replaces it. */
  lemma WinnerOfOneMore(versions: set<Event>, e: Event)
    requires DistinctIds(versions + {e})
    ensures var w := Winner(versions);
            Winner(versions + {e}) == if w.Some? && Supersedes(w.value, e) then w else Some(e)
  {
    var w := Winner(versions);
    NewestFirstIsStrict(versions + {e});
    if w.Some? {
      SupersedesIsNewer(w.value, e);
      if Supersedes(w.value, e) {
        OneWinner(versions + {e}, w.value);
      } else {
        NewWinner(versions, w.value, e);
        OneWinner(versions + {e}, e);
      }
    } else {
      OneWinner(versions + {e}, e);
    }
  }

  lemma NewWinner(versions: set<Event>, w: Event, e: Event)
    requires StrictOrderOn(NewestFirst, versions + {e})
    requires IsLeast(NewestFirst, versions, w) && (e == w || !NewestFirst(w, e))
    ensures IsLeast(NewestFirst, versions + {e}, e)
  {
    forall x | x in versions + {e} && x != e ensures NewestFirst(e, x) {
      if e != w && x != w {
        Transitive(NewestFirst, versions + {e}, e, w, x);
      }
    }
  }

  lemma PrefixElements(q: seq<Event>, i: nat)
    requires i < |q|
    ensures Elements(q[..i + 1]) == Elements(q[..i]) + {q[i]} && Elements(q[..i + 1]) <= Elements(q)
  {
    assert q[..i + 1] == q[..i] + [q[i]];
    assert forall x | x in q[..i + 1] :: x in q;
  }

  /** The storage adapters' choice: a loop over the rows of one coordinate, in any order. */
  method SelectCurrentVersion(versions: seq<Event>) returns (current: Option<Event>)
    requires DistinctIds(Elements(versions))
    ensures current == Winner(Elements(versions))
  {
    current := None;
    for i := 0 to |versions|
      invariant DistinctIds(Elements(versions[..i])) && current == Winner(Elements(versions[..i]))
    {
      PrefixElements(versions, i);
      WinnerOfOneMore(Elements(versions[..i]), versions[i]);
      if current.None? || !Supersedes(current.value, versions[i]) {
        current := Some(versions[i]);
      }
    }
    assert versions[..|versions|] == versions;
  }

  /** The widget's choice, the comparison the other way round: the same version. */
  method LatestReplaceable(events: seq<Event>) returns (current: Option<Event>)
    requires DistinctIds(Elements(events))
    ensures current == Winner(Elements(events))
  {
    current := None;
    for i := 0 to |events|
      invariant DistinctIds(Elements(events[..i])) && current == Winner(Elements(events[..i]))
    {
      PrefixElements(events, i);
      WinnerOfOneMore(Elements(events[..i]), events[i]);
      if current.Some? {
        assert current.value in Elements(events[..i + 1]);
        EitherSupersedes(current.value, events[i]);
      }
      if current.None? || Supersedes(events[i], current.value) {
        current := Some(events[i]);
      }
    }
    assert events[..|events|] == events;
  }

  lemma EitherSupersedes(a: Event, b: Event)
    requires a.id == b.id ==> a == b
    ensures a == b || (Supersedes(a, b) <==> !Supersedes(b, a))
  {
    StrLessTotal(a.id, b.id);
    if StrLess(a.id, b.id) && StrLess(b.id, a.id) {
      StrLessTransitive(a.id, b.id, a.id);
      StrLessIrreflexive(a.id);
    }
  }
}

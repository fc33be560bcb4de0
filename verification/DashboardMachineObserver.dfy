/** The observer as the program runs it: fields updated in place, one loop per step. */
module DashboardMachineObserver {
  import opened OpcUa
  import opened MachineObserver

  /** `std::list::sort`, `std::unique` and the copy into a map, on canonical node ids. */
  method Deduplicate(list: seq<BrowseResult>) returns (listing: map<NodeId, BrowseResult>)
    ensures listing == Listing(list)
  {
    listing := map[];
    for i := 0 to |list|
      invariant listing == Listing(list[..i])
    {
      assert list[..i + 1][..i] == list[..i];
      if list[i].nodeId !in listing {
        listing := listing[list[i].nodeId := list[i]];
      }
    }
    assert list[..|list|] == list;
  }

  // ---------- the turn of one new machine, on values ----------

  lemma BlacklistTurn(s: State, r: Round, done: set<NodeId>, n: NodeId)
    requires r.Browsed? && done <= Browse(r) && n in Browse(r) - done
    ensures var before, after := BlacklistAfter(s, r, done), BlacklistAfter(s, r, done + {n});
            && (n in before <==> n in s.blacklist) && (n in before ==> before[n] == s.blacklist[n])
            && after == if !Due(s.blacklist, n) then before[n := Skip(before[n].count - 1, before[n].reason)]
                        else if Refusal(s.config, r, n).None? then before - {n}
                        else (before - {n})[n := Skip(NUM_SKIP_AFTER_INVALID, Refusal(s.config, r, n).value)]
  {
  }

  lemma AcceptedTurn(s: State, r: Round, done: set<NodeId>, n: NodeId)
    requires r.Browsed? && done <= Fresh(s, r) && n in Fresh(s, r) - done
    ensures Accepted(s, r) * (done + {n}) ==
            (Accepted(s, r) * done) + if Due(s.blacklist, n) && Refusal(s.config, r, n).None? then {n} else {}
    ensures Attempted(s, r) * (done + {n}) ==
            (Attempted(s, r) * done) + if Due(s.blacklist, n) then {n} else {}
  {
  }

  /** The maps in the middle of a round, when the new machines of `done` had their turn. */
  function KnownAt(s: State, r: Round, done: set<NodeId>): map<NodeId, BrowseResult>
    requires r.Browsed?
  {
    (s.known - Dropped(s, r)) + Built(r, Accepted(s, r) * done)
  }

  function ClientsAt(s: State, r: Round, done: set<NodeId>): map<NodeId, BrowseResult>
    requires r.Browsed?
  {
    (s.clients - Dropped(s, r)) + Built(r, (Accepted(s, r) * done) - s.config.ignored)
  }

  function OnlineAt(s: State, r: Round, done: set<NodeId>): map<NodeId, MachineInfo>
    requires r.Browsed?
  {
    (s.online - Dropped(s, r)) + Infos(s, r, (Accepted(s, r) * done) - s.config.ignored)
  }

  lemma KnownTurn(s: State, r: Round, done: set<NodeId>, n: NodeId)
    requires r.Browsed? && done <= Fresh(s, r) && n in Fresh(s, r) - done
    ensures KnownAt(s, r, done + {n}) ==
            if Due(s.blacklist, n) && Refusal(s.config, r, n).None? then KnownAt(s, r, done)[n := Listing(r.list)[n]]
            else KnownAt(s, r, done)
  {
    AcceptedTurn(s, r, done, n);
  }

  lemma ClientsTurn(s: State, r: Round, done: set<NodeId>, n: NodeId)
    requires r.Browsed? && done <= Fresh(s, r) && n in Fresh(s, r) - done
    ensures ClientsAt(s, r, done + {n}) ==
            if Due(s.blacklist, n) && Refusal(s.config, r, n).None? && n !in s.config.ignored
            then ClientsAt(s, r, done)[n := Listing(r.list)[n]]
            else ClientsAt(s, r, done)
  {
    AcceptedTurn(s, r, done, n);
  }

  lemma OnlineTurn(s: State, r: Round, done: set<NodeId>, n: NodeId)
    requires r.Browsed? && done <= Fresh(s, r) && n in Fresh(s, r) - done
    ensures OnlineAt(s, r, done + {n}) ==
            if Due(s.blacklist, n) && Refusal(s.config, r, n).None? && n !in s.config.ignored
            then OnlineAt(s, r, done)[n := MachineInfo(Listing(r.list)[n], TypeName(s, r, n))]
            else OnlineAt(s, r, done)
  {
    AcceptedTurn(s, r, done, n);
    var before, after := (Accepted(s, r) * done) - s.config.ignored, (Accepted(s, r) * (done + {n})) - s.config.ignored;
    if Due(s.blacklist, n) && Refusal(s.config, r, n).None? && n !in s.config.ignored {
      assert after == before + {n};
      OneMoreInfo(s, r, before, n);
    } else {
      assert after == before;
    }
  }

  lemma OneMoreInfo(s: State, r: Round, ns: set<NodeId>, n: NodeId)
    requires r.Browsed? && ns + {n} <= Browse(r)
    requires forall n' :: n' in ns + {n} ==> Refusal(s.config, r, n').None? && n' !in s.config.ignored
    ensures Infos(s, r, ns + {n}) == Infos(s, r, ns)[n := MachineInfo(Listing(r.list)[n], TypeName(s, r, n))]
  {
  }

  function Partial(s: State, r: Round, done: set<NodeId>): State
    requires r.Browsed? && done <= Fresh(s, r)
  {
    State(s.config, KnownAt(s, r, done), Browse(r), BlacklistAfter(s, r, done), s.cache,
          ClientsAt(s, r, done), OnlineAt(s, r, done))
  }

  /** What the turn of one new machine changes. */
  function Turn(t: State, r: Round, n: NodeId): State
    requires r.Browsed? && n in Browse(r)
  {
    var machine := Listing(r.list)[n];
    if !Due(t.blacklist, n) then
      t.(blacklist := t.blacklist[n := Skip(t.blacklist[n].count - 1, t.blacklist[n].reason)])
    else if Refusal(t.config, r, n).Some? then
      t.(blacklist := (t.blacklist - {n})[n := Skip(NUM_SKIP_AFTER_INVALID, Refusal(t.config, r, n).value)])
    else if n in t.config.ignored then
      t.(blacklist := t.blacklist - {n}, known := t.known[n := machine])
    else
      t.(blacklist := t.blacklist - {n}, known := t.known[n := machine], clients := t.clients[n := machine],
         online := t.online[n := MachineInfo(machine, TypeName(t, r, n))])
  }

  lemma PartialTurn(s: State, r: Round, done: set<NodeId>, n: NodeId)
    requires r.Browsed? && done <= Fresh(s, r) && n in Fresh(s, r) - done
    ensures Partial(s, r, done + {n}) == Turn(Partial(s, r, done), r, n)
    ensures Due(Partial(s, r, done).blacklist, n) == Due(s.blacklist, n)
  {
    BlacklistTurn(s, r, done, n);
    KnownTurn(s, r, done, n);
    ClientsTurn(s, r, done, n);
    OnlineTurn(s, r, done, n);
  }

  lemma BlacklistBefore(s: State, r: Round)
    requires r.Browsed?
    ensures BlacklistAfter(s, r, {}) == s.blacklist
  {
  }

  lemma KnownBefore(s: State, r: Round)
    requires r.Browsed?
    ensures KnownAt(s, r, {}) == s.known - Dropped(s, r)
  {
  }

  lemma ClientsBefore(s: State, r: Round)
    requires r.Browsed?
    ensures ClientsAt(s, r, {}) == s.clients - Dropped(s, r)
  {
  }

  lemma OnlineBefore(s: State, r: Round)
    requires r.Browsed?
    ensures OnlineAt(s, r, {}) == s.online - Dropped(s, r)
  {
  }

  lemma PartialAfter(s: State, r: Round)
    requires r.Browsed?
    ensures Partial(s, r, Fresh(s, r)).(cache := Online(r)) == Step(s, r)
  {
    assert Accepted(s, r) * Fresh(s, r) == Accepted(s, r);
  }

  lemma PartialInvariant(s: State, r: Round, done: set<NodeId>)
    requires Inv(s) && r.Browsed? && done <= Fresh(s, r)
    ensures ClientsAt(s, r, done).Keys == OnlineAt(s, r, done).Keys
    ensures ClientsAt(s, r, done).Keys !! (Fresh(s, r) - done)
    ensures KnownAt(s, r, done).Keys !! (Fresh(s, r) - done)
  {
    var dropped, accepted := Dropped(s, r), Accepted(s, r) * done;
    assert ClientsAt(s, r, done).Keys == (s.clients.Keys - dropped) + (accepted - s.config.ignored);
    assert OnlineAt(s, r, done).Keys == (s.online.Keys - dropped) + (accepted - s.config.ignored);
    assert KnownAt(s, r, done).Keys == (s.known.Keys - dropped) + accepted;
  }

  lemma DroppedInTwo(known: map<NodeId, BrowseResult>, clients: map<NodeId, BrowseResult>,
                     online: map<NodeId, MachineInfo>, a: set<NodeId>, b: set<NodeId>)
    ensures (known - a) - b == known - (a + b)
    ensures (clients - a) - b == clients - (a + b)
    ensures (online - a) - b == online - (a + b)
  {
  }

  function DueOf(s: State, ns: set<NodeId>): set<NodeId> {
    set n | n in ns && Due(s.blacklist, n)
  }

  lemma DueOneMore(s: State, ns: set<NodeId>, n: NodeId)
    ensures DueOf(s, ns + {n}) == DueOf(s, ns) + if Due(s.blacklist, n) then {n} else {}
  {
  }

  class Observer {
    const config: Config
    var knownMachines: map<NodeId, BrowseResult>
    var knownMachineToolsSet: set<NodeId>
    var invalidMachines: map<NodeId, Skip>
    var machineIdentificationsCache: map<NodeId, Identification>
    var dashboardClients: map<NodeId, BrowseResult>
    var onlineMachines: map<NodeId, MachineInfo>
    /** The machines `AddMachine` was called for in this round, each at most once. */
    ghost var tried: set<NodeId>

    ghost function Abs(): State
      reads this
    {
      State(config, knownMachines, knownMachineToolsSet, invalidMachines,
            machineIdentificationsCache, dashboardClients, onlineMachines)
    }

    ghost predicate Valid()
      reads this
    {
      Inv(Abs())
    }

    constructor (config: Config)
      ensures Valid() && Abs() == Init(config) && tried == {}
    {
      this.config := config;
      knownMachines, knownMachineToolsSet, invalidMachines := map[], {}, map[];
      machineIdentificationsCache, dashboardClients, onlineMachines := map[], map[], map[];
      tried := {};
    }

    /** One critical section of the clients mutex. */
    method RemoveMachine(n: NodeId)
      requires dashboardClients.Keys == onlineMachines.Keys
      modifies `knownMachines, `dashboardClients, `onlineMachines
      ensures dashboardClients.Keys == onlineMachines.Keys
      ensures knownMachines == old(knownMachines) - {n}
      ensures dashboardClients == old(dashboardClients) - {n}
      ensures onlineMachines == old(onlineMachines) - {n}
    {
      knownMachines := knownMachines - {n};
      if n in dashboardClients {
        dashboardClients := dashboardClients - {n};
      }
      if n in onlineMachines {
        onlineMachines := onlineMachines - {n};
      }
    }

    method RemoveOfflineMachines(toBeRemoved: set<NodeId>)
      requires dashboardClients.Keys == onlineMachines.Keys
      modifies `knownMachines, `dashboardClients, `onlineMachines
      ensures dashboardClients.Keys == onlineMachines.Keys
      ensures knownMachines == old(knownMachines) - toBeRemoved
      ensures dashboardClients == old(dashboardClients) - toBeRemoved
      ensures onlineMachines == old(onlineMachines) - toBeRemoved
    {
      var rest := toBeRemoved;
      while rest != {}
        invariant rest <= toBeRemoved
        invariant dashboardClients.Keys == onlineMachines.Keys
        invariant knownMachines == old(knownMachines) - (toBeRemoved - rest)
        invariant dashboardClients == old(dashboardClients) - (toBeRemoved - rest)
        invariant onlineMachines == old(onlineMachines) - (toBeRemoved - rest)
        decreases rest
      {
        var n :| n in rest;
        RemoveMachine(n);
        rest := rest - {n};
      }
    }

    /** Resets the known machines when the listing differs from the previous one. */
    method MachineListsNotEqual(listing: map<NodeId, BrowseResult>) returns (changed: bool)
      requires dashboardClients.Keys == onlineMachines.Keys
      modifies `knownMachines, `knownMachineToolsSet, `dashboardClients, `onlineMachines
      ensures dashboardClients.Keys == onlineMachines.Keys
      ensures changed == (listing.Keys != old(knownMachineToolsSet))
      ensures knownMachineToolsSet == listing.Keys
      ensures var gone := if changed then old(knownMachineToolsSet) else {};
              && knownMachines == old(knownMachines) - gone
              && dashboardClients == old(dashboardClients) - gone
              && onlineMachines == old(onlineMachines) - gone
    {
      changed := listing.Keys != knownMachineToolsSet;
      if changed {
        RemoveOfflineMachines(knownMachineToolsSet);
        knownMachineToolsSet := listing.Keys;
      }
    }

    static method FindNewAndOfflineMachines(listing: map<NodeId, BrowseResult>, idents: map<NodeId, Identification>,
                                            known: set<NodeId>)
      returns (toBeRemoved: set<NodeId>, newMachines: set<NodeId>, identifications: map<NodeId, Identification>)
      ensures identifications == map n | n in idents && n in listing :: idents[n]
      ensures toBeRemoved == known - identifications.Keys
      ensures newMachines == identifications.Keys - known
    {
      toBeRemoved, newMachines, identifications := known, {}, map[];
      var rest := listing.Keys;
      while rest != {}
        invariant rest <= listing.Keys
        invariant identifications == map n | n in idents && n in listing.Keys - rest :: idents[n]
        invariant toBeRemoved == known - identifications.Keys
        invariant newMachines == identifications.Keys - known
        decreases rest
      {
        var n :| n in rest;
        if n in idents {
          if n in toBeRemoved {
            toBeRemoved := toBeRemoved - {n};
          } else {
            newMachines := newMachines + {n};
          }
          identifications := identifications[n := idents[n]];
        }
        rest := rest - {n};
      }
    }

    /** Counts a blacklisted machine down; at 0 it leaves the blacklist and may be tried. */
    method IgnoreInvalidMachinesTemporarily(n: NodeId) returns (ignore: bool)
      modifies `invalidMachines
      ensures ignore == !Due(old(invalidMachines), n)
      ensures ignore <==> n in old(invalidMachines) && old(invalidMachines)[n].count > 1
      ensures invalidMachines ==
                if ignore then old(invalidMachines)[n := Skip(old(invalidMachines)[n].count - 1, old(invalidMachines)[n].reason)]
                else old(invalidMachines) - {n}
    {
      ignore := false;
      if n in invalidMachines {
        var skip := Skip(invalidMachines[n].count - 1, invalidMachines[n].reason);
        invalidMachines := invalidMachines[n := skip];
        if skip.count <= 0 {
          invalidMachines := invalidMachines - {n};
        } else {
          ignore := true;
        }
      }
    }

    /** Builds a dashboard client unless the machine is ignored; `refusal` is the exception.
        The branch that finds a client under the same node id is never reached. */
    method AddMachine(machine: BrowseResult, r: Round) returns (refusal: Option<string>)
      requires r.Browsed? && machine.nodeId in Listing(r.list) && Listing(r.list)[machine.nodeId] == machine
      requires dashboardClients.Keys == onlineMachines.Keys && machine.nodeId !in dashboardClients && machine.nodeId !in tried
      modifies `dashboardClients, `onlineMachines, `tried
      ensures dashboardClients.Keys == onlineMachines.Keys
      ensures tried == old(tried) + {machine.nodeId}
      ensures refusal == Refusal(config, r, machine.nodeId)
      ensures var n, typ := machine.nodeId, machine.typeDefinition;
              && (refusal.None? <==> n in config.ignored || (typ in config.typeNames && n !in r.refusals))
              && (refusal.Some? ==> refusal.value == if typ !in config.typeNames then "Type not found" else r.refusals[n])
      ensures refusal.Some? || machine.nodeId in config.ignored ==>
        dashboardClients == old(dashboardClients) && onlineMachines == old(onlineMachines)
      ensures refusal.None? && machine.nodeId !in config.ignored ==>
        && dashboardClients == old(dashboardClients)[machine.nodeId := machine]
        && onlineMachines == old(onlineMachines)[machine.nodeId := MachineInfo(machine, config.typeNames[machine.typeDefinition])]
    {
      tried := tried + {machine.nodeId};
      if machine.nodeId in config.ignored {
        return None;
      }
      if machine.typeDefinition !in config.typeNames {
        return Some("Type not found");
      }
      if machine.nodeId in dashboardClients {
        assert false;
      }
      if machine.nodeId in r.refusals {
        return Some(r.refusals[machine.nodeId]);
      }
      dashboardClients := dashboardClients[machine.nodeId := machine];
      onlineMachines := onlineMachines[machine.nodeId := MachineInfo(machine, config.typeNames[machine.typeDefinition])];
      return None;
    }

    method AddNewMachine(machine: BrowseResult, r: Round)
      requires r.Browsed? && machine.nodeId in Listing(r.list) && Listing(r.list)[machine.nodeId] == machine
      requires dashboardClients.Keys == onlineMachines.Keys && machine.nodeId !in dashboardClients && machine.nodeId !in tried
      requires machine.nodeId !in knownMachines && machine.nodeId !in invalidMachines
      modifies `knownMachines, `invalidMachines, `dashboardClients, `onlineMachines, `tried
      ensures dashboardClients.Keys == onlineMachines.Keys
      ensures tried == old(tried) + {machine.nodeId}
      ensures var n, refusal := machine.nodeId, Refusal(config, r, machine.nodeId);
              if refusal.Some? then
                && invalidMachines == old(invalidMachines)[n := Skip(NUM_SKIP_AFTER_INVALID, refusal.value)]
                && knownMachines == old(knownMachines)
                && dashboardClients == old(dashboardClients) && onlineMachines == old(onlineMachines)
              else
                && invalidMachines == old(invalidMachines)
                && knownMachines == old(knownMachines)[n := machine]
                && (n in config.ignored ==> dashboardClients == old(dashboardClients) && onlineMachines == old(onlineMachines))
                && (n !in config.ignored ==>
                      && dashboardClients == old(dashboardClients)[n := machine]
                      && onlineMachines == old(onlineMachines)[n := MachineInfo(machine, config.typeNames[machine.typeDefinition])])
    {
      var refusal := AddMachine(machine, r);
      if refusal.None? {
        knownMachines := knownMachines[machine.nodeId := machine];
      } else {
        invalidMachines := invalidMachines[machine.nodeId := Skip(NUM_SKIP_AFTER_INVALID, refusal.value)];
      }
    }

    /** The turn of one new machine. */
    method ProcessNewMachine(n: NodeId, listing: map<NodeId, BrowseResult>, r: Round)
      requires r.Browsed? && listing == Listing(r.list) && n in listing
      requires dashboardClients.Keys == onlineMachines.Keys && n !in dashboardClients && n !in knownMachines && n !in tried
      modifies `knownMachines, `invalidMachines, `dashboardClients, `onlineMachines, `tried
      ensures dashboardClients.Keys == onlineMachines.Keys
      ensures Abs() == Turn(old(Abs()), r, n)
      ensures tried == old(tried) + if Due(old(invalidMachines), n) then {n} else {}
    {
      ListingIsFirstWins(r.list, n);
      var ignore := IgnoreInvalidMachinesTemporarily(n);
      if !ignore {
        AddNewMachine(listing[n], r);
      }
    }

    method ProcessNext(n: NodeId, listing: map<NodeId, BrowseResult>, r: Round, ghost s: State, ghost done: set<NodeId>)
      requires Inv(s) && r.Browsed? && listing == Listing(r.list) && done <= Fresh(s, r) && n in Fresh(s, r) - done
      requires Abs() == Partial(s, r, done) && tried <= done
      modifies `knownMachines, `invalidMachines, `dashboardClients, `onlineMachines, `tried
      ensures Abs() == Partial(s, r, done + {n})
      ensures tried == old(tried) + if Due(s.blacklist, n) then {n} else {}
    {
      PartialInvariant(s, r, done);
      PartialTurn(s, r, done, n);
      ProcessNewMachine(n, listing, r);
    }

    /** The loop over the new machines, in any order. */
    method ProcessNewMachines(newMachines: set<NodeId>, listing: map<NodeId, BrowseResult>, r: Round, ghost s: State)
      requires Inv(s) && r.Browsed? && listing == Listing(r.list) && newMachines == Fresh(s, r)
      requires Abs() == Partial(s, r, {}) && tried == {}
      modifies `knownMachines, `invalidMachines, `dashboardClients, `onlineMachines, `tried
      ensures Abs() == Partial(s, r, newMachines)
      ensures tried == DueOf(s, newMachines)
    {
      var rest := newMachines;
      ghost var done := {};
      while rest != {}
        invariant rest !! done && rest + done == newMachines
        invariant Abs() == Partial(s, r, done)
        invariant tried == DueOf(s, done)
        decreases rest
      {
        var n :| n in rest;
        ProcessNext(n, listing, r, s, done);
        DueOneMore(s, done, n);
        rest, done := rest - {n}, done + {n};
      }
      assert done == newMachines;
    }

    /** The first half of a round: the machines that are taken down. */
    method TakeDown(known: set<NodeId>, listing: map<NodeId, BrowseResult>, r: Round)
      returns (newMachines: set<NodeId>, identifications: map<NodeId, Identification>)
      requires Valid() && known == knownMachines.Keys && r.Browsed? && listing == Listing(r.list)
      modifies `knownMachines, `knownMachineToolsSet, `dashboardClients, `onlineMachines
      ensures knownMachineToolsSet == Browse(r)
      ensures knownMachines == old(knownMachines) - Dropped(old(Abs()), r)
      ensures dashboardClients == old(dashboardClients) - Dropped(old(Abs()), r)
      ensures onlineMachines == old(onlineMachines) - Dropped(old(Abs()), r)
      ensures newMachines == Fresh(old(Abs()), r) && identifications == Online(r)
    {
      var changed := MachineListsNotEqual(listing);
      var toBeRemoved;
      toBeRemoved, newMachines, identifications := FindNewAndOfflineMachines(listing, r.idents, known);
      RemoveOfflineMachines(toBeRemoved);
      DroppedInTwo(old(knownMachines), old(dashboardClients), old(onlineMachines),
                   if changed then old(knownMachineToolsSet) else {}, toBeRemoved);
    }

    /** A round in which the machines folder could be browsed. */
    method UpdateBrowsed(r: Round)
      requires Valid() && r.Browsed? && tried == {}
      modifies this
      ensures Abs() == Step(old(Abs()), r)
      ensures tried == Attempted(old(Abs()), r)
    {
      ghost var s := Abs();
      var known := knownMachines.Keys;
      var listing := Deduplicate(r.list);
      var newMachines, identifications := TakeDown(known, listing, r);
      BlacklistBefore(s, r);
      KnownBefore(s, r);
      ClientsBefore(s, r);
      OnlineBefore(s, r);
      ProcessNewMachines(newMachines, listing, r, s);
      machineIdentificationsCache := identifications;
      PartialAfter(s, r);
    }

    /** One round. */
    method UpdateMachines(r: Round)
      requires Valid()
      modifies this
      ensures Valid()
      ensures Abs() == Step(old(Abs()), r)
      ensures tried == Attempted(old(Abs()), r)
    {
      StepKeepsInv(Abs(), r);
      tried := {};
      if r.Browsed? {
        UpdateBrowsed(r);
      }
    }
  }
}

/** The retained machine lists: one per type name, and one for the machines that could not
    be added. A retained message stays at the broker until its topic is written again. */
module PublishMachinesList {
  import opened OpcUa
  import opened MachineObserver
  import DashboardMachineObserver
  import Topics

  type Data = map<string, string>

  datatype Entry = Entry(specification: string, data: Data)

  // ---------- what one list object publishes ----------

  /** `AddMachine` on the map of lists. */
  function Add(lists: map<string, seq<Data>>, e: Entry): map<string, seq<Data>> {
    lists[e.specification := (if e.specification in lists then lists[e.specification] else []) + [e.data]]
  }

  function Grouped(entries: seq<Entry>): map<string, seq<Data>> {
    if entries == [] then map[] else Add(Grouped(entries[..|entries| - 1]), entries[|entries| - 1])
  }

  /** The data of one type name, in order. */
  function Select(entries: seq<Entry>, specification: string): seq<Data> {
    if entries == [] then []
    else
      var last := entries[|entries| - 1];
      Select(entries[..|entries| - 1], specification) + if last.specification == specification then [last.data] else []
  }

  lemma {:induction false} GroupedIsSelect(entries: seq<Entry>, specification: string)
    ensures specification in Grouped(entries) <==> Select(entries, specification) != []
    ensures specification in Grouped(entries) ==> Grouped(entries)[specification] == Select(entries, specification)
    ensures specification in Grouped(entries) <==> exists e :: e in entries && e.specification == specification
  {
    if entries != [] {
      var front, last := entries[..|entries| - 1], entries[|entries| - 1];
      GroupedIsSelect(front, specification);
      assert entries == front + [last];
      if specification in Grouped(entries) && last.specification != specification {
        var e :| e in front && e.specification == specification;
        assert e in entries;
      }
    }
  }

  lemma GroupedSnoc(entries: seq<Entry>, e: Entry, specification: string)
    ensures Grouped(entries + [e]) == Add(Grouped(entries), e)
    ensures Select(entries + [e], specification) ==
            Select(entries, specification) + if e.specification == specification then [e.data] else []
  {
    assert (entries + [e])[..|entries|] == entries;
  }

  ghost predicate Injective(topicOf: string -> string) {
    forall a, b :: topicOf(a) == topicOf(b) ==> a == b
  }

  /** What `Publish` sends: every list, and an empty list for every expected name without one. */
  function Payloads(lists: map<string, seq<Data>>, expected: set<string>): map<string, seq<Data>> {
    map s | s in lists.Keys + expected :: if s in lists then lists[s] else []
  }

  predicate Holds(retained: map<string, seq<Data>>, topic: string, payload: seq<Data>) {
    topic in retained && retained[topic] == payload
  }

  predicate Unchanged(before: map<string, seq<Data>>, after: map<string, seq<Data>>, topic: string) {
    if topic in before then Holds(after, topic, before[topic]) else topic !in after
  }

  ghost predicate IsTopicOf(topicOf: string -> string, names: set<string>, topic: string) {
    exists s :: s in names && topic == topicOf(s)
  }

  /** Every payload is retained under the topic of its name, and no other topic changed. */
  ghost predicate Sent(topicOf: string -> string, before: map<string, seq<Data>>, payloads: map<string, seq<Data>>,
                       after: map<string, seq<Data>>)
  {
    && (forall s :: s in payloads ==> Holds(after, topicOf(s), payloads[s]))
    && (forall t :: IsTopicOf(topicOf, payloads.Keys, t) || Unchanged(before, after, t))
  }

  lemma SentNothing(topicOf: string -> string, retained: map<string, seq<Data>>)
    ensures Sent(topicOf, retained, map[], retained)
  {
  }

  lemma SentOneMore(topicOf: string -> string, before: map<string, seq<Data>>, payloads: map<string, seq<Data>>,
                    after: map<string, seq<Data>>, s: string, d: seq<Data>)
    requires Injective(topicOf) && Sent(topicOf, before, payloads, after)
    ensures Sent(topicOf, before, payloads[s := d], after[topicOf(s) := d])
  {
    var more, now := payloads[s := d], after[topicOf(s) := d];
    forall x | x in more
      ensures Holds(now, topicOf(x), more[x])
    {
      assert x != s ==> topicOf(x) != topicOf(s) && Holds(after, topicOf(x), payloads[x]);
    }
    forall t
      ensures IsTopicOf(topicOf, more.Keys, t) || Unchanged(before, now, t)
    {
      if IsTopicOf(topicOf, payloads.Keys, t) {
        var x :| x in payloads && t == topicOf(x);
        assert x in more.Keys;
      } else if t == topicOf(s) {
        assert s in more.Keys;
      } else {
        assert Unchanged(before, after, t);
      }
    }
  }

  ghost function Names(specifications: seq<string>): set<string> {
    set s | s in specifications
  }

  lemma NoneExpected(lists: map<string, seq<Data>>, specifications: seq<string>)
    ensures Payloads(lists, Names(specifications[..0])) == lists
  {
  }

  lemma OneMoreExpected(lists: map<string, seq<Data>>, specifications: seq<string>, i: nat)
    requires i < |specifications|
    ensures Payloads(lists, Names(specifications[..i + 1])) ==
            if specifications[i] in lists then Payloads(lists, Names(specifications[..i]))
            else Payloads(lists, Names(specifications[..i]))[specifications[i] := []]
  {
    assert specifications[..i + 1] == specifications[..i] + [specifications[i]];
    assert Names(specifications[..i + 1]) == Names(specifications[..i]) + {specifications[i]};
  }

  class Broker {
    var retained: map<string, seq<Data>>

    constructor ()
      ensures retained == map[]
    {
      retained := map[];
    }

    method Publish(topic: string, payload: seq<Data>)
      modifies this
      ensures retained == old(retained)[topic := payload]
    {
      retained := retained[topic := payload];
    }
  }

  class MachinesList {
    const specifications: seq<string>
    const topicOf: string -> string
    var machines: map<string, seq<Data>>

    constructor (specifications: seq<string>, topicOf: string -> string)
      ensures machines == map[] && this.specifications == specifications && this.topicOf == topicOf
    {
      this.specifications, this.topicOf, machines := specifications, topicOf, map[];
    }

    method AddMachine(specification: string, data: Data)
      modifies this
      ensures machines == Add(old(machines), Entry(specification, data))
    {
      if specification !in machines {
        machines := machines[specification := []];
      }
      machines := machines[specification := machines[specification] + [data]];
    }

    method Publish(broker: Broker)
      requires Injective(topicOf)
      modifies broker
      ensures Sent(topicOf, old(broker.retained), Payloads(machines, Names(specifications)), broker.retained)
    {
      PublishLists(broker);
      NoneExpected(machines, specifications);
      for i := 0 to |specifications|
        invariant Sent(topicOf, old(broker.retained), Payloads(machines, Names(specifications[..i])), broker.retained)
      {
        OneMoreExpected(machines, specifications, i);
        var s := specifications[i];
        if s !in machines {
          SentOneMore(topicOf, old(broker.retained), Payloads(machines, Names(specifications[..i])), broker.retained, s, []);
          broker.Publish(topicOf(s), []);
        }
      }
      assert specifications[..|specifications|] == specifications;
    }

    /** The first loop of `Publish`. */
    method PublishLists(broker: Broker)
      requires Injective(topicOf)
      modifies broker
      ensures Sent(topicOf, old(broker.retained), machines, broker.retained)
    {
      var rest := machines.Keys;
      SentNothing(topicOf, broker.retained);
      assert machines - rest == map[];
      while rest != {}
        invariant rest <= machines.Keys
        invariant Sent(topicOf, old(broker.retained), machines - rest, broker.retained)
        decreases rest
      {
        var s :| s in rest;
        var publishData: seq<Data> := [];
        for k := 0 to |machines[s]|
          modifies {}
          invariant publishData == machines[s][..k]
        {
          publishData := publishData + [machines[s][k]];
        }
        SentOneMore(topicOf, old(broker.retained), machines - rest, broker.retained, s, machines[s]);
        assert machines - (rest - {s}) == (machines - rest)[s := machines[s]];
        broker.Publish(topicOf(s), publishData);
        rest := rest - {s};
      }
      assert machines - {} == machines;
    }
  }

  // ---------- the machines of a state ----------

  predicate Enumerates(order: seq<NodeId>, keys: set<NodeId>) {
    && (forall n :: n in order ==> n in keys) && (forall n :: n in keys ==> n in order)
    && (forall i, j :: 0 <= i < j < |order| ==> order[i] != order[j])
  }

  predicate HasIdentification(s: State, n: NodeId) {
    n in s.cache && s.cache[n].data != map[]
  }

  /** `parents` has the encoded id of each machine's parent; the null id is written "i=0". */
  function OnlineData(s: State, parents: map<NodeId, string>, n: NodeId): Data {
    (if n in s.cache then s.cache[n].data else map[])["ParentId" := if n in parents then parents[n] else "i=0"]
  }

  function OnlineEntries(s: State, parents: map<NodeId, string>, order: seq<NodeId>): seq<Entry> {
    if order == [] then []
    else
      var front, n := OnlineEntries(s, parents, order[..|order| - 1]), order[|order| - 1];
      if n in s.online && HasIdentification(s, n) then front + [Entry(s.online[n].specification, OnlineData(s, parents, n))]
      else front
  }

  const ERRORS := "errors"

  function InvalidEntries(s: State, order: seq<NodeId>): seq<Entry> {
    if order == [] then []
    else
      var front, n := InvalidEntries(s, order[..|order| - 1]), order[|order| - 1];
      if n in s.blacklist && HasIdentification(s, n) then front + [Entry(ERRORS, s.cache[n].data["Error" := s.blacklist[n].reason])]
      else front
  }

  /** A machine that belongs into the list of a type. */
  predicate Shows(s: State, n: NodeId, specification: string) {
    n in s.online && HasIdentification(s, n) && s.online[n].specification == specification
  }

  function Shown(s: State, order: seq<NodeId>, specification: string): seq<NodeId> {
    if order == [] then []
    else
      var front, n := Shown(s, order[..|order| - 1], specification), order[|order| - 1];
      if Shows(s, n, specification) then front + [n] else front
  }

  lemma {:induction false} ShownOnce(s: State, order: seq<NodeId>, specification: string)
    requires forall i, j :: 0 <= i < j < |order| ==> order[i] != order[j]
    ensures forall n :: n in Shown(s, order, specification) <==> n in order && Shows(s, n, specification)
    ensures var shown := Shown(s, order, specification); forall i, j :: 0 <= i < j < |shown| ==> shown[i] != shown[j]
  {
    if order != [] {
      var front, n := order[..|order| - 1], order[|order| - 1];
      ShownOnce(s, front, specification);
      assert order == front + [n];
      assert n !in Shown(s, front, specification);
    }
  }

  lemma {:induction false} ListIsShown(s: State, parents: map<NodeId, string>, order: seq<NodeId>, specification: string)
    ensures var shown := Shown(s, order, specification);
            Select(OnlineEntries(s, parents, order), specification) == seq(|shown|, i requires 0 <= i < |shown| => OnlineData(s, parents, shown[i]))
  {
    if order != [] {
      var front, n := order[..|order| - 1], order[|order| - 1];
      ListIsShown(s, parents, front, specification);
      if n in s.online && HasIdentification(s, n) {
        GroupedSnoc(OnlineEntries(s, parents, front), Entry(s.online[n].specification, OnlineData(s, parents, n)), specification);
      }
    }
  }

  /** The blacklisted machines that have an identification. */
  function Rejected(s: State, order: seq<NodeId>): seq<NodeId> {
    if order == [] then []
    else
      var front, n := Rejected(s, order[..|order| - 1]), order[|order| - 1];
      if n in s.blacklist && HasIdentification(s, n) then front + [n] else front
  }

  lemma {:induction false} RejectedOnce(s: State, order: seq<NodeId>)
    requires forall i, j :: 0 <= i < j < |order| ==> order[i] != order[j]
    ensures forall n :: n in Rejected(s, order) <==> n in order && n in s.blacklist && HasIdentification(s, n)
    ensures var bad := Rejected(s, order); forall i, j :: 0 <= i < j < |bad| ==> bad[i] != bad[j]
  {
    if order != [] {
      var front, n := order[..|order| - 1], order[|order| - 1];
      RejectedOnce(s, front);
      assert order == front + [n];
      assert n !in Rejected(s, front);
      forall x
        ensures x in Rejected(s, order) <==> x in Rejected(s, front) || (x == n && n in s.blacklist && HasIdentification(s, n))
      {
      }
    }
  }

  function ErrorData(s: State, n: NodeId): Data {
    if n in s.blacklist && n in s.cache then s.cache[n].data["Error" := s.blacklist[n].reason] else map[]
  }

  lemma {:induction false} ErrorListIsRejected(s: State, order: seq<NodeId>)
    ensures forall n :: n in Rejected(s, order) ==> n in s.blacklist && HasIdentification(s, n)
    ensures var bad := Rejected(s, order);
            Select(InvalidEntries(s, order), ERRORS) ==
            seq(|bad|, i requires 0 <= i < |bad| => ErrorData(s, bad[i]))
  {
    if order != [] {
      var front, n := order[..|order| - 1], order[|order| - 1];
      ErrorListIsRejected(s, front);
      if n in s.blacklist && HasIdentification(s, n) {
        GroupedSnoc(InvalidEntries(s, front), Entry(ERRORS, s.cache[n].data["Error" := s.blacklist[n].reason]), ERRORS);
      }
    }
  }

  // ---------- publishing the state of the observer ----------

  function ListTopics(client: string): string -> string {
    s => Topics.List(client, s)
  }

  function ErrorTopics(client: string): string -> string {
    s => Topics.ErrorList(client, s)
  }

  lemma TopicsAreInjective(client: string)
    ensures Injective(ListTopics(client)) && Injective(ErrorTopics(client))
    ensures forall a, b :: ListTopics(client)(a) != ErrorTopics(client)(b)
  {
    forall a, b
      ensures ListTopics(client)(a) == ListTopics(client)(b) ==> a == b
      ensures ErrorTopics(client)(a) == ErrorTopics(client)(b) ==> a == b
      ensures ListTopics(client)(a) != ErrorTopics(client)(b)
    {
      Topics.ListTopicsDistinct(client, a, b, "");
    }
  }

  function OnlinePayloads(s: State, parents: map<NodeId, string>, order: seq<NodeId>, expected: set<string>): map<string, seq<Data>> {
    Payloads(Grouped(OnlineEntries(s, parents, order)), expected)
  }

  function InvalidPayloads(s: State, order: seq<NodeId>): map<string, seq<Data>> {
    Payloads(Grouped(InvalidEntries(s, order)), {ERRORS})
  }

  /** What one call of `publishMachinesList` does to the retained messages. */
  ghost predicate Publishes(client: string, s: State, parents: map<NodeId, string>, expected: set<string>,
                            before: map<string, seq<Data>>, after: map<string, seq<Data>>)
  {
    exists order, badOrder, between ::
      PublishesInOrder(client, s, parents, expected, order, badOrder, before, between, after)
  }

  ghost predicate PublishesInOrder(client: string, s: State, parents: map<NodeId, string>, expected: set<string>,
                                   order: seq<NodeId>, badOrder: seq<NodeId>, before: map<string, seq<Data>>,
                                   between: map<string, seq<Data>>, after: map<string, seq<Data>>)
  {
    && Enumerates(order, s.online.Keys) && Enumerates(badOrder, s.blacklist.Keys)
    && Sent(ListTopics(client), before, OnlinePayloads(s, parents, order, expected), between)
    && Sent(ErrorTopics(client), between, InvalidPayloads(s, badOrder), after)
  }

  method AddOnlineMachine(observer: DashboardMachineObserver.Observer, parents: map<NodeId, string>, n: NodeId,
                          list: MachinesList, ghost order: seq<NodeId>)
    requires n in observer.onlineMachines && list.machines == Grouped(OnlineEntries(observer.Abs(), parents, order))
    modifies list
    ensures list.machines == Grouped(OnlineEntries(observer.Abs(), parents, order + [n]))
  {
    ghost var s := observer.Abs();
    assert (order + [n])[..|order|] == order;
    if n in observer.machineIdentificationsCache && observer.machineIdentificationsCache[n].data != map[] {
      GroupedSnoc(OnlineEntries(s, parents, order), Entry(s.online[n].specification, OnlineData(s, parents, n)), "");
      var data := observer.machineIdentificationsCache[n].data["ParentId" := if n in parents then parents[n] else "i=0"];
      list.AddMachine(observer.onlineMachines[n].specification, data);
    }
  }

  method AddInvalidMachine(observer: DashboardMachineObserver.Observer, n: NodeId, list: MachinesList, ghost order: seq<NodeId>)
    requires n in observer.invalidMachines && list.machines == Grouped(InvalidEntries(observer.Abs(), order))
    modifies list
    ensures list.machines == Grouped(InvalidEntries(observer.Abs(), order + [n]))
  {
    ghost var s := observer.Abs();
    assert (order + [n])[..|order|] == order;
    if n in observer.machineIdentificationsCache && observer.machineIdentificationsCache[n].data != map[] {
      GroupedSnoc(InvalidEntries(s, order), Entry(ERRORS, s.cache[n].data["Error" := s.blacklist[n].reason]), "");
      list.AddMachine(ERRORS, observer.machineIdentificationsCache[n].data["Error" := observer.invalidMachines[n].reason]);
    }
  }

  method AddOnlineMachines(observer: DashboardMachineObserver.Observer, parents: map<NodeId, string>, list: MachinesList)
    returns (ghost order: seq<NodeId>)
    requires list.machines == map[]
    modifies list
    ensures Enumerates(order, observer.onlineMachines.Keys)
    ensures list.machines == Grouped(OnlineEntries(observer.Abs(), parents, order))
  {
    ghost var s := observer.Abs();
    order := [];
    var rest := observer.onlineMachines.Keys;
    while rest != {}
      invariant rest <= observer.onlineMachines.Keys && Enumerates(order, observer.onlineMachines.Keys - rest)
      invariant list.machines == Grouped(OnlineEntries(s, parents, order))
      decreases rest
    {
      var n :| n in rest;
      AddOnlineMachine(observer, parents, n, list, order);
      order := order + [n];
      rest := rest - {n};
    }
  }

  method AddInvalidMachines(observer: DashboardMachineObserver.Observer, list: MachinesList) returns (ghost order: seq<NodeId>)
    requires list.machines == map[]
    modifies list
    ensures Enumerates(order, observer.invalidMachines.Keys)
    ensures list.machines == Grouped(InvalidEntries(observer.Abs(), order))
  {
    ghost var s := observer.Abs();
    order := [];
    var rest := observer.invalidMachines.Keys;
    while rest != {}
      invariant rest <= observer.invalidMachines.Keys && Enumerates(order, observer.invalidMachines.Keys - rest)
      invariant list.machines == Grouped(InvalidEntries(s, order))
      decreases rest
    {
      var n :| n in rest;
      AddInvalidMachine(observer, n, list, order);
      order := order + [n];
      rest := rest - {n};
    }
  }

  /** `publishMachinesList`. */
  method PublishState(observer: DashboardMachineObserver.Observer, parents: map<NodeId, string>, expectedNames: seq<string>,
                      client: string, broker: Broker)
    modifies broker
    ensures Publishes(client, observer.Abs(), parents, Names(expectedNames), old(broker.retained), broker.retained)
  {
    TopicsAreInjective(client);
    var pubList := new MachinesList(expectedNames, ListTopics(client));
    ghost var order := AddOnlineMachines(observer, parents, pubList);
    pubList.Publish(broker);
    ghost var between := broker.retained;
    var pubInvalidList := new MachinesList([ERRORS], ErrorTopics(client));
    ghost var badOrder := AddInvalidMachines(observer, pubInvalidList);
    pubInvalidList.Publish(broker);
    assert Names([ERRORS]) == {ERRORS};
    assert PublishesInOrder(client, observer.Abs(), parents, Names(expectedNames), order, badOrder, old(broker.retained), between, broker.retained);
  }

  // ---------- the type names ----------

  /** The names of the configured types that were read. */
  function Expected(config: Config, types: set<NodeId>): set<string> {
    set t | t in types && t in config.typeNames :: config.typeNames[t]
  }

  /** `updateObjectTypeNames`. */
  method UpdateObjectTypeNames(config: Config, types: set<NodeId>) returns (names: seq<string>)
    ensures forall s :: s in names <==> s in Expected(config, types)
    ensures forall s :: s in names <==> exists t :: t in types && t in config.typeNames && config.typeNames[t] == s
  {
    names := [];
    var rest := types;
    while rest != {}
      invariant rest <= types && forall s :: s in names <==> s in Expected(config, types - rest)
      decreases rest
    {
      var t :| t in rest;
      if t in config.typeNames {
        names := names + [config.typeNames[t]];
      }
      assert types - (rest - {t}) == (types - rest) + {t};
      rest := rest - {t};
    }
  }

  /** A node that browsing a machines folder found, its type already classified; whether it
      has an identification; and what its components folder holds (nothing if it has none or
      browsing it failed). */
  datatype Found = Found(machine: BrowseResult, identified: bool, components: seq<Found>) {
    /** A type without identification type raises the exception that skips the node. */
    predicate IsMachine(types: set<NodeId>) {
      machine.typeDefinition in types && identified
    }
  }

  /** The machines are listed in browse order, each followed by those of its components. */
  function MachinesIn(found: seq<Found>, types: set<NodeId>): seq<BrowseResult> {
    if found == [] then []
    else
      var front, last := MachinesIn(found[..|found| - 1], types), found[|found| - 1];
      if last.IsMachine(types) then front + [last.machine] + MachinesIn(last.components, types) else front
  }

  /** `m` is found under machines only. */
  predicate UnderMachines(found: seq<Found>, types: set<NodeId>, m: BrowseResult) {
    exists i :: 0 <= i < |found| && found[i].machine.typeDefinition in types && found[i].identified &&
                (found[i].machine == m || UnderMachines(found[i].components, types, m))
  }

  /** Machines come in browse order, the components of each right after it. */
  lemma {:induction false} MachinesInOrder(found: seq<Found>, types: set<NodeId>, i: nat)
    requires i < |found|
    ensures MachinesIn(found, types) ==
            MachinesIn(found[..i], types) +
            (if found[i].machine.typeDefinition in types && found[i].identified
             then [found[i].machine] + MachinesIn(found[i].components, types) else []) +
            MachinesIn(found[i + 1..], types)
    decreases |found|
  {
    var last := |found| - 1;
    if i < last {
      MachinesInOrder(found[..last], types, i);
      assert found[..last][..i] == found[..i];
      assert found[i + 1..][..last - i - 1] == found[..last][i + 1..];
      assert found[i + 1..][last - i - 1] == found[last];
    } else {
      assert found[i + 1..] == [];
    }
  }

  /** Exactly the machines of configured types with an identification are listed, those of
      components only below a listed machine. */
  lemma {:induction false} MachinesInIff(found: seq<Found>, types: set<NodeId>, m: BrowseResult)
    ensures m in MachinesIn(found, types) <==> UnderMachines(found, types, m)
    ensures m in MachinesIn(found, types) ==> m.typeDefinition in types
  {
    if found != [] {
      var front, last := found[..|found| - 1], found[|found| - 1];
      MachinesInIff(front, types, m);
      MachinesInIff(last.components, types, m);
      assert found == front + [last];
      if UnderMachines(front, types, m) {
        var i :| 0 <= i < |front| && front[i].machine.typeDefinition in types && front[i].identified &&
                 (front[i].machine == m || UnderMachines(front[i].components, types, m));
        assert found[i] == front[i];
      }
      if last.IsMachine(types) && (last.machine == m || UnderMachines(last.components, types, m)) {
        assert found[|front|] == last;
      }
    }
  }

  /** The loop of `browseForMachines` after the classification, with `findComponentsFolder`. */
  method RecogniseMachines(found: seq<Found>, types: set<NodeId>) returns (machines: seq<BrowseResult>)
    ensures machines == MachinesIn(found, types)
    ensures forall m :: m in machines ==> m.typeDefinition in types
  {
    machines := [];
    for i := 0 to |found|
      invariant machines == MachinesIn(found[..i], types)
    {
      assert found[..i + 1][..i] == found[..i];
      if found[i].machine.typeDefinition in types {
        if found[i].identified {
          var components := RecogniseMachines(found[i].components, types);
          machines := machines + [found[i].machine] + components;
        }
      }
    }
    assert found[..|found|] == found;
    forall m | m in machines
      ensures m.typeDefinition in types
    {
      MachinesInIff(found, types, m);
    }
  }

  predicate Recognised(types: set<NodeId>, r: Round) {
    r.Browsed? ==> forall i :: 0 <= i < |r.list| ==> r.list[i].typeDefinition in types
  }

  /** Every online machine shows the name of a configured type. */
  predicate NamesExpected(s: State, types: set<NodeId>) {
    forall n :: n in s.online ==> s.online[n].specification in Expected(s.config, types)
  }

  /** An online machine was online before, or its type was just listed. */
  lemma OnlineSource(s: State, r: Round, n: NodeId)
    requires r.Browsed? && n in Step(s, r).online
    ensures || (n in s.online && Step(s, r).online[n] == s.online[n])
            || (n in Listing(r.list) && Listing(r.list)[n].typeDefinition in s.config.typeNames &&
                Step(s, r).online[n].specification == s.config.typeNames[Listing(r.list)[n].typeDefinition])
  {
  }

  lemma StepNamesExpected(s: State, r: Round, types: set<NodeId>)
    requires NamesExpected(s, types) && Recognised(types, r)
    ensures NamesExpected(Step(s, r), types)
  {
    if r.Browsed? {
      var after := Step(s, r).online;
      forall n | n in after
        ensures after[n].specification in Expected(s.config, types)
      {
        OnlineSource(s, r, n);
        ListingIsFirstWins(r.list, n);
      }
    }
  }

  lemma {:induction false} RunNamesExpected(config: Config, rounds: seq<Round>, types: set<NodeId>)
    requires forall k :: 0 <= k < |rounds| ==> Recognised(types, rounds[k])
    ensures NamesExpected(Run(Init(config), rounds), types)
  {
    RunKeepsInv(Init(config), rounds);
    if rounds != [] {
      var before := rounds[..|rounds| - 1];
      RunNamesExpected(config, before, types);
      StepNamesExpected(Run(Init(config), before), rounds[|rounds| - 1], types);
    }
  }

  // ---------- no list goes stale ----------

  lemma {:induction false} OnlineListsAreNamed(s: State, parents: map<NodeId, string>, order: seq<NodeId>)
    ensures forall e :: e in OnlineEntries(s, parents, order) ==> exists n :: n in s.online && s.online[n].specification == e.specification
  {
    if order != [] {
      OnlineListsAreNamed(s, parents, order[..|order| - 1]);
    }
  }

  lemma {:induction false} InvalidListsAreErrors(s: State, order: seq<NodeId>)
    ensures forall e :: e in InvalidEntries(s, order) ==> e.specification == ERRORS
  {
    if order != [] {
      InvalidListsAreErrors(s, order[..|order| - 1]);
    }
  }

  /** What is sent for each name, when no entry has any other name. */
  lemma PayloadsOfNamed(entries: seq<Entry>, expected: set<string>)
    requires forall e :: e in entries ==> e.specification in expected
    ensures Payloads(Grouped(entries), expected) == map x | x in expected :: Select(entries, x)
  {
    forall x
      ensures x in Grouped(entries) ==> x in expected
      ensures x in expected ==> Payloads(Grouped(entries), expected)[x] == Select(entries, x)
    {
      GroupedIsSelect(entries, x);
    }
  }

  /** One entry for each online machine of the type that has an identification: the
      identification, with the parent of the machine. */
  ghost predicate IsListOf(s: State, parents: map<NodeId, string>, specification: string, machines: seq<NodeId>, payload: seq<Data>) {
    && (forall i, j :: 0 <= i < j < |machines| ==> machines[i] != machines[j])
    && (forall n :: n in machines <==>
          n in s.online && s.online[n].specification == specification && n in s.cache && s.cache[n].data != map[])
    && |payload| == |machines|
    && forall k :: 0 <= k < |machines| ==>
         machines[k] in s.cache &&
         payload[k] == s.cache[machines[k]].data["ParentId" := if machines[k] in parents then parents[machines[k]] else "i=0"]
  }

  /** One entry for each blacklisted machine that has an identification: the identification,
      with the reason. */
  ghost predicate IsErrorList(s: State, machines: seq<NodeId>, payload: seq<Data>) {
    && (forall i, j :: 0 <= i < j < |machines| ==> machines[i] != machines[j])
    && (forall n :: n in machines <==> n in s.blacklist && n in s.cache && s.cache[n].data != map[])
    && |payload| == |machines|
    && forall k :: 0 <= k < |machines| ==>
         machines[k] in s.cache && machines[k] in s.blacklist &&
         payload[k] == s.cache[machines[k]].data["Error" := s.blacklist[machines[k]].reason]
  }

  /** Every expected list and the error list show the machines as they are in the state. */
  ghost predicate UpToDate(client: string, s: State, parents: map<NodeId, string>, expected: set<string>, retained: map<string, seq<Data>>) {
    && (forall x :: x in expected ==>
          Topics.List(client, x) in retained &&
          exists machines :: IsListOf(s, parents, x, machines, retained[Topics.List(client, x)]))
    && Topics.ErrorList(client, ERRORS) in retained
    && exists machines :: IsErrorList(s, machines, retained[Topics.ErrorList(client, ERRORS)])
  }

  ghost predicate ListsAre(client: string, s: State, parents: map<NodeId, string>, expected: set<string>,
                         order: seq<NodeId>, badOrder: seq<NodeId>, retained: map<string, seq<Data>>)
  {
    && Enumerates(order, s.online.Keys) && Enumerates(badOrder, s.blacklist.Keys)
    && (forall x :: x in expected ==> Holds(retained, Topics.List(client, x), Select(OnlineEntries(s, parents, order), x)))
    && Holds(retained, Topics.ErrorList(client, ERRORS), Select(InvalidEntries(s, badOrder), ERRORS))
  }

  lemma ListShowsMachines(s: State, parents: map<NodeId, string>, order: seq<NodeId>, specification: string)
    requires Enumerates(order, s.online.Keys)
    ensures IsListOf(s, parents, specification, Shown(s, order, specification), Select(OnlineEntries(s, parents, order), specification))
  {
    ListIsShown(s, parents, order, specification);
    ShownOnce(s, order, specification);
    var shown := Shown(s, order, specification);
    assert forall k :: 0 <= k < |shown| ==> shown[k] in shown;
  }

  lemma ErrorListShowsMachines(s: State, order: seq<NodeId>)
    requires Enumerates(order, s.blacklist.Keys)
    ensures IsErrorList(s, Rejected(s, order), Select(InvalidEntries(s, order), ERRORS))
  {
    ErrorListIsRejected(s, order);
    RejectedOnce(s, order);
    var bad := Rejected(s, order);
    assert forall k :: 0 <= k < |bad| ==> bad[k] in bad;
  }

  lemma ListsAreUpToDate(client: string, s: State, parents: map<NodeId, string>, expected: set<string>,
                         order: seq<NodeId>, badOrder: seq<NodeId>, retained: map<string, seq<Data>>)
    requires ListsAre(client, s, parents, expected, order, badOrder, retained)
    ensures UpToDate(client, s, parents, expected, retained)
  {
    forall x | x in expected
      ensures Topics.List(client, x) in retained
      ensures exists machines :: IsListOf(s, parents, x, machines, retained[Topics.List(client, x)])
    {
      ListShowsMachines(s, parents, order, x);
      assert Holds(retained, Topics.List(client, x), Select(OnlineEntries(s, parents, order), x));
    }
    ErrorListShowsMachines(s, badOrder);
  }

  ghost predicate OnlyLists(client: string, expected: set<string>, retained: map<string, seq<Data>>) {
    forall t :: t in retained ==> t == Topics.ErrorList(client, ERRORS) || exists x :: x in expected && t == Topics.List(client, x)
  }

  /** One publication brings everything up to date, whatever was retained before. */
  lemma PublicationIsUpToDate(client: string, s: State, parents: map<NodeId, string>, types: set<NodeId>,
                              before: map<string, seq<Data>>, after: map<string, seq<Data>>)
    requires NamesExpected(s, types) && Publishes(client, s, parents, Expected(s.config, types), before, after)
    ensures UpToDate(client, s, parents, Expected(s.config, types), after)
    ensures OnlyLists(client, Expected(s.config, types), before) ==> OnlyLists(client, Expected(s.config, types), after)
  {
    var expected := Expected(s.config, types);
    var order, badOrder, between :| PublishesInOrder(client, s, parents, expected, order, badOrder, before, between, after);
    OnlineListsAreNamed(s, parents, order);
    PayloadsOfNamed(OnlineEntries(s, parents, order), expected);
    InvalidListsAreErrors(s, badOrder);
    PayloadsOfNamed(InvalidEntries(s, badOrder), {ERRORS});
    SentLists(client, expected, OnlinePayloads(s, parents, order, expected), InvalidPayloads(s, badOrder), before, between, after);
    ListsAreUpToDate(client, s, parents, expected, order, badOrder, after);
  }

  lemma SentLists(client: string, expected: set<string>, online: map<string, seq<Data>>, invalid: map<string, seq<Data>>,
                  before: map<string, seq<Data>>, between: map<string, seq<Data>>, after: map<string, seq<Data>>)
    requires online.Keys == expected && invalid.Keys == {ERRORS}
    requires Sent(ListTopics(client), before, online, between) && Sent(ErrorTopics(client), between, invalid, after)
    ensures forall x :: x in expected ==> Holds(after, Topics.List(client, x), online[x])
    ensures Holds(after, Topics.ErrorList(client, ERRORS), invalid[ERRORS])
    ensures OnlyLists(client, expected, before) ==> OnlyLists(client, expected, after)
  {
    TopicsAreInjective(client);
    forall x | x in expected
      ensures Holds(after, Topics.List(client, x), online[x])
    {
      var t := ListTopics(client)(x);
      assert Holds(between, t, online[x]);
      assert ListTopics(client)(x) != ErrorTopics(client)(ERRORS);
      assert IsTopicOf(ErrorTopics(client), invalid.Keys, t) || Unchanged(between, after, t);
    }
    assert Holds(after, ErrorTopics(client)(ERRORS), invalid[ERRORS]);
    if OnlyLists(client, expected, before) {
      forall t | t in after
        ensures t == Topics.ErrorList(client, ERRORS) || exists x :: x in expected && t == Topics.List(client, x)
      {
        assert IsTopicOf(ErrorTopics(client), invalid.Keys, t) || Unchanged(between, after, t);
        assert IsTopicOf(ListTopics(client), online.Keys, t) || Unchanged(before, between, t);
      }
    }
  }

  // ---------- rounds and publications in any interleaving ----------

  /** A state in the middle of a round: some machines of the round were taken down or added,
      and the identifications are those from before the round or from it. */
  predicate Between(s: State, r: Round, m: State) {
    && m.config == s.config
    && (forall n :: n in m.online ==>
          || (n in s.online && m.online[n] == s.online[n])
          || (n in Step(s, r).online && m.online[n] == Step(s, r).online[n]))
    && (m.cache == s.cache || m.cache == Step(s, r).cache)
  }

  lemma EndsAreBetween(s: State, r: Round)
    ensures Between(s, r, s) && Between(s, r, Step(s, r))
  {
  }

  /** The states after each new machine's turn are of this kind. */
  lemma TurnsAreBetween(s: State, r: Round, done: set<NodeId>)
    requires r.Browsed? && done <= Fresh(s, r)
    ensures Between(s, r, DashboardMachineObserver.Partial(s, r, done))
  {
    var m, all := DashboardMachineObserver.Partial(s, r, done), Step(s, r);
    forall n | n in m.online
      ensures (n in s.online && m.online[n] == s.online[n]) || (n in all.online && m.online[n] == all.online[n])
    {
      if n in (Accepted(s, r) * done) - s.config.ignored {
        assert n in Infos(s, r, Accepted(s, r) - s.config.ignored);
      }
    }
  }

  /** A round has ended; or a publication saw the state `seen` and left `retained`, while the
      round `during` was running, if any. */
  datatype Event =
    | Observed(round: Round)
    | Published(during: Option<Round>, seen: State, parents: map<NodeId, string>, retained: map<string, seq<Data>>)

  function StateAfter(config: Config, events: seq<Event>): State {
    if events == [] then Init(config)
    else
      var before, last := StateAfter(config, events[..|events| - 1]), events[|events| - 1];
      if last.Observed? then Step(before, last.round) else before
  }

  function RetainedAfter(events: seq<Event>): map<string, seq<Data>> {
    if events == [] then map[]
    else if events[|events| - 1].Published? then events[|events| - 1].retained
    else RetainedAfter(events[..|events| - 1])
  }

  /** Two threads: one runs rounds, the other publishes whenever it likes. The broker retains
      nothing at first. */
  ghost predicate GatewayRun(client: string, config: Config, types: set<NodeId>, events: seq<Event>) {
    events == [] ||
    (var front, last := events[..|events| - 1], events[|events| - 1];
     && GatewayRun(client, config, types, front)
     && match last
        case Observed(r) => Recognised(types, r)
        case Published(during, seen, parents, retained) =>
          && (if during.None? then seen == StateAfter(config, front)
              else Recognised(types, during.value) && Between(StateAfter(config, front), during.value, seen))
          && Publishes(client, seen, parents, Expected(config, types), RetainedAfter(front), retained))
  }

  lemma BetweenNamesExpected(s: State, r: Round, m: State, types: set<NodeId>)
    requires NamesExpected(s, types) && Recognised(types, r) && Between(s, r, m)
    ensures NamesExpected(m, types)
  {
    StepNamesExpected(s, r, types);
    if r.Browsed? {
      assert Step(s, r).config == s.config;
    }
  }

  lemma {:induction false} EventsNamesExpected(client: string, config: Config, types: set<NodeId>, events: seq<Event>)
    requires GatewayRun(client, config, types, events)
    ensures NamesExpected(StateAfter(config, events), types) && StateAfter(config, events).config == config
  {
    if events != [] {
      var front, last := events[..|events| - 1], events[|events| - 1];
      EventsNamesExpected(client, config, types, front);
      if last.Observed? {
        StepNamesExpected(StateAfter(config, front), last.round, types);
      }
    }
  }

  /** Whatever the interleaving: at every point nothing but lists of expected names and the
      error list is retained, and a publication brings all of them up to date with the state
      it sees; so no retained list is older than the last publication. */
  lemma {:induction false} NoListIsStale(client: string, config: Config, types: set<NodeId>, events: seq<Event>)
    requires GatewayRun(client, config, types, events)
    ensures OnlyLists(client, Expected(config, types), RetainedAfter(events))
    ensures events != [] && events[|events| - 1].Published? ==>
              var last := events[|events| - 1];
              UpToDate(client, last.seen, last.parents, Expected(config, types), RetainedAfter(events))
  {
    if events != [] {
      var front, last := events[..|events| - 1], events[|events| - 1];
      NoListIsStale(client, config, types, front);
      if last.Published? {
        EventsNamesExpected(client, config, types, front);
        if last.during.Some? {
          BetweenNamesExpected(StateAfter(config, front), last.during.value, last.seen, types);
        }
        PublicationIsUpToDate(client, last.seen, last.parents, types, RetainedAfter(front), last.retained);
      }
    }
  }
}

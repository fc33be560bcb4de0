/** The machine observer: one call of `UpdateMachines` is one round. `Step` says in
    closed form what a round does to the observer's state; the class does it with the
    loops of the program and is proved to agree. */
module MachineObserver {
  import opened OpcUa

  const NUM_SKIP_AFTER_INVALID := 10

  datatype Identification = Identification(data: map<string, string>)

  /** What the server answers during one round: the machines folder cannot be browsed, or
      it lists machines (a machine may be listed twice), the machines of `idents` answer
      that they are online, and building a client fails for the machines of `refusals`. */
  datatype Round =
    | Unreachable
    | Browsed(list: seq<BrowseResult>, idents: map<NodeId, Identification>, refusals: map<NodeId, string>)

  datatype Skip = Skip(count: int, reason: string)

  datatype MachineInfo = MachineInfo(machine: BrowseResult, specification: string)

  /** Fixed for the observer's life: the machines that never get a dashboard client (two node
      ids in the program, any here), and the browse names of the types that were read. */
  datatype Config = Config(ignored: set<NodeId>, typeNames: map<NodeId, string>)

  datatype State = State(
    config: Config,
    known: map<NodeId, BrowseResult>,
    browsed: set<NodeId>,
    blacklist: map<NodeId, Skip>,
    cache: map<NodeId, Identification>,
    clients: map<NodeId, BrowseResult>,
    online: map<NodeId, MachineInfo>)

  function Init(config: Config): State {
    State(config, map[], {}, map[], map[], map[], map[])
  }

  // ---------- one round in closed form ----------

  /** The browsed list with duplicates removed, the first entry of a node id winning. */
  function Listing(list: seq<BrowseResult>): map<NodeId, BrowseResult> {
    if list == [] then map[]
    else
      var m, last := Listing(list[..|list| - 1]), list[|list| - 1];
      if last.nodeId in m then m else m[last.nodeId := last]
  }

  lemma {:induction false} ListingIsFirstWins(list: seq<BrowseResult>, n: NodeId)
    ensures n in Listing(list) <==> exists i :: 0 <= i < |list| && list[i].nodeId == n
    ensures n in Listing(list) ==>
      exists i :: 0 <= i < |list| && list[i].nodeId == n && Listing(list)[n] == list[i] &&
                  forall j :: 0 <= j < i ==> list[j].nodeId != n
  {
    if list != [] {
      var before := list[..|list| - 1];
      ListingIsFirstWins(before, n);
      if n !in Listing(before) {
        assert forall j :: 0 <= j < |before| ==> before[j] == list[j];
      } else {
        var i :| 0 <= i < |before| && before[i].nodeId == n && Listing(before)[n] == before[i] &&
                 forall j :: 0 <= j < i ==> before[j].nodeId != n;
        assert list[i] == before[i];
        assert forall j :: 0 <= j < i ==> list[j] == before[j];
      }
    }
  }

  function Browse(r: Round): set<NodeId>
    requires r.Browsed?
  {
    Listing(r.list).Keys
  }

  function Online(r: Round): map<NodeId, Identification>
    requires r.Browsed?
  {
    map n | n in r.idents && n in Listing(r.list) :: r.idents[n]
  }

  predicate Changed(s: State, r: Round)
    requires r.Browsed?
  {
    Browse(r) != s.browsed
  }

  /** Machines taken down in a round: all of the previous listing if the listing changed,
      and every known machine that is not online. */
  function Dropped(s: State, r: Round): set<NodeId>
    requires r.Browsed?
  {
    (if Changed(s, r) then s.browsed else {}) + (s.known.Keys - Online(r).Keys)
  }

  /** Online machines that were not known when the round began. */
  function Fresh(s: State, r: Round): set<NodeId>
    requires r.Browsed?
  {
    Online(r).Keys - s.known.Keys
  }

  /** Whether the blacklist lets machine `n` be tried when its turn comes. */
  predicate Due(blacklist: map<NodeId, Skip>, n: NodeId) {
    n in blacklist ==> blacklist[n].count <= 1
  }

  function Attempted(s: State, r: Round): set<NodeId> {
    if r.Unreachable? then {} else set n | n in Fresh(s, r) && Due(s.blacklist, n)
  }

  /** Why no client is built: the type was never read, or reading the instance failed. */
  function Refusal(c: Config, r: Round, n: NodeId): Option<string>
    requires r.Browsed? && n in Listing(r.list)
  {
    if n in c.ignored then None
    else if Listing(r.list)[n].typeDefinition !in c.typeNames then Some("Type not found")
    else if n in r.refusals then Some(r.refusals[n])
    else None
  }

  function Accepted(s: State, r: Round): set<NodeId>
    requires r.Browsed?
  {
    set n | n in Attempted(s, r) && Refusal(s.config, r, n).None?
  }

  /** The blacklist after the machines of `done` had their turn. */
  function BlacklistAfter(s: State, r: Round, done: set<NodeId>): map<NodeId, Skip>
    requires r.Browsed? && done <= Browse(r)
  {
    var b := s.blacklist;
    map n | n in b.Keys + done && !(n in done && Due(b, n) && Refusal(s.config, r, n).None?)
      :: if n !in done then b[n]
         else if !Due(b, n) then Skip(b[n].count - 1, b[n].reason)
         else Skip(NUM_SKIP_AFTER_INVALID, Refusal(s.config, r, n).value)
  }

  function Built(r: Round, ns: set<NodeId>): map<NodeId, BrowseResult>
    requires r.Browsed? && ns <= Browse(r)
  {
    map n | n in ns :: Listing(r.list)[n]
  }

  function TypeName(s: State, r: Round, n: NodeId): string
    requires r.Browsed? && n in Listing(r.list) && Refusal(s.config, r, n).None? && n !in s.config.ignored
  {
    s.config.typeNames[Listing(r.list)[n].typeDefinition]
  }

  function Infos(s: State, r: Round, ns: set<NodeId>): map<NodeId, MachineInfo>
    requires r.Browsed? && ns <= Browse(r)
    requires forall n :: n in ns ==> Refusal(s.config, r, n).None? && n !in s.config.ignored
  {
    map n | n in ns :: MachineInfo(Listing(r.list)[n], TypeName(s, r, n))
  }

  function Step(s: State, r: Round): State {
    if r.Unreachable? then s
    else
      var dropped, accepted := Dropped(s, r), Accepted(s, r);
      State(s.config,
            (s.known - dropped) + Built(r, accepted),
            Browse(r),
            BlacklistAfter(s, r, Fresh(s, r)),
            Online(r),
            (s.clients - dropped) + Built(r, accepted - s.config.ignored),
            (s.online - dropped) + Infos(s, r, accepted - s.config.ignored))
  }

  // ---------- the invariant ----------

  /** Known machines were in the last listing and have an identification. */
  predicate Listed(s: State) {
    && s.known.Keys <= s.browsed
    && s.known.Keys <= s.cache.Keys
    && (forall n :: n in s.known ==> s.known[n].nodeId == n)
  }

  /** Dashboard clients and online machines are the known machines that are not ignored. */
  predicate KeysAgree(s: State) {
    Agree(s.config.ignored, s.known, s.clients, s.online)
  }

  predicate Agree(ignored: set<NodeId>, known: map<NodeId, BrowseResult>,
                  clients: map<NodeId, BrowseResult>, online: map<NodeId, MachineInfo>) {
    && clients.Keys == online.Keys == known.Keys - ignored
    && (forall n :: n in clients ==> clients[n] == known[n] == online[n].machine)
  }

  predicate BlacklistOk(s: State) {
    && s.blacklist.Keys !! s.known.Keys
    && (forall n :: n in s.blacklist ==> 1 <= s.blacklist[n].count <= NUM_SKIP_AFTER_INVALID)
  }

  predicate Inv(s: State) {
    Listed(s) && KeysAgree(s) && BlacklistOk(s)
  }

  /** The known machines after a round: those still listed as before and online, and the accepted ones. */
  lemma KnownAfter(s: State, r: Round)
    requires r.Browsed? && Listed(s)
    ensures Accepted(s, r) <= Fresh(s, r) <= Online(r).Keys
    ensures Step(s, r).known.Keys == (if Changed(s, r) then {} else s.known.Keys * Online(r).Keys) + Accepted(s, r)
    ensures s.known.Keys - Dropped(s, r) == if Changed(s, r) then {} else s.known.Keys * Online(r).Keys
  {
    var dropped, kept := Dropped(s, r), if Changed(s, r) then {} else s.known.Keys * Online(r).Keys;
    assert s.known.Keys - dropped == kept;
    assert (s.known - dropped).Keys == kept;
    assert Built(r, Accepted(s, r)).Keys == Accepted(s, r);
  }

  lemma BlacklistAfterStep(s: State, r: Round)
    requires r.Browsed? && Listed(s) && BlacklistOk(s)
    ensures BlacklistOk(Step(s, r))
  {
    KnownAfter(s, r);
  }

  lemma AgreeAfter(ignored: set<NodeId>, known: map<NodeId, BrowseResult>,
                   clients: map<NodeId, BrowseResult>, online: map<NodeId, MachineInfo>,
                   dropped: set<NodeId>, built: map<NodeId, BrowseResult>,
                   served: map<NodeId, BrowseResult>, infos: map<NodeId, MachineInfo>)
    requires Agree(ignored, known, clients, online) && Agree(ignored, built, served, infos)
    ensures Agree(ignored, (known - dropped) + built, (clients - dropped) + served, (online - dropped) + infos)
  {
    assert ((known - dropped) + built).Keys == (known.Keys - dropped) + built.Keys;
    assert ((clients - dropped) + served).Keys == (clients.Keys - dropped) + served.Keys;
    assert ((online - dropped) + infos).Keys == (online.Keys - dropped) + infos.Keys;
  }

  lemma KeysAgreeAfterStep(s: State, r: Round)
    requires r.Browsed? && KeysAgree(s)
    ensures KeysAgree(Step(s, r))
  {
    var accepted := Accepted(s, r);
    var served := accepted - s.config.ignored;
    AgreeAfter(s.config.ignored, s.known, s.clients, s.online, Dropped(s, r),
               Built(r, accepted), Built(r, served), Infos(s, r, served));
  }

  lemma ListedAfterStep(s: State, r: Round)
    requires r.Browsed? && Listed(s)
    ensures Listed(Step(s, r))
  {
    KnownAfter(s, r);
    forall n | n in Accepted(s, r)
      ensures Listing(r.list)[n].nodeId == n
    {
      ListingIsFirstWins(r.list, n);
    }
  }

  lemma StepKeepsInv(s: State, r: Round)
    requires Inv(s)
    ensures Inv(Step(s, r)) && Step(s, r).config == s.config
  {
    if r.Browsed? {
      ListedAfterStep(s, r);
      BlacklistAfterStep(s, r);
      KeysAgreeAfterStep(s, r);
    }
  }

  // ---------- one round: where every online machine ends up ----------

  /** Every online machine is known, or blacklisted, or was dropped because the listing changed. */
  lemma Partition(s: State, r: Round)
    requires Inv(s) && r.Browsed?
    ensures var s', online := Step(s, r), Online(r).Keys;
            var extra := if Changed(s, r) then s.known.Keys * online else {};
            && online == s'.known.Keys + (s'.blacklist.Keys * online) + extra
            && s'.known.Keys !! (s'.blacklist.Keys * online) !! extra
  {
    KnownAfter(s, r);
    BlacklistAfterStep(s, r);
    var s', online := Step(s, r), Online(r).Keys;
    forall n | n in online
      ensures n in s'.blacklist <==> n !in s.known && n !in Accepted(s, r)
    {
      BlacklistAt(s, r, n);
    }
    ThreeWaySplit(online, s.known.Keys, Accepted(s, r), s'.blacklist.Keys, Changed(s, r));
  }

  lemma ThreeWaySplit(online: set<NodeId>, before: set<NodeId>, accepted: set<NodeId>, blacklist: set<NodeId>, changed: bool)
    requires accepted <= online - before
    requires forall n :: n in online ==> (n in blacklist <==> n !in before && n !in accepted)
    ensures var known := (if changed then {} else before * online) + accepted;
            var extra := if changed then before * online else {};
            && online == known + (blacklist * online) + extra
            && known !! (blacklist * online) !! extra
  {
  }

  lemma BlacklistAt(s: State, r: Round, n: NodeId)
    requires Inv(s) && r.Browsed? && n in Online(r)
    ensures n in Step(s, r).blacklist <==> n !in s.known && n !in Accepted(s, r)
  {
  }

  // ---------- one round, machine by machine ----------

  /** The browsed list has the machine. */
  predicate IsListed(r: Round, n: NodeId)
    requires r.Browsed?
  {
    exists i :: 0 <= i < |r.list| && r.list[i].nodeId == n
  }

  /** `e` is the first entry of the browsed list for machine `n`. */
  predicate Heads(list: seq<BrowseResult>, n: NodeId, e: BrowseResult) {
    exists i :: 0 <= i < |list| && list[i] == e && e.nodeId == n && forall j :: 0 <= j < i ==> list[j].nodeId != n
  }

  /** The server has just the machines it had in the last round. */
  ghost predicate SameMachines(s: State, r: Round)
    requires r.Browsed?
  {
    forall n :: n in s.browsed <==> IsListed(r, n)
  }

  /** The round tries to build a client for the machine. */
  predicate Tried(s: State, r: Round, n: NodeId) {
    && r.Browsed? && IsListed(r, n) && n in r.idents && n !in s.known
    && (n in s.blacklist ==> s.blacklist[n].count <= 1)
  }

  /** Building one fails: its type was never read, or reading it from the server throws. */
  ghost predicate Unbuildable(c: Config, r: Round, n: NodeId) {
    && r.Browsed? && n !in c.ignored
    && ((exists e :: Heads(r.list, n, e) && e.typeDefinition !in c.typeNames) || n in r.refusals)
  }

  predicate Absent(s: State, n: NodeId) {
    n !in s.known && n !in s.clients && n !in s.online
  }

  predicate Waits(s: State, n: NodeId, skip: Skip) {
    Absent(s, n) && n in s.blacklist && s.blacklist[n] == skip
  }

  lemma {:induction false} ListingHeads(list: seq<BrowseResult>, n: NodeId, e: BrowseResult)
    ensures Heads(list, n, e) <==> n in Listing(list) && Listing(list)[n] == e
  {
    ListingIsFirstWins(list, n);
    if Heads(list, n, e) {
      var i :| 0 <= i < |list| && list[i] == e && e.nodeId == n && forall j :: 0 <= j < i ==> list[j].nodeId != n;
      var k :| 0 <= k < |list| && list[k].nodeId == n && Listing(list)[n] == list[k] && forall j :: 0 <= j < k ==> list[j].nodeId != n;
      assert i == k;
    }
  }

  lemma ListedIff(r: Round, n: NodeId)
    requires r.Browsed?
    ensures IsListed(r, n) <==> n in Browse(r)
    ensures IsListed(r, n) && n in r.idents <==> n in Online(r)
    ensures n in Online(r) ==> Online(r)[n] == r.idents[n]
  {
    ListingIsFirstWins(r.list, n);
  }

  lemma ChangedIff(s: State, r: Round)
    requires r.Browsed?
    ensures Changed(s, r) <==> !SameMachines(s, r)
  {
    forall n
      ensures IsListed(r, n) <==> n in Browse(r)
    {
      ListedIff(r, n);
    }
    if SameMachines(s, r) {
      assert Browse(r) == s.browsed;
    }
  }

  lemma TriedIff(s: State, r: Round, n: NodeId)
    ensures n in Attempted(s, r) <==> Tried(s, r, n)
  {
    if r.Browsed? {
      ListedIff(r, n);
    }
  }

  lemma RefusalIff(c: Config, r: Round, n: NodeId)
    requires r.Browsed? && n in Listing(r.list)
    ensures Refusal(c, r, n).Some? <==> Unbuildable(c, r, n)
  {
    ListingHeads(r.list, n, Listing(r.list)[n]);
    if Unbuildable(c, r, n) && n !in r.refusals {
      var e :| Heads(r.list, n, e) && e.typeDefinition !in c.typeNames;
      ListingHeads(r.list, n, e);
    }
  }

  /** What the round remembers of the server. */
  lemma RoundRemembers(s: State, r: Round, n: NodeId)
    requires r.Browsed?
    ensures n in Step(s, r).browsed <==> IsListed(r, n)
    ensures n in Step(s, r).cache <==> IsListed(r, n) && n in r.idents
    ensures n in Step(s, r).cache ==> Step(s, r).cache[n] == r.idents[n]
  {
    ListedIff(r, n);
  }

  /** A machine that is not listed, or not online, is taken down; its blacklist entry stays. */
  lemma OfflineMachine(s: State, r: Round, n: NodeId)
    requires Inv(s) && r.Browsed? && !(IsListed(r, n) && n in r.idents)
    ensures Absent(Step(s, r), n)
    ensures n in Step(s, r).blacklist <==> n in s.blacklist
    ensures n in s.blacklist ==> Step(s, r).blacklist[n] == s.blacklist[n]
  {
    ListedIff(r, n);
    KnownAfter(s, r);
    KeysAgreeAfterStep(s, r);
  }

  /** A known machine that is online stays as it was if the same machines were listed, and is
      taken down otherwise. */
  lemma KnownMachine(s: State, r: Round, n: NodeId)
    requires Inv(s) && r.Browsed? && IsListed(r, n) && n in r.idents && n in s.known
    ensures n !in Step(s, r).blacklist
    ensures !SameMachines(s, r) ==> Absent(Step(s, r), n)
    ensures SameMachines(s, r) ==>
              && n in Step(s, r).known && Step(s, r).known[n] == s.known[n]
              && (n in Step(s, r).clients <==> n in s.clients) && (n in s.clients ==> Step(s, r).clients[n] == s.clients[n])
              && (n in Step(s, r).online <==> n in s.online) && (n in s.online ==> Step(s, r).online[n] == s.online[n])
  {
    ListedIff(r, n);
    ChangedIff(s, r);
    KnownAfter(s, r);
    KeysAgreeAfterStep(s, r);
    BlacklistAt(s, r, n);
  }

  /** A blacklisted machine that is online waits one round less. */
  lemma WaitingMachine(s: State, r: Round, n: NodeId)
    requires Inv(s) && r.Browsed? && IsListed(r, n) && n in r.idents && n in s.blacklist && s.blacklist[n].count > 1
    ensures Waits(Step(s, r), n, Skip(s.blacklist[n].count - 1, s.blacklist[n].reason))
  {
    ListedIff(r, n);
    KnownAfter(s, r);
    KeysAgreeAfterStep(s, r);
  }

  /** A machine that is tried and whose type was never read, or whose instance cannot be read,
      waits 10 rounds under that reason. */
  lemma RefusedMachine(s: State, r: Round, n: NodeId, e: BrowseResult)
    requires Inv(s) && Tried(s, r, n) && Heads(r.list, n, e) && n !in s.config.ignored
    ensures e.typeDefinition !in s.config.typeNames ==> Waits(Step(s, r), n, Skip(10, "Type not found"))
    ensures e.typeDefinition in s.config.typeNames && n in r.refusals ==> Waits(Step(s, r), n, Skip(10, r.refusals[n]))
  {
    ListedIff(r, n);
    ListingHeads(r.list, n, e);
    KnownAfter(s, r);
    KeysAgreeAfterStep(s, r);
  }

  /** Any other machine that is tried is added: with its client and shown under the name of
      its type, or, if it is an ignored one, without. */
  lemma AddedMachine(s: State, r: Round, n: NodeId, e: BrowseResult)
    requires Inv(s) && Tried(s, r, n) && Heads(r.list, n, e)
    requires n in s.config.ignored || (e.typeDefinition in s.config.typeNames && n !in r.refusals)
    ensures n in Step(s, r).known && Step(s, r).known[n] == e && n !in Step(s, r).blacklist
    ensures n in s.config.ignored ==> n !in Step(s, r).clients && n !in Step(s, r).online
    ensures n !in s.config.ignored ==>
              && n in Step(s, r).clients && Step(s, r).clients[n] == e
              && n in Step(s, r).online && Step(s, r).online[n] == MachineInfo(e, s.config.typeNames[e.typeDefinition])
  {
    ListedIff(r, n);
    ListingHeads(r.list, n, e);
    KnownAfter(s, r);
    KeysAgreeAfterStep(s, r);
    BlacklistAt(s, r, n);
    assert n in Accepted(s, r);
    assert n !in s.config.ignored ==> n in Infos(s, r, Accepted(s, r) - s.config.ignored);
  }

  // ---------- whole runs ----------

  function Run(s: State, rounds: seq<Round>): State {
    if rounds == [] then s else Step(Run(s, rounds[..|rounds| - 1]), rounds[|rounds| - 1])
  }

  lemma {:induction false} RunKeepsInv(s: State, rounds: seq<Round>)
    requires Inv(s)
    ensures Inv(Run(s, rounds)) && Run(s, rounds).config == s.config
  {
    if rounds != [] {
      RunKeepsInv(s, rounds[..|rounds| - 1]);
      StepKeepsInv(Run(s, rounds[..|rounds| - 1]), rounds[|rounds| - 1]);
    }
  }

  lemma {:induction false} RunOfSum(s: State, a: seq<Round>, b: seq<Round>)
    ensures Run(s, a + b) == Run(Run(s, a), b)
  {
    if b == [] {
      assert a + b == a;
    } else {
      RunOfSum(s, a, b[..|b| - 1]);
      assert (a + b)[..|a + b| - 1] == a + b[..|b| - 1];
    }
  }

  lemma {:induction false} RunOfUnreachable(s: State, gap: seq<Round>)
    requires forall i :: 0 <= i < |gap| ==> gap[i].Unreachable?
    ensures Run(s, gap) == s
  {
    if gap != [] {
      RunOfUnreachable(s, gap[..|gap| - 1]);
    }
  }

  /** A round's aftermath when no machine is lost to a changed listing. */
  predicate Converged(s: State, r: Round)
    requires r.Browsed?
  {
    var online := Online(r).Keys;
    && s.known.Keys + (s.blacklist.Keys * online) == online
    && s.known.Keys !! s.blacklist.Keys
    && s.clients.Keys == s.online.Keys == s.known.Keys - s.config.ignored
    && s.known.Keys <= s.browsed == Browse(r)
    && s.known.Keys <= s.cache.Keys == online
  }

  lemma EqualListingConverges(s: State, r: Round)
    requires Inv(s) && r.Browsed? && !Changed(s, r)
    ensures Converged(Step(s, r), r)
  {
    Partition(s, r);
    StepKeepsInv(s, r);
  }

  /** Whatever happened before, once two successful rounds in a row list the same machines,
      the online machines are exactly the known and the blacklisted ones. */
  lemma TwoEqualListingsConverge(config: Config, history: seq<Round>, first: Round, gap: seq<Round>, second: Round)
    requires first.Browsed? && second.Browsed? && Browse(first) == Browse(second)
    requires forall i :: 0 <= i < |gap| ==> gap[i].Unreachable?
    ensures Converged(Run(Init(config), history + [first] + gap + [second]), second)
  {
    var s0 := Run(Init(config), history);
    RunKeepsInv(Init(config), history);
    StepKeepsInv(s0, first);
    RunOfSum(Init(config), history, [first]);
    RunOfSum(Init(config), history + [first], gap);
    RunOfSum(Init(config), history + [first] + gap, [second]);
    RunOfOne(s0, first);
    RunOfUnreachable(Step(s0, first), gap);
    RunOfOne(Step(s0, first), second);
    EqualListingConverges(Step(s0, first), second);
  }

  lemma RunOfOne(s: State, r: Round)
    ensures Run(s, [r]) == Step(s, r)
  {
    assert [r][..0] == [];
  }

  // ---------- the blacklist as a retry clock ----------

  predicate IsOnline(r: Round, n: NodeId) {
    r.Browsed? && n in Online(r)
  }

  function OnlineRounds(n: NodeId, rounds: seq<Round>): nat {
    if rounds == [] then 0
    else OnlineRounds(n, rounds[..|rounds| - 1]) + if IsOnline(rounds[|rounds| - 1], n) then 1 else 0
  }

  /** How often `addMachine` is called for `n` in a run from `s`. */
  function Attempts(s: State, n: NodeId, rounds: seq<Round>): nat {
    if rounds == [] then 0
    else
      var before, last := rounds[..|rounds| - 1], rounds[|rounds| - 1];
      Attempts(s, n, before) + if n in Attempted(Run(s, before), last) then 1 else 0
  }

  /** What one round does to a blacklisted machine. */
  lemma BlacklistedStep(s: State, r: Round, n: NodeId)
    requires Inv(s) && n in s.blacklist
    ensures n in Attempted(s, r) <==> IsOnline(r, n) && s.blacklist[n].count == 1
    ensures !IsOnline(r, n) ==> n in Step(s, r).blacklist && Step(s, r).blacklist[n] == s.blacklist[n]
    ensures IsOnline(r, n) && s.blacklist[n].count > 1 ==>
      n in Step(s, r).blacklist && Step(s, r).blacklist[n].count == s.blacklist[n].count - 1
  {
  }

  /** A blacklisted machine is left alone for as many of its online rounds as its counter
      allows and tried in the next one, whatever other rounds come between. */
  lemma {:induction false} RetriedExactly(s: State, n: NodeId, rounds: seq<Round>, next: Round)
    requires Inv(s) && n in s.blacklist
    requires OnlineRounds(n, rounds) < s.blacklist[n].count
    ensures Attempts(s, n, rounds) == 0
    ensures var t := Run(s, rounds);
            && n in t.blacklist
            && t.blacklist[n].count == s.blacklist[n].count - OnlineRounds(n, rounds)
            && (n in Attempted(t, next) <==> IsOnline(next, n) && OnlineRounds(n, rounds) == s.blacklist[n].count - 1)
  {
    RunKeepsInv(s, rounds);
    if rounds != [] {
      var before, last := rounds[..|rounds| - 1], rounds[|rounds| - 1];
      RetriedExactly(s, n, before, last);
      RunKeepsInv(s, before);
      BlacklistedStep(Run(s, before), last, n);
    }
    BlacklistedStep(Run(s, rounds), next, n);
  }

  /** A machine whose client was just refused is skipped in its next 9 online rounds. */
  lemma RefusedThenSkipped(s: State, r: Round, n: NodeId, rounds: seq<Round>, next: Round)
    requires Inv(s) && Tried(s, r, n) && Unbuildable(s.config, r, n) && OnlineRounds(n, rounds) <= 9
    ensures Attempts(Step(s, r), n, rounds) == 0
    ensures Tried(Run(Step(s, r), rounds), next, n) <==> IsOnline(next, n) && OnlineRounds(n, rounds) == 9
  {
    TriedIff(s, r, n);
    RefusalIff(s.config, r, n);
    TriedIff(Run(Step(s, r), rounds), next, n);
    StepKeepsInv(s, r);
    RetriedExactly(Step(s, r), n, rounds, next);
  }

  function Counter(s: State, n: NodeId): Option<int> {
    if n in s.blacklist then Some(s.blacklist[n].count) else None
  }

  /** The counter of a machine that was refused in each of its `k` online rounds so far. */
  predicate Shows(counter: Option<int>, k: nat) {
    counter == if k == 0 then None else Some(10 - (k - 1) % 10)
  }

  function Tick(counter: Option<int>): Option<int> {
    if counter.None? || counter.value <= 1 then Some(NUM_SKIP_AFTER_INVALID) else Some(counter.value - 1)
  }

  lemma TickShowsNext(counter: Option<int>, k: nat)
    requires Shows(counter, k)
    ensures Shows(Tick(counter), k + 1)
    ensures k % 10 == 0 <==> counter.None? || counter.value <= 1
    ensures (k + 10) / 10 == (k + 9) / 10 + if k % 10 == 0 then 1 else 0
  {
  }

  /** A machine that was refused in each of its `k` online rounds so far. */
  predicate AlwaysRefusedIn(t: State, n: NodeId, k: nat) {
    Inv(t) && n !in t.known && Shows(Counter(t, n), k)
  }

  lemma RefusedCounter(t: State, r: Round, n: NodeId)
    requires Inv(t) && n !in t.known && IsOnline(r, n) && Refusal(t.config, r, n).Some?
    ensures Counter(Step(t, r), n) == Tick(Counter(t, n))
  {
    assert n in Fresh(t, r);
    var b := BlacklistAfter(t, r, Fresh(t, r));
    assert n in b;
  }

  lemma OfflineCounter(t: State, r: Round, n: NodeId)
    requires Inv(t) && n !in t.known && !IsOnline(r, n)
    ensures Counter(Step(t, r), n) == Counter(t, n)
  {
    if r.Browsed? {
      assert n !in Fresh(t, r);
      var b := BlacklistAfter(t, r, Fresh(t, r));
      assert n in b <==> n in t.blacklist;
    }
  }

  lemma RefusedStep(t: State, r: Round, n: NodeId)
    requires Inv(t) && n !in t.known
    requires IsOnline(r, n) ==> Refusal(t.config, r, n).Some?
    ensures n !in Step(t, r).known
    ensures n in Attempted(t, r) <==> IsOnline(r, n) && (Counter(t, n).None? || Counter(t, n).value <= 1)
    ensures Counter(Step(t, r), n) == if IsOnline(r, n) then Tick(Counter(t, n)) else Counter(t, n)
  {
    if IsOnline(r, n) {
      RefusedCounter(t, r, n);
    } else {
      OfflineCounter(t, r, n);
    }
    if r.Browsed? {
      KnownAfter(t, r);
    }
  }

  /** One more round of a machine that was refused in each of its `k` online rounds. */
  lemma RefusedAgain(t: State, r: Round, n: NodeId, k: nat)
    requires AlwaysRefusedIn(t, n, k) && (IsOnline(r, n) ==> Refusal(t.config, r, n).Some?)
    ensures var k' := if IsOnline(r, n) then k + 1 else k;
            && AlwaysRefusedIn(Step(t, r), n, k') && Step(t, r).config == t.config
            && (k' + 9) / 10 == (k + 9) / 10 + if n in Attempted(t, r) then 1 else 0
  {
    StepKeepsInv(t, r);
    RefusedStep(t, r, n);
    TickShowsNext(Counter(t, n), k);
  }

  /** No online round accepts the machine. */
  predicate NeverAccepted(config: Config, n: NodeId, rounds: seq<Round>) {
    forall i :: 0 <= i < |rounds| && IsOnline(rounds[i], n) ==> Refusal(config, rounds[i], n).Some?
  }

  lemma NeverBefore(config: Config, n: NodeId, rounds: seq<Round>)
    requires NeverAccepted(config, n, rounds) && rounds != []
    ensures NeverAccepted(config, n, rounds[..|rounds| - 1])
    ensures IsOnline(rounds[|rounds| - 1], n) ==> Refusal(config, rounds[|rounds| - 1], n).Some?
  {
  }

  /** What holds in state `t` after `k` online rounds with `a` attempts. */
  predicate RefusedSoFar(s: State, t: State, n: NodeId, k: nat, a: nat) {
    AlwaysRefusedIn(t, n, k) && t.config == s.config && a == (k + 9) / 10
  }

  lemma {:induction false} RefusedRun(s: State, n: NodeId, rounds: seq<Round>)
    requires AlwaysRefusedIn(s, n, 0) && NeverAccepted(s.config, n, rounds)
    ensures RefusedSoFar(s, Run(s, rounds), n, OnlineRounds(n, rounds), Attempts(s, n, rounds))
  {
    if rounds != [] {
      var before, last := rounds[..|rounds| - 1], rounds[|rounds| - 1];
      NeverBefore(s.config, n, rounds);
      RefusedRun(s, n, before);
      RefusedOnce(s, Run(s, before), n, last, OnlineRounds(n, before), Attempts(s, n, before));
    }
  }

  lemma RefusedOnce(s: State, t: State, n: NodeId, r: Round, k: nat, a: nat)
    requires RefusedSoFar(s, t, n, k, a) && (IsOnline(r, n) ==> Refusal(s.config, r, n).Some?)
    ensures RefusedSoFar(s, Step(t, r), n, k + (if IsOnline(r, n) then 1 else 0), a + if n in Attempted(t, r) then 1 else 0)
  {
    RefusedAgain(t, r, n, k);
  }

  /** A machine that is refused every time is tried in its 1st, 11th, 21st, ... online round. */
  lemma AlwaysRefused(config: Config, n: NodeId, rounds: seq<Round>)
    requires forall i :: 0 <= i < |rounds| && IsOnline(rounds[i], n) ==> Unbuildable(config, rounds[i], n)
    ensures Attempts(Init(config), n, rounds) == (OnlineRounds(n, rounds) + 9) / 10
    ensures var s := Run(Init(config), rounds); n !in s.known && Shows(Counter(s, n), OnlineRounds(n, rounds))
  {
    forall i | 0 <= i < |rounds| && IsOnline(rounds[i], n)
      ensures Refusal(config, rounds[i], n).Some?
    {
      RefusalIff(config, rounds[i], n);
    }
    RefusedRun(Init(config), n, rounds);
  }

  // ---------- a server that stops changing ----------

  /** How far a machine that is online in every round is from being known. */
  predicate Settling(s: State, online: set<NodeId>, j: nat) {
    forall n :: n in online && n !in s.known ==>
      if n in s.blacklist then s.blacklist[n].count <= NUM_SKIP_AFTER_INVALID - j else j <= 1
  }

  /** The round lists these machines, these of them are online, and a client can be built for
      every online one; entries, identifications and everything else may differ from round to
      round. */
  ghost predicate Stable(c: Config, r: Round, listed: set<NodeId>, online: set<NodeId>) {
    && r.Browsed? && (forall n :: n in listed <==> IsListed(r, n))
    && (forall n :: n in online <==> n in listed && n in r.idents)
    && forall n :: n in online ==> !Unbuildable(c, r, n)
  }

  lemma StableMeans(c: Config, r: Round, listed: set<NodeId>, online: set<NodeId>)
    requires Stable(c, r, listed, online)
    ensures Browse(r) == listed && Online(r).Keys == online && forall n :: n in online ==> Refusal(c, r, n).None?
  {
    forall n
      ensures (n in Browse(r) <==> n in listed) && (n in Online(r) <==> n in online)
    {
      ListedIff(r, n);
    }
    forall n | n in online
      ensures Refusal(c, r, n).None?
    {
      RefusalIff(c, r, n);
    }
  }

  ghost predicate AllStable(c: Config, rounds: seq<Round>, listed: set<NodeId>, online: set<NodeId>) {
    forall k :: 0 <= k < |rounds| ==> Stable(c, rounds[k], listed, online)
  }

  predicate OnItsWay(s: State, listed: set<NodeId>, online: set<NodeId>, j: nat) {
    Inv(s) && (j > 0 ==> s.browsed == listed && s.cache.Keys == online) && Settling(s, online, j)
  }

  lemma {:induction false} SettlesStepwise(s: State, rounds: seq<Round>, listed: set<NodeId>, online: set<NodeId>)
    requires Inv(s) && AllStable(s.config, rounds, listed, online)
    ensures OnItsWay(Run(s, rounds), listed, online, |rounds|) && Run(s, rounds).config == s.config
  {
    if rounds != [] {
      var before, last := rounds[..|rounds| - 1], rounds[|rounds| - 1];
      SettlesStepwise(s, before, listed, online);
      assert Stable(s.config, rounds[|rounds| - 1], listed, online);
      SettlingStep(Run(s, before), last, listed, online, |before|);
    }
  }

  lemma SettlingStep(s: State, r: Round, listed: set<NodeId>, online: set<NodeId>, j: nat)
    requires OnItsWay(s, listed, online, j) && Stable(s.config, r, listed, online)
    ensures OnItsWay(Step(s, r), listed, online, j + 1) && Step(s, r).config == s.config
  {
    StableMeans(s.config, r, listed, online);
    StepKeepsInv(s, r);
    KnownAfter(s, r);
  }

  predicate FullyKnown(s: State, online: set<NodeId>) {
    && s.known.Keys == online
    && s.blacklist.Keys !! online
    && s.clients.Keys == s.online.Keys == online - s.config.ignored
  }

  /** Whatever happened before: when 10 rounds in a row list the same machines, find the same
      ones online and can admit them all, every one of them is known and none is blacklisted. */
  lemma StableServerIsFullyKnown(config: Config, history: seq<Round>, rounds: seq<Round>, listed: set<NodeId>, online: set<NodeId>)
    requires AllStable(config, rounds, listed, online) && |rounds| >= NUM_SKIP_AFTER_INVALID
    ensures FullyKnown(Run(Init(config), history + rounds), online)
  {
    var s := Run(Init(config), history);
    RunKeepsInv(Init(config), history);
    RunOfSum(Init(config), history, rounds);
    SettlesStepwise(s, rounds, listed, online);
    NobodyLeft(Run(s, rounds), listed, online, |rounds|);
  }

  lemma NobodyLeft(s: State, listed: set<NodeId>, online: set<NodeId>, j: nat)
    requires OnItsWay(s, listed, online, j) && j >= NUM_SKIP_AFTER_INVALID
    ensures FullyKnown(s, online)
  {
    assert online <= s.known.Keys;
  }
}

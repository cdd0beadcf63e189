/** The policy update protocol as a state machine: API handlers commit a change and then announce
    it, a shared counter numbers the announcements, the listener of this server relays them into
    the bus, and one agent stream subscribes, reads the version, possibly sends a snapshot, and
    then streams. Every action is one segment between two awaits; all interleavings are runs. */
module PolicyStream {
  import opened Basics
  import opened Wrappers

  type PolicyId = nat

  /** A policy row; the definition stands for everything the agent is sent. */
  datatype Policy = Policy(definition: nat, active: bool)

  datatype Kind = Added | Modified | Removed

  /** An announced change; version is 0 until the counter has numbered it. */
  datatype Event = Event(kind: Kind, id: PolicyId, version: nat)

  /** What the agent replays: a body to store, an id to drop, or a body-less update. */
  datatype Update = Put(id: PolicyId, policy: Policy) | Drop(id: PolicyId) | Empty(id: PolicyId)

  datatype Phase =
    | Connecting
    | Subscribed
    | Behind
    | Syncing(remaining: seq<(PolicyId, Policy)>)
    | Streaming(inflight: Option<Update>)

  /** `log[n - 1]` is the policy changed by announcement n, so |log| is the shared counter;
      deleted, touched and removed are history: ids ever deleted, and ids whose upsert or
      removal was relayed to the stream since it subscribed. */
  datatype State = State(
    db: map<PolicyId, Policy>,
    deleted: set<PolicyId>,
    unnumbered: seq<Event>,
    numbered: seq<Event>,
    channel: seq<Event>,
    log: seq<PolicyId>,
    version: nat,
    phase: Phase,
    queue: seq<Event>,
    declared: nat,
    agent: map<PolicyId, Policy>,
    touched: set<PolicyId>,
    removed: set<PolicyId>)

  datatype Action =
    | Commit(id: PolicyId, policy: Policy)
    | Delete(id: PolicyId)
    | Number(index: nat)
    | Publish(index: nat)
    | Relay
    | Subscribe
    | ReadVersion
    | Snapshot(rows: seq<(PolicyId, Policy)>)
    | SyncOne
    | Fetch
    | Yield

  function Without<T>(q: seq<T>, i: nat): seq<T>
    requires i < |q|
  {
    q[..i] + q[i + 1..]
  }

  function Lookup(m: map<PolicyId, Policy>, id: PolicyId): Option<Policy> {
    if id in m then Some(m[id]) else None
  }

  predicate Listed(rows: seq<(PolicyId, Policy)>, id: PolicyId) {
    exists i :: 0 <= i < |rows| && rows[i].0 == id
  }

  /** rows lists each active policy of the database once, in some order. */
  ghost predicate ListsActive(rows: seq<(PolicyId, Policy)>, db: map<PolicyId, Policy>) {
    && (forall i, j :: 0 <= i < j < |rows| ==> rows[i].0 != rows[j].0)
    && (forall i :: 0 <= i < |rows| ==> rows[i].0 in db && rows[i].1 == db[rows[i].0] && rows[i].1.active)
    && (forall id :: id in db && db[id].active ==> Listed(rows, id))
  }

  ghost predicate Enabled(s: State, a: Action) {
    match a
    case Commit(id, _) => id !in s.deleted
    case Delete(id) => id in s.db
    case Number(i) => i < |s.unnumbered|
    case Publish(i) => i < |s.numbered|
    case Relay => s.channel != []
    case Subscribe => s.phase.Connecting?
    case ReadVersion => s.phase.Subscribed?
    case Snapshot(rows) => s.phase.Behind? && ListsActive(rows, s.db)
    case SyncOne => s.phase.Syncing? && s.phase.remaining != []
    case Fetch => s.phase.Streaming? && s.phase.inflight.None? && s.queue != []
    case Yield => s.phase.Streaming? && s.phase.inflight.Some?
  }

  /** The update yielded for an event: a body is fetched when the event is delivered. */
  function Fetched(e: Event, db: map<PolicyId, Policy>): Update {
    if e.kind == Removed then Drop(e.id)
    else if e.id in db then Put(e.id, db[e.id])
    else Empty(e.id)
  }

  function Replay(agent: map<PolicyId, Policy>, u: Update): map<PolicyId, Policy> {
    match u
    case Put(id, policy) => agent[id := policy]
    case Drop(id) => agent - {id}
    case Empty(_) => agent
  }

  function SyncPhase(remaining: seq<(PolicyId, Policy)>): Phase {
    if remaining == [] then Streaming(None) else Syncing(remaining)
  }

  ghost function Apply(s: State, a: Action): State
    requires Enabled(s, a)
  {
    match a
    case Commit(id, policy) =>
      var kind := if id in s.db then Modified else Added;
      s.(db := s.db[id := policy], unnumbered := s.unnumbered + [Event(kind, id, 0)])
    case Delete(id) =>
      s.(db := s.db - {id}, deleted := s.deleted + {id},
         unnumbered := s.unnumbered + [Event(Removed, id, 0)])
    case Number(i) =>
      var e := s.unnumbered[i];
      s.(unnumbered := Without(s.unnumbered, i), log := s.log + [e.id],
         numbered := s.numbered + [e.(version := |s.log| + 1)])
    case Publish(i) =>
      s.(numbered := Without(s.numbered, i), channel := s.channel + [s.numbered[i]])
    case Relay =>
      var e := s.channel[0];
      var s' := s.(channel := s.channel[1..], version := Max(s.version, e.version));
      if s.phase.Connecting? then s'
      else if e.kind == Removed then s'.(queue := s.queue + [e], removed := s.removed + {e.id})
      else s'.(queue := s.queue + [e], touched := s.touched + {e.id})
    case Subscribe => s.(phase := Subscribed)
    case ReadVersion => s.(phase := if s.declared < s.version then Behind else Streaming(None))
    case Snapshot(rows) => s.(phase := SyncPhase(rows))
    case SyncOne =>
      var (id, policy) := s.phase.remaining[0];
      s.(agent := s.agent[id := policy], phase := SyncPhase(s.phase.remaining[1..]))
    case Fetch => s.(phase := Streaming(Some(Fetched(s.queue[0], s.db))), queue := s.queue[1..])
    case Yield => s.(agent := Replay(s.agent, s.phase.inflight.value), phase := Streaming(None))
  }

  /** s is reached from s0 by these actions. */
  ghost predicate Run(s0: State, actions: seq<Action>, s: State)
    decreases |actions|
  {
    if actions == [] then s == s0
    else Enabled(s0, actions[0]) && Run(Apply(s0, actions[0]), actions[1..], s)
  }

  /** Some event of q numbered above `after` upserts (or, if removal, removes) the policy. */
  predicate Mentions(q: seq<Event>, id: PolicyId, removal: bool, after: int) {
    exists i :: 0 <= i < |q| && Matches(q[i], id, removal, after)
  }

  predicate Matches(e: Event, id: PolicyId, removal: bool, after: int) {
    e.id == id && (e.kind == Removed) == removal && e.version > after
  }

  // ----- where a run starts ----------------------------------------------------------------

  /** Announcements in flight carry their log number, no number above the bus version has been
      lost, and a removal is announced only for a deleted id; deleted ids are not used again. */
  ghost predicate Coherent(s: State) {
    && s.version <= |s.log| && s.declared <= |s.log|
    && s.deleted !! s.db.Keys
    && (forall e :: e in s.numbered || e in s.channel ==> Changed(s.log, e.version, e.id))
    && (forall n :: s.version < n <= |s.log| ==> Outstanding(s, n))
    && (forall e :: e in s.unnumbered || e in s.numbered || e in s.channel ==> Announces(s, e))
    && (forall e :: e in s.unnumbered ==> e.version == 0)
  }

  /** An event is announced after its commit, and ids come from rows that exist or existed. */
  predicate Announces(s: State, e: Event) {
    e.id in s.deleted || (e.id in s.db && e.kind != Removed)
  }

  ghost predicate Outstanding(s: State, n: int) {
    (exists e :: e in s.numbered && e.version == n) || (exists e :: e in s.channel && e.version == n)
  }

  /** The agent holds every change up to its declared version: its copy of an active policy is
      current unless some later or still unnumbered change concerns that policy. */
  ghost predicate HoldsUpTo(s: State) {
    forall id :: id in s.db && s.db[id].active ==>
      || Lookup(s.agent, id) == Some(s.db[id])
      || Mentions(s.unnumbered, id, false, -1)
      || exists n :: s.declared < n <= |s.log| && Changed(s.log, n, id)
  }

  /** Announcement n changed this policy. */
  predicate Changed(log: seq<PolicyId>, n: int, id: PolicyId) {
    1 <= n <= |log| && log[n - 1] == id
  }

  ghost predicate Initial(s: State) {
    && Coherent(s) && HoldsUpTo(s)
    && s.phase.Connecting? && s.queue == [] && s.touched == {} && s.removed == {}
  }

  /** Every commit has been announced and relayed, and the stream has delivered its queue. */
  predicate Quiescent(s: State) {
    && s.unnumbered == [] && s.numbered == [] && s.channel == [] && s.queue == []
    && s.phase == Streaming(None)
  }

  // ----- the invariant ---------------------------------------------------------------------

  predicate Upserting(s: State, id: PolicyId) {
    || Mentions(s.unnumbered, id, false, -1) || Mentions(s.numbered, id, false, -1)
    || Mentions(s.channel, id, false, -1) || Mentions(s.queue, id, false, -1)
  }

  predicate Removing(s: State, id: PolicyId) {
    || Mentions(s.unnumbered, id, true, -1) || Mentions(s.numbered, id, true, -1)
    || Mentions(s.channel, id, true, -1)
  }

  /** A row of the snapshot or the update in flight would store the policy. */
  predicate AboutToPut(s: State, id: PolicyId) {
    match s.phase
    case Syncing(remaining) => Listed(remaining, id)
    case Streaming(inflight) => inflight.Some? && inflight.value.Put? && inflight.value.id == id
    case _ => false
  }

  /** The same, and what it would store is the current row. */
  predicate AboutToPutCurrent(s: State, id: PolicyId)
    requires id in s.db
  {
    match s.phase
    case Syncing(remaining) => (id, s.db[id]) in remaining
    case Streaming(inflight) => inflight == Some(Put(id, s.db[id]))
    case _ => false
  }

  /** The agent's entry is what the finished stream should leave there; mine is its first copy. */
  predicate Settled(s: State, mine: map<PolicyId, Policy>, id: PolicyId) {
    Lookup(s.agent, id) ==
      if id in s.db && (s.db[id].active || id in s.touched) then Some(s.db[id])
      else if id !in s.db && id in s.removed then None
      else Lookup(mine, id)
  }

  predicate PresentInv(s: State, mine: map<PolicyId, Policy>, id: PolicyId)
    requires id in s.db
  {
    match s.phase
    case Connecting =>
      || !s.db[id].active || Lookup(s.agent, id) == Some(s.db[id])
      || s.declared < s.version
      || Mentions(s.unnumbered, id, false, -1)
      || Mentions(s.numbered, id, false, s.declared) || Mentions(s.channel, id, false, s.declared)
    case Subscribed =>
      && (id in s.touched ==> Mentions(s.queue, id, false, -1))
      && (s.declared < s.version || Upserting(s, id) || Settled(s, mine, id))
    case Behind =>
      id in s.touched ==> Mentions(s.queue, id, false, -1)
    case _ =>
      || Upserting(s, id)
      || AboutToPutCurrent(s, id)
      || (!AboutToPut(s, id) && Settled(s, mine, id))
  }

  predicate AbsentInv(s: State, mine: map<PolicyId, Policy>, id: PolicyId)
    requires id !in s.db
  {
    || s.phase.Connecting?
    || Removing(s, id)
    || (id in s.removed && (Mentions(s.queue, id, true, -1) || s.phase == Streaming(Some(Drop(id)))))
    || (!AboutToPut(s, id) && Settled(s, mine, id))
  }

  predicate IdInv(s: State, mine: map<PolicyId, Policy>, id: PolicyId) {
    if id in s.db then PresentInv(s, mine, id) else AbsentInv(s, mine, id)
  }

  ghost predicate PhaseInv(s: State, mine: map<PolicyId, Policy>) {
    && s.removed <= s.deleted
    && s.touched <= s.deleted + s.db.Keys
    && (forall e :: e in s.queue ==> e.id in if e.kind == Removed then s.removed else s.touched)
    && match s.phase
       case Connecting => s.agent == mine && s.queue == [] && s.touched == {} && s.removed == {}
       case Subscribed => s.agent == mine
       case Behind => s.agent == mine
       case Syncing(remaining) =>
         && (forall i, j :: 0 <= i < j < |remaining| ==> remaining[i].0 != remaining[j].0)
         && (forall i :: 0 <= i < |remaining| ==> remaining[i].1.active)
       case Streaming(inflight) =>
         inflight.Some? ==> inflight.value.id in if inflight.value.Drop? then s.removed else s.touched
  }

  ghost predicate Inv(s: State, mine: map<PolicyId, Policy>) {
    && Coherent(s)
    && PhaseInv(s, mine)
    && forall id :: IdInv(s, mine, id)
  }

  // ----- events entering and leaving a queue -----------------------------------------------

  lemma MentionsAppend(q: seq<Event>, e: Event, id: PolicyId, removal: bool, after: int)
    ensures Mentions(q + [e], id, removal, after)
       <==> Mentions(q, id, removal, after) || Matches(e, id, removal, after)
  {
    var q' := q + [e];
    if Mentions(q, id, removal, after) {
      var i :| 0 <= i < |q| && Matches(q[i], id, removal, after);
      assert q'[i] == q[i];
    }
    assert q'[|q|] == e;
  }

  lemma MentionsWithout(q: seq<Event>, i: nat, id: PolicyId, removal: bool, after: int)
    requires i < |q|
    ensures Mentions(q, id, removal, after)
       <==> Mentions(Without(q, i), id, removal, after) || Matches(q[i], id, removal, after)
  {
    var q' := Without(q, i);
    if Mentions(q, id, removal, after) {
      var k :| 0 <= k < |q| && Matches(q[k], id, removal, after);
      assert k < i ==> q'[k] == q[k];
      assert k > i ==> q'[k - 1] == q[k];
    }
    if Mentions(q', id, removal, after) {
      var k :| 0 <= k < |q'| && Matches(q'[k], id, removal, after);
      assert q'[k] == if k < i then q[k] else q[k + 1];
    }
  }

  lemma MentionsTail(q: seq<Event>, id: PolicyId, removal: bool, after: int)
    requires q != []
    ensures Mentions(q, id, removal, after)
       <==> Mentions(q[1..], id, removal, after) || Matches(q[0], id, removal, after)
  {
    MentionsWithout(q, 0, id, removal, after);
    assert Without(q, 0) == q[1..];
  }

  lemma MentionsAfter(q: seq<Event>, id: PolicyId, removal: bool, after: int, before: int)
    requires before <= after
    ensures Mentions(q, id, removal, after) ==> Mentions(q, id, removal, before)
  {
    if Mentions(q, id, removal, after) {
      var i :| 0 <= i < |q| && Matches(q[i], id, removal, after);
      assert Matches(q[i], id, removal, before);
    }
  }

  // ----- each action keeps the invariant of each policy ------------------------------------

  lemma CommitKeepsId(s: State, a: Action, mine: map<PolicyId, Policy>, id: PolicyId)
    requires Inv(s, mine) && Enabled(s, a) && (a.Commit? || a.Delete?)
    ensures IdInv(Apply(s, a), mine, id)
  {
    hide Mentions;
    var s' := Apply(s, a);
    var e := s'.unnumbered[|s.unnumbered|];
    assert IdInv(s, mine, id);
    MentionsAppend(s.unnumbered, e, id, false, -1);
    MentionsAppend(s.unnumbered, e, id, true, -1);
  }

  lemma NumberKeepsId(s: State, a: Action, mine: map<PolicyId, Policy>, id: PolicyId)
    requires Inv(s, mine) && Enabled(s, a) && a.Number?
    ensures IdInv(Apply(s, a), mine, id)
  {
    hide Mentions;
    assert IdInv(s, mine, id);
    var e := s.unnumbered[a.index];
    var e' := e.(version := |s.log| + 1);
    MentionsWithout(s.unnumbered, a.index, id, false, -1);
    MentionsWithout(s.unnumbered, a.index, id, true, -1);
    MentionsAppend(s.numbered, e', id, false, -1);
    MentionsAppend(s.numbered, e', id, true, -1);
    MentionsAppend(s.numbered, e', id, false, s.declared);
  }

  lemma PublishKeepsId(s: State, a: Action, mine: map<PolicyId, Policy>, id: PolicyId)
    requires Inv(s, mine) && Enabled(s, a) && a.Publish?
    ensures IdInv(Apply(s, a), mine, id)
  {
    hide Mentions;
    assert IdInv(s, mine, id);
    var e := s.numbered[a.index];
    MentionsWithout(s.numbered, a.index, id, false, -1);
    MentionsWithout(s.numbered, a.index, id, true, -1);
    MentionsWithout(s.numbered, a.index, id, false, s.declared);
    MentionsAppend(s.channel, e, id, false, -1);
    MentionsAppend(s.channel, e, id, true, -1);
    MentionsAppend(s.channel, e, id, false, s.declared);
  }

  lemma RelayKeepsId(s: State, a: Action, mine: map<PolicyId, Policy>, id: PolicyId)
    requires Inv(s, mine) && Enabled(s, a) && a.Relay?
    ensures IdInv(Apply(s, a), mine, id)
  {
    hide Mentions;
    assert IdInv(s, mine, id);
    if s.phase.Connecting? {
      MentionsTail(s.channel, id, false, s.declared);
    } else {
      RelaySubscribed(s, a, mine, id);
    }
  }

  lemma RelaySubscribed(s: State, a: Action, mine: map<PolicyId, Policy>, id: PolicyId)
    requires Enabled(s, a) && a.Relay? && !s.phase.Connecting? && IdInv(s, mine, id)
    ensures IdInv(Apply(s, a), mine, id)
  {
    hide Mentions;
    var e := s.channel[0];
    MentionsTail(s.channel, id, false, -1);
    MentionsTail(s.channel, id, true, -1);
    MentionsAppend(s.queue, e, id, false, -1);
    MentionsAppend(s.queue, e, id, true, -1);
  }

  lemma ConnectKeepsId(s: State, a: Action, mine: map<PolicyId, Policy>, id: PolicyId)
    requires Inv(s, mine) && Enabled(s, a) && (a.Subscribe? || a.ReadVersion?)
    ensures IdInv(Apply(s, a), mine, id)
  {
    hide Mentions;
    assert IdInv(s, mine, id);
    MentionsAfter(s.numbered, id, false, s.declared, -1);
    MentionsAfter(s.channel, id, false, s.declared, -1);
  }

  lemma SnapshotKeepsId(s: State, a: Action, mine: map<PolicyId, Policy>, id: PolicyId)
    requires Inv(s, mine) && Enabled(s, a) && a.Snapshot?
    ensures IdInv(Apply(s, a), mine, id)
  {
    hide Mentions;
    assert IdInv(s, mine, id);
    if id in s.db && s.db[id].active {
      var i :| 0 <= i < |a.rows| && a.rows[i].0 == id;
      assert a.rows[i] == (id, s.db[id]);
    }
  }

  lemma SyncOneKeepsId(s: State, a: Action, mine: map<PolicyId, Policy>, id: PolicyId)
    requires Inv(s, mine) && Enabled(s, a) && a.SyncOne?
    ensures IdInv(Apply(s, a), mine, id)
  {
    hide Mentions;
    assert IdInv(s, mine, id);
    var rows := s.phase.remaining;
    assert rows[0].0 == id ==> Listed(rows, id);
    assert Listed(rows[1..], id) ==> Listed(rows, id) && rows[0].0 != id by {
      if Listed(rows[1..], id) {
        var i :| 0 <= i < |rows[1..]| && rows[1..][i].0 == id;
        assert rows[i + 1].0 == id;
      }
    }
  }

  lemma FetchKeepsId(s: State, a: Action, mine: map<PolicyId, Policy>, id: PolicyId)
    requires Inv(s, mine) && Enabled(s, a) && a.Fetch?
    ensures IdInv(Apply(s, a), mine, id)
  {
    hide Mentions;
    assert IdInv(s, mine, id);
    MentionsTail(s.queue, id, false, -1);
    MentionsTail(s.queue, id, true, -1);
  }

  lemma YieldKeepsId(s: State, a: Action, mine: map<PolicyId, Policy>, id: PolicyId)
    requires Inv(s, mine) && Enabled(s, a) && a.Yield?
    ensures IdInv(Apply(s, a), mine, id)
  {
    hide Mentions;
    assert IdInv(s, mine, id);
  }

  lemma StepKeepsId(s: State, a: Action, mine: map<PolicyId, Policy>, id: PolicyId)
    requires Inv(s, mine) && Enabled(s, a)
    ensures IdInv(Apply(s, a), mine, id)
  {
    hide IdInv, Inv, Apply, Enabled;
    match a
    case Commit(_, _) => CommitKeepsId(s, a, mine, id);
    case Delete(_) => CommitKeepsId(s, a, mine, id);
    case Number(_) => NumberKeepsId(s, a, mine, id);
    case Publish(_) => PublishKeepsId(s, a, mine, id);
    case Relay => RelayKeepsId(s, a, mine, id);
    case Subscribe => ConnectKeepsId(s, a, mine, id);
    case ReadVersion => ConnectKeepsId(s, a, mine, id);
    case Snapshot(_) => SnapshotKeepsId(s, a, mine, id);
    case SyncOne => SyncOneKeepsId(s, a, mine, id);
    case Fetch => FetchKeepsId(s, a, mine, id);
    case Yield => YieldKeepsId(s, a, mine, id);
  }

  // ----- each action keeps the rest of the invariant ---------------------------------------

  lemma StepKeepsPhase(s: State, a: Action, mine: map<PolicyId, Policy>)
    requires Coherent(s) && PhaseInv(s, mine) && Enabled(s, a)
    ensures PhaseInv(Apply(s, a), mine)
  {
  }

  lemma {:induction false} OutstandingKept(s: State, a: Action, n: int)
    requires Coherent(s) && Enabled(s, a)
    requires s.version < n <= |s.log| && Outstanding(s, n)
    ensures Outstanding(Apply(s, a), n) || n <= Apply(s, a).version
  {
    var s' := Apply(s, a);
    if e :| e in s.numbered && e.version == n {
      if a.Publish? {
        var i :| 0 <= i < |s.numbered| && s.numbered[i] == e;
        assert e in s'.numbered || e in s'.channel by {
          assert i < a.index ==> s'.numbered[i] == e;
          assert i > a.index ==> s'.numbered[i - 1] == e;
        }
      } else {
        assert e in s'.numbered;
      }
    } else {
      var e :| e in s.channel && e.version == n;
      assert a.Relay? && e != s.channel[0] ==> e in s.channel[1..];
      assert e in s'.channel || n <= s'.version;
    }
  }

  lemma StepKeepsCoherent(s: State, a: Action)
    requires Coherent(s) && Enabled(s, a)
    ensures Coherent(Apply(s, a))
  {
    var s' := Apply(s, a);
    forall n | s'.version < n <= |s'.log| ensures Outstanding(s', n) {
      if n <= |s.log| {
        OutstandingKept(s, a, n);
      } else {
        assert s'.numbered[|s.numbered|].version == n;
      }
    }
    StepKeepsAnnouncements(s, a);
  }

  lemma StepKeepsAnnouncements(s: State, a: Action)
    requires Coherent(s) && Enabled(s, a)
    ensures var s' := Apply(s, a);
      && (forall e :: e in s'.numbered || e in s'.channel ==> Changed(s'.log, e.version, e.id))
      && (forall e :: e in s'.unnumbered || e in s'.numbered || e in s'.channel ==> Announces(s', e))
  {
  }

  lemma StepKeepsInv(s: State, a: Action, mine: map<PolicyId, Policy>)
    requires Inv(s, mine) && Enabled(s, a)
    ensures Inv(Apply(s, a), mine)
  {
    StepKeepsCoherent(s, a);
    StepKeepsPhase(s, a, mine);
    forall id ensures IdInv(Apply(s, a), mine, id) {
      StepKeepsId(s, a, mine, id);
    }
  }

  lemma InitialInv(s: State)
    requires Initial(s)
    ensures Inv(s, s.agent)
  {
    forall id ensures IdInv(s, s.agent, id) {
      if id in s.db && s.db[id].active && Lookup(s.agent, id) != Some(s.db[id])
         && !Mentions(s.unnumbered, id, false, -1) && s.declared >= s.version {
        var n :| s.declared < n <= |s.log| && Changed(s.log, n, id);
        assert Outstanding(s, n);
        if e :| e in s.numbered && e.version == n {
          var i :| 0 <= i < |s.numbered| && s.numbered[i] == e;
          assert Matches(s.numbered[i], id, false, s.declared);
        } else {
          var e :| e in s.channel && e.version == n;
          var i :| 0 <= i < |s.channel| && s.channel[i] == e;
          assert Matches(s.channel[i], id, false, s.declared);
        }
      }
    }
  }

  lemma {:induction false} RunKeepsInv(s0: State, actions: seq<Action>, s: State, mine: map<PolicyId, Policy>)
    requires Inv(s0, mine) && Run(s0, actions, s)
    ensures Inv(s, mine)
    decreases |actions|
  {
    if actions != [] {
      StepKeepsInv(s0, actions[0], mine);
      RunKeepsInv(Apply(s0, actions[0]), actions[1..], s, mine);
    }
  }

  // ----- main results ----------------------------------------------------------------------

  /** Once quiet, the agent's copy is determined entry by entry: current for every policy that is
      active or was changed after subscription, absent when its removal was relayed after
      subscription, and otherwise whatever the agent had when it connected. */
  lemma Converges(s0: State, actions: seq<Action>, s: State)
    requires Initial(s0) && Run(s0, actions, s) && Quiescent(s)
    ensures forall id :: Settled(s, s0.agent, id)
  {
    InitialInv(s0);
    RunKeepsInv(s0, actions, s, s0.agent);
    forall id ensures Settled(s, s0.agent, id) {
      assert IdInv(s, s0.agent, id);
    }
  }

  /** The promise to the agent: active policies are exact, removals announced are gone. */
  lemma ActiveCopiesExact(s0: State, actions: seq<Action>, s: State)
    requires Initial(s0) && Run(s0, actions, s) && Quiescent(s)
    ensures forall id :: id in s.db && s.db[id].active ==> id in s.agent && s.agent[id] == s.db[id]
    ensures forall id :: id in s.removed ==> id !in s.agent
    ensures forall id :: id !in s.db ==> (id in s.agent <==> id in s0.agent && id !in s.removed)
  {
    Converges(s0, actions, s);
    InitialInv(s0);
    RunKeepsInv(s0, actions, s, s0.agent);
    forall id
      ensures id in s.db && s.db[id].active ==> id in s.agent && s.agent[id] == s.db[id]
      ensures id in s.removed ==> id !in s.agent
      ensures id !in s.db ==> (id in s.agent <==> id in s0.agent && id !in s.removed)
    {
      assert Settled(s, s0.agent, id);
    }
  }

  /** Commit i announced without the shared channel. */
  ghost function Announced(s: State, i: nat): State
    requires i < |s.unnumbered| && s.numbered == [] && s.channel == []
  {
    Apply(Apply(Apply(s, Number(i)), Publish(0)), Relay)
  }

  /** Without the shared channel the three announcement actions run in one segment: the version
      goes up by one and the event, so numbered, is the only one to reach the queue. */
  lemma InProcessAnnouncement(s: State, i: nat)
    requires i < |s.unnumbered| && s.numbered == [] && s.channel == [] && s.version == |s.log|
    requires !s.phase.Connecting?
    ensures var s' := Announced(s, i);
      && Run(s, [Number(i), Publish(0), Relay], s')
      && s'.version == |s'.log| == s.version + 1
      && s'.queue == s.queue + [s.unnumbered[i].(version := s'.version)]
      && s'.numbered == [] && s'.channel == [] && s'.unnumbered == Without(s.unnumbered, i)
  {
    var s1 := Apply(s, Number(i));
    var s2 := Apply(s1, Publish(0));
    var s3 := Apply(s2, Relay);
    assert Run(s3, [], s3);
    assert Run(s2, [Relay], s3);
    assert Run(s1, [Publish(0), Relay], s3);
    assert Run(s, [Number(i), Publish(0), Relay], s3);
  }

  /** The versions of the announcements a run relays, in relay order. */
  ghost function Relayed(s0: State, actions: seq<Action>): seq<nat>
    decreases |actions|
  {
    if actions == [] || !Enabled(s0, actions[0]) then []
    else (if actions[0].Relay? then [s0.channel[0].version] else [])
         + Relayed(Apply(s0, actions[0]), actions[1..])
  }

  /** The bus version is the maximum of its start value and the versions relayed. */
  lemma {:induction false} VersionIsMaximum(s0: State, actions: seq<Action>, s: State)
    requires Run(s0, actions, s)
    ensures s0.version <= s.version
    ensures forall n :: n in Relayed(s0, actions) ==> n <= s.version
    ensures s.version == s0.version || s.version in Relayed(s0, actions)
    decreases |actions|
  {
    if actions != [] {
      VersionIsMaximum(Apply(s0, actions[0]), actions[1..], s);
    }
  }

  /** It never passes the shared counter, and meets it as soon as the announcement with the
      highest number has been relayed, whatever is still under way. */
  lemma VersionAgreement(s0: State, actions: seq<Action>, s: State)
    requires Coherent(s0) && Run(s0, actions, s)
    ensures s.version <= |s.log|
    ensures s.version == |s.log| <==> s0.version == |s.log| || |s.log| in Relayed(s0, actions)
    ensures s.numbered == [] && s.channel == [] ==> s.version == |s.log|
  {
    VersionIsMaximum(s0, actions, s);
    RunKeepsCoherent(s0, actions, s);
    if s.version < |s.log| {
      assert Outstanding(s, |s.log|);
    }
  }

  lemma {:induction false} RunKeepsCoherent(s0: State, actions: seq<Action>, s: State)
    requires Coherent(s0) && Run(s0, actions, s)
    ensures Coherent(s)
    decreases |actions|
  {
    if actions != [] {
      StepKeepsCoherent(s0, actions[0]);
      RunKeepsCoherent(Apply(s0, actions[0]), actions[1..], s);
    }
  }

  /** A full sync does not retract: policy 1, suspended, and policy 2, deleted, before the agent
      (at version 0) subscribed, both stay in its copy as they were. */
  lemma FullSyncDoesNotRetract() returns (s0: State, actions: seq<Action>, s: State)
    ensures Initial(s0) && Run(s0, actions, s) && Quiescent(s)
    ensures 1 in s.db && !s.db[1].active && 1 in s.agent && s.agent[1].active
    ensures 2 !in s.db && 2 in s.agent
  {
    var old1 := Policy(7, true);
    s0 := State(map[1 := Policy(7, false)], {2}, [], [], [], [1, 2], 2, Connecting, [], 0,
                map[1 := old1, 2 := Policy(8, true)], {}, {});
    actions := [Subscribe, ReadVersion, Snapshot([])];
    var s1 := Apply(s0, Subscribe);
    var s2 := Apply(s1, ReadVersion);
    s := Apply(s2, Snapshot([]));
    assert Run(s, [], s);
    assert Run(s2, [Snapshot([])], s);
    assert Run(s1, [ReadVersion, Snapshot([])], s);
  }

  // ----- order -----------------------------------------------------------------------------

  /** What an action puts on the channel, takes off it, puts into the stream's queue, and takes out of
      it to fetch the update. */
  function Published(s: State, a: Action): seq<Event> {
    if a.Publish? && a.index < |s.numbered| then [s.numbered[a.index]] else []
  }

  function RelayedBy(s: State, a: Action): seq<Event> {
    if a.Relay? && s.channel != [] then [s.channel[0]] else []
  }

  function QueuedBy(s: State, a: Action): seq<Event> {
    if s.phase.Connecting? then [] else RelayedBy(s, a)
  }

  function FetchedBy(s: State, a: Action): seq<Event> { if a.Fetch? && s.queue != [] then [s.queue[0]] else [] }

  /** The same over a run. */
  ghost function Over(moved: (State, Action) -> seq<Event>, s0: State, actions: seq<Action>): seq<Event>
    decreases |actions|
  {
    if actions == [] || !Enabled(s0, actions[0]) then []
    else moved(s0, actions[0]) + Over(moved, Apply(s0, actions[0]), actions[1..])
  }

  /** Nothing overtakes on the channel or in the queue, and nothing is lost or doubled there: what was
      waiting and what came in is what went out and what is waiting, in that order. */
  lemma {:induction false} DeliveredInOrder(s0: State, actions: seq<Action>, s: State)
    requires Run(s0, actions, s)
    ensures s0.channel + Over(Published, s0, actions) == Over(RelayedBy, s0, actions) + s.channel
    ensures s0.queue + Over(QueuedBy, s0, actions) == Over(FetchedBy, s0, actions) + s.queue
    decreases |actions|
  {
    hide Apply, Enabled, Published, RelayedBy, QueuedBy, FetchedBy;
    if actions == [] {
      assert s0.channel + [] == [] + s0.channel && s0.queue + [] == [] + s0.queue;
    } else {
      var a, rest := actions[0], actions[1..];
      var s1 := Apply(s0, a);
      DeliveredInOrder(s1, rest, s);
      StepInOrder(s0, a);
      Chained(s0.channel, Published(s0, a), Over(Published, s1, rest), RelayedBy(s0, a), s1.channel,
              Over(RelayedBy, s1, rest), s.channel);
      Chained(s0.queue, QueuedBy(s0, a), Over(QueuedBy, s1, rest), FetchedBy(s0, a), s1.queue,
              Over(FetchedBy, s1, rest), s.queue);
    }
  }

  lemma Chained<T>(q0: seq<T>, enters: seq<T>, more: seq<T>, leaves: seq<T>, q1: seq<T>, later: seq<T>, q2: seq<T>)
    requires q0 + enters == leaves + q1 && q1 + more == later + q2
    ensures q0 + (enters + more) == leaves + later + q2
  {
    assert q0 + (enters + more) == q0 + enters + more;
    assert leaves + q1 + more == leaves + (q1 + more);
    assert leaves + (later + q2) == leaves + later + q2;
  }

  lemma StepInOrder(s: State, a: Action)
    requires Enabled(s, a)
    ensures var s' := Apply(s, a);
      && s.channel + Published(s, a) == RelayedBy(s, a) + s'.channel
      && s.queue + QueuedBy(s, a) == FetchedBy(s, a) + s'.queue
  {
  }

  // ----- when an agent is sent the full list -----------------------------------------------

  /** An agent that declares at least every version this server has seen or relays meanwhile is
      never sent the full list. */
  lemma {:induction false} CurrentAgentNotResynced(s0: State, actions: seq<Action>, s: State)
    requires Run(s0, actions, s) && !s0.phase.Behind? && !s0.phase.Syncing?
    requires s0.version <= s0.declared && forall n :: n in Relayed(s0, actions) ==> n <= s0.declared
    ensures forall a :: a in actions ==> !a.Snapshot? && !a.SyncOne?
    decreases |actions|
  {
    if actions != [] {
      var s1 := Apply(s0, actions[0]);
      RelayedFirst(s0, actions);
      assert s1.version <= s1.declared == s0.declared;
      CurrentAgentNotResynced(s1, actions[1..], s);
      assert forall a :: a in actions ==> a == actions[0] || a in actions[1..];
    }
  }

  lemma RelayedFirst(s0: State, actions: seq<Action>)
    requires actions != [] && Enabled(s0, actions[0])
    ensures actions[0].Relay? ==> s0.channel[0].version in Relayed(s0, actions)
    ensures forall n :: n in Relayed(Apply(s0, actions[0]), actions[1..]) ==> n in Relayed(s0, actions)
  {
  }

  /** An agent behind this server when it connects streams nothing before it has been sent the full
      list. */
  lemma {:induction false} BehindAgentResynced(s0: State, actions: seq<Action>, s: State)
    requires Run(s0, actions, s) && (s0.phase.Connecting? || s0.phase.Subscribed? || s0.phase.Behind?)
    requires s0.declared < s0.version && s.phase.Streaming?
    ensures exists a :: a in actions && a.Snapshot?
    decreases |actions|
  {
    assert actions != [];
    var s1 := Apply(s0, actions[0]);
    if actions[0].Snapshot? {
      assert actions[0] in actions;
    } else {
      BehindAgentResynced(s1, actions[1..], s);
      var a :| a in actions[1..] && a.Snapshot?;
      assert a in actions;
    }
  }
}

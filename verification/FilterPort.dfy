/** The driver's connection port: callbacks of any number of clients, interleaved at every access
    to the shared gFilterData. Each client is identified by its own port. */
module FilterPort {
  import opened Wrappers

  type Port = nat

  const MAX_CONNECTIONS := 1

  /** Where a client's callbacks stand. Storing and Raising are inside a successful connect;
      Closing, Clearing, Lowering and Leaving are inside the disconnect. */
  datatype Pc =
    | Outside | Refusing | Refused
    | Storing | Raising | Accepted
    | Closing | Clearing | Lowering | Leaving | Gone

  /** The shared record and the clients. */
  datatype State = State(count: int, clientPort: Option<Port>, connected: bool, pcs: map<Port, Pc>)

  /** Between its interlocked increment and its interlocked decrement. */
  predicate Counted(pc: Pc) { !(pc.Outside? || pc.Refused? || pc.Gone?) }

  /** Holds the connection: admitted, and not yet past its final decrement. */
  predicate Owns(pc: Pc) { Counted(pc) && !pc.Refusing? }

  function CountedPorts(pcs: map<Port, Pc>): set<Port> { set p | p in pcs && Counted(pcs[p]) }

  /** How a callback goes on after its next access; count is what its increment finds. */
  function Next(pc: Pc, count: int): Pc {
    match pc
    case Outside => if count + 1 > MAX_CONNECTIONS then Refusing else Storing
    case Refusing => Refused
    case Storing => Raising
    case Raising => Accepted
    case Accepted => Closing
    case Closing => Clearing
    case Clearing => Lowering
    case Lowering => Leaving
    case Leaving => Gone
    case _ => pc
  }

  /** What that access does to the counter. */
  function Change(pc: Pc): int {
    match pc case Outside => 1 case Refusing => -1 case Leaving => -1 case _ => 0
  }

  /** One access to the shared record by client p; closing the port also clears it. */
  function Step(s: State, p: Port): State
    requires p in s.pcs
  {
    var pc := s.pcs[p];
    State(s.count + Change(pc),
          if pc == Storing then Some(p) else if pc == Closing || pc == Clearing then None else s.clientPort,
          if pc == Raising then true else if pc == Lowering then false else s.connected,
          s.pcs[p := Next(pc, s.count)])
  }

  function Run(s: State, schedule: seq<Port>): State
    requires forall p :: p in schedule ==> p in s.pcs
    decreases |schedule|
  {
    if schedule == [] then s
    else assert schedule[0] in schedule; Run(Step(s, schedule[0]), schedule[1..])
  }

  ghost predicate Initial(s: State) {
    s.count == 0 && s.clientPort == None && !s.connected && forall p :: p in s.pcs ==> s.pcs[p] == Outside
  }

  /** What the owner's progress says about the shared record. */
  predicate OwnerSees(s: State, p: Port)
    requires p in s.pcs
  {
    match s.pcs[p]
    case Storing => s.clientPort == None && !s.connected
    case Raising => s.clientPort == Some(p) && !s.connected
    case Accepted => s.clientPort == Some(p) && s.connected
    case Closing => s.clientPort == Some(p) && s.connected
    case Clearing => s.clientPort == None && s.connected
    case Lowering => s.clientPort == None && s.connected
    case Leaving => s.clientPort == None && !s.connected
    case _ => true
  }

  ghost predicate Inv(s: State) {
    && s.count == |CountedPorts(s.pcs)|
    && (forall p, q :: p in s.pcs && q in s.pcs && Owns(s.pcs[p]) && Owns(s.pcs[q]) ==> p == q)
    && (forall p :: p in s.pcs ==> OwnerSees(s, p))
    && ((forall p :: p in s.pcs ==> !Owns(s.pcs[p])) ==> s.clientPort == None && !s.connected)
  }

  function One(b: bool): int { if b then 1 else 0 }

  /** Moving one client changes the counted ones by at most that client. */
  lemma CountedUpdate(pcs: map<Port, Pc>, p: Port, pc: Pc)
    requires p in pcs
    ensures |CountedPorts(pcs[p := pc])| == |CountedPorts(pcs)| + One(Counted(pc)) - One(Counted(pcs[p]))
  {
    hide Counted;
    var before, after := CountedPorts(pcs), CountedPorts(pcs[p := pc]);
    if Counted(pc) == Counted(pcs[p]) {
      assert after == before;
    } else if Counted(pc) {
      assert after == before + {p};
    } else {
      assert after == before - {p};
    }
  }

  lemma CountedAfter(s: State, p: Port)
    requires p in s.pcs && s.count == |CountedPorts(s.pcs)|
    ensures Step(s, p).count == |CountedPorts(Step(s, p).pcs)|
  {
    hide CountedPorts;
    CountedUpdate(s.pcs, p, Step(s, p).pcs[p]);
    assert Step(s, p).pcs == s.pcs[p := Step(s, p).pcs[p]];
  }

  /** A connect is admitted exactly when no other client is counted, and refused otherwise. */
  lemma AdmittedAlone(s: State, p: Port)
    requires Inv(s) && p in s.pcs && s.pcs[p] == Outside
    ensures Step(s, p).pcs[p] == (if forall q :: q in s.pcs ==> !Counted(s.pcs[q]) then Storing else Refusing)
  {
    if forall q :: q in s.pcs ==> !Counted(s.pcs[q]) {
      assert CountedPorts(s.pcs) == {};
    } else {
      var q :| q in s.pcs && Counted(s.pcs[q]);
      assert q in CountedPorts(s.pcs);
    }
  }

  lemma StepKeepsInv(s: State, p: Port)
    requires Inv(s) && p in s.pcs
    ensures Inv(Step(s, p))
  {
    CountedAfter(s, p);
    if s.pcs[p] == Outside {
      AdmittedAlone(s, p);
    }
    StepKeepsOwners(s, p);
    StepKeepsIdle(s, p);
  }

  lemma StepKeepsOwners(s: State, p: Port)
    requires Inv(s) && p in s.pcs
    requires s.pcs[p] == Outside && Step(s, p).pcs[p] == Storing ==> forall q :: q in s.pcs ==> !Counted(s.pcs[q])
    ensures var s' := Step(s, p);
      && (forall q, r :: q in s'.pcs && r in s'.pcs && Owns(s'.pcs[q]) && Owns(s'.pcs[r]) ==> q == r)
      && (forall q :: q in s'.pcs ==> OwnerSees(s', q))
  {
    hide CountedPorts;
    var s' := Step(s, p);
    assert OwnerSees(s, p);
    assert Owns(s'.pcs[p]) && !Owns(s.pcs[p]) ==> s.pcs[p] == Outside;
    assert s.pcs[p] == Outside && Owns(s'.pcs[p]) ==> forall q :: q in s.pcs ==> !Owns(s.pcs[q]);
    forall q | q in s'.pcs && q != p ensures OwnerSees(s', q) {
      assert s'.pcs[q] == s.pcs[q] && OwnerSees(s, q);
    }
  }

  /** When the last owner leaves, it leaves the record empty. */
  lemma StepKeepsIdle(s: State, p: Port)
    requires Inv(s) && p in s.pcs
    ensures var s' := Step(s, p);
      (forall q :: q in s'.pcs ==> !Owns(s'.pcs[q])) ==> s'.clientPort == None && !s'.connected
  {
    hide CountedPorts;
    var s' := Step(s, p);
    assert OwnerSees(s, p);
    if forall q :: q in s'.pcs ==> !Owns(s'.pcs[q]) {
      assert !Owns(s'.pcs[p]);
      forall q | q in s.pcs && q != p ensures !Owns(s.pcs[q]) {
        assert s'.pcs[q] == s.pcs[q];
      }
    }
  }

  lemma {:induction false} RunKeepsInv(s: State, schedule: seq<Port>)
    requires Inv(s) && forall p :: p in schedule ==> p in s.pcs
    ensures Inv(Run(s, schedule))
    decreases |schedule|
  {
    hide Inv;
    if schedule != [] {
      assert schedule[0] in schedule;
      StepKeepsInv(s, schedule[0]);
      RunKeepsInv(Step(s, schedule[0]), schedule[1..]);
    }
  }

  lemma InitialInv(s: State)
    requires Initial(s)
    ensures Inv(s)
  {
    assert CountedPorts(s.pcs) == {};
  }

  function Owners(pcs: map<Port, Pc>): set<Port> { set p | p in pcs && Owns(pcs[p]) }

  function Refusals(pcs: map<Port, Pc>): set<Port> { set p | p in pcs && pcs[p] == Refusing }

  lemma CountedSplit(pcs: map<Port, Pc>)
    ensures |CountedPorts(pcs)| == |Owners(pcs)| + |Refusals(pcs)|
  {
    assert CountedPorts(pcs) == Owners(pcs) + Refusals(pcs);
    assert Owners(pcs) !! Refusals(pcs);
  }

  lemma AtMostOne(owners: set<Port>)
    requires forall p, q :: p in owners && q in owners ==> p == q
    ensures |owners| <= 1
  {
    if p :| p in owners {
      assert owners == {p};
    }
  }

  /** Under every schedule: the counter is the number of connections plus the refusals under way,
      no two clients are connected, and an accepted client finds its own port in the record. */
  lemma MutualExclusion(s0: State, schedule: seq<Port>)
    requires Initial(s0) && forall p :: p in schedule ==> p in s0.pcs
    ensures var s := Run(s0, schedule);
      && s.count == |Owners(s.pcs)| + |Refusals(s.pcs)|
      && |Owners(s.pcs)| <= 1
      && (forall p :: p in s.pcs && s.pcs[p] == Accepted ==> s.clientPort == Some(p) && s.connected)
      && (Owners(s.pcs) == {} ==> s.clientPort == None && !s.connected)
  {
    hide Run, Owns;
    InitialInv(s0);
    RunKeepsInv(s0, schedule);
    var s := Run(s0, schedule);
    CountedSplit(s.pcs);
    AtMostOne(Owners(s.pcs));
    forall p | p in s.pcs && s.pcs[p] == Accepted ensures s.clientPort == Some(p) && s.connected {
      assert OwnerSees(s, p);
    }
    if Owners(s.pcs) == {} {
      forall p | p in s.pcs ensures !Owns(s.pcs[p]) {
        assert p !in Owners(s.pcs);
      }
    }
  }

  // ----- the filter manager's own limit ----------------------------------------------------

  /** The filter manager counts a client from its connect until its port is closed. */
  predicate InPort(pc: Pc) { pc in {Refusing, Storing, Raising, Accepted, Closing} }

  /** In the disconnect callback, with the port already closed. */
  predicate Departing(pc: Pc) { pc in {Clearing, Lowering, Leaving} }

  /** The port was created for MAX_CONNECTIONS clients, so a connect callback starts only when no
      other client is in the port. */
  predicate LetIn(s: State, p: Port)
    requires p in s.pcs
  {
    s.pcs[p] == Outside ==> forall q :: q in s.pcs && q != p ==> !InPort(s.pcs[q])
  }

  /** A schedule the driver can receive. */
  predicate Capped(s: State, schedule: seq<Port>)
    requires forall p :: p in schedule ==> p in s.pcs
    decreases |schedule|
  {
    schedule == [] ||
    (assert schedule[0] in schedule;
     LetIn(s, schedule[0]) && Capped(Step(s, schedule[0]), schedule[1..]))
  }

  /** When the filter manager lets a client in, the driver refuses it exactly while the previous
      client's disconnect callback is still running: never when nobody holds the connection. */
  lemma RefusedIffDeparting(s0: State, schedule: seq<Port>, p: Port)
    requires Initial(s0) && forall q :: q in schedule ==> q in s0.pcs
    requires var s := Run(s0, schedule); p in s.pcs && s.pcs[p] == Outside && LetIn(s, p)
    ensures var s := Run(s0, schedule);
      Step(s, p).pcs[p] == Refusing <==> exists q :: q in s.pcs && Departing(s.pcs[q])
    ensures var s := Run(s0, schedule);
      Step(s, p).pcs[p] == Refusing ==> Owners(s.pcs) != {}
  {
    hide Run, Inv;
    InitialInv(s0);
    RunKeepsInv(s0, schedule);
    var s := Run(s0, schedule);
    AdmittedAlone(s, p);
    if Step(s, p).pcs[p] == Refusing {
      var q :| q in s.pcs && Counted(s.pcs[q]);
      assert Departing(s.pcs[q]) && q in Owners(s.pcs);
    }
  }

  ghost predicate OneInPort(s: State) {
    forall p, q :: p in s.pcs && q in s.pcs && InPort(s.pcs[p]) && InPort(s.pcs[q]) ==> p == q
  }

  lemma {:induction false} CappedKeepsOne(s: State, schedule: seq<Port>)
    requires forall p :: p in schedule ==> p in s.pcs
    requires Capped(s, schedule) && OneInPort(s)
    ensures OneInPort(Run(s, schedule))
    decreases |schedule|
  {
    if schedule != [] {
      assert schedule[0] in schedule;
      CappedKeepsOne(Step(s, schedule[0]), schedule[1..]);
    }
  }

  /** So on every schedule the driver can receive at most one refusal is under way, the counter is
      at most two, and a client in the port is the owner, or is being refused beside a departing one. */
  lemma AtMostOneRefusal(s0: State, schedule: seq<Port>)
    requires Initial(s0) && forall p :: p in schedule ==> p in s0.pcs
    requires Capped(s0, schedule)
    ensures var s := Run(s0, schedule);
      && |Refusals(s.pcs)| <= 1
      && s.count <= 2
      && (forall p, q :: p in s.pcs && q in s.pcs && InPort(s.pcs[p]) && Owns(s.pcs[q]) ==>
            p == q || (s.pcs[p] == Refusing && Departing(s.pcs[q])))
  {
    hide Run;
    MutualExclusion(s0, schedule);
    CappedKeepsOne(s0, schedule);
    InitialInv(s0);
    RunKeepsInv(s0, schedule);
    AtMostOne(Refusals(Run(s0, schedule).pcs));
  }

  /** A run the driver can receive, and where it leads. */
  predicate Reached(s0: State, schedule: seq<Port>, s: State) {
    && s.pcs.Keys == s0.pcs.Keys
    && (forall q :: q in schedule ==> q in s0.pcs)
    && s == Run(s0, schedule)
    && Capped(s0, schedule)
  }

  lemma {:induction false} RunThen(s: State, schedule: seq<Port>, p: Port)
    requires p in s.pcs && forall q :: q in schedule ==> q in s.pcs
    requires Capped(s, schedule)
    ensures p in Run(s, schedule).pcs
    ensures Run(s, schedule + [p]) == Step(Run(s, schedule), p)
    ensures LetIn(Run(s, schedule), p) ==> Capped(s, schedule + [p])
    decreases |schedule|
  {
    hide LetIn;
    if schedule == [] {
      assert schedule + [p] == [p] && [p][1..] == [];
    } else {
      assert schedule[0] in schedule;
      RunThen(Step(s, schedule[0]), schedule[1..], p);
      assert (schedule + [p])[1..] == schedule[1..] + [p];
    }
  }

  lemma Extend(s0: State, schedule: seq<Port>, s: State, p: Port) returns (schedule': seq<Port>, s': State)
    requires Reached(s0, schedule, s) && p in s.pcs && LetIn(s, p)
    ensures Reached(s0, schedule', s') && s' == Step(s, p)
  {
    hide Run, Capped, LetIn;
    RunThen(s0, schedule, p);
    schedule', s' := schedule + [p], Step(s, p);
  }

  /** The case does occur: client 0 has connected and its port is closed again, and client 1 is
      refused because the counter has not been lowered yet. */
  lemma ReconnectRefused() returns (s0: State, schedule: seq<Port>, s: State)
    ensures Initial(s0) && Reached(s0, schedule, s)
    ensures 0 in s.pcs && 1 in s.pcs && s.pcs[0] == Clearing && s.pcs[1] == Refusing && s.clientPort == None
  {
    hide Run, Capped;
    s0 := State(0, None, false, map[0 := Outside, 1 := Outside]);
    assert s0.pcs.Keys == {0, 1};
    RunNothing(s0);
    schedule, s := Extend(s0, [], s0, 0);
    schedule, s := Extend(s0, schedule, s, 0);
    schedule, s := Extend(s0, schedule, s, 0);
    schedule, s := Extend(s0, schedule, s, 0);
    schedule, s := Extend(s0, schedule, s, 0);
    schedule, s := Extend(s0, schedule, s, 1);
  }

  lemma RunNothing(s: State)
    ensures Run(s, []) == s && Capped(s, [])
  {
  }
}

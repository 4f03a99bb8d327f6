/** The metrics agree with what the handlers did, in every state of every run. */
module ServiceCounters {
  import opened Prelude
  import opened Service
  import opened ServiceSafety

  /** Handler calls that reached a point of interest. */
  datatype Group = CountedOk | CountedErr | Sampled | Done

  predicate InGroup(call: Call, e: Endpoint, g: Group) {
    call.req.endpoint == e &&
    match g
    case CountedOk => (call.phase.Counted? || call.phase.Recorded? || call.phase.Finished?) && call.phase.resp.Success?
    case CountedErr => (call.phase.Counted? || call.phase.Recorded? || call.phase.Finished?) && !call.phase.resp.Success?
    case Sampled => call.phase.Recorded? || call.phase.Finished?
    case Done => call.phase.Finished?
  }

  function Members(s: State, e: Endpoint, g: Group): set<nat> {
    set id | id in s.calls && InGroup(s.calls[id], e, g)
  }

  /** What the metrics say of the size of a group. */
  function Reported(s: State, e: Endpoint, g: Group): nat {
    match g
    case CountedOk => s.TallyOf(e).ok
    case CountedErr => s.TallyOf(e).err
    case Sampled => s.TallyOf(e).samples
    case Done => |Members(s, e, Done)|
  }

  ghost predicate TallyInv(s: State) {
    forall e, g :: Reported(s, e, g) == |Members(s, e, g)|
  }

  /** The event that takes a call into the group. */
  predicate Joins(s: State, ev: Event, e: Endpoint, g: Group) {
    match g
    case CountedOk => ev.Count? && ev.id in s.calls && s.calls[ev.id].phase.Answered?
                      && s.calls[ev.id].req.endpoint == e && s.calls[ev.id].phase.resp.Success?
    case CountedErr => ev.Count? && ev.id in s.calls && s.calls[ev.id].phase.Answered?
                       && s.calls[ev.id].req.endpoint == e && !s.calls[ev.id].phase.resp.Success?
    case Sampled => ev.Record? && ev.id in s.calls && s.calls[ev.id].req.endpoint == e
    case Done => ev.Reply? && ev.id in s.calls && s.calls[ev.id].req.endpoint == e
  }

  lemma MembersGrow(s: State, s': State, e: Endpoint, g: Group, joined: set<nat>)
    requires forall id: nat :: (id in s'.calls && InGroup(s'.calls[id], e, g)) <==>
               (id in s.calls && InGroup(s.calls[id], e, g)) || id in joined
    ensures Members(s', e, g) == Members(s, e, g) + joined
  {
  }

  /** A step adds at most the one call it acts on, and no call ever leaves a group. */
  lemma MemberStep(cfg: Config, s: State, ev: Event, s': State, e: Endpoint, g: Group)
    requires Next(cfg, s, ev) == Some(s')
    ensures Joins(s, ev, e, g) ==> ev.id !in Members(s, e, g) && Members(s', e, g) == Members(s, e, g) + {ev.id}
    ensures !Joins(s, ev, e, g) ==> Members(s', e, g) == Members(s, e, g)
  {
    var joined := if Joins(s, ev, e, g) then {ev.id} else {};
    forall id: nat
      ensures (id in s'.calls && InGroup(s'.calls[id], e, g)) <==>
                (id in s.calls && InGroup(s.calls[id], e, g)) || id in joined
      ensures id in joined ==> id !in Members(s, e, g)
    {
      MemberStepAt(cfg, s, ev, s', e, g, id);
    }
    MembersGrow(s, s', e, g, joined);
  }

  lemma MemberStepAt(cfg: Config, s: State, ev: Event, s': State, e: Endpoint, g: Group, id: nat)
    requires Next(cfg, s, ev) == Some(s')
    ensures (id in s'.calls && InGroup(s'.calls[id], e, g)) <==>
              (id in s.calls && InGroup(s.calls[id], e, g)) || (Joins(s, ev, e, g) && id == ev.id)
    ensures Joins(s, ev, e, g) && id == ev.id ==> !InGroup(s.calls[id], e, g)
  {
  }

  lemma ReportedStep(cfg: Config, s: State, ev: Event, s': State, e: Endpoint, g: Group)
    requires Next(cfg, s, ev) == Some(s') && !g.Done?
    ensures Reported(s', e, g) == Reported(s, e, g) + if Joins(s, ev, e, g) then 1 else 0
  {
  }

  lemma StepKeepsTally(cfg: Config, s: State, ev: Event, s': State)
    requires TallyInv(s) && Next(cfg, s, ev) == Some(s')
    ensures TallyInv(s')
  {
    forall e, g ensures Reported(s', e, g) == |Members(s', e, g)| {
      MemberStep(cfg, s, ev, s', e, g);
      if !g.Done? {
        ReportedStep(cfg, s, ev, s', e, g);
      }
    }
  }

  lemma {:induction false} RunKeepsTally(cfg: Config, run: Run, n: nat)
    requires run.Valid(cfg) && n < |run.states|
    ensures TallyInv(run.states[n])
  {
    if n == 0 {
      forall e, g ensures Members(run.states[0], e, g) == {} {
      }
    } else {
      RunKeepsTally(cfg, run, n - 1);
      StepKeepsTally(cfg, run.states[n - 1], run.events[n - 1], run.states[n]);
    }
  }

  /** Calls of an endpoint that have been counted and have not returned. */
  function Returning(s: State, e: Endpoint): set<nat> {
    set id | id in s.calls && s.calls[id].req.endpoint == e && (s.calls[id].phase.Counted? || s.calls[id].phase.Recorded?)
  }

  /**
   * Conservation: successes plus errors are the finished calls plus those just returning, and
   * latency samples lie between the two; when none is returning all three agree. Successful
   * key-store writes are the startup write, the rotation counter, and at most one rotation
   * between its write and its increment.
   */
  lemma CountersConserved(cfg: Config, run: Run, n: nat, e: Endpoint)
    requires run.Valid(cfg) && n < |run.states|
    ensures var s := run.states[n];
            var finished := |Members(s, e, Done)|;
            && s.TallyOf(e).ok + s.TallyOf(e).err == finished + |Returning(s, e)|
            && finished <= s.TallyOf(e).samples <= s.TallyOf(e).ok + s.TallyOf(e).err
            && (Returning(s, e) == {} ==> s.TallyOf(e).ok + s.TallyOf(e).err == finished == s.TallyOf(e).samples)
            && (s.boot.Serving? ==> s.writes == 1 + s.rotations + if s.rotation.Stored? then 1 else 0)
  {
    RunKeepsInv(cfg, run, n);
    RunKeepsTally(cfg, run, n);
    TallyConserved(run.states[n], e);
  }

  lemma TallyConserved(s: State, e: Endpoint)
    requires TallyInv(s)
    ensures var finished := |Members(s, e, Done)|;
            && s.TallyOf(e).ok + s.TallyOf(e).err == finished + |Returning(s, e)|
            && finished <= s.TallyOf(e).samples <= s.TallyOf(e).ok + s.TallyOf(e).err
  {
    var ok, err := Members(s, e, CountedOk), Members(s, e, CountedErr);
    var sampled, done := Members(s, e, Sampled), Members(s, e, Done);
    assert Reported(s, e, CountedOk) == |ok| && Reported(s, e, CountedErr) == |err| && Reported(s, e, Sampled) == |sampled|;
    GroupsPartition(s, e);
    assert |ok + err| == |ok| + |err| && |done + Returning(s, e)| == |done| + |Returning(s, e)|;
    SubsetSize(done, sampled);
    SubsetSize(sampled, ok + err);
  }

  lemma GroupsPartition(s: State, e: Endpoint)
    ensures var ok, err, done := Members(s, e, CountedOk), Members(s, e, CountedErr), Members(s, e, Done);
            && ok !! err && done !! Returning(s, e)
            && ok + err == done + Returning(s, e)
            && done <= Members(s, e, Sampled) <= ok + err
  {
  }

  lemma {:induction false} SubsetSize(a: set<nat>, b: set<nat>)
    requires a <= b
    ensures |a| <= |b|
  {
    assert b == a + (b - a);
  }
}

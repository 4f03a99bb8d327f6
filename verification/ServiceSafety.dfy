/** What every run of the service keeps. */
module ServiceSafety {
  import opened Prelude
  import opened JsonTree
  import opened Paths
  import opened Cipher
  import opened Transform
  import opened Resolver
  import opened SchemaCaching
  import opened Service

  // ---- Keys, schemas and answers ----------------------------------------------------------

  ghost predicate KeyInv(s: State) {
    && (s.dek.Some? ==> |s.dek.value| == KEY_LEN)
    && (s.boot.LoadingSchemas? || s.boot.Serving? ==> s.dek.Some?)
    && (s.boot.FetchingKey? ==> s.dek.None?)
    && (!s.boot.Serving? ==> s.calls == map[] && s.rotation.Waiting? && s.refresh.Idle?)
    && s.writes == (if s.dek.Some? then 1 else 0) + s.rotations + (if s.rotation.Stored? then 1 else 0)
  }

  /** The response is what the call's own path set and key make of its own payload. */
  ghost predicate Justified(cfg: Config, call: Call, resp: Response) {
    match resp
    case BadRequest => call.paths.None? && call.dek.None?
    case Unavailable => false
    case _ =>
      && call.paths.Some? && call.dek.Some? && |call.dek.value| == KEY_LEN
      && var lists := SegmentLists(call.paths.value);
         var op := OpFor(cfg, call.req.endpoint, call.dek.value);
         && (resp.Success? <==> Defined(call.req.payload, op, lists))
         && (resp.Success? ==> resp.payload == MapAt(call.req.payload, lists, op))
  }

  ghost predicate CallInv(cfg: Config, call: Call) {
    match call.phase
    case Arrived => call.paths.None? && call.dek.None?
    case HasSchema => call.paths.Some? && call.dek.None?
    case HasKey => call.paths.Some? && call.dek.Some? && |call.dek.value| == KEY_LEN
    case Abandoned => true
    case _ => Justified(cfg, call, call.phase.resp)
  }

  ghost predicate Inv(cfg: Config, s: State) {
    && KeyInv(s)
    && Consistent(s.cache)
    && forall id :: id in s.calls ==> CallInv(cfg, s.calls[id])
  }

  lemma ComputeJustified(cfg: Config, call: Call, order: seq<string>)
    requires CallInv(cfg, call) && call.phase.HasKey? && Enumerates(order, call.paths.value)
    ensures CallInv(cfg, AfterCompute(cfg, call, order))
  {
    LoopIsOnePass(call.req.payload, order, call.paths.value, OpFor(cfg, call.req.endpoint, call.dek.value));
  }

  lemma StepKeepsCalls(cfg: Config, s: State, ev: Event, s': State)
    requires Inv(cfg, s) && Next(cfg, s, ev) == Some(s')
    ensures forall id :: id in s'.calls ==> CallInv(cfg, s'.calls[id])
  {
    if ev.Compute? {
      ComputeJustified(cfg, s.calls[ev.id], ev.order);
    }
  }

  lemma StepKeepsInv(cfg: Config, s: State, ev: Event, s': State)
    requires Inv(cfg, s) && Next(cfg, s, ev) == Some(s')
    ensures Inv(cfg, s')
  {
    StepKeepsCalls(cfg, s, ev, s');
  }

  /** Every state of every run keeps the invariant. */
  lemma {:induction false} RunKeepsInv(cfg: Config, run: Run, n: nat)
    requires run.Valid(cfg) && n < |run.states|
    ensures Inv(cfg, run.states[n])
  {
    if n == 0 {
    } else {
      RunKeepsInv(cfg, run, n - 1);
      StepKeepsInv(cfg, run.states[n - 1], run.events[n - 1], run.states[n]);
    }
  }

  /** A step changes the key exactly by storing 32 fetched bytes, and never removes it. */
  lemma KeyStep(cfg: Config, s: State, ev: Event, s': State)
    requires KeyInv(s) && Next(cfg, s, ev) == Some(s')
    ensures s.dek.Some? ==> s'.dek.Some?
    ensures s'.dek != s.dek ==>
              || (ev == StartupFetch(s'.dek) && |s'.dek.value| == 32)
              || (ev == RotationStore && s'.dek == Some(s.rotation.key) && |s.rotation.key| == 32)
    ensures ev.StartupFetch? && ev.key.Some? && |ev.key.value| == 32 ==> s'.dek == ev.key
    ensures ev == RotationStore && |s.rotation.key| == 32 ==> s'.dek == Some(s.rotation.key)
  {
  }

  predicate AnsweredWith(call: Call, resp: Response) {
    call.phase in {Answered(resp), Counted(resp), Recorded(resp), Finished(resp)}
  }

  lemma NeverUnavailable(cfg: Config, s: State)
    requires Inv(cfg, s)
    ensures forall id :: id in s.calls ==> !AnsweredWith(s.calls[id], Unavailable)
  {
    forall id | id in s.calls ensures !AnsweredWith(s.calls[id], Unavailable) {
      assert CallInv(cfg, s.calls[id]);
    }
  }

  /**
   * The key over whole runs: always absent or 32 bytes, never lost once stored, and present
   * for every handler, so that none answers 503.
   */
  lemma {:induction false} KeyLifecycle(cfg: Config, run: Run, m: nat, n: nat)
    requires run.Valid(cfg) && m <= n < |run.states|
    ensures run.states[n].dek.Some? ==> |run.states[n].dek.value| == 32
    ensures run.states[m].dek.Some? ==> run.states[n].dek.Some?
    ensures forall id :: id in run.states[n].calls ==> !AnsweredWith(run.states[n].calls[id], Unavailable)
    decreases n
  {
    RunKeepsInv(cfg, run, n);
    NeverUnavailable(cfg, run.states[n]);
    if m == n {
    } else {
      KeyLifecycle(cfg, run, m, n - 1);
      RunKeepsInv(cfg, run, n - 1);
      KeyStep(cfg, run.states[n - 1], run.events[n - 1], run.states[n]);
    }
  }

  // ---- One schema version and one key per response ----------------------------------------

  /** The call read its paths at step `i`, from the cache as it was then. */
  ghost predicate ReadPathsAt(run: Run, id: nat, call: Call, i: nat)
    requires |run.states| == |run.events| + 1
  {
    && i < |run.events| && run.events[i] == ReadSchema(id)
    && if call.req.header.Named? && call.req.header.name in run.states[i].cache
       then call.paths == Some(run.states[i].cache[call.req.header.name].piiPaths)
       else call.paths.None?
  }

  /** The call read its key at step `j`, from the store as it was then. */
  ghost predicate ReadKeyAt(run: Run, id: nat, call: Call, j: nat)
    requires |run.states| == |run.events| + 1
  {
    j < |run.events| && run.events[j] == ReadKey(id) && run.states[j].dek == call.dek
  }

  /** What one step may do to a call. */
  ghost predicate CallChange(s: State, ev: Event, s': State, id: nat)
    requires id in s'.calls
  {
    var call := s'.calls[id];
    if id !in s.calls then ev == Arrive(id, call.req) && call == Call(call.req, None, None, Arrived)
    else if ev == ReadSchema(id)
    then s.calls[id] == Call(call.req, None, None, Arrived) && call == AfterSchema(s.calls[id], s.cache)
    else if ev == ReadKey(id)
    then s.calls[id].phase.HasSchema? && s.calls[id].dek.None? && call == AfterKey(s.calls[id], s.dek)
    else && call.req == s.calls[id].req && call.paths == s.calls[id].paths && call.dek == s.calls[id].dek
         && (call.phase.Arrived? <==> s.calls[id].phase.Arrived?)
  }

  lemma CallStep(cfg: Config, s: State, ev: Event, s': State, id: nat)
    requires Next(cfg, s, ev) == Some(s') && id in s'.calls
    requires id in s.calls ==> CallInv(cfg, s.calls[id])
    ensures CallChange(s, ev, s', id)
  {
  }

  lemma CallStepAt(cfg: Config, run: Run, n: nat, id: nat)
    requires run.Valid(cfg) && n < |run.states| && id in run.states[n].calls
    ensures n > 0 && CallChange(run.states[n - 1], run.events[n - 1], run.states[n], id)
  {
    RunKeepsInv(cfg, run, n - 1);
    CallStep(cfg, run.states[n - 1], run.events[n - 1], run.states[n], id);
  }

  /** The call arrived at step `a`, then read its paths at `i`, then read its key at `j`. */
  ghost predicate Origin(run: Run, n: nat, id: nat, call: Call, a: nat, i: nat, j: nat)
    requires |run.states| == |run.events| + 1
  {
    && a < n <= |run.events| && run.events[a] == Arrive(id, call.req)
    && (!call.phase.Arrived? ==> a < i < n && ReadPathsAt(run, id, call, i))
    && (call.dek.Some? ==> !call.phase.Arrived? && i < j < n && ReadKeyAt(run, id, call, j))
  }

  lemma OriginStep(run: Run, n: nat, id: nat, a: nat, i: nat, j: nat) returns (i': nat, j': nat)
    requires |run.states| == |run.events| + 1 && 0 < n < |run.states|
    requires id in run.states[n - 1].calls && id in run.states[n].calls
    requires CallChange(run.states[n - 1], run.events[n - 1], run.states[n], id)
    requires Origin(run, n - 1, id, run.states[n - 1].calls[id], a, i, j)
    ensures Origin(run, n, id, run.states[n].calls[id], a, i', j')
  {
    i', j' := i, j;
    if run.events[n - 1] == ReadSchema(id) {
      i' := n - 1;
    } else if run.events[n - 1] == ReadKey(id) {
      j' := n - 1;
    }
  }

  /** Every call has such an origin. */
  lemma {:induction false} Provenance(cfg: Config, run: Run, n: nat, id: nat) returns (a: nat, i: nat, j: nat)
    requires run.Valid(cfg) && n < |run.states| && id in run.states[n].calls
    ensures Origin(run, n, id, run.states[n].calls[id], a, i, j)
    decreases n
  {
    CallStepAt(cfg, run, n, id);
    if id in run.states[n - 1].calls {
      a, i, j := Provenance(cfg, run, n - 1, id);
      i, j := OriginStep(run, n, id, a, i, j);
    } else {
      a, i, j := n - 1, 0, 0;
    }
  }

  /**
   * A successful response is the pure transform of the request's own payload, under the paths
   * that the schema cache held at one step of this call and the key that the store held at a
   * later one, whatever rotations, refreshes and other requests came between.
   */
  lemma SuccessIsOneTransform(cfg: Config, run: Run, n: nat, id: nat, out: Json) returns (a: nat, i: nat, j: nat)
    requires run.Valid(cfg) && n < |run.states|
    requires InPhase(run.states[n], id, Finished(Success(out)))
    ensures var req := run.states[n].calls[id].req;
            && a < i < j < n
            && run.events[a] == Arrive(id, req) && run.events[i] == ReadSchema(id) && run.events[j] == ReadKey(id)
            && req.header.Named? && req.header.name in run.states[i].cache && run.states[j].dek.Some?
            && var entry := run.states[i].cache[req.header.name];
               var op := OpFor(cfg, req.endpoint, run.states[j].dek.value);
               && IsPathSetOf(entry.api, entry.piiPaths)
               && Defined(req.payload, op, SegmentLists(entry.piiPaths))
               && out == MapAt(req.payload, SegmentLists(entry.piiPaths), op)
  {
    RunKeepsInv(cfg, run, n);
    a, i, j := Provenance(cfg, run, n, id);
    RunKeepsInv(cfg, run, i);
  }

  /**
   * Every finished call, successful or not, was answered as one atomic handler would have
   * answered, given the cache of one step of the call and the key of that step or a later one.
   */
  lemma AnswerIsAtomic(cfg: Config, run: Run, n: nat, id: nat, resp: Response) returns (a: nat, i: nat, j: nat)
    requires run.Valid(cfg) && n < |run.states| && InPhase(run.states[n], id, Finished(resp))
    ensures var req := run.states[n].calls[id].req;
            && a < i <= j < n
            && run.events[a] == Arrive(id, req) && run.events[i] == ReadSchema(id)
            && (j == i || run.events[j] == ReadKey(id))
            && resp == Respond(cfg, req, run.states[i].cache, run.states[j].dek)
  {
    RunKeepsInv(cfg, run, n);
    assert CallInv(cfg, run.states[n].calls[id]);
    a, i, j := Provenance(cfg, run, n, id);
    if resp.BadRequest? {
      j := i;
    }
  }

  // ---- The schema cache --------------------------------------------------------------------

  /** Step `k` listed and parsed exactly `schemas`. */
  ghost predicate LoadedAt(cfg: Config, run: Run, k: nat, schemas: map<string, Document>) {
    && k < |run.events|
    && (run.events[k].StartupLoad? || run.events[k].RefreshLoad?)
    && Load(cfg, run.events[k].listing) == Some(schemas)
  }

  /** What one step may do to the cache and to the schemas waiting to be installed. */
  lemma RefreshStep(cfg: Config, s: State, ev: Event, s': State)
    requires Next(cfg, s, ev) == Some(s')
    ensures s'.cache != s.cache ==>
              || (ev.StartupLoad? && Load(cfg, ev.listing).Some? && AllAcyclic(Load(cfg, ev.listing).value)
                  && s'.cache == CacheOf(Load(cfg, ev.listing).value))
              || (s.refresh.Loaded? && AllAcyclic(s.refresh.schemas) && s'.cache == CacheOf(s.refresh.schemas))
    ensures ev == RefreshSwap ==>
              s.refresh.Loaded? && AllAcyclic(s.refresh.schemas) && s'.cache == CacheOf(s.refresh.schemas)
    ensures s'.refresh.Loaded? ==>
              || s'.refresh == s.refresh
              || (ev.RefreshLoad? && Load(cfg, ev.listing) == Some(s'.refresh.schemas))
  {
  }

  lemma PendingStep(cfg: Config, run: Run, n: nat)
    requires run.Valid(cfg) && n < |run.states| && run.states[n].refresh.Loaded?
    ensures n > 0
    ensures run.states[n].refresh == run.states[n - 1].refresh || LoadedAt(cfg, run, n - 1, run.states[n].refresh.schemas)
  {
    RefreshStep(cfg, run.states[n - 1], run.events[n - 1], run.states[n]);
  }

  lemma {:induction false} PendingLoad(cfg: Config, run: Run, n: nat) returns (k: nat)
    requires run.Valid(cfg) && n < |run.states| && run.states[n].refresh.Loaded?
    ensures k < n && LoadedAt(cfg, run, k, run.states[n].refresh.schemas)
    decreases n
  {
    PendingStep(cfg, run, n);
    if LoadedAt(cfg, run, n - 1, run.states[n].refresh.schemas) {
      k := n - 1;
    } else {
      k := PendingLoad(cfg, run, n - 1);
    }
  }

  /**
   * A step leaves the cache as it is, or installs in one piece every document of one completed
   * load; and every cached path set is what resolving its document gives.
   */
  lemma CacheStep(cfg: Config, run: Run, n: nat) returns (k: nat, schemas: map<string, Document>)
    requires run.Valid(cfg) && n < |run.events|
    ensures Consistent(run.states[n + 1].cache)
    ensures run.events[n] == RefreshSwap || run.states[n + 1].cache != run.states[n].cache ==>
              k <= n && LoadedAt(cfg, run, k, schemas) && AllAcyclic(schemas) && run.states[n + 1].cache == CacheOf(schemas)
  {
    RunKeepsInv(cfg, run, n + 1);
    k, schemas := 0, map[];
    var s, ev := run.states[n], run.events[n];
    RefreshStep(cfg, s, ev, run.states[n + 1]);
    if ev.StartupLoad? && Load(cfg, ev.listing).Some? {
      k, schemas := n, Load(cfg, ev.listing).value;
    } else if s.refresh.Loaded? {
      k := PendingLoad(cfg, run, n);
      schemas := s.refresh.schemas;
    }
  }

  // ---- Health -------------------------------------------------------------------------------

  /** The health handler reads the key store, then the cache size. */
  predicate Healthy(dek: Option<Bytes>, cached: nat) {
    dek.Some? && cached > 0
  }

  /** Healthy means a key at the first read and a schema at the second; while serving, only schemas can be missing. */
  lemma HealthWhileServing(cfg: Config, run: Run, i: nat, j: nat)
    requires run.Valid(cfg) && i <= j < |run.states|
    ensures Healthy(run.states[i].dek, |run.states[j].cache|) <==>
              run.states[i].dek.Some? && run.states[j].cache != map[]
    ensures run.states[i].boot.Serving? ==>
              (Healthy(run.states[i].dek, |run.states[j].cache|) <==> run.states[j].cache != map[])
  {
    RunKeepsInv(cfg, run, i);
    var c := run.states[j].cache;
    if |c| == 0 {
      assert c == map[];
    }
  }
}

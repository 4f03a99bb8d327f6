/** What clients of a running service can rely on, across requests and schema versions. */
module ServiceMeaning {
  import opened Prelude
  import opened JsonTree
  import opened Paths
  import opened Cipher
  import opened Transform
  import opened Payload
  import opened EndToEnd
  import opened SchemaCaching
  import opened Service
  import opened ServiceSafety
  import opened ServiceHistory

  lemma {:induction false} EnumerationExists(paths: set<string>) returns (order: seq<string>)
    ensures Enumerates(order, paths)
  {
    if paths == {} {
      order := [];
    } else {
      var p :| p in paths;
      var rest := EnumerationExists(paths - {p});
      order := [p] + rest;
    }
  }

  /** No call is ever stuck: until it has returned or been abandoned, its next step can happen. */
  lemma CallCanProceed(cfg: Config, run: Run, n: nat, id: nat) returns (ev: Event)
    requires run.Valid(cfg) && n < |run.states| && id in run.states[n].calls
    requires !run.states[n].calls[id].phase.Finished? && !run.states[n].calls[id].phase.Abandoned?
    ensures ev in {ReadSchema(id), ReadKey(id), Count(id), Record(id), Reply(id)} || (ev.Compute? && ev.id == id)
    ensures Enabled(cfg, run.states[n], ev)
  {
    RunKeepsInv(cfg, run, n);
    var call := run.states[n].calls[id];
    assert CallInv(cfg, call);
    match call.phase
    case Arrived => ev := ReadSchema(id);
    case HasSchema => ev := ReadKey(id);
    case HasKey =>
      var order := EnumerationExists(call.paths.value);
      ev := Compute(id, order);
    case Answered(_) => ev := Count(id);
    case Counted(_) => ev := Record(id);
    case Recorded(_) => ev := Reply(id);
  }

  // ---- The specified answer -----------------------------------------------------------------

  /** The request names a schema that is cached. */
  predicate Known(req: Request, cache: map<string, CachedSchema>) {
    req.header.Named? && req.header.name in cache
  }

  /**
   * The four answers: 400 exactly without a cached schema, then 503 exactly without a key, then 500
   * exactly when some selected string fails, and otherwise the payload with the selected strings
   * sealed or opened and every other position as sent.
   */
  lemma RespondMeaning(cfg: Config, req: Request, cache: map<string, CachedSchema>, dek: Option<Bytes>, w: Json)
    ensures var resp := Respond(cfg, req, cache, dek);
            && (resp == BadRequest <==> !Known(req, cache))
            && (resp == Unavailable <==> Known(req, cache) && dek.None?)
            && (Known(req, cache) && dek.Some? ==>
                  var op: LeafOp := if req.endpoint.EncryptEndpoint?
                                    then s => SealLeaf(cfg.suite, dek.value, s) else s => OpenLeaf(cfg.suite, dek.value, s);
                  var lists := SegmentLists(cache[req.header.name].piiPaths);
                  && (resp == InternalError <==> exists loc, s :: Hits(req.payload, lists, loc, s) && op(s).Err?)
                  && (resp == Success(w) <==> resp.Success? && Image(req.payload, w, op, lists)))
  {
    if Known(req, cache) && dek.Some? {
      var op := OpFor(cfg, req.endpoint, dek.value);
      var lists := SegmentLists(cache[req.header.name].piiPaths);
      var out := MapAt(req.payload, lists, op);
      forall loc ensures LabelAt(out, loc) == Expected(req.payload, op, lists, loc) {
        MapAtLabel(req.payload, lists, op, loc);
      }
      if Image(req.payload, w, op, lists) {
        ImageUnique(req.payload, w, out, op, lists);
      }
    }
  }

  // ---- Runs that exist ----------------------------------------------------------------------

  ghost function LastOf(run: Run): State
    requires run.states != []
  {
    run.states[|run.states| - 1]
  }

  /** `longer` continues `run`. */
  ghost predicate Continues(cfg: Config, run: Run, longer: Run) {
    run.Valid(cfg) && longer.Valid(cfg) && run.states <= longer.states && run.events <= longer.events
  }

  lemma ExtendRun(cfg: Config, run: Run, ev: Event, s': State) returns (longer: Run)
    requires run.Valid(cfg) && Next(cfg, LastOf(run), ev) == Some(s')
    ensures Continues(cfg, run, longer) && LastOf(longer) == s'
  {
    longer := Run(run.states + [s'], run.events + [ev]);
    forall i | 0 <= i < |longer.events|
      ensures Next(cfg, longer.states[i], longer.events[i]) == Some(longer.states[i + 1])
    {
      if i < |run.events| {
        assert Next(cfg, run.states[i], run.events[i]) == Some(run.states[i + 1]);
      }
    }
  }

  /** The service starts with any 32-byte key and any listing that loads. */
  lemma ServingRun(cfg: Config, key: Bytes, listing: Option<seq<S3Object>>) returns (run: Run)
    requires |key| == 32 && Load(cfg, listing).Some? && AllAcyclic(Load(cfg, listing).value)
    ensures run.Valid(cfg) && LastOf(run).boot.Serving? && LastOf(run).calls == map[]
    ensures LastOf(run).dek == Some(key) && LastOf(run).cache == CacheOf(Load(cfg, listing).value)
  {
    var first := INIT.(boot := LoadingSchemas, dek := Some(key), writes := 1);
    run := Run([INIT], []);
    run := ExtendRun(cfg, run, StartupFetch(Some(key)), first);
    run := ExtendRun(cfg, run, StartupLoad(listing), first.(boot := Serving, cache := CacheOf(Load(cfg, listing).value)));
  }

  /** The state after a step that concerns only one call. */
  ghost predicate OnlyCall(s: State, s': State, id: nat, call: Call) {
    s'.boot == s.boot && s'.dek == s.dek && s'.cache == s.cache && s'.calls == s.calls[id := call]
  }

  lemma StepReads(cfg: Config, s: State, id: nat, req: Request) returns (s1: State, s2: State)
    requires s.boot.Serving? && id !in s.calls
    ensures Next(cfg, s, Arrive(id, req)) == Some(s1) && Next(cfg, s1, ReadSchema(id)) == Some(s2)
    ensures OnlyCall(s, s2, id, AfterSchema(Call(req, None, None, Arrived), s.cache))
  {
    s1 := SetCall(s, id, Call(req, None, None, Arrived));
    s2 := SetCall(s1, id, AfterSchema(s1.calls[id], s1.cache));
  }

  lemma StepComputes(cfg: Config, s: State, id: nat, order: seq<string>) returns (s1: State, s2: State)
    requires InPhase(s, id, HasSchema) && s.dek.Some? && s.calls[id].paths.Some?
    requires Enumerates(order, s.calls[id].paths.value)
    ensures Next(cfg, s, ReadKey(id)) == Some(s1) && Next(cfg, s1, Compute(id, order)) == Some(s2)
    ensures OnlyCall(s, s2, id, AfterCompute(cfg, AfterKey(s.calls[id], s.dek), order))
  {
    s1 := SetCall(s, id, AfterKey(s.calls[id], s.dek));
    s2 := SetCall(s1, id, AfterCompute(cfg, s1.calls[id], order));
  }

  lemma StepReturns(cfg: Config, s: State, id: nat, resp: Response) returns (s1: State, s2: State, s3: State)
    requires InPhase(s, id, Answered(resp))
    ensures Next(cfg, s, Count(id)) == Some(s1) && Next(cfg, s1, Record(id)) == Some(s2)
    ensures Next(cfg, s2, Reply(id)) == Some(s3)
    ensures OnlyCall(s, s3, id, s.calls[id].(phase := Finished(resp)))
  {
    s1 := Apply(cfg, s, Count(id));
    s2 := Apply(cfg, s1, Record(id));
    s3 := Apply(cfg, s2, Reply(id));
  }

  /** From the schema read to the answer. */
  lemma AnswerReached(cfg: Config, run: Run, id: nat, req: Request) returns (longer: Run)
    requires run.Valid(cfg) && LastOf(run).boot.Serving? && id !in LastOf(run).calls
    ensures Continues(cfg, run, longer)
    ensures InPhase(LastOf(longer), id, Answered(Respond(cfg, req, LastOf(run).cache, LastOf(run).dek)))
    ensures LastOf(longer).calls[id].req == req
  {
    var s := LastOf(run);
    RunKeepsInv(cfg, run, |run.states| - 1);
    var s1, s2 := StepReads(cfg, s, id, req);
    longer := ExtendRun(cfg, run, Arrive(id, req), s1);
    longer := ExtendRun(cfg, longer, ReadSchema(id), s2);
    if req.header.Named? && req.header.name in s.cache {
      var paths := s.cache[req.header.name].piiPaths;
      var order := EnumerationExists(paths);
      var s3, s4 := StepComputes(cfg, s2, id, order);
      LoopIsOnePass(req.payload, order, paths, OpFor(cfg, req.endpoint, s.dek.value));
      longer := ExtendRun(cfg, longer, ReadKey(id), s3);
      longer := ExtendRun(cfg, longer, Compute(id, order), s4);
    }
  }

  /** In every reachable serving state, any new request can be served, and gets the specified answer. */
  lemma CallCompletes(cfg: Config, run: Run, id: nat, req: Request) returns (longer: Run)
    requires run.Valid(cfg) && LastOf(run).boot.Serving? && id !in LastOf(run).calls
    ensures Continues(cfg, run, longer)
    ensures InPhase(LastOf(longer), id, Finished(Respond(cfg, req, LastOf(run).cache, LastOf(run).dek)))
    ensures LastOf(longer).calls[id].req == req
  {
    longer := AnswerReached(cfg, run, id, req);
    var resp := Respond(cfg, req, LastOf(run).cache, LastOf(run).dek);
    var s1, s2, s3 := StepReturns(cfg, LastOf(longer), id, resp);
    longer := ExtendRun(cfg, longer, Count(id), s1);
    longer := ExtendRun(cfg, longer, Record(id), s2);
    longer := ExtendRun(cfg, longer, Reply(id), s3);
  }

  // ---- What clients get -----------------------------------------------------------------------

  /** A successful call's output, as the loop over some order of its paths computes it. */
  lemma OutputOfCall(cfg: Config, run: Run, n: nat, id: nat, out: Json) returns (order: seq<string>)
    requires run.Valid(cfg) && n < |run.states| && InPhase(run.states[n], id, Finished(Success(out)))
    ensures var call := run.states[n].calls[id];
            && call.paths.Some? && call.dek.Some? && |call.dek.value| == 32 && Enumerates(order, call.paths.value)
            && RewriteAll(call.req.payload, order, OpFor(cfg, call.req.endpoint, call.dek.value)) == Ok(out)
  {
    RunKeepsInv(cfg, run, n);
    var call := run.states[n].calls[id];
    assert CallInv(cfg, call);
    order := EnumerationExists(call.paths.value);
    LoopIsOnePass(call.req.payload, order, call.paths.value, OpFor(cfg, call.req.endpoint, call.dek.value));
  }

  /**
   * Encrypting and decrypting are inverse across requests: if a decrypt call is given what an
   * encrypt call returned, and read the same paths and the same key, it answers with the
   * payload that was first sent.
   */
  lemma DecryptCallRestores(cfg: Config, run: Run, n: nat, x: nat, y: nat, w: Json, resp: Response)
    requires run.Valid(cfg) && n < |run.states|
    requires InPhase(run.states[n], x, Finished(Success(w))) && InPhase(run.states[n], y, Finished(resp))
    requires var s := run.states[n];
             && s.calls[x].req.endpoint.EncryptEndpoint? && s.calls[y].req.endpoint.DecryptEndpoint?
             && s.calls[y].req.payload == w
             && s.calls[y].paths == s.calls[x].paths && s.calls[y].dek == s.calls[x].dek
    ensures resp == Success(run.states[n].calls[x].req.payload)
  {
    var order := OutputOfCall(cfg, run, n, x, w);
    var call := run.states[n].calls[x];
    var v, paths, dek := call.req.payload, call.paths.value, call.dek.value;
    RoundTrip(cfg.suite, dek, v, order, order, paths);
    LoopIsOnePass(w, order, paths, Opener(cfg.suite, dek));
    RunKeepsInv(cfg, run, n);
    assert CallInv(cfg, run.states[n].calls[y]);
  }

  /** In state `n`, `y` is a decrypt call given what the encrypt call `x` returned. */
  ghost predicate Chained(s: State, x: nat, w: Json, y: nat, resp: Response) {
    && InPhase(s, x, Finished(Success(w))) && InPhase(s, y, Finished(resp))
    && s.calls[x].req.endpoint.EncryptEndpoint? && s.calls[y].req.endpoint.DecryptEndpoint?
    && s.calls[y].req.payload == w && s.calls[y].req.header == s.calls[x].req.header
  }

  /**
   * The same in terms of the run: no schema is installed between the two calls' schema reads and
   * no key is stored between their key reads.
   */
  lemma QuietRoundTrip(cfg: Config, run: Run, n: nat,
                       x: nat, i: nat, j: nat, w: Json, y: nat, k: nat, l: nat, resp: Response)
    requires run.Valid(cfg) && n < |run.states| && Chained(run.states[n], x, w, y, resp)
    requires Reads(run, n, x, i, j) && Reads(run, n, y, k, l)
    requires NotBetween(run, RefreshSwap, i, k) && NotBetween(run, RotationStore, j, l)
    ensures resp == Success(run.states[n].calls[x].req.payload)
  {
    SamePathsRead(cfg, run, n, x, i, y, k);
    SameKeyRead(cfg, run, n, x, j, y, l);
    DecryptCallRestores(cfg, run, n, x, y, w, resp);
  }

  /** The paths that the cache held for the call's schema at step `i`. */
  ghost function PathsAt(run: Run, call: Call, i: nat): set<string>
    requires i < |run.states| && call.req.header.Named? && call.req.header.name in run.states[i].cache
  {
    run.states[i].cache[call.req.header.name].piiPaths
  }

  lemma PathsRead(cfg: Config, run: Run, n: nat, id: nat, i: nat)
    requires run.Valid(cfg) && i < n < |run.states| && run.events[i] == ReadSchema(id)
    requires id in run.states[n].calls && run.states[n].calls[id].paths.Some?
    ensures var call := run.states[n].calls[id];
            && call.req.header.Named? && call.req.header.name in run.states[i].cache
            && call.paths == Some(PathsAt(run, call, i))
  {
    SchemaReadOnce(cfg, run, n, id, i);
  }

  /** A call that read its key is answered with the loop's result. */
  lemma AnsweredAfterRead(cfg: Config, run: Run, n: nat, id: nat, j: nat, resp: Response) returns (order: seq<string>)
    requires run.Valid(cfg) && j < n < |run.states| && run.events[j] == ReadKey(id)
    requires InPhase(run.states[n], id, Finished(resp))
    ensures var call := run.states[n].calls[id];
            && call.paths.Some? && call.dek.Some? && Enumerates(order, call.paths.value)
            && var r := RewriteAll(call.req.payload, order, OpFor(cfg, call.req.endpoint, call.dek.value));
               resp == if r.Ok? then Success(r.value) else InternalError
  {
    KeyReadOnce(cfg, run, n, id, j);
    RunKeepsInv(cfg, run, n);
    var call := run.states[n].calls[id];
    assert CallInv(cfg, call);
    order := EnumerationExists(call.paths.value);
    LoopIsOnePass(call.req.payload, order, call.paths.value, OpFor(cfg, call.req.endpoint, call.dek.value));
  }

  /**
   * What decrypting with the paths `now` answers about `v`, encrypted with the paths `was`. It
   * succeeds exactly when the leaves that only `now` selects can be opened; then leaves that both
   * select are back, those that only `was` selects are still tokens, and all else is as it was.
   */
  ghost predicate AnswersChange(cfg: Config, dek: Bytes, v: Json, was: set<string>, now: set<string>, resp: Response) {
    var seal, open := Sealer(cfg.suite, dek), Opener(cfg.suite, dek);
    && (resp.Success? || resp.InternalError?)
    && (resp.Success? <==> forall loc, s :: Hits(v, SegmentLists(now), loc, s) && !Selected(was, loc) ==> open(s).Ok?)
    && (resp.Success? ==> forall loc :: LabelAt(resp.payload, loc) == AfterChange(seal, open, v, was, now, loc))
  }

  lemma DecryptOtherPaths(cfg: Config, run: Run, n: nat, x: nat, w: Json, y: nat, l: nat, resp: Response)
    requires run.Valid(cfg) && l < n < |run.states| && Chained(run.states[n], x, w, y, resp)
    requires run.events[l] == ReadKey(y) && run.states[n].calls[y].dek == run.states[n].calls[x].dek
    ensures var a, b := run.states[n].calls[x], run.states[n].calls[y];
            && a.paths.Some? && b.paths.Some? && a.dek.Some?
            && AnswersChange(cfg, a.dek.value, a.req.payload, a.paths.value, b.paths.value, resp)
  {
    var a, b := run.states[n].calls[x], run.states[n].calls[y];
    var before := OutputOfCall(cfg, run, n, x, w);
    var after := AnsweredAfterRead(cfg, run, n, y, l, resp);
    ChangedSchema(cfg.suite, a.dek.value, a.req.payload, before, a.paths.value, after, b.paths.value);
  }

  /**
   * The same with schemas refreshed between the two calls, but no key stored: the answer is the
   * one for the two path sets that the cache held at the two schema reads.
   */
  lemma DecryptAfterRefresh(cfg: Config, run: Run, n: nat,
                            x: nat, i: nat, j: nat, w: Json, y: nat, k: nat, l: nat, resp: Response)
    requires run.Valid(cfg) && n < |run.states| && Chained(run.states[n], x, w, y, resp)
    requires Reads(run, n, x, i, j) && Reads(run, n, y, k, l)
    requires NotBetween(run, RotationStore, j, l)
    ensures var call := run.states[n].calls[x];
            && call.req.header.Named? && call.req.header.name in run.states[i].cache
            && call.req.header.name in run.states[k].cache && run.states[j].dek.Some?
            && AnswersChange(cfg, run.states[j].dek.value, call.req.payload,
                             PathsAt(run, call, i), PathsAt(run, call, k), resp)
  {
    SameKeyRead(cfg, run, n, x, j, y, l);
    KeyReadOnce(cfg, run, n, x, j);
    DecryptOtherPaths(cfg, run, n, x, w, y, l, resp);
    PathsRead(cfg, run, n, x, i);
    PathsRead(cfg, run, n, y, k);
  }

  /** The string leaf at `loc` that the call's paths select. */
  ghost predicate SelectedLeaf(call: Call, loc: Location, s: string) {
    call.paths.Some? && Hits(call.req.payload, SegmentLists(call.paths.value), loc, s)
  }

  /**
   * Tokenisation across requests: two encrypt calls that read the same key return equal tokens
   * for two leaves exactly when the leaves sent were equal, whatever their schemas.
   */
  lemma CallsTokenise(cfg: Config, run: Run, n: nat,
                      x: nat, v: Json, at: Location, s: string, y: nat, w: Json, there: Location, t: string)
    requires run.Valid(cfg) && n < |run.states|
    requires InPhase(run.states[n], x, Finished(Success(v))) && InPhase(run.states[n], y, Finished(Success(w)))
    requires var a, b := run.states[n].calls[x], run.states[n].calls[y];
             && a.req.endpoint.EncryptEndpoint? && b.req.endpoint.EncryptEndpoint? && a.dek == b.dek
             && SelectedLeaf(a, at, s) && SelectedLeaf(b, there, t)
    ensures LabelAt(v, at) == LabelAt(w, there) <==> s == t
  {
    var a, b := run.states[n].calls[x], run.states[n].calls[y];
    var one := OutputOfCall(cfg, run, n, x, v);
    var two := OutputOfCall(cfg, run, n, y, w);
    TokensMatchPlaintexts(cfg.suite, a.dek.value, a.req.payload, one, a.paths.value, at, s,
                          b.req.payload, two, b.paths.value, there, t);
  }

  /**
   * A successful encrypt call changed exactly the string leaves that the document it found in the
   * cache flags, each into a token that opens to it under the key it found in the store.
   */
  lemma EncryptCallMeaning(cfg: Config, run: Run, n: nat, id: nat, out: Json) returns (i: nat, j: nat)
    requires run.Valid(cfg) && n < |run.states| && InPhase(run.states[n], id, Finished(Success(out)))
    requires run.states[n].calls[id].req.endpoint.EncryptEndpoint?
    ensures var req := run.states[n].calls[id].req;
            && i < j < n && run.events[i] == ReadSchema(id) && run.events[j] == ReadKey(id)
            && req.header.Named? && req.header.name in run.states[i].cache && run.states[j].dek.Some?
            && var doc := run.states[i].cache[req.header.name].api;
               FaithfulDocument(doc) ==> OnlyFlaggedSealed(cfg.suite, run.states[j].dek.value, doc, req.payload, out)
  {
    var order := OutputOfCall(cfg, run, n, id, out);
    var call := run.states[n].calls[id];
    var a;
    a, i, j := Provenance(cfg, run, n, id);
    RunKeepsInv(cfg, run, i);
    var entry := run.states[i].cache[call.req.header.name];
    if FaithfulDocument(entry.api) {
      EncryptsFlaggedLeaves(cfg.suite, call.dek.value, entry.api, entry.piiPaths, order, call.req.payload);
    }
  }
}

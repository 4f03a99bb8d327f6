/**
 * The running service as interleaved atomic steps: startup, background key rotation, background
 * schema refresh, and any number of requests in flight. Network results are chosen by the event.
 */
module Service {
  import opened Prelude
  import opened JsonTree
  import opened Paths
  import opened Cipher
  import opened Transform
  import opened Payload
  import opened Resolver
  import opened SchemaCaching

  // ---- Requests ---------------------------------------------------------------------------

  datatype Endpoint = EncryptEndpoint | DecryptEndpoint

  /** The schema header: absent, not visible ASCII, or a schema name. */
  datatype Header = Missing | NotText | Named(name: string)

  datatype Request = Request(endpoint: Endpoint, header: Header, payload: Json)

  /** An error response carries no payload. */
  datatype Response = Success(payload: Json) | BadRequest | Unavailable | InternalError

  /**
   * What a handler answers when it finds `cache` in the schema cache and `dek` in the key store:
   * all selected leaves transformed, or no payload at all.
   */
  ghost function Respond(cfg: Config, req: Request, cache: map<string, CachedSchema>, dek: Option<Bytes>): Response {
    if !(req.header.Named? && req.header.name in cache) then BadRequest
    else if dek.None? then Unavailable
    else
      var lists := SegmentLists(cache[req.header.name].piiPaths);
      var op := OpFor(cfg, req.endpoint, dek.value);
      if Defined(req.payload, op, lists) then Success(MapAt(req.payload, lists, op)) else InternalError
  }

  /** How far a handler has come. It waits only for the key, so it can be abandoned only there. */
  datatype Phase =
    | Arrived
    | HasSchema
    | HasKey
    | Answered(resp: Response)   // outcome known
    | Counted(resp: Response)    // request counter incremented
    | Recorded(resp: Response)   // latency sample recorded
    | Finished(resp: Response)   // response returned
    | Abandoned

  /** A handler call: its request, its two local copies of shared state, and its phase. */
  datatype Call = Call(req: Request, paths: Option<set<string>>, dek: Option<Bytes>, phase: Phase)

  // ---- The service ------------------------------------------------------------------------

  datatype Boot = FetchingKey | LoadingSchemas | Serving | Exited

  datatype Rotation = Waiting | Fetched(key: Bytes) | Stored

  datatype Refresh = Idle | Loaded(schemas: map<string, Document>)

  /** One endpoint's request counter, by outcome, and its latency samples. */
  datatype Tally = Tally(ok: nat, err: nat, samples: nat)

  datatype State = State(
    boot: Boot,
    dek: Option<Bytes>,
    cache: map<string, CachedSchema>,
    rotation: Rotation,
    refresh: Refresh,
    calls: map<nat, Call>,
    encryptTally: Tally,
    decryptTally: Tally,
    rotations: nat,    // the dek_rotations counter
    writes: nat        // successful writes to the key store
  ) {
    function TallyOf(e: Endpoint): Tally {
      match e
      case EncryptEndpoint => encryptTally
      case DecryptEndpoint => decryptTally
    }

    function WithTally(e: Endpoint, t: Tally): State {
      match e
      case EncryptEndpoint => this.(encryptTally := t)
      case DecryptEndpoint => this.(decryptTally := t)
    }
  }

  const INIT: State :=
    State(FetchingKey, None, map[], Waiting, Idle, map[], Tally(0, 0, 0), Tally(0, 0, 0), 0, 0)

  /** One atomic step. `None` stands for a network or parse failure. */
  datatype Event =
    | StartupFetch(key: Option<Bytes>)
    | StartupLoad(listing: Option<seq<S3Object>>)
    | RotationFetch(key: Option<Bytes>)
    | RotationStore
    | RotationCount
    | RefreshLoad(listing: Option<seq<S3Object>>)
    | RefreshSwap
    | Arrive(id: nat, req: Request)
    | ReadSchema(id: nat)
    | ReadKey(id: nat)
    | Compute(id: nat, order: seq<string>)
    | Count(id: nat)
    | Record(id: nat)
    | Reply(id: nat)
    | Abandon(id: nat)

  /** Everything fixed for a run: the algorithms and the configured object prefix. */
  datatype Config = Config(suite: Suite, prefix: string)

  function Load(cfg: Config, listing: Option<seq<S3Object>>): Option<map<string, Document>> {
    match listing
    case None => None
    case Some(objects) => Collect(objects, cfg.prefix)
  }

  function OpFor(cfg: Config, e: Endpoint, dek: Bytes): LeafOp {
    match e
    case EncryptEndpoint => Sealer(cfg.suite, dek)
    case DecryptEndpoint => Opener(cfg.suite, dek)
  }

  predicate InPhase(s: State, id: nat, phase: Phase) {
    id in s.calls && s.calls[id].phase == phase
  }

  ghost predicate Enabled(cfg: Config, s: State, ev: Event) {
    match ev
    case StartupFetch(_) => s.boot.FetchingKey?
    case StartupLoad(listing) =>
      s.boot.LoadingSchemas? && (Load(cfg, listing).Some? ==> AllAcyclic(Load(cfg, listing).value))
    case RotationFetch(_) => s.boot.Serving? && s.rotation.Waiting?
    case RotationStore => s.rotation.Fetched?
    case RotationCount => s.rotation.Stored?
    case RefreshLoad(_) => s.boot.Serving? && s.refresh.Idle?
    case RefreshSwap => s.refresh.Loaded? && AllAcyclic(s.refresh.schemas)
    case Arrive(id, _) => s.boot.Serving? && id !in s.calls
    case ReadSchema(id) => InPhase(s, id, Arrived)
    case ReadKey(id) => InPhase(s, id, HasSchema)
    case Compute(id, order) =>
      InPhase(s, id, HasKey) && s.calls[id].paths.Some? && s.calls[id].dek.Some?
      && Enumerates(order, s.calls[id].paths.value)
    case Count(id) => id in s.calls && s.calls[id].phase.Answered?
    case Record(id) => id in s.calls && s.calls[id].phase.Counted?
    case Reply(id) => id in s.calls && s.calls[id].phase.Recorded?
    case Abandon(id) => InPhase(s, id, HasSchema)
  }

  /** What a handler reads from the cache, or its answer when the header or the schema is missing. */
  function AfterSchema(call: Call, cache: map<string, CachedSchema>): Call {
    if call.req.header.Named? && call.req.header.name in cache
    then call.(paths := Some(cache[call.req.header.name].piiPaths), phase := HasSchema)
    else call.(phase := Answered(BadRequest))
  }

  function AfterKey(call: Call, dek: Option<Bytes>): Call {
    if dek.Some? then call.(dek := dek, phase := HasKey) else call.(phase := Answered(Unavailable))
  }

  function AfterCompute(cfg: Config, call: Call, order: seq<string>): Call
    requires call.dek.Some?
  {
    match RewriteAll(call.req.payload, order, OpFor(cfg, call.req.endpoint, call.dek.value))
    case Ok(out) => call.(phase := Answered(Success(out)))
    case Err(_) => call.(phase := Answered(InternalError))
  }

  function CountInto(t: Tally, resp: Response): Tally {
    if resp.Success? then t.(ok := t.ok + 1) else t.(err := t.err + 1)
  }

  function SetCall(s: State, id: nat, call: Call): State {
    s.(calls := s.calls[id := call])
  }

  ghost function Apply(cfg: Config, s: State, ev: Event): (s': State)
    requires Enabled(cfg, s, ev)
  {
    match ev
    case StartupFetch(key) =>
      if key.Some? && |key.value| == KEY_LEN
      then s.(boot := LoadingSchemas, dek := key, writes := s.writes + 1)
      else s.(boot := Exited)
    case StartupLoad(listing) =>
      if Load(cfg, listing).Some?
      then s.(boot := Serving, cache := CacheOf(Load(cfg, listing).value))
      else s.(boot := Exited)
    case RotationFetch(key) => if key.Some? then s.(rotation := Fetched(key.value)) else s
    case RotationStore =>
      if |s.rotation.key| == KEY_LEN
      then s.(dek := Some(s.rotation.key), rotation := Stored, writes := s.writes + 1)
      else s.(rotation := Waiting)
    case RotationCount => s.(rotation := Waiting, rotations := s.rotations + 1)
    case RefreshLoad(listing) => if Load(cfg, listing).Some? then s.(refresh := Loaded(Load(cfg, listing).value)) else s
    case RefreshSwap => s.(cache := CacheOf(s.refresh.schemas), refresh := Idle)
    case Arrive(id, req) => SetCall(s, id, Call(req, None, None, Arrived))
    case ReadSchema(id) => SetCall(s, id, AfterSchema(s.calls[id], s.cache))
    case ReadKey(id) => SetCall(s, id, AfterKey(s.calls[id], s.dek))
    case Compute(id, order) => SetCall(s, id, AfterCompute(cfg, s.calls[id], order))
    case Count(id) =>
      var call := s.calls[id];
      SetCall(s, id, call.(phase := Counted(call.phase.resp)))
        .WithTally(call.req.endpoint, CountInto(s.TallyOf(call.req.endpoint), call.phase.resp))
    case Record(id) =>
      var call := s.calls[id];
      var t := s.TallyOf(call.req.endpoint);
      SetCall(s, id, call.(phase := Recorded(call.phase.resp))).WithTally(call.req.endpoint, t.(samples := t.samples + 1))
    case Reply(id) =>
      var call := s.calls[id];
      SetCall(s, id, call.(phase := Finished(call.phase.resp)))
    case Abandon(id) => SetCall(s, id, s.calls[id].(phase := Abandoned))
  }

  /** The state after an event, if the event can happen. */
  ghost function Next(cfg: Config, s: State, ev: Event): (r: Option<State>) {
    if Enabled(cfg, s, ev) then Some(Apply(cfg, s, ev)) else None
  }

  /** A finite run: the states between consecutive events, from the initial one. */
  datatype Run = Run(states: seq<State>, events: seq<Event>) {
    ghost predicate Valid(cfg: Config) {
      && |states| == |events| + 1
      && states[0] == INIT
      && forall i {:trigger Next(cfg, states[i], events[i])} :: 0 <= i < |events| ==>
           Next(cfg, states[i], events[i]) == Some(states[i + 1])
    }
  }
}

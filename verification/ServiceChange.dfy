/** Rotations and refreshes take effect: they can always happen, and later requests see them. */
module ServiceChange {
  import opened Prelude
  import opened Resolver
  import opened SchemaCaching
  import opened Service
  import opened ServiceSafety
  import opened ServiceHistory
  import opened ServiceMeaning

  // ---- Single steps -------------------------------------------------------------------------

  /** Storing installs 32 fetched bytes; a key of another length is thrown away and nothing else happens. */
  lemma RotationStoreStep(cfg: Config, s: State, s': State)
    requires Next(cfg, s, RotationStore) == Some(s')
    ensures s.rotation.Fetched?
    ensures |s.rotation.key| == 32 ==> s'.dek == Some(s.rotation.key) && s'.rotation == Stored
    ensures |s.rotation.key| != 32 ==> s' == s.(rotation := Waiting)
  {
  }

  lemma RefreshSwapStep(cfg: Config, s: State, s': State)
    requires Next(cfg, s, RefreshSwap) == Some(s')
    ensures s.refresh.Loaded? && AllAcyclic(s.refresh.schemas)
    ensures s'.cache == CacheOf(s.refresh.schemas) && s'.refresh == Idle
  {
  }

  /** A failed fetch or a failed load leaves the service exactly as it was. */
  lemma FailureChangesNothing(cfg: Config, s: State, listing: Option<seq<S3Object>>)
    requires s.boot.Serving?
    ensures s.rotation.Waiting? ==> Next(cfg, s, RotationFetch(None)) == Some(s)
    ensures s.refresh.Idle? && (listing.None? || Collect(listing.value, cfg.prefix).None?) ==>
              Next(cfg, s, RefreshLoad(listing)) == Some(s)
  {
  }

  /** A failed startup step ends the process. */
  lemma StartupFailureExits(cfg: Config, s: State, key: Option<Bytes>, listing: Option<seq<S3Object>>)
    ensures s.boot.FetchingKey? && (key.None? || |key.value| != 32) ==>
              Next(cfg, s, StartupFetch(key)) == Some(s.(boot := Exited))
    ensures s.boot.LoadingSchemas? && (listing.None? || Collect(listing.value, cfg.prefix).None?) ==>
              Next(cfg, s, StartupLoad(listing)) == Some(s.(boot := Exited))
  {
  }

  lemma NothingAfterExit(cfg: Config, s: State, ev: Event)
    requires KeyInv(s) && s.boot.Exited?
    ensures Next(cfg, s, ev).None?
  {
  }

  /** After that nothing happens any more. */
  lemma ExitIsFinal(cfg: Config, run: Run, m: nat)
    requires run.Valid(cfg) && m < |run.states| && run.states[m].boot.Exited?
    ensures m == |run.events| && run.states[m].calls == map[]
  {
    RunKeepsInv(cfg, run, m);
    if m < |run.events| {
      NothingAfterExit(cfg, run.states[m], run.events[m]);
    }
  }

  // ---- Requests that are given up -----------------------------------------------------------

  /** A call that waits for the key can be given up, which touches nothing else. */
  lemma MayBeAbandoned(cfg: Config, s: State, id: nat)
    requires id in s.calls && s.calls[id].phase == HasSchema
    ensures Next(cfg, s, Abandon(id)) == Some(s.(calls := s.calls[id := s.calls[id].(phase := Abandoned)]))
  {
  }

  lemma AbandonedStep(cfg: Config, s: State, ev: Event, s': State, id: nat)
    requires Next(cfg, s, ev) == Some(s') && id in s.calls && s.calls[id].phase.Abandoned?
    ensures id in s'.calls && s'.calls[id] == s.calls[id]
  {
  }

  /** And then it is never answered and never counted. */
  lemma {:induction false} AbandonedForever(cfg: Config, run: Run, m: nat, n: nat, id: nat)
    requires run.Valid(cfg) && m <= n < |run.states| && InPhase(run.states[m], id, Abandoned)
    ensures id in run.states[n].calls && run.states[n].calls[id] == run.states[m].calls[id]
    decreases n
  {
    if m == n {
    } else {
      AbandonedForever(cfg, run, m, n - 1, id);
      AbandonedStep(cfg, run.states[n - 1], run.events[n - 1], run.states[n], id);
    }
  }

  // ---- Key rotation -------------------------------------------------------------------------

  lemma FetchStep(cfg: Config, s: State, ev: Event, s': State)
    requires Next(cfg, s, ev) == Some(s') && s'.rotation.Fetched?
    ensures (s.rotation == s'.rotation && ev != RotationStore) || ev == RotationFetch(Some(s'.rotation.key))
  {
  }

  lemma FetchStepAt(cfg: Config, run: Run, n: nat)
    requires run.Valid(cfg) && n < |run.states| && run.states[n].rotation.Fetched?
    ensures n > 0
    ensures || (run.states[n - 1].rotation == run.states[n].rotation && run.events[n - 1] != RotationStore)
            || run.events[n - 1] == RotationFetch(Some(run.states[n].rotation.key))
  {
    FetchStep(cfg, run.states[n - 1], run.events[n - 1], run.states[n]);
  }

  /** A key waiting to be stored is what the last fetch returned. */
  lemma {:induction false} PendingFetch(cfg: Config, run: Run, n: nat) returns (f: nat)
    requires run.Valid(cfg) && n < |run.states| && run.states[n].rotation.Fetched?
    ensures f < n && run.events[f] == RotationFetch(Some(run.states[n].rotation.key))
    ensures NotBetween(run, RotationStore, f, n)
    decreases n
  {
    FetchStepAt(cfg, run, n);
    if run.events[n - 1] == RotationFetch(Some(run.states[n].rotation.key)) {
      f := n - 1;
    } else {
      f := PendingFetch(cfg, run, n - 1);
    }
  }

  /**
   * Over every run: a call that reads the key after a rotation, and before the next, holds from
   * then on the 32 bytes that the rotation fetched.
   */
  lemma RotatedKeyIsHeld(cfg: Config, run: Run, m: nat, j: nat, n: nat, id: nat) returns (f: nat)
    requires run.Valid(cfg) && m < j < n < |run.states|
    requires run.events[m] == RotationStore && run.states[m].rotation.Fetched? && |run.states[m].rotation.key| == 32
    requires run.events[j] == ReadKey(id) && NotBetween(run, RotationStore, m + 1, j)
    ensures id in run.states[n].calls && run.states[n].calls[id].dek.Some?
    ensures f < m && run.events[f] == RotationFetch(run.states[n].calls[id].dek)
    ensures NotBetween(run, RotationStore, f, m)
  {
    f := PendingFetch(cfg, run, m);
    RotationStoreStep(cfg, run.states[m], run.states[m + 1]);
    ServedAfter(cfg, run, m);
    KeptWhileQuiet(cfg, run, m + 1, j);
    KeyReadOnce(cfg, run, n, id, j);
  }

  /** Background tasks step only while serving. */
  lemma ServedAfter(cfg: Config, run: Run, m: nat)
    requires run.Valid(cfg) && m < |run.events| && run.events[m] in {RotationStore, RefreshSwap}
    ensures run.states[m + 1].boot.Serving?
  {
    RunKeepsInv(cfg, run, m);
    assert Next(cfg, run.states[m], run.events[m]) == Some(run.states[m + 1]);
  }

  /** The rotation task is never stuck: whatever it is doing, it can come to its next wait. */
  lemma RotationSettles(cfg: Config, run: Run) returns (longer: Run)
    requires run.Valid(cfg) && LastOf(run).boot.Serving?
    ensures Continues(cfg, run, longer) && LastOf(longer).rotation.Waiting?
    ensures var s, s' := LastOf(run), LastOf(longer);
            s'.boot == s.boot && s'.cache == s.cache && s'.calls == s.calls
  {
    longer := run;
    var s := LastOf(longer);
    if s.rotation.Fetched? {
      s := Apply(cfg, s, RotationStore);
      longer := ExtendRun(cfg, longer, RotationStore, s);
    }
    if s.rotation.Stored? {
      longer := ExtendRun(cfg, longer, RotationCount, Apply(cfg, s, RotationCount));
    }
  }

  /** And then any 32-byte key can be rotated in, which is counted once and changes nothing else. */
  lemma RotationCompletes(cfg: Config, run: Run, key: Bytes) returns (longer: Run)
    requires run.Valid(cfg) && LastOf(run).boot.Serving? && LastOf(run).rotation.Waiting? && |key| == 32
    ensures Continues(cfg, run, longer)
    ensures var s, s' := LastOf(run), LastOf(longer);
            && s'.dek == Some(key) && s'.rotations == s.rotations + 1 && s'.rotation.Waiting?
            && s'.boot == s.boot && s'.cache == s.cache && s'.calls == s.calls
            && s'.encryptTally == s.encryptTally && s'.decryptTally == s.decryptTally
  {
    var s1 := Apply(cfg, LastOf(run), RotationFetch(Some(key)));
    var s2 := Apply(cfg, s1, RotationStore);
    longer := ExtendRun(cfg, run, RotationFetch(Some(key)), s1);
    longer := ExtendRun(cfg, longer, RotationStore, s2);
    longer := ExtendRun(cfg, longer, RotationCount, Apply(cfg, s2, RotationCount));
  }

  /** In every reachable serving state any 32-byte key can become the one that the next request is served with. */
  lemma ServedWithNewKey(cfg: Config, run: Run, key: Bytes, id: nat, req: Request) returns (longer: Run)
    requires run.Valid(cfg) && LastOf(run).boot.Serving? && id !in LastOf(run).calls && |key| == 32
    ensures Continues(cfg, run, longer)
    ensures InPhase(LastOf(longer), id, Finished(Respond(cfg, req, LastOf(run).cache, Some(key))))
    ensures LastOf(longer).calls[id].req == req
  {
    longer := RotationSettles(cfg, run);
    longer := RotationCompletes(cfg, longer, key);
    longer := CallCompletes(cfg, longer, id, req);
  }

  // ---- Schema refresh -----------------------------------------------------------------------

  /**
   * Over every run: a call that reads its schema after a refresh, and before the next, holds from
   * then on the paths of the document that one completed load gave for its name, or has no schema
   * when that load gave none.
   */
  lemma RefreshedSchemaIsHeld(cfg: Config, run: Run, m: nat, i: nat, n: nat, id: nat)
    returns (k: nat, schemas: map<string, Document>)
    requires run.Valid(cfg) && m < i < n < |run.states|
    requires run.events[m] == RefreshSwap && run.events[i] == ReadSchema(id) && NotBetween(run, RefreshSwap, m + 1, i)
    ensures k < m && LoadedAt(cfg, run, k, schemas) && AllAcyclic(schemas)
    ensures id in run.states[n].calls
    ensures var call := run.states[n].calls[id];
            if call.req.header.Named? && call.req.header.name in schemas
            then call.paths.Some? && IsPathSetOf(schemas[call.req.header.name], call.paths.value)
            else call.paths.None?
  {
    RefreshSwapStep(cfg, run.states[m], run.states[m + 1]);
    schemas := run.states[m].refresh.schemas;
    k := PendingLoad(cfg, run, m);
    ServedAfter(cfg, run, m);
    KeptWhileQuiet(cfg, run, m + 1, i);
    SchemaReadOnce(cfg, run, n, id, i);
  }

  /** From every reachable serving state with no load waiting, any listing that loads can be installed. */
  lemma RefreshCompletes(cfg: Config, run: Run, listing: Option<seq<S3Object>>) returns (longer: Run)
    requires run.Valid(cfg) && LastOf(run).boot.Serving? && LastOf(run).refresh.Idle?
    requires Load(cfg, listing).Some? && AllAcyclic(Load(cfg, listing).value)
    ensures Continues(cfg, run, longer)
    ensures var s, s' := LastOf(run), LastOf(longer);
            && s'.cache == CacheOf(Load(cfg, listing).value) && s'.refresh == Idle
            && s'.boot == s.boot && s'.dek == s.dek && s'.calls == s.calls && s'.rotation == s.rotation
            && s'.encryptTally == s.encryptTally && s'.decryptTally == s.decryptTally
  {
    var s1 := Apply(cfg, LastOf(run), RefreshLoad(listing));
    longer := ExtendRun(cfg, run, RefreshLoad(listing), s1);
    longer := ExtendRun(cfg, longer, RefreshSwap, Apply(cfg, s1, RefreshSwap));
  }

  /** And the next request is then served with the document last listed under its name. */
  lemma ServedWithNewSchema(cfg: Config, run: Run, objects: seq<S3Object>, i: nat, id: nat, req: Request)
    returns (longer: Run, paths: set<string>)
    requires run.Valid(cfg) && LastOf(run).boot.Serving? && LastOf(run).refresh.Idle? && id !in LastOf(run).calls
    requires Collect(objects, cfg.prefix).Some? && AllAcyclic(Collect(objects, cfg.prefix).value)
    requires req.header.Named? && LastNamed(objects, cfg.prefix, req.header.name, i)
    ensures objects[i].parsed.Some? && IsPathSetOf(objects[i].parsed.value, paths)
    ensures Continues(cfg, run, longer)
    ensures var found := map[req.header.name := CachedSchema(objects[i].parsed.value, paths)];
            InPhase(LastOf(longer), id, Finished(Respond(cfg, req, found, LastOf(run).dek)))
    ensures LastOf(longer).calls[id].req == req
  {
    var listing := Some(objects);
    var entries := CacheOf(Collect(objects, cfg.prefix).value);
    LookupAfterLoad(objects, cfg.prefix, req.header.name);
    paths := entries[req.header.name].piiPaths;
    var before := RefreshCompletes(cfg, run, listing);
    longer := CallCompletes(cfg, before, id, req);
    assert LastOf(before).cache == entries;
  }
}

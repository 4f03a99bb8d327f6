/** What a call read at which step of a run, and how long that stays current. */
module ServiceHistory {
  import opened Prelude
  import opened Service
  import opened ServiceSafety

  /** The event `ev` does not happen between steps `i` and `j`, whichever comes first. */
  ghost predicate NotBetween(run: Run, ev: Event, i: nat, j: nat) {
    forall e :: 0 <= e < |run.events| && (i <= e < j || j <= e < i) ==> run.events[e] != ev
  }

  lemma QuietStep(cfg: Config, s: State, ev: Event, s': State)
    requires s.boot.Serving? && Next(cfg, s, ev) == Some(s')
    ensures s'.boot.Serving?
    ensures ev != RefreshSwap ==> s'.cache == s.cache
    ensures ev != RotationStore ==> s'.dek == s.dek
  {
  }

  /** A serving service keeps its cache until a refresh installs another, and its key until one is stored. */
  lemma {:induction false} KeptWhileQuiet(cfg: Config, run: Run, i: nat, j: nat)
    requires run.Valid(cfg) && i <= j < |run.states| && run.states[i].boot.Serving?
    ensures run.states[j].boot.Serving?
    ensures NotBetween(run, RefreshSwap, i, j) ==> run.states[j].cache == run.states[i].cache
    ensures NotBetween(run, RotationStore, i, j) ==> run.states[j].dek == run.states[i].dek
    decreases j
  {
    if i == j {
    } else {
      KeptWhileQuiet(cfg, run, i, j - 1);
      QuietStep(cfg, run.states[j - 1], run.events[j - 1], run.states[j]);
      assert forall ev :: NotBetween(run, ev, i, j) ==> NotBetween(run, ev, i, j - 1);
    }
  }

  /** The call `id` read its schema at step `i` and its key at step `j`, both before step `n`. */
  ghost predicate Reads(run: Run, n: nat, id: nat, i: nat, j: nat) {
    && i < n <= |run.events| && j < n
    && run.events[i] == ReadSchema(id) && run.events[j] == ReadKey(id)
  }

  lemma CallKept(cfg: Config, s: State, ev: Event, s': State, id: nat)
    requires Next(cfg, s, ev) == Some(s') && id in s.calls
    ensures id in s'.calls
  {
  }

  /** A call is never forgotten. */
  lemma {:induction false} CallStays(cfg: Config, run: Run, i: nat, n: nat, id: nat)
    requires run.Valid(cfg) && i <= n < |run.states| && id in run.states[i].calls
    ensures id in run.states[n].calls
    decreases n
  {
    if i == n {
    } else {
      CallStays(cfg, run, i, n - 1, id);
      CallKept(cfg, run.states[n - 1], run.events[n - 1], run.states[n], id);
    }
  }

  lemma ReaderServed(cfg: Config, run: Run, i: nat, id: nat)
    requires run.Valid(cfg) && i < |run.events| && run.events[i] in {ReadSchema(id), ReadKey(id)}
    ensures id in run.states[i].calls && run.states[i].boot.Serving? && run.states[i].dek.Some?
  {
    RunKeepsInv(cfg, run, i);
    assert Next(cfg, run.states[i], run.events[i]).Some?;
  }

  /** A call reads its schema once: what it holds later is what it read. */
  lemma {:induction false} SchemaReadOnce(cfg: Config, run: Run, n: nat, id: nat, i: nat)
    requires run.Valid(cfg) && i < n < |run.states| && run.events[i] == ReadSchema(id)
    ensures id in run.states[n].calls && !run.states[n].calls[id].phase.Arrived?
    ensures ReadPathsAt(run, id, run.states[n].calls[id], i)
    decreases n
  {
    ReaderServed(cfg, run, i, id);
    CallStays(cfg, run, i, n, id);
    CallStepAt(cfg, run, n, id);
    if n == i + 1 {
    } else {
      SchemaReadOnce(cfg, run, n - 1, id, i);
    }
  }

  /** A call reads its key once, and holds it from then on. */
  lemma {:induction false} KeyReadOnce(cfg: Config, run: Run, n: nat, id: nat, j: nat)
    requires run.Valid(cfg) && j < n < |run.states| && run.events[j] == ReadKey(id)
    ensures id in run.states[n].calls && run.states[n].calls[id].dek.Some?
    ensures ReadKeyAt(run, id, run.states[n].calls[id], j)
    decreases n
  {
    ReaderServed(cfg, run, j, id);
    CallStays(cfg, run, j, n, id);
    CallStepAt(cfg, run, n, id);
    if n == j + 1 {
    } else {
      KeyReadOnce(cfg, run, n - 1, id, j);
    }
  }

  /** Two calls with one header, with no refresh between their reads of the schema, read the same paths. */
  lemma SamePathsRead(cfg: Config, run: Run, n: nat, x: nat, i: nat, y: nat, k: nat)
    requires run.Valid(cfg) && n < |run.states| && i < n && k < n
    requires run.events[i] == ReadSchema(x) && run.events[k] == ReadSchema(y)
    requires NotBetween(run, RefreshSwap, i, k)
    ensures x in run.states[n].calls && y in run.states[n].calls
    ensures run.states[n].calls[x].req.header == run.states[n].calls[y].req.header ==>
              run.states[n].calls[x].paths == run.states[n].calls[y].paths
  {
    SchemaReadOnce(cfg, run, n, x, i);
    SchemaReadOnce(cfg, run, n, y, k);
    ReaderServed(cfg, run, i, x);
    ReaderServed(cfg, run, k, y);
    if i <= k {
      KeptWhileQuiet(cfg, run, i, k);
    } else {
      KeptWhileQuiet(cfg, run, k, i);
    }
  }

  /** Two calls with no rotation between their reads of the key hold the same key. */
  lemma SameKeyRead(cfg: Config, run: Run, n: nat, x: nat, j: nat, y: nat, l: nat)
    requires run.Valid(cfg) && n < |run.states| && j < n && l < n
    requires run.events[j] == ReadKey(x) && run.events[l] == ReadKey(y)
    requires NotBetween(run, RotationStore, j, l)
    ensures x in run.states[n].calls && y in run.states[n].calls
    ensures run.states[n].calls[x].dek == run.states[n].calls[y].dek
  {
    KeyReadOnce(cfg, run, n, x, j);
    KeyReadOnce(cfg, run, n, y, l);
    ReaderServed(cfg, run, j, x);
    ReaderServed(cfg, run, l, y);
    if j <= l {
      KeptWhileQuiet(cfg, run, j, l);
    } else {
      KeptWhileQuiet(cfg, run, l, j);
    }
  }
}

/** The request handlers over the heap: store, cache, payload nodes and counters together. */
module Handlers {
  import opened Prelude
  import opened JsonTree
  import opened Paths
  import opened Cipher
  import opened Transform
  import opened PayloadHeap
  import opened KeyStore
  import opened SchemaCaching
  import opened Service

  /** The HTTP outcome; only success returns the payload. */
  datatype Status = Ok200(root: Node) | BadRequest400 | InternalError500 | Unavailable503

  /** The status, and the payload behind it, amount to the specified response. */
  ghost predicate Answers(status: Status, root: Node, t: Shape, resp: Response)
    reads Nodes(t)
    requires Holds(t)
  {
    match resp
    case Success(w) => status == Ok200(root) && ValueOf(t) == w
    case BadRequest => status == BadRequest400
    case Unavailable => status == Unavailable503
    case InternalError => status == InternalError500
  }

  class AppState {
    const cfg: Config
    const store: DekStore
    const cache: SchemaCache
    var encryptTally: Tally
    var decryptTally: Tally

    constructor (cfg: Config, store: DekStore, cache: SchemaCache)
      ensures this.cfg == cfg && this.store == store && this.cache == cache
      ensures encryptTally == Tally(0, 0, 0) && decryptTally == Tally(0, 0, 0)
    {
      this.cfg, this.store, this.cache := cfg, store, cache;
      encryptTally, decryptTally := Tally(0, 0, 0), Tally(0, 0, 0);
    }

    ghost function TallyOf(e: Endpoint): Tally
      reads this
    {
      match e
      case EncryptEndpoint => encryptTally
      case DecryptEndpoint => decryptTally
    }

    /** Adds one to the request counter of the outcome, and one latency sample. */
    method Measure(e: Endpoint, success: bool)
      modifies this
      ensures TallyOf(e).samples == old(TallyOf(e).samples) + 1
      ensures TallyOf(e).ok == old(TallyOf(e).ok) + (if success then 1 else 0)
      ensures TallyOf(e).err == old(TallyOf(e).err) + (if success then 0 else 1)
      ensures forall x :: x != e ==> TallyOf(x) == old(TallyOf(x))
    {
      match e
      case EncryptEndpoint => encryptTally := Measured(encryptTally, success);
      case DecryptEndpoint => decryptTally := Measured(decryptTally, success);
    }

    /** Transforms the payload in place with the copied key, and drops the copy. */
    method TransformAndDrop(dek: DekBytes, e: Endpoint, piiPaths: set<string>, root: Node,
                            ghost t: Shape, ghost owned: set<Node>)
      returns (ok: bool)
      requires t.node == root && Separate(t) && Holds(t) && Nodes(t) <= owned
      modifies dek.buf, Nodes(t)
      ensures Holds(t) && dek.buf[..] == Zeros(dek.buf.Length)
      ensures ok <==> Defined(old(ValueOf(t)), OpFor(cfg, e, old(dek.buf[..])), SegmentLists(piiPaths))
      ensures ok ==> ValueOf(t) == MapAt(old(ValueOf(t)), SegmentLists(piiPaths), OpFor(cfg, e, old(dek.buf[..])))
    {
      var r := PiiFields(root, piiPaths, OpFor(cfg, e, dek.buf[..]), t, owned);
      label Transformed:
      dek.Drop();
      assert Holds(t) == old@Transformed(Holds(t));
      ok := r.Ok?;
    }

    /** Takes a copy of the key and transforms the payload with it. */
    method TransformWithKey(e: Endpoint, piiPaths: set<string>, root: Node, ghost t: Shape, ghost owned: set<Node>)
      returns (status: Status)
      requires store.Valid()
      requires t.node == root && Separate(t) && Holds(t) && Nodes(t) <= owned
      modifies Nodes(t)
      ensures store.Valid() && store.Key() == old(store.Key())
      ensures Holds(t)
      ensures store.Key().None? ==> status == Unavailable503 && ValueOf(t) == old(ValueOf(t))
      ensures store.Key().Some? ==>
                var op := OpFor(cfg, e, store.Key().value);
                if Defined(old(ValueOf(t)), op, SegmentLists(piiPaths))
                then status == Ok200(root) && ValueOf(t) == MapAt(old(ValueOf(t)), SegmentLists(piiPaths), op)
                else status == InternalError500
    {
      var dek := store.Current();
      if dek.Err? {
        return Unavailable503;
      }
      var ok := TransformAndDrop(dek.value, e, piiPaths, root, t, owned);
      return if ok then Ok200(root) else InternalError500;
    }

    /** The handler's answer, before it is measured. */
    method Answer(e: Endpoint, header: Header, root: Node, ghost t: Shape, ghost owned: set<Node>) returns (status: Status)
      requires store.Valid()
      requires t.node == root && Separate(t) && Holds(t) && Nodes(t) <= owned
      modifies Nodes(t)
      ensures store.Valid() && store.Key() == old(store.Key()) && cache.inner == old(cache.inner)
      ensures Holds(t)
      ensures Answers(status, root, t, Respond(cfg, Request(e, header, old(ValueOf(t))), cache.inner, store.Key()))
    {
      status := BadRequest400;
      if header.Named? {
        var cached := cache.Get(header.name);
        if cached.Ok? {
          status := TransformWithKey(e, cached.value.piiPaths, root, t, owned);
        }
      }
    }

    /**
     * One handler call, uninterrupted. The response is the specified one, the payload is
     * transformed in place before a success is returned, exactly one outcome and one sample are
     * recorded, and neither the stored key nor the cache changes.
     */
    method Handle(e: Endpoint, header: Header, root: Node, ghost t: Shape, ghost owned: set<Node>) returns (status: Status)
      requires store.Valid()
      requires t.node == root && Separate(t) && Holds(t) && Nodes(t) <= owned
      modifies this, Nodes(t)
      ensures store.Valid() && store.Key() == old(store.Key()) && cache.inner == old(cache.inner)
      ensures Holds(t)
      ensures Answers(status, root, t, Respond(cfg, Request(e, header, old(ValueOf(t))), cache.inner, store.Key()))
      ensures TallyOf(e).samples == old(TallyOf(e).samples) + 1
      ensures TallyOf(e).ok == old(TallyOf(e).ok) + (if status.Ok200? then 1 else 0)
      ensures TallyOf(e).err == old(TallyOf(e).err) + (if status.Ok200? then 0 else 1)
      ensures forall x :: x != e ==> TallyOf(x) == old(TallyOf(x))
    {
      ghost var resp := Respond(cfg, Request(e, header, ValueOf(t)), cache.inner, store.Key());
      status := Answer(e, header, root, t, owned);
      label Answered:
      Measure(e, status.Ok200?);
      assert Holds(t) == old@Answered(Holds(t));
      assert Answers(status, root, t, resp) == old@Answered(Answers(status, root, t, resp));
    }

    /** One handler call on a received payload: the response, body included, is the specified one. */
    method Serve(e: Endpoint, header: Header, payload: Json) returns (resp: Response)
      requires store.Valid()
      modifies this
      ensures store.Valid() && store.Key() == old(store.Key()) && cache.inner == old(cache.inner)
      ensures resp == Respond(cfg, Request(e, header, payload), cache.inner, store.Key())
      ensures TallyOf(e).samples == old(TallyOf(e).samples) + 1
      ensures TallyOf(e).ok == old(TallyOf(e).ok) + (if resp.Success? then 1 else 0)
      ensures TallyOf(e).err == old(TallyOf(e).err) + (if resp.Success? then 0 else 1)
      ensures forall x :: x != e ==> TallyOf(x) == old(TallyOf(x))
    {
      var root, t, owned := Place(payload);
      var status := Handle(e, header, root, t, owned);
      match status
      case Ok200(_) =>
        var body := Read(root, t, owned);
        resp := Success(body);
      case BadRequest400 =>
        resp := BadRequest;
      case Unavailable503 =>
        resp := Unavailable;
      case InternalError500 =>
        resp := InternalError;
    }

    /** `GET /health`: ready with a key and at least one schema. */
    method Health() returns (healthy: bool, dekReady: bool, schemasLoaded: nat)
      ensures dekReady <==> store.Key().Some?
      ensures schemasLoaded == |cache.inner|
      ensures healthy <==> store.Key().Some? && cache.inner != map[]
    {
      dekReady := store.IsReady();
      schemasLoaded := cache.Len();
      assert schemasLoaded == 0 ==> cache.inner == map[];
      healthy := dekReady && schemasLoaded > 0;
    }
  }

  function Measured(t: Tally, success: bool): Tally {
    if success then t.(ok := t.ok + 1, samples := t.samples + 1) else t.(err := t.err + 1, samples := t.samples + 1)
  }

  /** What an uninterrupted handler measures is what the counting step and the recording step do. */
  lemma MeasuredIsCountThenRecord(cfg: Config, s: State, s1: State, s2: State, id: nat)
    requires Next(cfg, s, Count(id)) == Some(s1) && Next(cfg, s1, Record(id)) == Some(s2)
    ensures var call := s.calls[id];
            forall e :: s2.TallyOf(e) ==
              if e == call.req.endpoint then Measured(s.TallyOf(e), call.phase.resp.Success?) else s.TallyOf(e)
  {
    forall e ensures s2.TallyOf(e) ==
      if e == s.calls[id].req.endpoint then Measured(s.TallyOf(e), s.calls[id].phase.resp.Success?) else s.TallyOf(e)
    {
      match e
      case EncryptEndpoint =>
      case DecryptEndpoint =>
    }
  }
}

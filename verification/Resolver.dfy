/**
 * From an OpenAPI document to the set of PII paths: the recursive walk over object properties,
 * array items and `$ref` references (Reference Object, section 4.7.23 of OpenAPI 3.0.3).
 */
module Resolver {
  import opened Prelude
  import opened JsonTree
  import opened Paths

  datatype RefOr = Reference(target: string) | Item(schema: Schema)

  datatype Schema = Schema(extensions: map<string, Json>, kind: Kind)

  /** The two kinds of schema the walk enters; every other kind is `OtherKind`. */
  datatype Kind =
    | ObjectKind(properties: map<string, RefOr>)
    | ArrayKind(items: Option<RefOr>)
    | OtherKind

  datatype Document = Document(components: Option<map<string, RefOr>>)

  const REF_PREFIX: string := "#/components/schemas/"

  /** `schema.extensions["x-pii"]` is the boolean `true`. */
  predicate IsPii(s: Schema) {
    "x-pii" in s.extensions && s.extensions["x-pii"] == Bool(true)
  }

  function Schemas(doc: Document): map<string, RefOr> {
    match doc.components
    case None => map[]
    case Some(schemas) => schemas
  }

  /** `name` is a component schema defined in place, not by a reference. */
  predicate Inline(doc: Document, name: string) {
    name in Schemas(doc) && Schemas(doc)[name].Item?
  }

  /** The component a reference names, unless that is itself a reference or is not there. */
  function TargetName(doc: Document, reference: string): (r: Option<string>)
    ensures r.Some? ==> Inline(doc, r.value) && reference == "#/components/schemas/" + r.value
    ensures r.None? ==> forall name :: Inline(doc, name) ==> reference != "#/components/schemas/" + name
  {
    if StartsWith(reference, REF_PREFIX) then
      var name := reference[|REF_PREFIX|..];
      if Inline(doc, name) then Some(name) else None
    else None
  }

  function Resolve(doc: Document, r: RefOr): (s: Option<Schema>) {
    match r
    case Item(schema) => Some(schema)
    case Reference(target) =>
      match TargetName(doc, target)
      case None => None
      case Some(name) => Some(Schemas(doc)[name].schema)
  }

  // ---- The declarative reading of a document ---------------------------------------------

  /** The schema one segment below `s`. */
  function Child(doc: Document, s: Schema, seg: Segment): (t: Option<Schema>) {
    match (s.kind, seg)
    case (ObjectKind(properties), Key(k)) => if k in properties then Resolve(doc, properties[k]) else None
    case (ArrayKind(Some(items)), ArrayItem) => Resolve(doc, items)
    case _ => None
  }

  /** The position `segs` below a value described by `s` is flagged `x-pii`. */
  predicate Flagged(doc: Document, s: Schema, segs: seq<Segment>)
    decreases |segs|
  {
    segs != [] &&
    match Child(doc, s, segs[0])
    case None => false
    case Some(t) => if |segs| == 1 then IsPii(t) else Flagged(doc, t, segs[1..])
  }

  /** Flagged when some component defined in place is walked from the payload's root. */
  ghost predicate FlaggedIn(doc: Document, segs: seq<Segment>) {
    exists name :: Inline(doc, name) && Flagged(doc, Schemas(doc)[name].schema, segs)
  }

  /** `path` is built, below `prefix`, from a flagged position of `s`. */
  ghost predicate Emits(doc: Document, s: Schema, prefix: string, path: string) {
    exists segs :: Flagged(doc, s, segs) && Build(prefix, segs) == path
  }

  /** The paths of a document: those built from its flagged positions. */
  ghost predicate IsPiiPath(doc: Document, path: string) {
    exists segs :: FlaggedIn(doc, segs) && Build("", segs) == path
  }

  ghost predicate IsPathSetOf(doc: Document, paths: set<string>) {
    forall path :: path in paths <==> IsPiiPath(doc, path)
  }

  /** What walking the child of `s` at `seg` contributes. */
  ghost predicate EmitsVia(doc: Document, s: Schema, prefix: string, seg: Segment, path: string) {
    Child(doc, s, seg).Some? &&
    var t := Child(doc, s, seg).value;
    (IsPii(t) && path == Extend(prefix, seg)) || Emits(doc, t, Extend(prefix, seg), path)
  }

  lemma EmitsUnfold(doc: Document, s: Schema, prefix: string, path: string)
    ensures Emits(doc, s, prefix, path) <==> exists seg :: EmitsVia(doc, s, prefix, seg, path)
  {
    if Emits(doc, s, prefix, path) {
      var segs :| Flagged(doc, s, segs) && Build(prefix, segs) == path;
      if |segs| == 1 {
        assert Build(Extend(prefix, segs[0]), segs[1..]) == Extend(prefix, segs[0]);
      } else {
        assert Flagged(doc, Child(doc, s, segs[0]).value, segs[1..]);
      }
      assert EmitsVia(doc, s, prefix, segs[0], path);
    }
    forall seg | EmitsVia(doc, s, prefix, seg, path) ensures Emits(doc, s, prefix, path) {
      var t := Child(doc, s, seg).value;
      var path' := Extend(prefix, seg);
      if IsPii(t) && path == path' {
        assert Flagged(doc, s, [seg]);
        assert Build(prefix, [seg]) == Build(path', [seg][1..]) == path;
      } else {
        var segs :| Flagged(doc, t, segs) && Build(path', segs) == path;
        assert ([seg] + segs)[1..] == segs;
        assert Flagged(doc, s, [seg] + segs);
      }
    }
  }

  // ---- Documents on which the walk terminates --------------------------------------------

  /** Every component that a reference inside `s` resolves to has a rank below `n`. */
  ghost predicate RefsBelow(doc: Document, rank: map<string, nat>, s: Schema, n: nat) {
    match s.kind
    case ObjectKind(properties) => forall k :: k in properties ==> RefBelow(doc, rank, properties[k], n)
    case ArrayKind(Some(items)) => RefBelow(doc, rank, items, n)
    case _ => true
  }

  ghost predicate RefBelow(doc: Document, rank: map<string, nat>, r: RefOr, n: nat) {
    match r
    case Item(schema) => RefsBelow(doc, rank, schema, n)
    case Reference(target) =>
      var name := TargetName(doc, target);
      name.Some? ==> name.value in rank && rank[name.value] < n
  }

  /** The rank of each component exceeds those of the components it refers to. */
  ghost predicate Ranks(doc: Document, rank: map<string, nat>) {
    forall name :: Inline(doc, name) ==>
      name in rank && RefsBelow(doc, rank, Schemas(doc)[name].schema, rank[name])
  }

  ghost predicate Acyclic(doc: Document) {
    exists rank :: Ranks(doc, rank)
  }

  /** The walk from `s` needs at most `depth` nested calls. */
  predicate EndsWithin(doc: Document, s: Schema, depth: nat)
    decreases depth
  {
    depth > 0 &&
    match s.kind
    case ObjectKind(properties) =>
      forall k :: k in properties && Resolve(doc, properties[k]).Some? ==>
        EndsWithin(doc, Resolve(doc, properties[k]).value, depth - 1)
    case ArrayKind(Some(items)) => Resolve(doc, items).Some? ==> EndsWithin(doc, Resolve(doc, items).value, depth - 1)
    case _ => true
  }

  // ---- The paths as a finite set ----------------------------------------------------------

  ghost function Emitted(doc: Document, s: Schema, prefix: string, rank: map<string, nat>, n: nat): (paths: set<string>)
    requires Ranks(doc, rank) && RefsBelow(doc, rank, s, n)
    decreases n, s, 1
  {
    match s.kind
    case ObjectKind(properties) =>
      set k, path | k in properties && path in EmittedVia(doc, s, properties[k], Extend(prefix, Key(k)), rank, n) :: path
    case ArrayKind(Some(items)) => EmittedVia(doc, s, items, Extend(prefix, ArrayItem), rank, n)
    case _ => {}
  }

  ghost function EmittedVia(doc: Document, s: Schema, r: RefOr, path: string, rank: map<string, nat>, n: nat)
    : (paths: set<string>)
    requires Ranks(doc, rank) && RefBelow(doc, rank, r, n)
    requires r.Item? ==> r.schema < s
    decreases n, s, 0
  {
    match Resolve(doc, r)
    case None => {}
    case Some(t) =>
      (if IsPii(t) then {path} else {})
      + Emitted(doc, t, path, rank, if r.Item? then n else rank[TargetName(doc, r.target).value])
  }

  lemma {:induction false} EmittedMeaning(doc: Document, s: Schema, prefix: string,
                                          rank: map<string, nat>, n: nat, path: string)
    requires Ranks(doc, rank) && RefsBelow(doc, rank, s, n)
    ensures path in Emitted(doc, s, prefix, rank, n) <==> Emits(doc, s, prefix, path)
    decreases n, s, 1
  {
    EmitsUnfold(doc, s, prefix, path);
    ViaChildren(doc, s, prefix);
    match s.kind
    case ObjectKind(properties) =>
      forall k | k in properties
        ensures path in EmittedVia(doc, s, properties[k], Extend(prefix, Key(k)), rank, n) <==>
                  EmitsVia(doc, s, prefix, Key(k), path)
      {
        EmittedViaMeaning(doc, s, prefix, Key(k), properties[k], rank, n, path);
      }
    case ArrayKind(Some(items)) =>
      EmittedViaMeaning(doc, s, prefix, ArrayItem, items, rank, n, path);
    case _ =>
  }

  lemma EmittedViaMeaning(doc: Document, s: Schema, prefix: string, seg: Segment, r: RefOr,
                          rank: map<string, nat>, n: nat, path: string)
    requires Ranks(doc, rank) && RefBelow(doc, rank, r, n)
    requires r.Item? ==> r.schema < s
    requires Child(doc, s, seg) == Resolve(doc, r)
    ensures path in EmittedVia(doc, s, r, Extend(prefix, seg), rank, n) <==> EmitsVia(doc, s, prefix, seg, path)
    decreases n, s, 0
  {
    if Resolve(doc, r).Some? {
      var n' := if r.Item? then n else rank[TargetName(doc, r.target).value];
      EmittedMeaning(doc, Resolve(doc, r).value, Extend(prefix, seg), rank, n', path);
    }
  }

  lemma ViaChildren(doc: Document, s: Schema, prefix: string)
    ensures forall seg, path :: EmitsVia(doc, s, prefix, seg, path) ==>
              match s.kind
              case ObjectKind(properties) => seg.Key? && seg.name in properties
              case ArrayKind(Some(_)) => seg == ArrayItem
              case _ => false
  {
  }

  /** The document's PII paths. */
  ghost function PiiPaths(doc: Document): (paths: set<string>)
    requires Acyclic(doc)
    ensures IsPathSetOf(doc, paths)
  {
    PiiPathsExist(doc);
    var paths :| IsPathSetOf(doc, paths);
    paths
  }

  lemma PiiPathsExist(doc: Document)
    requires Acyclic(doc)
    ensures exists paths: set<string> :: IsPathSetOf(doc, paths)
  {
    var rank :| Ranks(doc, rank);
    var paths := set name, path | name in Schemas(doc) && Inline(doc, name)
                                  && path in Emitted(doc, Schemas(doc)[name].schema, "", rank, rank[name]) :: path;
    forall path ensures path in paths <==> IsPiiPath(doc, path) {
      EmitsOfComponents(doc, path);
      forall name | Inline(doc, name) {
        EmittedMeaning(doc, Schemas(doc)[name].schema, "", rank, rank[name], path);
      }
    }
    assert IsPathSetOf(doc, paths);
  }

  // ---- The walk ---------------------------------------------------------------------------

  /**
   * Adds to `out` every path that `schema` contributes below `prefix`. The ghost arguments are
   * the termination measure: a rank for the component being walked, then the schema itself.
   */
  method WalkSchema(doc: Document, schema: Schema, prefix: string, out: set<string>,
                    ghost rank: map<string, nat>, ghost n: nat)
    returns (out': set<string>)
    requires Ranks(doc, rank) && RefsBelow(doc, rank, schema, n)
    ensures forall path :: path in out' <==> path in out || Emits(doc, schema, prefix, path)
    decreases n, schema
  {
    out' := out;
    match schema.kind {
      case ObjectKind(properties) =>
        var todo := properties.Keys;
        while todo != {}
          invariant todo <= properties.Keys
          invariant forall path :: path in out' <==>
                      path in out || exists k :: k in properties && k !in todo && EmitsVia(doc, schema, prefix, Key(k), path)
        {
          var k :| k in todo;
          ghost var before := out';
          var path := if prefix == "" then k else prefix + "." + k;
          var resolved := Resolve(doc, properties[k]);
          assert RefBelow(doc, rank, properties[k], n);
          if resolved.Some? {
            if IsPii(resolved.value) {
              out' := out' + {path};
            }
            ghost var n' := if properties[k].Item? then n else rank[TargetName(doc, properties[k].target).value];
            out' := WalkSchema(doc, resolved.value, path, out', rank, n');
          }
          assert forall p :: p in out' <==> p in before || EmitsVia(doc, schema, prefix, Key(k), p);
          todo := todo - {k};
        }
      case ArrayKind(Some(items)) =>
        var path := if prefix == "" then ARRAY_SUFFIX else prefix + ARRAY_SUFFIX;
        var resolved := Resolve(doc, items);
        if resolved.Some? {
          if IsPii(resolved.value) {
            out' := out' + {path};
          }
          ghost var n' := if items.Item? then n else rank[TargetName(doc, items.target).value];
          out' := WalkSchema(doc, resolved.value, path, out', rank, n');
        }
        assert forall p :: p in out' <==> p in out || EmitsVia(doc, schema, prefix, ArrayItem, p);
      case _ =>
    }
    ViaChildren(doc, schema, prefix);
    forall path { EmitsUnfold(doc, schema, prefix, path); }
  }

  /** On every document whose references have no cycle, the paths found are exactly its PII paths. */
  method ResolvePiiPaths(doc: Document) returns (paths: set<string>)
    requires Acyclic(doc)
    ensures IsPathSetOf(doc, paths)
    ensures paths == PiiPaths(doc)
  {
    paths := {};
    ghost var rank :| Ranks(doc, rank);
    var todo := Schemas(doc).Keys;
    while todo != {}
      invariant todo <= Schemas(doc).Keys
      invariant forall path :: path in paths <==>
                  exists name :: Inline(doc, name) && name !in todo
                                 && Emits(doc, Schemas(doc)[name].schema, "", path)
    {
      var name :| name in todo;
      if Schemas(doc)[name].Item? {
        paths := WalkSchema(doc, Schemas(doc)[name].schema, "", paths, rank, rank[name]);
      }
      todo := todo - {name};
    }
    forall path
      ensures IsPiiPath(doc, path) <==>
                exists name :: Inline(doc, name) && Emits(doc, Schemas(doc)[name].schema, "", path)
    {
      EmitsOfComponents(doc, path);
    }
  }

  lemma EmitsOfComponents(doc: Document, path: string)
    ensures IsPiiPath(doc, path) <==>
              exists name :: Inline(doc, name) && Emits(doc, Schemas(doc)[name].schema, "", path)
  {
    if IsPiiPath(doc, path) {
      var segs :| FlaggedIn(doc, segs) && Build("", segs) == path;
      var name :| Inline(doc, name) && Flagged(doc, Schemas(doc)[name].schema, segs);
      assert Emits(doc, Schemas(doc)[name].schema, "", path);
    }
    forall name | Inline(doc, name) && Emits(doc, Schemas(doc)[name].schema, "", path)
      ensures IsPiiPath(doc, path)
    {
      var segs :| Flagged(doc, Schemas(doc)[name].schema, segs) && Build("", segs) == path;
      assert FlaggedIn(doc, segs);
    }
  }

  // ---- Termination, exactly ---------------------------------------------------------------

  lemma {:induction false} EndsMonotone(doc: Document, s: Schema, depth: nat, more: nat)
    requires EndsWithin(doc, s, depth) && depth <= more
    ensures EndsWithin(doc, s, more)
    decreases depth
  {
    match s.kind
    case ObjectKind(properties) =>
      forall k | k in properties && Resolve(doc, properties[k]).Some?
        ensures EndsWithin(doc, Resolve(doc, properties[k]).value, more - 1)
      {
        EndsMonotone(doc, Resolve(doc, properties[k]).value, depth - 1, more - 1);
      }
    case ArrayKind(Some(items)) =>
      if Resolve(doc, items).Some? {
        EndsMonotone(doc, Resolve(doc, items).value, depth - 1, more - 1);
      }
    case _ =>
  }

  lemma {:induction false} RankedEnds(doc: Document, rank: map<string, nat>, s: Schema, n: nat) returns (depth: nat)
    requires Ranks(doc, rank) && RefsBelow(doc, rank, s, n)
    ensures EndsWithin(doc, s, depth)
    decreases n, s, 1
  {
    depth := 1;
    match s.kind
    case ObjectKind(properties) =>
      var todo := properties.Keys;
      while todo != {}
        invariant depth > 0
        invariant forall k :: k in properties && k !in todo && Resolve(doc, properties[k]).Some? ==>
                    EndsWithin(doc, Resolve(doc, properties[k]).value, depth - 1)
      {
        var k :| k in todo;
        assert RefBelow(doc, rank, properties[k], n);
        var d := RefEnds(doc, rank, s, properties[k], n);
        var deeper := if d < depth then depth else d + 1;
        forall j | j in properties && j !in todo - {k} && Resolve(doc, properties[j]).Some?
          ensures EndsWithin(doc, Resolve(doc, properties[j]).value, deeper - 1)
        {
          EndsMonotone(doc, Resolve(doc, properties[j]).value, if j == k then d else depth - 1, deeper - 1);
        }
        depth, todo := deeper, todo - {k};
      }
    case ArrayKind(Some(items)) =>
      var d := RefEnds(doc, rank, s, items, n);
      depth := d + 1;
    case _ =>
  }

  lemma RefEnds(doc: Document, rank: map<string, nat>, s: Schema, r: RefOr, n: nat) returns (depth: nat)
    requires Ranks(doc, rank) && RefBelow(doc, rank, r, n)
    requires r.Item? ==> r.schema < s
    ensures Resolve(doc, r).Some? ==> EndsWithin(doc, Resolve(doc, r).value, depth)
    decreases n, s, 0
  {
    match r
    case Item(schema) => depth := RankedEnds(doc, rank, schema, n);
    case Reference(target) =>
      depth := 0;
      var name := TargetName(doc, target);
      if name.Some? {
        depth := RankedEnds(doc, rank, Schemas(doc)[name.value].schema, rank[name.value]);
      }
  }

  /** The least depth within which the walk from `s` ends, given one. */
  ghost function Least(doc: Document, s: Schema, depth: nat): (least: nat)
    requires EndsWithin(doc, s, depth)
    ensures EndsWithin(doc, s, least) && least <= depth
    ensures forall d: nat :: EndsWithin(doc, s, d) ==> least <= d
  {
    if EndsWithin(doc, s, depth - 1) then Least(doc, s, depth - 1)
    else
      EndsAtLeast(doc, s, depth);
      depth
  }

  lemma EndsAtLeast(doc: Document, s: Schema, depth: nat)
    requires depth > 0 && !EndsWithin(doc, s, depth - 1)
    ensures forall d: nat :: EndsWithin(doc, s, d) ==> depth <= d
  {
    forall d: nat | EndsWithin(doc, s, d) ensures depth <= d {
      if d < depth {
        EndsMonotone(doc, s, d, depth - 1);
      }
    }
  }

  /** Ranking every component by the depth its own walk needs. */
  lemma {:induction false} DepthsRank(doc: Document, rank: map<string, nat>, s: Schema, n: nat)
    requires forall name :: Inline(doc, name) ==>
               name in rank && forall d: nat :: EndsWithin(doc, Schemas(doc)[name].schema, d) ==> rank[name] <= d
    requires EndsWithin(doc, s, n)
    ensures RefsBelow(doc, rank, s, n)
    decreases s
  {
    match s.kind
    case ObjectKind(properties) =>
      forall k | k in properties ensures RefBelow(doc, rank, properties[k], n) {
        match properties[k]
        case Item(t) =>
          EndsMonotone(doc, t, n - 1, n);
          DepthsRank(doc, rank, t, n);
        case Reference(_) =>
      }
    case ArrayKind(Some(Item(t))) =>
      EndsMonotone(doc, t, n - 1, n);
      DepthsRank(doc, rank, t, n);
    case _ =>
  }

  ghost predicate Ends(doc: Document, s: Schema) {
    exists depth: nat :: EndsWithin(doc, s, depth)
  }

  lemma AcyclicIfEnds(doc: Document)
    requires forall name :: Inline(doc, name) ==> Ends(doc, Schemas(doc)[name].schema)
    ensures Acyclic(doc)
  {
    var rank: map<string, nat> := map name | name in Schemas(doc) && Inline(doc, name) ::
      var depth: nat :| EndsWithin(doc, Schemas(doc)[name].schema, depth);
      Least(doc, Schemas(doc)[name].schema, depth);
    forall name | Inline(doc, name)
      ensures RefsBelow(doc, rank, Schemas(doc)[name].schema, rank[name])
    {
      DepthsRank(doc, rank, Schemas(doc)[name].schema, rank[name]);
    }
    assert Ranks(doc, rank);
  }

  /**
   * The walks from the components all end exactly when the components can be ranked above
   * what they refer to, that is, when the reference graph has no cycle.
   */
  lemma EndsIffAcyclic(doc: Document)
    ensures Acyclic(doc) <==> forall name :: Inline(doc, name) ==> Ends(doc, Schemas(doc)[name].schema)
  {
    if Acyclic(doc) {
      var rank :| Ranks(doc, rank);
      forall name | Inline(doc, name) ensures Ends(doc, Schemas(doc)[name].schema) {
        var depth := RankedEnds(doc, rank, Schemas(doc)[name].schema, rank[name]);
      }
    } else if forall name :: Inline(doc, name) ==> Ends(doc, Schemas(doc)[name].schema) {
      AcyclicIfEnds(doc);
    }
  }

  /** One component, `Node`, with one property, `next`, that refers to `Node`. */
  function SelfReference(): Document {
    Document(Some(map["Node" := Item(Schema(map[], ObjectKind(map["next" := Reference("#/components/schemas/Node")])))]))
  }

  /** No rank fits it, and the walk from its component does not end. */
  lemma SelfReferenceNeverEnds()
    ensures !Acyclic(SelfReference())
    ensures Inline(SelfReference(), "Node") && !Ends(SelfReference(), Schemas(SelfReference())["Node"].schema)
  {
    var doc := SelfReference();
    assert Inline(doc, "Node");
    var node := Schemas(doc)["Node"].schema;
    assert "#/components/schemas/Node"[|REF_PREFIX|..] == "Node";
    assert TargetName(doc, node.kind.properties["next"].target) == Some("Node");
    forall rank ensures !Ranks(doc, rank) {
      assert "Node" in rank ==> !RefBelow(doc, rank, node.kind.properties["next"], rank["Node"]);
    }
    EndsIffAcyclic(doc);
  }
}

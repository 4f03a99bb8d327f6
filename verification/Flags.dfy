/**
 * What a document flags, read off the document itself: chains of schemas from a component down
 * to one whose own `x-pii` is true. The resolver's `FlaggedIn` is proved equal to this reading.
 */
module Flags {
  import opened Prelude
  import opened JsonTree
  import opened Paths
  import opened Resolver

  /** The document defines the component `name` in place, as `t`. */
  ghost predicate Defines(doc: Document, name: string, t: Schema) {
    doc.components.Some? && name in doc.components.value && doc.components.value[name] == Item(t)
  }

  /** What stands at `r` is `t`: written there, or defined by the component that `r` refers to. */
  ghost predicate Means(doc: Document, r: RefOr, t: Schema) {
    || r == Item(t)
    || exists name :: r == Reference("#/components/schemas/" + name) && Defines(doc, name, t)
  }

  /** `t` describes the values one step below those that `s` describes. */
  ghost predicate LiesBelow(doc: Document, s: Schema, seg: Segment, t: Schema) {
    match seg
    case Key(k) => s.kind.ObjectKind? && k in s.kind.properties && Means(doc, s.kind.properties[k], t)
    case ArrayItem => s.kind.ArrayKind? && s.kind.items.Some? && Means(doc, s.kind.items.value, t)
  }

  /** The schemas passed on the way down `segs`, of which the last is flagged. */
  ghost predicate Chain(doc: Document, segs: seq<Segment>, chain: seq<Schema>) {
    && |segs| > 0 && |chain| == |segs| + 1
    && (forall i {:trigger segs[i]} :: 0 <= i < |segs| ==> LiesBelow(doc, chain[i], segs[i], chain[i + 1]))
    && "x-pii" in chain[|segs|].extensions && chain[|segs|].extensions["x-pii"] == Bool(true)
  }

  // ---- One step ---------------------------------------------------------------------------

  lemma ResolveMeans(doc: Document, r: RefOr, t: Schema)
    ensures Resolve(doc, r) == Some(t) <==> Means(doc, r, t)
  {
    match r
    case Item(_) =>
    case Reference(target) =>
      if Resolve(doc, r) == Some(t) {
        assert Defines(doc, TargetName(doc, target).value, t);
      }
      if Means(doc, r, t) {
        var name :| r == Reference("#/components/schemas/" + name) && Defines(doc, name, t);
        assert Inline(doc, name);
        SameName("#/components/schemas/", TargetName(doc, target).value, name);
      }
  }

  lemma SameName(prefix: string, a: string, b: string)
    requires prefix + a == prefix + b
    ensures a == b
  {
    assert (prefix + a)[|prefix|..] == a && (prefix + b)[|prefix|..] == b;
  }

  lemma ChildLiesBelow(doc: Document, s: Schema, seg: Segment, t: Schema)
    ensures Child(doc, s, seg) == Some(t) <==> LiesBelow(doc, s, seg, t)
  {
    match seg
    case Key(k) =>
      if s.kind.ObjectKind? && k in s.kind.properties {
        ResolveMeans(doc, s.kind.properties[k], t);
      }
    case ArrayItem =>
      if s.kind.ArrayKind? && s.kind.items.Some? {
        ResolveMeans(doc, s.kind.items.value, t);
      }
  }

  // ---- Whole positions --------------------------------------------------------------------

  lemma {:induction false} FlaggedHasChain(doc: Document, s: Schema, segs: seq<Segment>) returns (chain: seq<Schema>)
    requires Flagged(doc, s, segs)
    ensures Chain(doc, segs, chain) && chain[0] == s
    decreases |segs|
  {
    var t := Child(doc, s, segs[0]).value;
    ChildLiesBelow(doc, s, segs[0], t);
    if |segs| == 1 {
      chain := [s, t];
    } else {
      var rest := FlaggedHasChain(doc, t, segs[1..]);
      chain := [s] + rest;
      forall i | 0 <= i < |segs| ensures LiesBelow(doc, chain[i], segs[i], chain[i + 1]) {
        if i > 0 {
          assert LiesBelow(doc, rest[i - 1], segs[1..][i - 1], rest[i]);
        }
      }
    }
  }

  lemma {:induction false} ChainIsFlagged(doc: Document, segs: seq<Segment>, chain: seq<Schema>)
    requires Chain(doc, segs, chain)
    ensures Flagged(doc, chain[0], segs)
    decreases |segs|
  {
    assert LiesBelow(doc, chain[0], segs[0], chain[1]);
    ChildLiesBelow(doc, chain[0], segs[0], chain[1]);
    if |segs| == 1 {
    } else {
      forall i | 0 <= i < |segs[1..]| ensures LiesBelow(doc, chain[1..][i], segs[1..][i], chain[1..][i + 1]) {
        assert LiesBelow(doc, chain[i + 1], segs[i + 1], chain[i + 2]);
      }
      ChainIsFlagged(doc, segs[1..], chain[1..]);
    }
  }

  /** A chain that starts at a component. */
  ghost predicate FlagChain(doc: Document, segs: seq<Segment>, chain: seq<Schema>) {
    Chain(doc, segs, chain) && exists name :: Defines(doc, name, chain[0])
  }

  lemma FlaggedIffChain(doc: Document, segs: seq<Segment>)
    ensures FlaggedIn(doc, segs) <==> exists chain :: FlagChain(doc, segs, chain)
  {
    if FlaggedIn(doc, segs) {
      var name :| Inline(doc, name) && Flagged(doc, Schemas(doc)[name].schema, segs);
      var chain := FlaggedHasChain(doc, Schemas(doc)[name].schema, segs);
      assert Defines(doc, name, chain[0]);
      assert FlagChain(doc, segs, chain);
    }
    if chain :| FlagChain(doc, segs, chain) {
      var name :| Defines(doc, name, chain[0]);
      ChainIsFlagged(doc, segs, chain);
      assert Inline(doc, name);
    }
  }

  /** The resolved paths are those written for the ends of flag chains, and no others. */
  lemma PathsOfChains(doc: Document, paths: set<string>, path: string)
    requires IsPathSetOf(doc, paths)
    ensures path in paths <==> exists segs, chain :: FlagChain(doc, segs, chain) && Build("", segs) == path
  {
    if path in paths {
      var segs :| FlaggedIn(doc, segs) && Build("", segs) == path;
      FlaggedIffChain(doc, segs);
    }
    if segs, chain :| FlagChain(doc, segs, chain) && Build("", segs) == path {
      FlaggedIffChain(doc, segs);
      assert IsPiiPath(doc, path);
    }
  }

  // ---- What does and does not matter ------------------------------------------------------

  /** Only the value under `x-pii` decides; other extensions do not. */
  lemma FlagIsOneExtension(s: Schema, v: Json)
    ensures IsPii(s.(extensions := s.extensions["x-pii" := v])) <==> v == Bool(true)
    ensures !IsPii(s.(extensions := s.extensions - {"x-pii"}))
  {
  }

  function WithProperty(s: Schema, k: string, r: RefOr): Schema
    requires s.kind.ObjectKind?
  {
    s.(kind := ObjectKind(s.kind.properties[k := r]))
  }

  function WithItems(s: Schema, r: RefOr): Schema
    requires s.kind.ArrayKind?
  {
    s.(kind := ArrayKind(Some(r)))
  }

  /** A property given by reference flags what the component written in its place would. */
  lemma PropertyInlined(doc: Document, s: Schema, k: string, name: string, segs: seq<Segment>)
    requires s.kind.ObjectKind? && Inline(doc, name)
    ensures Flagged(doc, WithProperty(s, k, Reference("#/components/schemas/" + name)), segs) <==>
              Flagged(doc, WithProperty(s, k, Schemas(doc)[name]), segs)
  {
    ReferenceInlined(doc, name);
  }

  lemma ItemsInlined(doc: Document, s: Schema, name: string, segs: seq<Segment>)
    requires s.kind.ArrayKind? && Inline(doc, name)
    ensures Flagged(doc, WithItems(s, Reference("#/components/schemas/" + name)), segs) <==>
              Flagged(doc, WithItems(s, Schemas(doc)[name]), segs)
  {
    ReferenceInlined(doc, name);
  }

  lemma ReferenceInlined(doc: Document, name: string)
    requires Inline(doc, name)
    ensures Resolve(doc, Reference("#/components/schemas/" + name)) == Some(Schemas(doc)[name].schema)
  {
    var t := Schemas(doc)[name].schema;
    assert Defines(doc, name, t);
    ResolveMeans(doc, Reference("#/components/schemas/" + name), t);
  }
}

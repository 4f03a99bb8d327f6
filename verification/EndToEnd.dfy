/**
 * From a document to an encrypted payload: the paths the resolver emits, parsed back by the
 * payload walk, select exactly the positions the document flags, and exactly when they do.
 */
module EndToEnd {
  import opened Prelude
  import opened JsonTree
  import opened Paths
  import opened Cipher
  import opened Transform
  import opened Payload
  import opened Resolver

  /** The paths select a position exactly when the document flags it. */
  ghost predicate MeansFlags(doc: Document, paths: set<string>) {
    forall loc :: Selected(paths, loc) <==> FlaggedIn(doc, SegmentsOf(loc))
  }

  /** Every flagged position of the document survives being written as a path and parsed back. */
  ghost predicate FaithfulDocument(doc: Document) {
    forall segs :: FlaggedIn(doc, segs) ==> Faithful(segs)
  }

  lemma SelectedIff(doc: Document, paths: set<string>, segs: seq<Segment>)
    requires IsPathSetOf(doc, paths)
    ensures segs in SegmentLists(paths) <==> exists from :: FlaggedIn(doc, from) && Parse(Build("", from)) == segs
  {
    if segs in SegmentLists(paths) {
      var path :| path in paths && Parse(path) == segs;
      assert IsPiiPath(doc, path);
      var from :| FlaggedIn(doc, from) && Build("", from) == path;
    }
    forall from | FlaggedIn(doc, from) && Parse(Build("", from)) == segs ensures segs in SegmentLists(paths) {
      assert IsPiiPath(doc, Build("", from));
    }
  }

  lemma FaithfulMeansFlags(doc: Document, paths: set<string>)
    requires IsPathSetOf(doc, paths) && FaithfulDocument(doc)
    ensures MeansFlags(doc, paths)
  {
    forall loc ensures Selected(paths, loc) <==> FlaggedIn(doc, SegmentsOf(loc)) {
      var segs := SegmentsOf(loc);
      SelectedIff(doc, paths, segs);
      forall from | FlaggedIn(doc, from) ensures Parse(Build("", from)) == from {
        BuildThenParse(from);
      }
    }
  }

  lemma MeansFlagsOnlyIfFaithful(doc: Document, paths: set<string>)
    requires IsPathSetOf(doc, paths) && MeansFlags(doc, paths)
    ensures FaithfulDocument(doc)
  {
    forall segs | FlaggedIn(doc, segs)
      ensures exists from :: FlaggedIn(doc, from) && Parse(Build("", from)) == segs
      ensures Parsed(segs)
    {
      assert Selected(paths, SampleLocation(segs));
      SelectedIff(doc, paths, segs);
      var from :| FlaggedIn(doc, from) && Parse(Build("", from)) == segs;
      ParseIsParsed(Build("", from));
    }
    forall segs | FlaggedIn(doc, segs) ensures Faithful(segs) {
      var from :| FlaggedIn(doc, from) && Parse(Build("", from)) == segs;
      BuiltParsedIsFaithful(from);
    }
  }

  /** The paths mean what the document flags if and only if every flagged position is faithful. */
  lemma MeansFlagsIffFaithful(doc: Document, paths: set<string>)
    requires IsPathSetOf(doc, paths)
    ensures MeansFlags(doc, paths) <==> FaithfulDocument(doc)
  {
    if FaithfulDocument(doc) {
      FaithfulMeansFlags(doc, paths);
    }
    if MeansFlags(doc, paths) {
      MeansFlagsOnlyIfFaithful(doc, paths);
    }
  }

  /** Each string leaf of `v` at a flagged position is a token in `w`; all else is as in `v`. */
  ghost predicate OnlyFlaggedSealed(suite: Suite, dek: Bytes, doc: Document, v: Json, w: Json) {
    forall loc :: SealedAt(suite, dek, v, w, loc, FlaggedIn(doc, SegmentsOf(loc)))
  }

  /**
   * Resolve, re-parse and encrypt: on a faithful document the string leaves at flagged
   * positions become tokens that open to what they were, and nothing else changes.
   */
  lemma EncryptsFlaggedLeaves(suite: Suite, dek: Bytes, doc: Document, paths: set<string>, order: seq<string>, v: Json)
    requires IsPathSetOf(doc, paths) && FaithfulDocument(doc) && Enumerates(order, paths)
    requires RewriteAll(v, order, Sealer(suite, dek)).Ok?
    ensures OnlyFlaggedSealed(suite, dek, doc, v, RewriteAll(v, order, Sealer(suite, dek)).value)
  {
    FaithfulMeansFlags(doc, paths);
    EncryptMeaning(suite, dek, v, order, paths);
    var w := RewriteAll(v, order, Sealer(suite, dek)).value;
    forall loc ensures SealedAt(suite, dek, v, w, loc, FlaggedIn(doc, SegmentsOf(loc))) {
      assert SealedAt(suite, dek, v, w, loc, Selected(paths, loc));
    }
  }

  // ---- A condition on names and arrays alone ---------------------------------------------

  predicate PlainName(k: string) {
    k != "" && '.' !in k && !HasArraySuffix(k)
  }

  /** Plain property names throughout `s`, and no array directly inside an array. */
  ghost predicate PlainSchema(doc: Document, s: Schema) {
    match s.kind
    case ObjectKind(properties) => forall k :: k in properties ==> PlainName(k) && PlainRef(doc, properties[k])
    case ArrayKind(Some(items)) =>
      && PlainRef(doc, items)
      && (Resolve(doc, items).Some? ==> !Resolve(doc, items).value.kind.ArrayKind?)
    case _ => true
  }

  ghost predicate PlainRef(doc: Document, r: RefOr) {
    r.Item? ==> PlainSchema(doc, r.schema)
  }

  /** The components are plain, and none is an array itself. */
  ghost predicate PlainDocument(doc: Document) {
    forall name :: Inline(doc, name) ==>
      PlainSchema(doc, Schemas(doc)[name].schema) && !Schemas(doc)[name].schema.kind.ArrayKind?
  }

  lemma {:induction false} PlainFlagged(doc: Document, s: Schema, segs: seq<Segment>)
    requires PlainDocument(doc) && PlainSchema(doc, s) && Flagged(doc, s, segs)
    ensures segs[0].ArrayItem? ==> s.kind.ArrayKind?
    ensures forall i :: 0 <= i < |segs| && segs[i].Key? ==> PlainName(segs[i].name)
    ensures forall i :: 0 < i < |segs| && segs[i].ArrayItem? ==> segs[i - 1].Key?
    decreases |segs|
  {
    var t := Child(doc, s, segs[0]).value;
    assert PlainSchema(doc, t);
    if |segs| <= 1 {
    } else {
      var rest := segs[1..];
      PlainFlagged(doc, t, rest);
      assert forall i :: 0 < i < |segs| ==> segs[i] == rest[i - 1];
    }
  }

  lemma PlainIsFaithful(doc: Document)
    requires PlainDocument(doc)
    ensures FaithfulDocument(doc)
  {
    forall segs | FlaggedIn(doc, segs) ensures Faithful(segs) {
      var name :| Inline(doc, name) && Flagged(doc, Schemas(doc)[name].schema, segs);
      PlainFlagged(doc, Schemas(doc)[name].schema, segs);
      forall i | 0 <= i < |segs| ensures WellPlaced(segs, i) {
      }
    }
  }

  // ---- A document the condition shuts out -------------------------------------------------

  /** One component with one flagged string property called `a.b`. */
  function DottedDocument(): Document {
    var flagged := Schema(map["x-pii" := Bool(true)], OtherKind);
    Document(Some(map["Person" := Item(Schema(map[], ObjectKind(map["a.b" := Item(flagged)])))]))
  }

  /** The member `a.b` is flagged, and only that; yet no path selects it. */
  lemma DottedNameIsMissed(paths: set<string>)
    requires IsPathSetOf(DottedDocument(), paths)
    ensures forall segs :: FlaggedIn(DottedDocument(), segs) <==> segs == [Key("a.b")]
    ensures [Key("a.b")] !in SegmentLists(paths)
  {
    var doc := DottedDocument();
    var flagged := [Key("a.b")];
    assert Inline(doc, "Person") && Flagged(doc, Schemas(doc)["Person"].schema, flagged);
    forall segs | FlaggedIn(doc, segs) ensures segs == flagged {
      var person := Schemas(doc)["Person"].schema;
      assert Flagged(doc, person, segs);
      assert segs[0] == Key("a.b");
      assert |segs| > 1 ==> !Flagged(doc, Child(doc, person, segs[0]).value, segs[1..]);
    }
    SelectedIff(doc, paths, flagged);
    assert "a.b"[1] == '.' && !WellPlaced(flagged, 0);
    forall from ensures Parse(Build("", from)) != flagged {
      ParseIsParsed(Build("", from));
    }
  }

  /** What is selected instead is the member `b` of `a`, which is not flagged. */
  lemma DottedNameHitsAnother(paths: set<string>)
    requires IsPathSetOf(DottedDocument(), paths)
    ensures SegmentLists(paths) == {[Key("a"), Key("b")]}
  {
    var hit := [Key("a"), Key("b")];
    DottedNameIsMissed(paths);
    assert Build("", [Key("a.b")]) == "a.b" by {
      assert [Key("a.b")][1..] == [];
    }
    assert Build("", hit) == "a.b" by {
      assert hit[1..] == [Key("b")] && hit[1..][1..] == [];
      assert Extend("a", Key("b")) == "a.b";
    }
    assert Faithful(hit) by {
      assert WellPlaced(hit, 0) && WellPlaced(hit, 1);
    }
    BuildThenParse(hit);
    forall segs ensures segs in SegmentLists(paths) <==> segs == hit {
      SelectedIff(DottedDocument(), paths, segs);
    }
  }
}

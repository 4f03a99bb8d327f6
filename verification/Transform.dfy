/**
 * The payload transform: walking a JSON value along each PII path and sealing or opening the
 * string leaves it reaches. The walk, one path after another in any order, is shown to be one
 * pure map over the selected positions.
 */
module Transform {
  import opened Prelude
  import opened JsonTree
  import opened Paths
  import opened Cipher

  /** What a walk does to the string leaves it reaches. */
  type LeafOp = string -> Result<string, CipherError>

  type Outcome = Result<Json, CipherError>

  // ---- The walk -------------------------------------------------------------------------

  /** The value after following `segs` and applying `op` to the string leaves at the end. */
  function Rewrite(v: Json, segs: seq<Segment>, op: LeafOp): (r: Outcome)
    decreases |segs|, 0
  {
    if segs == [] then
      if v.Str? then
        match op(v.s)
        case Err(e) => Err(e)
        case Ok(t) => Ok(Str(t))
      else Ok(v)
    else
      match segs[0]
      case Key(k) =>
        if v.Obj? && k in v.fields then
          match Rewrite(v.fields[k], segs[1..], op)
          case Err(e) => Err(e)
          case Ok(child) => Ok(Obj(v.fields[k := child]))
        else Ok(v)
      case ArrayItem =>
        if v.Arr? then
          match RewriteItems(v.items, segs[1..], op)
          case Err(e) => Err(e)
          case Ok(items) => Ok(Arr(items))
        else Ok(v)
  }

  /** Element `i` fails with `e`, and those before it do not fail. */
  ghost predicate FirstFailure(items: seq<Json>, segs: seq<Segment>, op: LeafOp, i: nat, e: CipherError)
    decreases |segs|, |items|
  {
    && i < |items| && Rewrite(items[i], segs, op) == Err(e)
    && forall j :: 0 <= j < i ==> Rewrite(items[j], segs, op).Ok?
  }

  /** Each element in turn, stopping at the first failure. */
  function RewriteItems(items: seq<Json>, segs: seq<Segment>, op: LeafOp): (r: Result<seq<Json>, CipherError>)
    ensures r.Ok? ==> |r.value| == |items| && forall i :: 0 <= i < |items| ==> Rewrite(items[i], segs, op) == Ok(r.value[i])
    ensures r.Err? ==> exists i: nat :: FirstFailure(items, segs, op, i, r.error)
    decreases |segs|, |items| + 1
  {
    if items == [] then Ok([])
    else
      match Rewrite(items[0], segs, op)
      case Err(e) =>
        assert FirstFailure(items, segs, op, 0, e);
        Err(e)
      case Ok(head) =>
        match RewriteItems(items[1..], segs, op)
        case Err(e) =>
          ghost var i: nat :| FirstFailure(items[1..], segs, op, i, e);
          assert FirstFailure(items, segs, op, i + 1, e);
          Err(e)
        case Ok(tail) => Ok([head] + tail)
  }

  /** One path after another, in the given order. */
  function RewriteAll(v: Json, order: seq<string>, op: LeafOp): (r: Outcome)
    decreases |order|
  {
    if order == [] then Ok(v)
    else
      match Rewrite(v, Parse(order[0]), op)
      case Err(e) => Err(e)
      case Ok(w) => RewriteAll(w, order[1..], op)
  }

  // ---- What it means --------------------------------------------------------------------

  /** `loc` is selected by `lists` and holds the string `s`. */
  ghost predicate Hits(v: Json, lists: set<seq<Segment>>, loc: Location, s: string) {
    SegmentsOf(loc) in lists && LabelAt(v, loc) == Some(StrLabel(s))
  }

  /** The leaf operation succeeds at every selected string. */
  ghost predicate Defined(v: Json, op: LeafOp, lists: set<seq<Segment>>) {
    forall loc, s :: Hits(v, lists, loc, s) ==> op(s).Ok?
  }

  /** The label that `loc` should have afterwards: only selected strings change. */
  ghost function Expected(v: Json, op: LeafOp, lists: set<seq<Segment>>, loc: Location): Option<Label> {
    match LabelAt(v, loc)
    case Some(StrLabel(s)) =>
      if SegmentsOf(loc) in lists && op(s).Ok? then Some(StrLabel(op(s).value)) else Some(StrLabel(s))
    case other => other
  }

  /** `w` is `v` with the operation applied once to every selected string, and nothing else. */
  ghost predicate Image(v: Json, w: Json, op: LeafOp, lists: set<seq<Segment>>) {
    forall loc :: LabelAt(w, loc) == Expected(v, op, lists, loc)
  }

  /** An image is unique. */
  lemma ImageUnique(v: Json, w: Json, x: Json, op: LeafOp, lists: set<seq<Segment>>)
    requires Image(v, w, op, lists) && Image(v, x, op, lists)
    ensures w == x
  {
    forall loc ensures LabelAt(w, loc) == LabelAt(x, loc) {
      assert LabelAt(w, loc) == Expected(v, op, lists, loc);
    }
    Extensional(w, x);
  }

  // ---- One path -------------------------------------------------------------------------

  lemma SegmentsStep(loc: Location, segs: seq<Segment>)
    requires loc != [] && segs != []
    ensures SegmentsOf(loc) == segs <==> StepSegment(loc[0]) == segs[0] && SegmentsOf(loc[1..]) == segs[1..]
  {
    assert segs == [segs[0]] + segs[1..];
    assert SegmentsOf(loc)[1..] == SegmentsOf(loc[1..]);
  }

  /** One step down along the path: the child that `loc` goes through, before and after. */
  lemma Descend(v: Json, segs: seq<Segment>, op: LeafOp, loc: Location) returns (child: Json, after: Json)
    requires Rewrite(v, segs, op).Ok? && loc != [] && segs != [] && StepSegment(loc[0]) == segs[0]
    requires LabelAt(v, loc[..1]).Some?
    ensures Rewrite(child, segs[1..], op) == Ok(after)
    ensures LabelAt(v, loc) == LabelAt(child, loc[1..])
    ensures LabelAt(Rewrite(v, segs, op).value, loc) == LabelAt(after, loc[1..])
  {
    match loc[0]
    case Field(k) =>
      child, after := v.fields[k], Rewrite(v, segs, op).value.fields[k];
    case Index(i) =>
      child, after := v.items[i], Rewrite(v, segs, op).value.items[i];
  }

  /** Off the path nothing changes. */
  lemma Aside(v: Json, segs: seq<Segment>, op: LeafOp, loc: Location)
    requires Rewrite(v, segs, op).Ok? && loc != [] && segs != []
    requires StepSegment(loc[0]) != segs[0] || LabelAt(v, loc[..1]).None?
    ensures LabelAt(Rewrite(v, segs, op).value, loc) == LabelAt(v, loc)
  {
  }

  lemma {:induction false} RewriteAt(v: Json, segs: seq<Segment>, op: LeafOp, loc: Location)
    requires Rewrite(v, segs, op).Ok?
    ensures LabelAt(Rewrite(v, segs, op).value, loc) == Expected(v, op, {segs}, loc)
    ensures forall s :: Hits(v, {segs}, loc, s) ==> op(s).Ok?
    decreases |loc|
  {
    if loc == [] || segs == [] {
      RewriteAtEnd(v, segs, op, loc);
    } else {
      SegmentsStep(loc, segs);
      if StepSegment(loc[0]) == segs[0] && LabelAt(v, loc[..1]).Some? {
        var child, after := Descend(v, segs, op, loc);
        RewriteAt(child, segs[1..], op, loc[1..]);
        assert forall s :: Hits(v, {segs}, loc, s) <==> Hits(child, {segs[1..]}, loc[1..], s);
      } else {
        Aside(v, segs, op, loc);
      }
    }
  }

  lemma RewriteAtEnd(v: Json, segs: seq<Segment>, op: LeafOp, loc: Location)
    requires Rewrite(v, segs, op).Ok?
    requires loc == [] || segs == []
    ensures LabelAt(Rewrite(v, segs, op).value, loc) == Expected(v, op, {segs}, loc)
    ensures forall s :: Hits(v, {segs}, loc, s) ==> op(s).Ok?
  {
    if v.Obj? {
      assert Rewrite(v, segs, op).value.fields.Keys == v.fields.Keys;
    }
  }

  /** A failed walk met a selected string on which the operation fails. */
  lemma {:induction false} RewriteFailure(v: Json, segs: seq<Segment>, op: LeafOp) returns (loc: Location, s: string)
    requires Rewrite(v, segs, op).Err?
    ensures Hits(v, {segs}, loc, s) && op(s).Err?
    decreases |segs|
  {
    if segs == [] {
      loc, s := [], v.s;
    } else {
      var rest := segs[1..];
      match segs[0] {
        case Key(k) =>
          var below;
          below, s := RewriteFailure(v.fields[k], rest, op);
          loc := [Field(k)] + below;
          assert loc[1..] == below;
        case ArrayItem =>
          var e := RewriteItems(v.items, rest, op).error;
          var i :| 0 <= i < |v.items| && Rewrite(v.items[i], rest, op) == Err(e);
          var below;
          below, s := RewriteFailure(v.items[i], rest, op);
          loc := [Index(i)] + below;
          assert loc[1..] == below;
      }
      SegmentsStep(loc, segs);
    }
  }

  /** Walking one path succeeds exactly when every string it selects can be transformed. */
  lemma RewriteMeaning(v: Json, segs: seq<Segment>, op: LeafOp)
    ensures Rewrite(v, segs, op).Ok? <==> Defined(v, op, {segs})
    ensures Rewrite(v, segs, op).Ok? ==> Image(v, Rewrite(v, segs, op).value, op, {segs})
  {
    if Rewrite(v, segs, op).Ok? {
      forall loc ensures LabelAt(Rewrite(v, segs, op).value, loc) == Expected(v, op, {segs}, loc) {
        RewriteAt(v, segs, op, loc);
      }
      forall loc, s | Hits(v, {segs}, loc, s) ensures op(s).Ok? {
        RewriteAt(v, segs, op, loc);
      }
    } else {
      var loc, s := RewriteFailure(v, segs, op);
    }
  }

  // ---- All paths, in any order ----------------------------------------------------------

  /** `order` lists every element of `paths` once, as one iteration over a hash set does. */
  ghost predicate Enumerates(order: seq<string>, paths: set<string>) {
    && (forall p :: p in order <==> p in paths)
    && (forall i, j :: 0 <= i < j < |order| ==> order[i] != order[j])
  }

  /** Different paths never select the same position. */
  lemma DistinctPathsDisjoint(p: string, q: string, loc: Location)
    requires p != q
    ensures !(SegmentsOf(loc) == Parse(p) && SegmentsOf(loc) == Parse(q))
  {
    if Parse(p) == Parse(q) {
      ParseInjective(p, q);
    }
  }

  /** Transforming some positions leaves every other selection as it was. */
  lemma ImageKeepsOthers(v: Json, w: Json, op: LeafOp, done: set<seq<Segment>>, todo: set<seq<Segment>>)
    requires Image(v, w, op, done) && done !! todo
    ensures forall loc, s :: Hits(v, todo, loc, s) <==> Hits(w, todo, loc, s)
    ensures Defined(v, op, todo) <==> Defined(w, op, todo)
  {
    forall loc, s ensures Hits(v, todo, loc, s) <==> Hits(w, todo, loc, s) {
      assert LabelAt(w, loc) == Expected(v, op, done, loc);
    }
  }

  lemma ComposeAt(v: Json, w: Json, x: Json, op: LeafOp, first: set<seq<Segment>>, second: set<seq<Segment>>, loc: Location)
    requires first !! second
    requires LabelAt(w, loc) == Expected(v, op, first, loc) && LabelAt(x, loc) == Expected(w, op, second, loc)
    ensures LabelAt(x, loc) == Expected(v, op, first + second, loc)
  {
  }

  lemma ComposeImages(v: Json, w: Json, x: Json, op: LeafOp, first: set<seq<Segment>>, second: set<seq<Segment>>)
    requires Image(v, w, op, first) && Image(w, x, op, second) && first !! second
    ensures Image(v, x, op, first + second)
  {
    forall loc ensures LabelAt(x, loc) == Expected(v, op, first + second, loc) {
      ComposeAt(v, w, x, op, first, second, loc);
    }
  }

  lemma DefinedUnion(v: Json, op: LeafOp, a: set<seq<Segment>>, b: set<seq<Segment>>)
    ensures Defined(v, op, a + b) <==> Defined(v, op, a) && Defined(v, op, b)
  {
    assert forall loc, s :: Hits(v, a + b, loc, s) <==> Hits(v, a, loc, s) || Hits(v, b, loc, s);
  }

  lemma TailEnumerates(order: seq<string>, paths: set<string>)
    requires Enumerates(order, paths) && order != []
    ensures order[0] in paths && Enumerates(order[1..], paths - {order[0]})
    ensures SegmentLists(paths) == {Parse(order[0])} + SegmentLists(paths - {order[0]})
    ensures Parse(order[0]) !in SegmentLists(paths - {order[0]})
  {
    var p := order[0];
    var rest := paths - {p};
    forall q ensures q in order[1..] <==> q in rest {
      if q in rest {
        var i :| 0 <= i < |order| && order[i] == q;
        assert order[1..][i - 1] == q;
      }
    }
    forall q | q in rest ensures Parse(q) != Parse(p) {
      if Parse(q) == Parse(p) {
        ParseInjective(p, q);
      }
    }
    forall segs | segs in SegmentLists(paths) ensures segs in {Parse(p)} + SegmentLists(rest) {
      var q :| q in paths && Parse(q) == segs;
      if q != p {
        assert q in rest;
      }
    }
  }

  /**
   * The loop over all paths succeeds exactly when every selected string can be transformed,
   * and then every selected string has been transformed once and nothing else has changed.
   */
  lemma {:induction false} RewriteAllMeaning(v: Json, order: seq<string>, paths: set<string>, op: LeafOp)
    requires Enumerates(order, paths)
    ensures RewriteAll(v, order, op).Ok? <==> Defined(v, op, SegmentLists(paths))
    ensures RewriteAll(v, order, op).Ok? ==> Image(v, RewriteAll(v, order, op).value, op, SegmentLists(paths))
    decreases |order|
  {
    if order == [] {
      assert paths == {};
    } else {
      var first := Parse(order[0]);
      var rest := SegmentLists(paths - {order[0]});
      TailEnumerates(order, paths);
      RewriteMeaning(v, first, op);
      DefinedUnion(v, op, {first}, rest);
      if Rewrite(v, first, op).Ok? {
        var w := Rewrite(v, first, op).value;
        ImageKeepsOthers(v, w, op, {first}, rest);
        RewriteAllMeaning(w, order[1..], paths - {order[0]}, op);
        if RewriteAll(v, order, op).Ok? {
          ComposeImages(v, w, RewriteAll(v, order, op).value, op, {first}, rest);
        }
      }
    }
  }

  /** The order of the paths decides neither success nor the resulting value. */
  lemma OrderIndependent(v: Json, one: seq<string>, two: seq<string>, paths: set<string>, op: LeafOp)
    requires Enumerates(one, paths) && Enumerates(two, paths)
    ensures RewriteAll(v, one, op).Ok? <==> RewriteAll(v, two, op).Ok?
    ensures RewriteAll(v, one, op).Ok? ==> RewriteAll(v, one, op) == RewriteAll(v, two, op)
  {
    RewriteAllMeaning(v, one, paths, op);
    RewriteAllMeaning(v, two, paths, op);
    if RewriteAll(v, one, op).Ok? {
      ImageUnique(v, RewriteAll(v, one, op).value, RewriteAll(v, two, op).value, op, SegmentLists(paths));
    }
  }

  // ---- The same thing as one pass over the value ----------------------------------------

  /** What is left of the selected segment lists one step further down. */
  function Below(lists: set<seq<Segment>>, seg: Segment): set<seq<Segment>> {
    set segs | segs in lists && segs != [] && segs[0] == seg :: segs[1..]
  }

  /** A single structural pass that applies `op` at the selected positions where it succeeds. */
  function MapAt(v: Json, lists: set<seq<Segment>>, op: LeafOp): (w: Json)
    decreases v
  {
    match v
    case Str(s) => if [] in lists && op(s).Ok? then Str(op(s).value) else v
    case Arr(items) => Arr(seq(|items|, i requires 0 <= i < |items| => MapAt(items[i], Below(lists, ArrayItem), op)))
    case Obj(fields) => Obj(map k | k in fields :: MapAt(fields[k], Below(lists, Key(k)), op))
    case _ => v
  }

  lemma BelowStep(lists: set<seq<Segment>>, loc: Location)
    requires loc != []
    ensures SegmentsOf(loc) in lists <==> SegmentsOf(loc[1..]) in Below(lists, StepSegment(loc[0]))
  {
    var segs := SegmentsOf(loc);
    assert segs[1..] == SegmentsOf(loc[1..]);
    forall other | other != [] && other[0] == segs[0] && other[1..] == segs[1..] ensures other == segs {
      assert other == [other[0]] + other[1..];
    }
  }

  lemma {:induction false} MapAtLabel(v: Json, lists: set<seq<Segment>>, op: LeafOp, loc: Location)
    ensures LabelAt(MapAt(v, lists, op), loc) == Expected(v, op, lists, loc)
    decreases |loc|
  {
    if loc == [] {
      assert v.Obj? ==> MapAt(v, lists, op).fields.Keys == v.fields.Keys;
    } else {
      BelowStep(lists, loc);
      match loc[0]
      case Field(k) =>
        if v.Obj? && k in v.fields {
          MapAtLabel(v.fields[k], Below(lists, Key(k)), op, loc[1..]);
        }
      case Index(i) =>
        if v.Arr? && i < |v.items| {
          MapAtLabel(v.items[i], Below(lists, ArrayItem), op, loc[1..]);
        }
    }
  }

  /** The loop over the paths refines the single pass. */
  lemma LoopIsOnePass(v: Json, order: seq<string>, paths: set<string>, op: LeafOp)
    requires Enumerates(order, paths)
    ensures RewriteAll(v, order, op).Ok? <==> Defined(v, op, SegmentLists(paths))
    ensures RewriteAll(v, order, op).Ok? ==> RewriteAll(v, order, op).value == MapAt(v, SegmentLists(paths), op)
  {
    RewriteAllMeaning(v, order, paths, op);
    forall loc ensures LabelAt(MapAt(v, SegmentLists(paths), op), loc) == Expected(v, op, SegmentLists(paths), loc) {
      MapAtLabel(v, SegmentLists(paths), op, loc);
    }
    if RewriteAll(v, order, op).Ok? {
      ImageUnique(v, RewriteAll(v, order, op).value, MapAt(v, SegmentLists(paths), op), op, SegmentLists(paths));
    }
  }

  // ---- Two transforms, one after the other ----------------------------------------------

  /** `loc` is a position that the paths select. */
  ghost predicate Selected(paths: set<string>, loc: Location) {
    SegmentsOf(loc) in SegmentLists(paths)
  }

  ghost predicate Undoes(open: LeafOp, seal: LeafOp) {
    forall s :: seal(s).Ok? ==> open(seal(s).value) == Ok(s)
  }

  /** The label left at `loc` by sealing with the paths `was` and opening with `now`. */
  ghost function AfterChange(seal: LeafOp, open: LeafOp, v: Json, was: set<string>, now: set<string>, loc: Location)
    : Option<Label>
  {
    match LabelAt(v, loc)
    case Some(StrLabel(s)) =>
      if Selected(was, loc) && !Selected(now, loc) && seal(s).Ok? then Some(StrLabel(seal(s).value))
      else if !Selected(was, loc) && Selected(now, loc) && open(s).Ok? then Some(StrLabel(open(s).value))
      else Some(StrLabel(s))
    case other => other
  }

  /** `w` is `v` sealed with the paths `was`. */
  ghost predicate Sealed(seal: LeafOp, v: Json, w: Json, was: set<string>) {
    Defined(v, seal, SegmentLists(was)) && Image(v, w, seal, SegmentLists(was))
  }

  /** One string leaf of the sealed value, and what opening it gives. */
  lemma SealedLeaf(seal: LeafOp, open: LeafOp, v: Json, w: Json, was: set<string>, loc: Location)
    requires Undoes(open, seal) && Sealed(seal, v, w, was)
    requires LabelAt(v, loc).Some? && LabelAt(v, loc).value.StrLabel?
    ensures LabelAt(w, loc).Some? && LabelAt(w, loc).value.StrLabel?
    ensures var s, u := LabelAt(v, loc).value.s, LabelAt(w, loc).value.s;
            if Selected(was, loc) then seal(s) == Ok(u) && open(u) == Ok(s) else u == s
  {
    assert LabelAt(w, loc) == Expected(v, seal, SegmentLists(was), loc);
    if Selected(was, loc) {
      assert Hits(v, SegmentLists(was), loc, LabelAt(v, loc).value.s);
    }
  }

  lemma ChangedDefined(seal: LeafOp, open: LeafOp, v: Json, w: Json, was: set<string>, now: set<string>)
    requires Undoes(open, seal) && Sealed(seal, v, w, was)
    ensures Defined(w, open, SegmentLists(now)) <==>
              forall loc, s :: Hits(v, SegmentLists(now), loc, s) && !Selected(was, loc) ==> open(s).Ok?
  {
    var lists := SegmentLists(now);
    forall loc, s | Hits(v, lists, loc, s) && !Selected(was, loc) ensures Hits(w, lists, loc, s) {
      SealedLeaf(seal, open, v, w, was, loc);
    }
    forall loc, u | Hits(w, lists, loc, u)
      ensures open(u).Ok? || (Hits(v, lists, loc, u) && !Selected(was, loc))
    {
      assert LabelAt(w, loc) == Expected(v, seal, SegmentLists(was), loc);
      SealedLeaf(seal, open, v, w, was, loc);
    }
  }

  /** The label at one position, from what sealing and opening did there. */
  lemma ChangedLabel(seal: LeafOp, open: LeafOp, v: Json, w: Json, x: Json,
                     was: set<string>, now: set<string>, loc: Location)
    requires LabelAt(w, loc) == Expected(v, seal, SegmentLists(was), loc)
    requires LabelAt(x, loc) == Expected(w, open, SegmentLists(now), loc)
    requires LabelAt(v, loc).Some? && LabelAt(v, loc).value.StrLabel? && Selected(was, loc) ==>
               var s := LabelAt(v, loc).value.s; seal(s).Ok? && open(seal(s).value) == Ok(s)
    ensures LabelAt(x, loc) == AfterChange(seal, open, v, was, now, loc)
  {
  }

  lemma ChangedAt(seal: LeafOp, open: LeafOp, v: Json, w: Json, x: Json, was: set<string>, now: set<string>, loc: Location)
    requires Undoes(open, seal) && Sealed(seal, v, w, was)
    requires Image(w, x, open, SegmentLists(now))
    ensures LabelAt(x, loc) == AfterChange(seal, open, v, was, now, loc)
  {
    if LabelAt(v, loc).Some? && LabelAt(v, loc).value.StrLabel? {
      SealedLeaf(seal, open, v, w, was, loc);
    }
    ChangedLabel(seal, open, v, w, x, was, now, loc);
  }

  /**
   * Sealing with one set of paths and opening with another. Opening succeeds exactly when the
   * strings selected only the second time can be opened, and `AfterChange` is what is left.
   */
  lemma ChangedPaths(seal: LeafOp, open: LeafOp, v: Json,
                     before: seq<string>, was: set<string>, after: seq<string>, now: set<string>)
    requires Undoes(open, seal) && Enumerates(before, was) && Enumerates(after, now)
    requires RewriteAll(v, before, seal).Ok?
    ensures var r := RewriteAll(RewriteAll(v, before, seal).value, after, open);
            && (r.Ok? <==> forall loc, s :: Hits(v, SegmentLists(now), loc, s) && !Selected(was, loc) ==> open(s).Ok?)
            && (r.Ok? ==> forall loc :: LabelAt(r.value, loc) == AfterChange(seal, open, v, was, now, loc))
  {
    RewriteAllMeaning(v, before, was, seal);
    var w := RewriteAll(v, before, seal).value;
    RewriteAllMeaning(w, after, now, open);
    ChangedDefined(seal, open, v, w, was, now);
    var r := RewriteAll(w, after, open);
    if r.Ok? {
      forall loc ensures LabelAt(r.value, loc) == AfterChange(seal, open, v, was, now, loc) {
        ChangedAt(seal, open, v, w, r.value, was, now, loc);
      }
    }
  }

  /** If opening a leaf undoes sealing it, opening a value undoes sealing it, in any two orders. */
  lemma SealThenOpen(seal: LeafOp, open: LeafOp, v: Json, one: seq<string>, two: seq<string>, paths: set<string>)
    requires Undoes(open, seal) && Enumerates(one, paths) && Enumerates(two, paths)
    requires RewriteAll(v, one, seal).Ok?
    ensures RewriteAll(RewriteAll(v, one, seal).value, two, open) == Ok(v)
  {
    ChangedPaths(seal, open, v, one, paths, two, paths);
    var r := RewriteAll(RewriteAll(v, one, seal).value, two, open);
    assert forall loc, s :: Hits(v, SegmentLists(paths), loc, s) ==> Selected(paths, loc);
    forall loc ensures LabelAt(r.value, loc) == LabelAt(v, loc) {
      assert LabelAt(r.value, loc) == AfterChange(seal, open, v, paths, paths, loc);
    }
    Extensional(r.value, v);
  }

  /** The sealed string at a selected position. */
  lemma SealedLabel(seal: LeafOp, v: Json, order: seq<string>, paths: set<string>, loc: Location, s: string)
    requires Enumerates(order, paths) && RewriteAll(v, order, seal).Ok? && Hits(v, SegmentLists(paths), loc, s)
    ensures seal(s).Ok? && LabelAt(RewriteAll(v, order, seal).value, loc) == Some(StrLabel(seal(s).value))
  {
    RewriteAllMeaning(v, order, paths, seal);
    assert LabelAt(RewriteAll(v, order, seal).value, loc) == Expected(v, seal, SegmentLists(paths), loc);
  }

  /** If opening undoes sealing, sealed leaves of any two values are equal exactly when the originals are. */
  lemma SealedLeavesMatch(seal: LeafOp, open: LeafOp,
                          v: Json, one: seq<string>, paths: set<string>, at: Location, s: string,
                          w: Json, two: seq<string>, others: set<string>, there: Location, t: string)
    requires Undoes(open, seal) && Enumerates(one, paths) && Enumerates(two, others)
    requires RewriteAll(v, one, seal).Ok? && RewriteAll(w, two, seal).Ok?
    requires Hits(v, SegmentLists(paths), at, s) && Hits(w, SegmentLists(others), there, t)
    ensures LabelAt(RewriteAll(v, one, seal).value, at) == LabelAt(RewriteAll(w, two, seal).value, there) <==> s == t
  {
    SealedLabel(seal, v, one, paths, at, s);
    SealedLabel(seal, w, two, others, there, t);
  }
}

/**
 * The payload as the handlers hold it: a tree of mutable nodes, overwritten in place along each
 * path. The in-place walk computes what the pure one does.
 */
module PayloadHeap {
  import opened Prelude
  import opened JsonTree
  import opened Paths
  import opened Cipher
  import opened Transform

  datatype Cell =
    | Scalar(v: Json)
    | Items(items: seq<Node>)
    | Fields(fields: map<string, Node>)

  class Node {
    var cell: Cell
    constructor (cell: Cell)
      ensures this.cell == cell
    {
      this.cell := cell;
    }
  }

  /** The tree a node owns, as a value: which node stands where. */
  datatype Shape =
    | Leaf(node: Node)
    | Array(node: Node, items: seq<Shape>)
    | Object(node: Node, fields: map<string, Shape>)

  ghost function Nodes(t: Shape): set<Node> {
    match t
    case Leaf(n) => {n}
    case Array(n, items) => {n} + set i, m | 0 <= i < |items| && m in Nodes(items[i]) :: m
    case Object(n, fields) => {n} + set k, m | k in fields && m in Nodes(fields[k]) :: m
  }

  /** No node stands in two places: each subtree is owned by its parent alone. */
  ghost predicate Separate(t: Shape) {
    match t
    case Leaf(_) => true
    case Array(n, items) =>
      && (forall i :: 0 <= i < |items| ==> Separate(items[i]) && n !in Nodes(items[i]))
      && (forall i, j :: 0 <= i < j < |items| ==> Nodes(items[i]) !! Nodes(items[j]))
    case Object(n, fields) =>
      && (forall k :: k in fields ==> Separate(fields[k]) && n !in Nodes(fields[k]))
      && (forall k, l :: k in fields && l in fields && k != l ==> Nodes(fields[k]) !! Nodes(fields[l]))
  }

  /** The heap has the nodes of `t` where `t` says. */
  ghost predicate Holds(t: Shape)
    reads Nodes(t)
  {
    match t
    case Leaf(n) => n.cell.Scalar? && !n.cell.v.Arr? && !n.cell.v.Obj?
    case Array(n, items) =>
      && n.cell.Items? && |n.cell.items| == |items|
      && forall i :: 0 <= i < |items| ==> n.cell.items[i] == items[i].node && Holds(items[i])
    case Object(n, fields) =>
      && n.cell.Fields? && n.cell.fields.Keys == fields.Keys
      && forall k :: k in fields ==> n.cell.fields[k] == fields[k].node && Holds(fields[k])
  }

  /** The JSON value held. */
  ghost function ValueOf(t: Shape): Json
    reads Nodes(t)
    requires Holds(t)
  {
    match t
    case Leaf(n) => n.cell.v
    case Array(n, items) =>
      Arr(seq(|items|, i requires 0 <= i < |items| reads Nodes(t) requires Holds(t) => ValueOf(items[i])))
    case Object(n, fields) => Obj(map k | k in fields :: ValueOf(fields[k]))
  }

  lemma ObjectValue(t: Shape, fields: map<string, Json>)
    requires t.Object? && t.node.cell.Fields? && t.node.cell.fields.Keys == t.fields.Keys == fields.Keys
    requires forall l :: l in fields ==>
               t.node.cell.fields[l] == t.fields[l].node && Holds(t.fields[l]) && ValueOf(t.fields[l]) == fields[l]
    ensures Holds(t) && ValueOf(t) == Obj(fields)
  {
    assert Holds(t);
    assert ValueOf(t).fields == fields;
  }

  // `owned` in the methods below is any set of existing nodes around the tree `t`: since the
  // verifier knows the members of a parameter to exist, it knows no node of `t` is created later.

  /** Places a received payload on the heap, in new nodes. */
  method Place(v: Json) returns (root: Node, ghost t: Shape, ghost owned: set<Node>)
    ensures t.node == root && Separate(t) && Holds(t) && ValueOf(t) == v
    ensures Nodes(t) <= owned && fresh(owned)
    decreases v, 1
  {
    match v
    case Arr(_) =>
      root, t, owned := PlaceItems(v);
    case Obj(_) =>
      var nodes, fields, more := PlaceFields(v, v.fields.Keys);
      root := ObjectNode(v, nodes, fields, more);
      t, owned := Object(root, fields), more + {root};
    case _ =>
      root := new Node(Scalar(v));
      t, owned := Leaf(root), {root};
  }

  method PlaceItems(v: Json) returns (root: Node, ghost t: Shape, ghost owned: set<Node>)
    requires v.Arr?
    ensures t.node == root && Separate(t) && Holds(t) && ValueOf(t) == v
    ensures Nodes(t) <= owned && fresh(owned)
    decreases v, 0
  {
    var vs := v.items;
    var nodes: seq<Node> := [];
    ghost var items: seq<Shape> := [];
    owned := {};
    for i := 0 to |vs|
      invariant |nodes| == |items| == i && fresh(owned)
      invariant forall j :: 0 <= j < i ==> items[j].node == nodes[j] && Nodes(items[j]) <= owned
      invariant forall j :: 0 <= j < i ==> Separate(items[j]) && Holds(items[j]) && ValueOf(items[j]) == vs[j]
      invariant forall j, k :: 0 <= j < k < i ==> Nodes(items[j]) !! Nodes(items[k])
    {
      var n, item, more := Place(vs[i]);
      nodes, items, owned := nodes + [n], items + [item], owned + more;
    }
    root := new Node(Items(nodes));
    t, owned := Array(root, items), owned + {root};
    assert ValueOf(t).items == vs;
  }

  /** The fields placed so far: each holds its value, in nodes of its own. */
  ghost predicate Placed(nodes: map<string, Node>, fields: map<string, Shape>, vs: map<string, Json>, owned: set<Node>)
    reads owned
    requires fields.Keys <= vs.Keys && nodes.Keys == fields.Keys
  {
    && (forall k :: k in fields ==> fields[k].node == nodes[k] && Nodes(fields[k]) <= owned)
    && (forall k :: k in fields ==> Separate(fields[k]) && Holds(fields[k]) && ValueOf(fields[k]) == vs[k])
    && forall k, l :: k in fields && l in fields && k != l ==> Nodes(fields[k]) !! Nodes(fields[l])
  }

  method PlaceField(v: Json, k: string, before: map<string, Node>, ghost was: map<string, Shape>, ghost owned: set<Node>)
    returns (nodes: map<string, Node>, ghost fields: map<string, Shape>, ghost more: set<Node>)
    requires v.Obj? && k in v.fields && was.Keys <= v.fields.Keys && before.Keys == was.Keys && k !in was
    requires Placed(before, was, v.fields, owned)
    ensures nodes.Keys == fields.Keys == was.Keys + {k}
    ensures owned <= more && fresh(more - owned)
    ensures Placed(nodes, fields, v.fields, more)
    decreases v.fields[k], 2
  {
    var n, field, made := Place(v.fields[k]);
    nodes, fields, more := before[k := n], was[k := field], owned + made;
  }

  method ObjectNode(v: Json, nodes: map<string, Node>, ghost fields: map<string, Shape>, ghost owned: set<Node>)
    returns (root: Node)
    requires v.Obj? && nodes.Keys == fields.Keys == v.fields.Keys && Placed(nodes, fields, v.fields, owned)
    ensures fresh(root)
    ensures var t := Object(root, fields); Separate(t) && Holds(t) && ValueOf(t) == v && Nodes(t) <= owned + {root}
  {
    root := new Node(Fields(nodes));
    ObjectValue(Object(root, fields), v.fields);
  }

  method PlaceFields(v: Json, names: set<string>)
    returns (nodes: map<string, Node>, ghost fields: map<string, Shape>, ghost owned: set<Node>)
    requires v.Obj? && names <= v.fields.Keys
    ensures nodes.Keys == fields.Keys == names && fresh(owned)
    ensures Placed(nodes, fields, v.fields, owned)
    decreases v, 0, names
  {
    if names == {} {
      return map[], map[], {};
    }
    var k :| k in names;
    assert names - {k} + {k} == names;
    nodes, fields, owned := PlaceFields(v, names - {k});
    nodes, fields, owned := PlaceField(v, k, nodes, fields, owned);
  }

  /** Reads the tree back, for the response body. */
  method Read(root: Node, ghost t: Shape, ghost owned: set<Node>) returns (v: Json)
    requires t.node == root && Holds(t) && Nodes(t) <= owned
    ensures Holds(t) && v == ValueOf(t) == old(ValueOf(t))
    decreases t, 1
  {
    match root.cell
    case Scalar(w) =>
      v := w;
    case Items(_) =>
      v := ReadItems(root, t, owned);
    case Fields(_) =>
      v := ReadFields(root, t, owned);
  }

  method ReadItems(root: Node, ghost t: Shape, ghost owned: set<Node>) returns (v: Json)
    requires t.Array? && t.node == root && Holds(t) && Nodes(t) <= owned
    ensures Holds(t) && v == ValueOf(t) == old(ValueOf(t))
    decreases t, 0
  {
    var nodes, vs := root.cell.items, [];
    ghost var was := ValueOf(t);
    for i := 0 to |nodes|
      invariant Holds(t) == old(Holds(t)) && ValueOf(t) == was && vs == was.items[..i]
    {
      var w := Read(nodes[i], t.items[i], owned);
      vs := vs + [w];
      assert Holds(t) == old(Holds(t));
    }
    v := Arr(vs);
  }

  method ReadFields(root: Node, ghost t: Shape, ghost owned: set<Node>) returns (v: Json)
    requires t.Object? && t.node == root && Holds(t) && Nodes(t) <= owned
    ensures Holds(t) && v == ValueOf(t) == old(ValueOf(t))
    decreases t, 0
  {
    var nodes, vs := root.cell.fields, map[];
    ghost var was := ValueOf(t);
    var todo := nodes.Keys;
    while todo != {}
      invariant Holds(t) == old(Holds(t)) && ValueOf(t) == was
      invariant todo <= nodes.Keys && vs.Keys == nodes.Keys - todo
      invariant forall k :: k in vs ==> vs[k] == was.fields[k]
    {
      var k :| k in todo;
      var w := Read(nodes[k], t.fields[k], owned);
      vs := vs[k := w];
      todo := todo - {k};
      assert Holds(t) == old(Holds(t));
    }
    assert vs == was.fields;
    v := Obj(vs);
  }

  lemma ItemsAllOk(items: seq<Json>, out: seq<Json>, segs: seq<Segment>, op: LeafOp)
    requires |out| == |items| && forall i :: 0 <= i < |items| ==> Rewrite(items[i], segs, op) == Ok(out[i])
    ensures RewriteItems(items, segs, op) == Ok(out)
  {
    var r := RewriteItems(items, segs, op);
    assert r.Ok?;
    assert r.value == out;
  }

  lemma {:induction false} ItemsFirstErr(items: seq<Json>, segs: seq<Segment>, op: LeafOp, i: nat, e: CipherError)
    requires FirstFailure(items, segs, op, i, e)
    ensures RewriteItems(items, segs, op) == Err(e)
    decreases |items|
  {
    if i == 0 {
    } else {
      ItemsFirstErr(items[1..], segs, op, i - 1, e);
    }
  }

  /** Follows the remaining segments below `node` and applies `op` to the string leaves found. */
  method AtPath(node: Node, segments: seq<Segment>, op: LeafOp, ghost t: Shape, ghost owned: set<Node>)
    returns (r: Result<(), CipherError>)
    requires t.node == node && Separate(t) && Holds(t) && Nodes(t) <= owned
    modifies Nodes(t)
    ensures Holds(t)
    ensures Rewrite(old(ValueOf(t)), segments, op) == if r.Ok? then Ok(ValueOf(t)) else Err(r.error)
    decreases |segments|, 1
  {
    if segments == [] {
      if node.cell.Scalar? && node.cell.v.Str? {
        var out := op(node.cell.v.s);
        if out.Err? {
          return Err(out.error);
        }
        node.cell := Scalar(Str(out.value));
      }
      return Ok(());
    }
    match segments[0]
    case Key(k) =>
      if node.cell.Fields? && k in node.cell.fields {
        r := AtField(node, k, segments[1..], op, t, owned);
      } else {
        r := Ok(());
      }
    case ArrayItem =>
      if node.cell.Items? {
        r := AtItems(node, segments[1..], op, t, owned);
      } else {
        r := Ok(());
      }
  }

  /** One field of an object may be walked: it shares no node with the object or its other fields. */
  lemma FieldsApart(t: Shape, k: string)
    requires t.Object? && k in t.fields && Separate(t) && Holds(t)
    ensures Separate(t.fields[k]) && t.node !in Nodes(t.fields[k])
    ensures forall l :: l in t.fields ==> Holds(t.fields[l]) && Nodes(t.fields[l]) <= Nodes(t)
    ensures forall l :: l in t.fields && l != k ==> Nodes(t.fields[l]) !! Nodes(t.fields[k])
  {
  }

  /** The trees in `fields` hold the values `vs`. */
  ghost predicate HoldAll(fields: map<string, Shape>, vs: map<string, Json>, owned: set<Node>)
    reads owned
  {
    && vs.Keys == fields.Keys
    && forall l :: l in fields ==> Nodes(fields[l]) <= owned && Holds(fields[l]) && ValueOf(fields[l]) == vs[l]
  }

  /** The walk below one field leaves its siblings as they were. */
  method AmongFields(node: Node, k: string, rest: seq<Segment>, op: LeafOp,
                     ghost fields: map<string, Shape>, ghost was: map<string, Json>, ghost owned: set<Node>)
    returns (r: Result<(), CipherError>, ghost now: map<string, Json>)
    requires k in fields && fields[k].node == node && Separate(fields[k]) && HoldAll(fields, was, owned)
    requires forall l :: l in fields && l != k ==> Nodes(fields[l]) !! Nodes(fields[k])
    modifies Nodes(fields[k])
    ensures HoldAll(fields, now, owned) && now == was[k := now[k]]
    ensures Rewrite(was[k], rest, op) == if r.Ok? then Ok(now[k]) else Err(r.error)
    decreases |rest|, 2
  {
    r := AtPath(node, rest, op, fields[k], owned);
    now := was[k := ValueOf(fields[k])];
    forall l | l in fields && l != k
      ensures Holds(fields[l]) == old(Holds(fields[l])) && ValueOf(fields[l]) == old(ValueOf(fields[l]))
    {
      assert forall m :: m in Nodes(fields[l]) ==> m in owned && m.cell == old(m.cell);
      assert Holds(fields[l]) == old(Holds(fields[l]));
    }
  }

  method AtField(node: Node, k: string, rest: seq<Segment>, op: LeafOp, ghost t: Shape, ghost owned: set<Node>)
    returns (r: Result<(), CipherError>)
    requires t.node == node && Separate(t) && Holds(t) && Nodes(t) <= owned
    requires node.cell.Fields? && k in node.cell.fields
    modifies Nodes(t)
    ensures Holds(t) && ValueOf(t).Obj? && k in ValueOf(t).fields
    ensures ValueOf(t) == Obj(old(ValueOf(t)).fields[k := ValueOf(t).fields[k]])
    ensures Rewrite(old(ValueOf(t)).fields[k], rest, op) == if r.Ok? then Ok(ValueOf(t).fields[k]) else Err(r.error)
    decreases |rest|, 3
  {
    FieldsApart(t, k);
    ghost var now;
    r, now := AmongFields(node.cell.fields[k], k, rest, op, t.fields, ValueOf(t).fields, owned);
    ObjectValue(t, now);
  }

  lemma ItemsApart(t: Shape, i: nat)
    requires t.Array? && i < |t.items| && Separate(t)
    ensures Separate(t.items[i]) && t.node !in Nodes(t.items[i])
    ensures forall j :: 0 <= j < |t.items| ==> Nodes(t.items[j]) <= Nodes(t)
    ensures forall j :: 0 <= j < |t.items| && j != i ==> Nodes(t.items[j]) !! Nodes(t.items[i])
  {
  }

  /** The walk below one element leaves the others as they were. */
  method AmongItems(node: Node, i: nat, rest: seq<Segment>, op: LeafOp, ghost items: seq<Shape>, ghost owned: set<Node>)
    returns (r: Result<(), CipherError>)
    requires i < |items| && items[i].node == node && Separate(items[i])
    requires forall j :: 0 <= j < |items| ==> Holds(items[j]) && Nodes(items[j]) <= owned
    requires forall j :: 0 <= j < |items| && j != i ==> Nodes(items[j]) !! Nodes(items[i])
    modifies Nodes(items[i])
    ensures forall j :: 0 <= j < |items| ==> Holds(items[j])
    ensures forall j :: 0 <= j < |items| && j != i ==> ValueOf(items[j]) == old(ValueOf(items[j]))
    ensures Rewrite(old(ValueOf(items[i])), rest, op) == if r.Ok? then Ok(ValueOf(items[i])) else Err(r.error)
    decreases |rest|, 2
  {
    r := AtPath(node, rest, op, items[i], owned);
    forall j | 0 <= j < |items| && j != i
      ensures Holds(items[j]) == old(Holds(items[j])) && ValueOf(items[j]) == old(ValueOf(items[j]))
    {
      assert forall m :: m in Nodes(items[j]) ==> m in owned && m.cell == old(m.cell);
      assert Holds(items[j]) == old(Holds(items[j]));
    }
  }

  method AtItems(node: Node, rest: seq<Segment>, op: LeafOp, ghost t: Shape, ghost owned: set<Node>)
    returns (r: Result<(), CipherError>)
    requires t.node == node && Separate(t) && Holds(t) && Nodes(t) <= owned && node.cell.Items?
    modifies Nodes(t)
    ensures Holds(t)
    ensures ValueOf(t).Arr?
    ensures RewriteItems(old(ValueOf(t)).items, rest, op) == if r.Ok? then Ok(ValueOf(t).items) else Err(r.error)
    decreases |rest|, 3
  {
    var items := node.cell.items;
    ghost var was := ValueOf(t).items;
    for i := 0 to |items|
      invariant node.cell == Items(items)
      invariant forall j :: 0 <= j < |items| ==> Holds(t.items[j])
      invariant forall j :: 0 <= j < i ==> Rewrite(was[j], rest, op) == Ok(ValueOf(t.items[j]))
      invariant forall j :: i <= j < |items| ==> ValueOf(t.items[j]) == was[j]
    {
      ItemsApart(t, i);
      r := AmongItems(items[i], i, rest, op, t.items, owned);
      if r.Err? {
        ItemsFirstErr(was, rest, op, i, r.error);
        return;
      }
    }
    ItemsAllOk(was, ValueOf(t).items, rest, op);
    r := Ok(());
  }

  lemma {:induction false} RewriteAllAppend(v: Json, order: seq<string>, path: string, op: LeafOp)
    ensures RewriteAll(v, order + [path], op) ==
              match RewriteAll(v, order, op)
              case Ok(w) => Rewrite(w, Parse(path), op)
              case Err(e) => Err(e)
    decreases |order|
  {
    var longer := order + [path];
    if order == [] {
      assert longer == [path] && longer[1..] == [];
    } else {
      assert longer[0] == order[0] && longer[1..] == order[1..] + [path];
      match Rewrite(v, Parse(order[0]), op)
      case Ok(w) => RewriteAllAppend(w, order[1..], path, op);
      case Err(_) =>
    }
  }

  /** A failure among some of the paths is a failure of all of them. */
  lemma FailsForMore(v: Json, order: seq<string>, some: set<string>, all: set<string>, op: LeafOp)
    requires Enumerates(order, some) && some <= all && RewriteAll(v, order, op).Err?
    ensures !Defined(v, op, SegmentLists(all))
  {
    RewriteAllMeaning(v, order, some, op);
    var loc, s :| Hits(v, SegmentLists(some), loc, s) && op(s).Err?;
    assert Hits(v, SegmentLists(all), loc, s);
  }

  lemma AppendEnumerates(order: seq<string>, paths: set<string>, path: string)
    requires Enumerates(order, paths) && path !in paths
    ensures Enumerates(order + [path], paths + {path})
  {
  }

  /** One iteration: parse the path and walk it, after the paths in `order`. */
  method OnePath(root: Node, path: string, op: LeafOp,
                 ghost was: Json, ghost order: seq<string>, ghost t: Shape, ghost owned: set<Node>)
    returns (r: Result<(), CipherError>)
    requires t.node == root && Separate(t) && Holds(t) && Nodes(t) <= owned
    requires RewriteAll(was, order, op) == Ok(ValueOf(t))
    modifies Nodes(t)
    ensures Holds(t)
    ensures RewriteAll(was, order + [path], op) == if r.Ok? then Ok(ValueOf(t)) else Err(r.error)
  {
    RewriteAllAppend(was, order, path, op);
    var segments := ParsePath(path);
    r := AtPath(root, segments, op, t, owned);
  }

  /** `order` lists, once each, the paths that are no longer to do. */
  ghost predicate Walked(order: seq<string>, paths: set<string>, todo: set<string>) {
    todo <= paths && Enumerates(order, paths - todo)
  }

  lemma WalkedStep(order: seq<string>, paths: set<string>, todo: set<string>, path: string)
    requires Walked(order, paths, todo) && path in todo
    ensures Walked(order + [path], paths, todo - {path})
  {
    AppendEnumerates(order, paths - todo, path);
    assert paths - todo + {path} == paths - (todo - {path});
  }

  lemma WalkedAll(v: Json, order: seq<string>, paths: set<string>, op: LeafOp)
    requires Walked(order, paths, {}) && RewriteAll(v, order, op).Ok?
    ensures Defined(v, op, SegmentLists(paths))
    ensures RewriteAll(v, order, op).value == MapAt(v, SegmentLists(paths), op)
  {
    assert paths - {} == paths;
    LoopIsOnePass(v, order, paths, op);
  }

  /**
   * Transforms the payload in place along every path, in whatever order the set is iterated.
   * It succeeds exactly when all selected strings can be transformed, and then the payload is
   * the pure one-pass image of what it was.
   */
  method PiiFields(root: Node, piiPaths: set<string>, op: LeafOp, ghost t: Shape, ghost owned: set<Node>)
    returns (r: Result<(), CipherError>)
    requires t.node == root && Separate(t) && Holds(t) && Nodes(t) <= owned
    modifies Nodes(t)
    ensures Holds(t)
    ensures r.Ok? <==> Defined(old(ValueOf(t)), op, SegmentLists(piiPaths))
    ensures r.Ok? ==> ValueOf(t) == MapAt(old(ValueOf(t)), SegmentLists(piiPaths), op)
  {
    ghost var was, order := ValueOf(t), [];
    var todo := piiPaths;
    while todo != {}
      invariant Walked(order, piiPaths, todo)
      invariant Holds(t) && RewriteAll(was, order, op) == Ok(ValueOf(t))
    {
      var path :| path in todo;
      r := OnePath(root, path, op, was, order, t, owned);
      WalkedStep(order, piiPaths, todo, path);
      order, todo := order + [path], todo - {path};
      if r.Err? {
        FailsForMore(was, order, piiPaths - todo, piiPaths, op);
        return;
      }
    }
    WalkedAll(was, order, piiPaths, op);
    r := Ok(());
  }
}

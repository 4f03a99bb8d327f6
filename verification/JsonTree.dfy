/** JSON values, and the positions inside them. */
module JsonTree {
  import opened Prelude

  datatype Json =
    | Null
    | Bool(b: bool)
    | Number(text: string)
    | Str(s: string)
    | Arr(items: seq<Json>)
    | Obj(fields: map<string, Json>)

  /** One step down a value: to a named member or to an array element. */
  datatype Step = Field(name: string) | Index(i: nat)

  type Location = seq<Step>

  /** What a node is, without what is below it. */
  datatype Label =
    | NullLabel
    | BoolLabel(b: bool)
    | NumberLabel(text: string)
    | StrLabel(s: string)
    | ArrLabel(length: nat)
    | ObjLabel(names: set<string>)

  function LabelOf(v: Json): Label {
    match v
    case Null => NullLabel
    case Bool(b) => BoolLabel(b)
    case Number(t) => NumberLabel(t)
    case Str(s) => StrLabel(s)
    case Arr(items) => ArrLabel(|items|)
    case Obj(fields) => ObjLabel(fields.Keys)
  }

  /** The label of the node at `loc`, or `None` when `v` has no such position. */
  function LabelAt(v: Json, loc: Location): Option<Label> {
    if loc == [] then Some(LabelOf(v))
    else
      match loc[0]
      case Field(k) => if v.Obj? && k in v.fields then LabelAt(v.fields[k], loc[1..]) else None
      case Index(i) => if v.Arr? && i < |v.items| then LabelAt(v.items[i], loc[1..]) else None
  }

  /** A position below an element or a member is that position inside it. */
  lemma LabelBelow(v: Json, loc: Location)
    ensures v.Arr? ==> forall i: nat :: i < |v.items| ==> LabelAt(v, [Index(i)] + loc) == LabelAt(v.items[i], loc)
    ensures v.Obj? ==> forall k :: k in v.fields ==> LabelAt(v, [Field(k)] + loc) == LabelAt(v.fields[k], loc)
  {
    assert forall step: Step :: ([step] + loc)[1..] == loc;
  }

  ghost predicate SameLabels(v: Json, w: Json) {
    forall loc :: LabelAt(v, loc) == LabelAt(w, loc)
  }

  /** A value is determined by the labels at its positions. */
  lemma {:induction false} Extensional(v: Json, w: Json)
    requires SameLabels(v, w)
    ensures v == w
    decreases v
  {
    assert LabelAt(v, []) == LabelAt(w, []);
    match v
    case Arr(items) =>
      forall i | 0 <= i < |items| ensures items[i] == w.items[i] {
        forall loc ensures LabelAt(items[i], loc) == LabelAt(w.items[i], loc) {
          assert LabelAt(v, [Index(i)] + loc) == LabelAt(w, [Index(i)] + loc);
          assert ([Index(i)] + loc)[1..] == loc;
        }
        Extensional(items[i], w.items[i]);
      }
    case Obj(fields) =>
      forall k | k in fields ensures fields[k] == w.fields[k] {
        forall loc ensures LabelAt(fields[k], loc) == LabelAt(w.fields[k], loc) {
          assert LabelAt(v, [Field(k)] + loc) == LabelAt(w, [Field(k)] + loc);
          assert ([Field(k)] + loc)[1..] == loc;
        }
        Extensional(fields[k], w.fields[k]);
      }
    case _ =>
  }
}

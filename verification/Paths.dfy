/**
 * Dot-notation paths. The schema resolver builds them one segment at a time; the payload walk
 * parses them back. This module says exactly when the two agree.
 */
module Paths {
  import opened Prelude
  import opened JsonTree

  datatype Segment = Key(name: string) | ArrayItem

  const ARRAY_SUFFIX: string := "[]"

  // ---- Parsing --------------------------------------------------------------------------

  /** `path.split('.')` */
  function Split(s: string): (parts: seq<string>)
    decreases |s|
  {
    var i := FirstDot(s);
    if i == |s| then [s] else [s[..i]] + Split(s[i + 1..])
  }

  /** `part` ends in `[]` */
  predicate HasArraySuffix(part: string) {
    |part| >= 2 && part[|part| - 2] == '[' && part[|part| - 1] == ']'
  }

  function PartSegments(part: string): (segs: seq<Segment>) {
    if HasArraySuffix(part) then [Key(part[..|part| - 2]), ArrayItem] else [Key(part)]
  }

  function Flatten(parts: seq<string>): (segs: seq<Segment>) {
    if parts == [] then [] else PartSegments(parts[0]) + Flatten(parts[1..])
  }

  function Parse(path: string): (segs: seq<Segment>) {
    Flatten(Split(path))
  }

  method ParsePath(path: string) returns (segments: seq<Segment>)
    ensures segments == Parse(path)
    ensures Print(segments) == path
  {
    segments := [];
    var parts := Split(path);
    var i := 0;
    while i < |parts|
      invariant 0 <= i <= |parts|
      invariant segments + Flatten(parts[i..]) == Parse(path)
    {
      var part := parts[i];
      ghost var before := segments;
      if HasArraySuffix(part) {
        segments := segments + [Key(part[..|part| - 2])];
        segments := segments + [ArrayItem];
      } else {
        segments := segments + [Key(part)];
      }
      FlattenStep(before, segments, parts, i);
      i := i + 1;
    }
    PrintOfParse(path);
  }

  lemma FlattenStep(before: seq<Segment>, after: seq<Segment>, parts: seq<string>, i: nat)
    requires i < |parts| && after == before + PartSegments(parts[i])
    ensures before + Flatten(parts[i..]) == after + Flatten(parts[i + 1..])
  {
    assert parts[i..][1..] == parts[i + 1..];
  }

  // ---- Printing -------------------------------------------------------------------------

  function SegmentText(seg: Segment): string {
    match seg
    case Key(k) => k
    case ArrayItem => ARRAY_SUFFIX
  }

  /** The text of segments that follow an earlier one. */
  function PrintTail(segs: seq<Segment>): (s: string) {
    if segs == [] then ""
    else (if segs[0].Key? then "." else "") + SegmentText(segs[0]) + PrintTail(segs[1..])
  }

  /** Segments joined by dots, an array step directly after its key. */
  function Print(segs: seq<Segment>): (s: string) {
    if segs == [] then "" else SegmentText(segs[0]) + PrintTail(segs[1..])
  }

  /** What parsing guarantees of each segment. */
  predicate WellPlaced(segs: seq<Segment>, i: nat)
    requires i < |segs|
  {
    match segs[i]
    case ArrayItem => i > 0 && segs[i - 1].Key?
    case Key(k) => '.' !in k && (HasArraySuffix(k) ==> i + 1 < |segs| && segs[i + 1].ArrayItem?)
  }

  /** The segment lists that parsing can produce. */
  ghost predicate Parsed(segs: seq<Segment>) {
    segs != [] && forall i :: 0 <= i < |segs| ==> WellPlaced(segs, i)
  }

  lemma {:induction false} ParseLast(s: string)
    requires FirstDot(s) == |s|
    ensures Parse(s) == PartSegments(s)
  {
    assert Split(s) == [s];
    assert Flatten([s]) == PartSegments(s) + Flatten([]);
  }

  lemma FlattenCons(part: string, parts: seq<string>)
    ensures Flatten([part] + parts) == PartSegments(part) + Flatten(parts)
  {
    assert ([part] + parts)[1..] == parts;
  }

  lemma {:induction false} ParseMore(s: string)
    requires FirstDot(s) < |s|
    ensures Parse(s) == PartSegments(s[..FirstDot(s)]) + Parse(s[FirstDot(s) + 1..])
  {
    FlattenCons(s[..FirstDot(s)], Split(s[FirstDot(s) + 1..]));
  }

  lemma PrintPart(part: string)
    ensures Print(PartSegments(part)) == part
  {
    var segs := PartSegments(part);
    if HasArraySuffix(part) {
      assert segs[1..] == [ArrayItem] && [ArrayItem][1..] == [];
      assert PrintTail(segs[1..]) == ARRAY_SUFFIX + PrintTail([]);
      assert part == part[..|part| - 2] + ARRAY_SUFFIX;
    } else {
      assert segs[1..] == [];
    }
  }

  lemma {:induction false} PrintTailAppend(a: seq<Segment>, b: seq<Segment>)
    ensures PrintTail(a + b) == PrintTail(a) + PrintTail(b)
  {
    if a == [] {
      assert a + b == b;
    } else {
      assert (a + b)[1..] == a[1..] + b;
      PrintTailAppend(a[1..], b);
    }
  }

  lemma PrintAppend(a: seq<Segment>, b: seq<Segment>)
    requires a != []
    ensures Print(a + b) == Print(a) + PrintTail(b)
  {
    assert (a + b)[1..] == a[1..] + b;
    PrintTailAppend(a[1..], b);
  }

  lemma PrintTailOfKey(segs: seq<Segment>)
    requires segs != [] && segs[0].Key?
    ensures PrintTail(segs) == "." + Print(segs)
  {
  }

  lemma PrintPartThen(part: string, rest: seq<Segment>)
    requires rest != [] && rest[0].Key?
    ensures Print(PartSegments(part) + rest) == part + "." + Print(rest)
  {
    PrintAppend(PartSegments(part), rest);
    PrintPart(part);
    PrintTailOfKey(rest);
    assert part + ("." + Print(rest)) == part + "." + Print(rest);
  }

  /** Joining the parsed segments returns the path, for every string. */
  lemma {:induction false} PrintOfParse(s: string)
    ensures Parse(s) != [] && Parse(s)[0].Key?
    ensures Print(Parse(s)) == s
    decreases |s|
  {
    var i := FirstDot(s);
    if i == |s| {
      ParseLast(s);
      PrintPart(s);
    } else {
      ParseMore(s);
      PrintOfParse(s[i + 1..]);
      PrintPartThen(s[..i], Parse(s[i + 1..]));
      JoinAt(s, i);
    }
  }

  /** Distinct path strings parse to distinct segment lists. */
  lemma ParseInjective(s: string, t: string)
    requires Parse(s) == Parse(t)
    ensures s == t
  {
    PrintOfParse(s);
    PrintOfParse(t);
  }

  lemma {:induction false} ParseIsParsed(s: string)
    ensures Parsed(Parse(s))
    decreases |s|
  {
    var i := FirstDot(s);
    PartIsParsed(s[..i]);
    if i == |s| {
      ParseLast(s);
      assert s[..i] == s;
    } else {
      ParseMore(s);
      ParseIsParsed(s[i + 1..]);
      AppendParsed(PartSegments(s[..i]), Parse(s[i + 1..]));
    }
  }

  lemma PartIsParsed(part: string)
    requires '.' !in part
    ensures Parsed(PartSegments(part))
  {
    var segs := PartSegments(part);
    assert WellPlaced(segs, 0);
  }

  lemma AppendParsed(a: seq<Segment>, b: seq<Segment>)
    requires Parsed(a) && Parsed(b)
    ensures Parsed(a + b)
  {
    var c := a + b;
    forall i | 0 <= i < |c| ensures WellPlaced(c, i) {
      if i < |a| {
        assert WellPlaced(a, i);
      } else {
        assert WellPlaced(b, i - |a|);
      }
    }
  }

  /** The part of the text that the first one or two segments come from. */
  lemma FirstPart(segs: seq<Segment>) returns (part: string, n: nat)
    requires Parsed(segs)
    ensures 1 <= n <= |segs| && '.' !in part && segs == PartSegments(part) + segs[n..]
    ensures n < |segs| ==> segs[n].Key?
  {
    assert WellPlaced(segs, 0);
    n := if |segs| > 1 && segs[1].ArrayItem? then 2 else 1;
    part := if n == 2 then segs[0].name + ARRAY_SUFFIX else segs[0].name;
    assert n == 2 ==> part[..|part| - 2] == segs[0].name;
    if n < |segs| {
      assert WellPlaced(segs, n);
    }
  }

  /** Every list that parsing can produce is the parse of its own text. */
  lemma {:induction false} ParseOfPrint(segs: seq<Segment>)
    requires Parsed(segs)
    ensures Parse(Print(segs)) == segs
    decreases |segs|
  {
    var part, n := FirstPart(segs);
    var rest := segs[n..];
    if rest == [] {
      assert segs == PartSegments(part);
      PrintPart(part);
      FirstDotNone(part);
      ParseLast(part);
    } else {
      DropParsed(segs, n);
      ParseOfPrint(rest);
      ParsePartThen(part, rest);
    }
  }

  lemma ParsePartThen(part: string, rest: seq<Segment>)
    requires '.' !in part && rest != [] && rest[0].Key?
    ensures Parse(Print(PartSegments(part) + rest)) == PartSegments(part) + Parse(Print(rest))
  {
    PrintPartThen(part, rest);
    FirstDotAfter(part, Print(rest));
    var s := part + "." + Print(rest);
    assert s[..|part|] == part && s[|part| + 1..] == Print(rest);
    ParseMore(s);
  }

  lemma DropParsed(segs: seq<Segment>, n: nat)
    requires Parsed(segs) && n < |segs| && segs[n].Key?
    ensures Parsed(segs[n..])
  {
    var rest := segs[n..];
    forall i | 0 <= i < |rest| ensures WellPlaced(rest, i) {
      assert WellPlaced(segs, i + n);
    }
  }

  /** A path without dots is one name, or the name of an array and its elements. */
  lemma ParseWord(k: string)
    requires '.' !in k
    ensures |k| < 2 || k[|k| - 2..] != "[]" ==> Parse(k) == [Key(k)]
    ensures Parse(k + "[]") == [Key(k), ArrayItem]
  {
    FirstDotNone(k);
    ParseLast(k);
    assert HasArraySuffix(k) ==> k[|k| - 2..] == "[]";
    var part := k + "[]";
    FirstDotNone(part);
    ParseLast(part);
    assert part[..|part| - 2] == k;
  }

  /** A path with dots is its first part followed by the rest. */
  lemma ParseDotted(a: string, b: string)
    requires '.' !in a
    ensures Parse(a + "." + b) == Parse(a) + Parse(b)
  {
    var s := a + "." + b;
    FirstDotAfter(a, b);
    assert s[..|a|] == a && s[|a| + 1..] == b;
    ParseMore(s);
    FirstDotNone(a);
    ParseLast(a);
  }

  // ---- The resolver's incrementally built prefix ----------------------------------------

  function Extend(prefix: string, seg: Segment): (path: string) {
    match seg
    case Key(k) => if prefix == "" then k else prefix + "." + k
    case ArrayItem => if prefix == "" then ARRAY_SUFFIX else prefix + ARRAY_SUFFIX
  }

  function Build(prefix: string, segs: seq<Segment>): (path: string)
    decreases |segs|
  {
    if segs == [] then prefix else Build(Extend(prefix, segs[0]), segs[1..])
  }

  /**
   * The segment lists that survive being built and parsed back: what parsing can produce,
   * except that an empty first name must not be followed by another name (the resolver writes
   * no dot after an empty prefix).
   */
  ghost predicate Faithful(segs: seq<Segment>) {
    Parsed(segs) && !(|segs| > 1 && segs[0] == Key("") && segs[1].Key?)
  }

  lemma Associative(a: string, b: string, c: string)
    ensures a + b + c == a + (b + c)
  {
  }

  lemma ExtendText(prefix: string, seg: Segment)
    requires prefix != ""
    ensures Extend(prefix, seg) == prefix + ((if seg.Key? then "." else "") + SegmentText(seg))
  {
    match seg
    case Key(k) => Associative(prefix, ".", k);
    case ArrayItem => Associative(prefix, "", ARRAY_SUFFIX);
  }

  lemma {:induction false} BuildAfter(prefix: string, segs: seq<Segment>)
    requires prefix != ""
    ensures Build(prefix, segs) == prefix + PrintTail(segs)
    decreases |segs|
  {
    if segs == [] {
    } else {
      var next := Extend(prefix, segs[0]);
      ExtendText(prefix, segs[0]);
      BuildAfter(next, segs[1..]);
      Associative(prefix, next[|prefix|..], PrintTail(segs[1..]));
    }
  }

  /** What the last segment adds to the text: a dot and the name, the name alone at the start, or `[]`. */
  lemma {:induction false} BuildLast(prefix: string, segs: seq<Segment>, seg: Segment)
    ensures var before, path := Build(prefix, segs), Build(prefix, segs + [seg]);
            match seg
            case Key(k) => path == if before == "" then k else before + "." + k
            case ArrayItem => path == before + "[]"
    decreases |segs|
  {
    var more := segs + [seg];
    if segs == [] {
      assert more == [seg] && more[1..] == [];
      assert Build(prefix, more) == Build(Extend(prefix, seg), []);
    } else {
      assert more[0] == segs[0] && more[1..] == segs[1..] + [seg];
      BuildLast(Extend(prefix, segs[0]), segs[1..], seg);
    }
  }

  lemma {:induction false} BuildLength(segs: seq<Segment>)
    ensures |Build("", segs)| <= |Print(segs)|
    decreases |segs|
  {
    if segs == [] {
    } else {
      if Extend("", segs[0]) != "" {
        BuildAfter(Extend("", segs[0]), segs[1..]);
      } else {
        BuildLength(segs[1..]);
      }
    }
  }

  lemma BuildIsPrint(segs: seq<Segment>)
    requires Parsed(segs)
    ensures Build("", segs) == Print(segs) <==> Faithful(segs)
  {
    assert WellPlaced(segs, 0);
    if segs[0].name != "" {
      BuildAfter(segs[0].name, segs[1..]);
    } else if |segs| > 1 {
      if segs[1].Key? {
        BuildLength(segs[1..]);
        assert |Print(segs)| == 1 + |Print(segs[1..])|;
      } else {
        BuildAfter(ARRAY_SUFFIX, segs[2..]);
        assert segs[1..][1..] == segs[2..];
      }
    }
  }

  /** A built path parses back to the segments it was built from exactly when they are faithful. */
  lemma BuildThenParse(segs: seq<Segment>)
    ensures Parse(Build("", segs)) == segs <==> Faithful(segs)
  {
    var path := Build("", segs);
    if Parse(path) == segs {
      ParseIsParsed(path);
      PrintOfParse(path);
      BuildIsPrint(segs);
    }
    if Faithful(segs) {
      BuildIsPrint(segs);
      ParseOfPrint(segs);
    }
  }

  /** Building a parsed list never yields a path outside the faithful ones. */
  lemma {:induction false} BuiltParsedIsFaithful(segs: seq<Segment>)
    requires Parsed(segs)
    ensures Faithful(Parse(Build("", segs)))
    decreases |segs|
  {
    if Faithful(segs) {
      BuildThenParse(segs);
    } else {
      DropParsed(segs, 1);
      BuiltParsedIsFaithful(segs[1..]);
    }
  }

  // ---- Which positions a path means -----------------------------------------------------

  function StepSegment(step: Step): Segment {
    match step
    case Field(k) => Key(k)
    case Index(_) => ArrayItem
  }

  /** The one segment list that matches a position. */
  function SegmentsOf(loc: Location): (segs: seq<Segment>)
    ensures |segs| == |loc|
    ensures forall k :: 0 <= k < |loc| ==> segs[k] == StepSegment(loc[k])
  {
    if loc == [] then [] else [StepSegment(loc[0])] + SegmentsOf(loc[1..])
  }

  /** Some position matches each segment list. */
  function SampleLocation(segs: seq<Segment>): (loc: Location)
    ensures SegmentsOf(loc) == segs
  {
    if segs == [] then []
    else [if segs[0].Key? then Field(segs[0].name) else Index(0)] + SampleLocation(segs[1..])
  }

  function SegmentLists(paths: set<string>): set<seq<Segment>> {
    set p | p in paths :: Parse(p)
  }
}

/** Loading schema objects from S3, and the cache that requests read. */
module SchemaCaching {
  import opened Prelude
  import opened Resolver

  // ---- Schema names -----------------------------------------------------------------------

  const EXTENSIONS: seq<string> := [".yaml", ".yml", ".json"]

  /** `s` is `stem` with one of the three known extensions. */
  ghost predicate Extended(s: string, stem: string) {
    s == stem + ".yaml" || s == stem + ".yml" || s == stem + ".json"
  }

  /** `name` is the object key without the configured prefix and without one known extension. */
  ghost predicate IsSchemaName(key: string, prefix: string, name: string) {
    var rest := if |prefix| <= |key| && key[..|prefix|] == prefix then key[|prefix|..] else key;
    Extended(rest, name) || (rest == name && forall stem :: !Extended(rest, stem))
  }

  function StripExtension(s: string, from: nat): string
    requires from <= |EXTENSIONS|
    decreases |EXTENSIONS| - from
  {
    if from == |EXTENSIONS| then s
    else if EndsWith(s, EXTENSIONS[from]) then s[..|s| - |EXTENSIONS[from]|]
    else StripExtension(s, from + 1)
  }

  function SchemaName(key: string, prefix: string): (name: string) {
    StripExtension(if StartsWith(key, prefix) then key[|prefix|..] else key, 0)
  }

  method SchemaNameFromKey(key: string, prefix: string) returns (name: string)
    ensures name == SchemaName(key, prefix) && IsSchemaName(key, prefix, name)
  {
    SchemaNameMeaning(key, prefix, SchemaName(key, prefix));
    var rest := if StartsWith(key, prefix) then key[|prefix|..] else key;
    for e := 0 to |EXTENSIONS|
      invariant StripExtension(rest, e) == SchemaName(key, prefix)
    {
      if EndsWith(rest, EXTENSIONS[e]) {
        return rest[..|rest| - |EXTENSIONS[e]|];
      }
    }
    return rest;
  }

  lemma NoTwoExtensions(s: string, e: nat, f: nat)
    requires e < |EXTENSIONS| && f < |EXTENSIONS|
    requires EndsWith(s, EXTENSIONS[e]) && EndsWith(s, EXTENSIONS[f])
    ensures e == f
  {
    assert s[|s| - |EXTENSIONS[e]|..][0] == '.' && s[|s| - |EXTENSIONS[f]|..][0] == '.';
    assert s[|s| - 2] == EXTENSIONS[e][|EXTENSIONS[e]| - 2] == EXTENSIONS[f][|EXTENSIONS[f]| - 2];
    assert s[|s| - 4] == EXTENSIONS[e][|EXTENSIONS[e]| - 4] == EXTENSIONS[f][|EXTENSIONS[f]| - 4];
  }

  lemma NameEndsWith(name: string, ext: string)
    ensures EndsWith(name + ext, ext) && (name + ext)[..|name|] == name
  {
  }

  lemma SplitEnd(s: string, ext: string)
    requires EndsWith(s, ext)
    ensures s == s[..|s| - |ext|] + ext
  {
  }

  lemma {:induction false} StripMeaning(s: string, from: nat)
    requires from <= |EXTENSIONS|
    ensures var t := StripExtension(s, from);
            || (exists e :: from <= e < |EXTENSIONS| && s == t + EXTENSIONS[e])
            || (s == t && forall e :: from <= e < |EXTENSIONS| ==> !EndsWith(s, EXTENSIONS[e]))
    decreases |EXTENSIONS| - from
  {
    if from == |EXTENSIONS| {
    } else {
      if EndsWith(s, EXTENSIONS[from]) {
        SplitEnd(s, EXTENSIONS[from]);
      } else {
        StripMeaning(s, from + 1);
      }
    }
  }

  lemma ExtendedByList(s: string, stem: string)
    ensures Extended(s, stem) <==> exists e :: 0 <= e < |EXTENSIONS| && s == stem + EXTENSIONS[e]
  {
    assert EXTENSIONS[0] == ".yaml" && EXTENSIONS[1] == ".yml" && EXTENSIONS[2] == ".json";
  }

  lemma StemUnique(s: string, a: string, b: string)
    requires Extended(s, a) && Extended(s, b)
    ensures a == b
  {
    ExtendedByList(s, a);
    ExtendedByList(s, b);
    var e :| 0 <= e < |EXTENSIONS| && s == a + EXTENSIONS[e];
    var f :| 0 <= f < |EXTENSIONS| && s == b + EXTENSIONS[f];
    NameEndsWith(a, EXTENSIONS[e]);
    NameEndsWith(b, EXTENSIONS[f]);
    NoTwoExtensions(s, e, f);
  }

  lemma StripsExtension(s: string)
    ensures var t := StripExtension(s, 0); Extended(s, t) || (s == t && forall stem :: !Extended(s, stem))
  {
    var t := StripExtension(s, 0);
    StripMeaning(s, 0);
    ExtendedByList(s, t);
    if !Extended(s, t) {
      forall stem ensures !Extended(s, stem) {
        ExtendedByList(s, stem);
        forall e | 0 <= e < |EXTENSIONS| ensures s != stem + EXTENSIONS[e] {
          NameEndsWith(stem, EXTENSIONS[e]);
        }
      }
    }
  }

  /** The code computes the one name that the key has. */
  lemma SchemaNameMeaning(key: string, prefix: string, name: string)
    ensures IsSchemaName(key, prefix, name) <==> name == SchemaName(key, prefix)
  {
    var rest := if |prefix| <= |key| && key[..|prefix|] == prefix then key[|prefix|..] else key;
    assert SchemaName(key, prefix) == StripExtension(rest, 0);
    StripsExtension(rest);
    if Extended(rest, name) && Extended(rest, SchemaName(key, prefix)) {
      StemUnique(rest, name, SchemaName(key, prefix));
    }
  }

  /** Each extension is dropped, together with the prefix. */
  lemma NamesOfListedKeys(prefix: string, stem: string)
    ensures SchemaName(prefix + stem + ".yaml", prefix) == stem
    ensures SchemaName(prefix + stem + ".yml", prefix) == stem
    ensures SchemaName(prefix + stem + ".json", prefix) == stem
  {
    NameOfListedKey(prefix, stem, ".yaml");
    NameOfListedKey(prefix, stem, ".yml");
    NameOfListedKey(prefix, stem, ".json");
  }

  lemma NameOfListedKey(prefix: string, stem: string, ext: string)
    requires Extended(stem + ext, stem)
    ensures SchemaName(prefix + stem + ext, prefix) == stem
  {
    var key := prefix + stem + ext;
    assert key[..|prefix|] == prefix && key[|prefix|..] == stem + ext;
    SchemaNameMeaning(key, prefix, stem);
  }

  /** A key without the prefix and without a known extension is its own name. */
  lemma NameOfOtherKey(key: string, prefix: string)
    requires |key| < |prefix| || key[..|prefix|] != prefix
    requires |key| < 5 || key[|key| - 5..] != ".yaml"
    requires |key| < 4 || key[|key| - 4..] != ".yml"
    requires |key| < 5 || key[|key| - 5..] != ".json"
    ensures SchemaName(key, prefix) == key
  {
    forall stem ensures !Extended(key, stem) {
      assert (stem + ".yaml")[|stem|..] == ".yaml";
      assert (stem + ".yml")[|stem|..] == ".yml";
      assert (stem + ".json")[|stem|..] == ".json";
    }
    SchemaNameMeaning(key, prefix, key);
  }

  // ---- Collecting the listed objects ------------------------------------------------------

  /** A listed object: its key, if it has one, and what fetching and parsing it gave. */
  datatype S3Object = S3Object(key: Option<string>, parsed: Option<Document>)

  predicate HasName(o: S3Object, prefix: string, name: string) {
    o.key.Some? && SchemaName(o.key.value, prefix) == name
  }

  /** The accumulated schemas after the given objects, or `None` once one has failed. */
  function Collect(objects: seq<S3Object>, prefix: string): (r: Option<map<string, Document>>)
    decreases |objects|
  {
    if objects == [] then Some(map[])
    else
      var last := objects[|objects| - 1];
      match (Collect(objects[..|objects| - 1], prefix), last.key)
      case (None, _) => None
      case (Some(schemas), None) => Some(schemas)
      case (Some(schemas), Some(key)) =>
        if last.parsed.None? then None else Some(schemas[SchemaName(key, prefix) := last.parsed.value])
  }

  /** `objects[i]` is the last listed object that derives `name`. */
  ghost predicate LastNamed(objects: seq<S3Object>, prefix: string, name: string, i: nat) {
    && i < |objects| && HasName(objects[i], prefix, name)
    && forall j :: i < j < |objects| ==> !HasName(objects[j], prefix, name)
  }

  /** Loading succeeds exactly when every object that has a key can be fetched and parsed. */
  lemma {:induction false} CollectSucceeds(objects: seq<S3Object>, prefix: string)
    ensures Collect(objects, prefix).Some? <==>
              forall i :: 0 <= i < |objects| && objects[i].key.Some? ==> objects[i].parsed.Some?
    decreases |objects|
  {
    if objects == [] {
    } else {
      var n := |objects| - 1;
      CollectSucceeds(objects[..n], prefix);
      assert forall i :: 0 <= i < n ==> objects[..n][i] == objects[i];
    }
  }

  lemma LastNamedStep(objects: seq<S3Object>, prefix: string, name: string)
    requires objects != []
    ensures var n := |objects| - 1;
            forall i: nat :: LastNamed(objects, prefix, name, i) <==>
              if HasName(objects[n], prefix, name) then i == n else LastNamed(objects[..n], prefix, name, i)
  {
    var n := |objects| - 1;
    assert forall i :: 0 <= i < n ==> objects[..n][i] == objects[i];
  }

  /** The last object decides the entry of its own name and leaves the others. */
  lemma CollectStep(objects: seq<S3Object>, prefix: string, name: string)
    requires objects != [] && Collect(objects, prefix).Some?
    ensures var n := |objects| - 1;
            var was, now := Collect(objects[..n], prefix), Collect(objects, prefix).value;
            && was.Some?
            && if HasName(objects[n], prefix, name)
               then name in now && Some(now[name]) == objects[n].parsed
               else (name in now <==> name in was.value) && (name in now ==> now[name] == was.value[name])
  {
  }

  /** Then each name derived from some key maps to the last listed object deriving it. */
  lemma {:induction false} CollectMeaning(objects: seq<S3Object>, prefix: string, name: string)
    requires Collect(objects, prefix).Some?
    ensures name in Collect(objects, prefix).value <==> exists i: nat :: LastNamed(objects, prefix, name, i)
    ensures forall i: nat :: LastNamed(objects, prefix, name, i) ==>
              name in Collect(objects, prefix).value && Some(Collect(objects, prefix).value[name]) == objects[i].parsed
    decreases |objects|
  {
    if objects == [] {
    } else {
      var n := |objects| - 1;
      CollectStep(objects, prefix, name);
      CollectMeaning(objects[..n], prefix, name);
      LastNamedStep(objects, prefix, name);
      if HasName(objects[n], prefix, name) {
        assert LastNamed(objects, prefix, name, n);
      } else {
        assert forall i: nat :: LastNamed(objects, prefix, name, i) ==> objects[..n][i] == objects[i];
      }
    }
  }

  // ---- The cache ---------------------------------------------------------------------------

  datatype CachedSchema = CachedSchema(api: Document, piiPaths: set<string>)

  datatype CacheError = UnknownSchema(name: string)

  ghost predicate AllAcyclic(schemas: map<string, Document>) {
    forall name :: name in schemas ==> Acyclic(schemas[name])
  }

  /** What the cache holds after installing `schemas`: each document with its own PII paths. */
  ghost function CacheOf(schemas: map<string, Document>): (entries: map<string, CachedSchema>)
    requires AllAcyclic(schemas)
  {
    map name | name in schemas :: CachedSchema(schemas[name], PiiPaths(schemas[name]))
  }

  /** Every cached path set is what resolving that entry's document again would give. */
  ghost predicate Consistent(entries: map<string, CachedSchema>) {
    forall name :: name in entries ==> IsPathSetOf(entries[name].api, entries[name].piiPaths)
  }

  /**
   * What a lookup finds after a load: a schema exactly for the names that some listed key derives,
   * and then the document last listed under that name, with the paths that document flags.
   */
  lemma LookupAfterLoad(objects: seq<S3Object>, prefix: string, name: string)
    requires Collect(objects, prefix).Some? && AllAcyclic(Collect(objects, prefix).value)
    ensures var entries := CacheOf(Collect(objects, prefix).value);
            && (name in entries <==> exists i: nat :: LastNamed(objects, prefix, name, i))
            && forall i: nat :: LastNamed(objects, prefix, name, i) ==>
                 && name in entries && objects[i].parsed == Some(entries[name].api)
                 && IsPathSetOf(entries[name].api, entries[name].piiPaths)
  {
    CollectMeaning(objects, prefix, name);
  }

  class SchemaCache {
    var inner: map<string, CachedSchema>

    constructor ()
      ensures inner == map[]
    {
      inner := map[];
    }

    method Len() returns (n: nat)
      ensures n == |inner|
    {
      n := |inner|;
    }

    method Get(name: string) returns (r: Result<CachedSchema, CacheError>)
      ensures r.Ok? <==> name in inner
      ensures r.Ok? ==> r.value == inner[name]
      ensures r.Ok? && Consistent(inner) ==> IsPathSetOf(r.value.api, r.value.piiPaths)
      ensures r.Err? ==> r.error == UnknownSchema(name)
    {
      r := if name in inner then Ok(inner[name]) else Err(UnknownSchema(name));
    }

    /** Replaces the whole map by the given documents with their PII paths. */
    method ReplaceAll(schemas: map<string, Document>)
      requires AllAcyclic(schemas)
      modifies this
      ensures inner == CacheOf(schemas) && Consistent(inner)
    {
      var newMap: map<string, CachedSchema> := map[];
      var todo := schemas.Keys;
      while todo != {}
        invariant todo <= schemas.Keys
        invariant newMap.Keys == schemas.Keys - todo
        invariant forall name :: name in newMap ==> newMap[name] == CachedSchema(schemas[name], PiiPaths(schemas[name]))
      {
        var name :| name in todo;
        var paths := ResolvePiiPaths(schemas[name]);
        newMap := newMap[name := CachedSchema(schemas[name], paths)];
        todo := todo - {name};
      }
      inner := newMap;
    }
  }

  /**
   * Loads every listed object and replaces the cache, or fails and leaves it untouched.
   * `listing` is the outcome of listing the bucket.
   */
  method LoadAll(listing: Option<seq<S3Object>>, prefix: string, cache: SchemaCache) returns (ok: bool)
    requires listing.Some? && Collect(listing.value, prefix).Some? ==> AllAcyclic(Collect(listing.value, prefix).value)
    modifies cache
    ensures ok <==> listing.Some? && Collect(listing.value, prefix).Some?
    ensures ok ==> cache.inner == CacheOf(Collect(listing.value, prefix).value) && Consistent(cache.inner)
    ensures !ok ==> cache.inner == old(cache.inner)
  {
    if listing.None? {
      return false;
    }
    var objects := listing.value;
    var schemas: map<string, Document> := map[];
    for i := 0 to |objects|
      invariant Collect(objects[..i], prefix) == Some(schemas)
      invariant cache.inner == old(cache.inner)
    {
      assert objects[..i + 1][..i] == objects[..i];
      if objects[i].key.Some? {
        var name := SchemaNameFromKey(objects[i].key.value, prefix);
        if objects[i].parsed.None? {
          CollectSucceeds(objects, prefix);
          return false;
        }
        schemas := schemas[name := objects[i].parsed.value];
      }
    }
    assert objects[..|objects|] == objects;
    cache.ReplaceAll(schemas);
    return true;
  }
}

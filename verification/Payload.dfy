/** What encrypting and decrypting a whole payload guarantee. */
module Payload {
  import opened Prelude
  import opened JsonTree
  import opened Paths
  import opened Cipher
  import opened Transform

  function Sealer(suite: Suite, dek: Bytes): LeafOp {
    s => SealLeaf(suite, dek, s)
  }

  function Opener(suite: Suite, dek: Bytes): LeafOp {
    s => OpenLeaf(suite, dek, s)
  }

  /** Opening undoes sealing under one key, even when the plaintext starts with `v1.`. */
  lemma SealerUndone(suite: Suite, dek: Bytes)
    ensures Undoes(Opener(suite, dek), Sealer(suite, dek))
  {
    forall s | SealLeaf(suite, dek, s).Ok?
      ensures OpenLeaf(suite, dek, SealLeaf(suite, dek, s).value) == Ok(s)
    {
      TokenOpens(suite, dek, s);
    }
  }

  /** Encrypting fails only for a wrong key length or an oversized leaf. */
  lemma EncryptSucceeds(suite: Suite, dek: Bytes, v: Json, order: seq<string>, paths: set<string>)
    requires Enumerates(order, paths) && |dek| == 32
    requires forall loc, s :: Hits(v, SegmentLists(paths), loc, s) ==> |Utf8.Encode(s)| <= 0x10_0000_0000
    ensures RewriteAll(v, order, Sealer(suite, dek)).Ok?
  {
    RewriteAllMeaning(v, order, paths, Sealer(suite, dek));
    forall loc, s | Hits(v, SegmentLists(paths), loc, s) ensures Sealer(suite, dek)(s).Ok? {
      assert EncryptField(suite, Utf8.Encode(s), dek).Ok?;
    }
  }

  /** `t` is a token for `s`: different from it, and opening to it. */
  ghost predicate IsToken(suite: Suite, dek: Bytes, s: string, t: string) {
    SealLeaf(suite, dek, s) == Ok(t) && t != s && OpenLeaf(suite, dek, t) == Ok(s)
  }

  /** At `loc`, a string of `v` that was chosen is its token in `w`; anything else is as it was. */
  ghost predicate SealedAt(suite: Suite, dek: Bytes, v: Json, w: Json, loc: Location, chosen: bool) {
    match LabelAt(v, loc)
    case Some(StrLabel(s)) =>
      if chosen
      then LabelAt(w, loc).Some? && LabelAt(w, loc).value.StrLabel? && IsToken(suite, dek, s, LabelAt(w, loc).value.s)
      else LabelAt(w, loc) == Some(StrLabel(s))
    case other => LabelAt(w, loc) == other
  }

  /** Encrypting replaces each selected string leaf by its token, and changes nothing else. */
  lemma EncryptMeaning(suite: Suite, dek: Bytes, v: Json, order: seq<string>, paths: set<string>)
    requires Enumerates(order, paths) && RewriteAll(v, order, Sealer(suite, dek)).Ok?
    ensures var w := RewriteAll(v, order, Sealer(suite, dek)).value;
            forall loc :: SealedAt(suite, dek, v, w, loc, Selected(paths, loc))
  {
    var op := Sealer(suite, dek);
    RewriteAllMeaning(v, order, paths, op);
    var w := RewriteAll(v, order, op).value;
    forall loc ensures SealedAt(suite, dek, v, w, loc, Selected(paths, loc)) {
      assert LabelAt(w, loc) == Expected(v, op, SegmentLists(paths), loc);
      if LabelAt(v, loc).Some? && LabelAt(v, loc).value.StrLabel? && Selected(paths, loc) {
        var s := LabelAt(v, loc).value.s;
        SealedLabel(op, v, order, paths, loc, s);
        TokenOpens(suite, dek, s);
      }
    }
  }

  /**
   * Decrypting is all or nothing: it succeeds exactly when every selected string that starts
   * with `v1.` is the text of a field that authenticates and holds valid UTF-8. Then those
   * strings are replaced by what they hold, and nothing else changes.
   */
  lemma DecryptMeaning(suite: Suite, dek: Bytes, v: Json, order: seq<string>, paths: set<string>)
    requires Enumerates(order, paths)
    ensures RewriteAll(v, order, Opener(suite, dek)).Ok? <==>
              forall loc, s :: Hits(v, SegmentLists(paths), loc, s) && LooksLikeToken(s) ==>
                Openable(suite, dek, s)
    ensures RewriteAll(v, order, Opener(suite, dek)).Ok? ==>
              Image(v, RewriteAll(v, order, Opener(suite, dek)).value, Opener(suite, dek), SegmentLists(paths))
  {
    var op := Opener(suite, dek);
    var lists := SegmentLists(paths);
    RewriteAllMeaning(v, order, paths, op);
    forall loc, s | Hits(v, lists, loc, s)
      ensures op(s).Ok? <==> (LooksLikeToken(s) ==> Openable(suite, dek, s))
    {
      OpenableIff(suite, dek, s);
    }
  }

  /** A plaintext that only looks like a token makes the whole request fail, whatever the key. */
  lemma PlaintextWithPrefixFails(suite: Suite, dek: Bytes)
    ensures RewriteAll(Obj(map["ssn" := Str("v1.")]), ["ssn"], Opener(suite, dek)) == Err(InvalidFormat)
  {
    BarePrefixFails(suite, dek);
    assert Parse("ssn") == [Key("ssn")];
    assert [Key("ssn")][1..] == [];
  }

  /** `s` is a field's text, the field authenticates under `dek`, and its plaintext is UTF-8. */
  ghost predicate Openable(suite: Suite, dek: Bytes, s: string) {
    && |dek| == 32
    && exists f: EncryptedField, t: string ::
         ToStringRepr(f) == s && suite.open(dek, f.nonce, f.ciphertext) == Some(Utf8.Encode(t))
  }

  lemma OpenableIff(suite: Suite, dek: Bytes, s: string)
    ensures OpenLeaf(suite, dek, s).Ok? <==> (LooksLikeToken(s) ==> Openable(suite, dek, s))
  {
    if LooksLikeToken(s) {
      if OpenLeaf(suite, dek, s).Ok? {
        OpenLeafSucceeds(suite, dek, s, OpenLeaf(suite, dek, s).value);
      }
      if Openable(suite, dek, s) {
        var f: EncryptedField, t: string :|
          ToStringRepr(f) == s && suite.open(dek, f.nonce, f.ciphertext) == Some(Utf8.Encode(t));
        OpenLeafSucceeds(suite, dek, s, t);
      }
    }
  }

  /**
   * Encrypted with one set of paths and decrypted with another, under one key. Decryption
   * succeeds exactly when the leaves selected only the second time can be opened. Leaves
   * selected both times are restored, those selected only the first time stay tokens, those
   * selected only the second time are opened, and everything else is as it was.
   */
  lemma ChangedSchema(suite: Suite, dek: Bytes, v: Json,
                      before: seq<string>, was: set<string>, after: seq<string>, now: set<string>)
    requires Enumerates(before, was) && Enumerates(after, now)
    requires RewriteAll(v, before, Sealer(suite, dek)).Ok?
    ensures var w := RewriteAll(v, before, Sealer(suite, dek)).value;
            var r := RewriteAll(w, after, Opener(suite, dek));
            && (r.Ok? <==> forall loc, s :: Hits(v, SegmentLists(now), loc, s) && !Selected(was, loc)
                                            ==> Opener(suite, dek)(s).Ok?)
            && (r.Ok? ==> forall loc ::
                  LabelAt(r.value, loc) == AfterChange(Sealer(suite, dek), Opener(suite, dek), v, was, now, loc))
  {
    SealerUndone(suite, dek);
    ChangedPaths(Sealer(suite, dek), Opener(suite, dek), v, before, was, after, now);
  }

  /**
   * In particular, when no leaf that only the new paths select looks like a token, decrypting
   * succeeds, and changes only the leaves that both selections have in common.
   */
  lemma GrownSchema(suite: Suite, dek: Bytes, v: Json,
                    before: seq<string>, was: set<string>, after: seq<string>, now: set<string>)
    requires Enumerates(before, was) && Enumerates(after, now)
    requires RewriteAll(v, before, Sealer(suite, dek)).Ok?
    requires forall loc, s :: Hits(v, SegmentLists(now), loc, s) && !Selected(was, loc) ==> !LooksLikeToken(s)
    ensures var w := RewriteAll(v, before, Sealer(suite, dek)).value;
            var r := RewriteAll(w, after, Opener(suite, dek));
            r.Ok? && forall loc :: LabelAt(r.value, loc) == if Selected(now, loc) then LabelAt(v, loc) else LabelAt(w, loc)
  {
    ChangedSchema(suite, dek, v, before, was, after, now);
    RewriteAllMeaning(v, before, was, Sealer(suite, dek));
    var w := RewriteAll(v, before, Sealer(suite, dek)).value;
    forall loc, s | Hits(v, SegmentLists(now), loc, s) && !Selected(was, loc) ensures Opener(suite, dek)(s) == Ok(s) {
    }
    var r := RewriteAll(w, after, Opener(suite, dek));
    forall loc ensures LabelAt(r.value, loc) == if Selected(now, loc) then LabelAt(v, loc) else LabelAt(w, loc) {
      assert LabelAt(w, loc) == Expected(v, Sealer(suite, dek), SegmentLists(was), loc);
      assert LabelAt(r.value, loc) == AfterChange(Sealer(suite, dek), Opener(suite, dek), v, was, now, loc);
      if LabelAt(v, loc).Some? && LabelAt(v, loc).value.StrLabel? && Selected(now, loc) {
        assert Hits(v, SegmentLists(now), loc, LabelAt(v, loc).value.s);
      }
    }
  }

  /** Decrypting what encrypting returned gives the payload back, whatever order either takes. */
  lemma RoundTrip(suite: Suite, dek: Bytes, v: Json, one: seq<string>, two: seq<string>, paths: set<string>)
    requires Enumerates(one, paths) && Enumerates(two, paths)
    requires RewriteAll(v, one, Sealer(suite, dek)).Ok?
    ensures RewriteAll(RewriteAll(v, one, Sealer(suite, dek)).value, two, Opener(suite, dek)) == Ok(v)
  {
    SealerUndone(suite, dek);
    SealThenOpen(Sealer(suite, dek), Opener(suite, dek), v, one, two, paths);
  }

  /**
   * Tokenisation across payloads: under one key, two encrypted leaves, of the same payload or
   * of two payloads with different schemas, are equal exactly when the originals were.
   */
  lemma TokensMatchPlaintexts(suite: Suite, dek: Bytes,
                              v: Json, one: seq<string>, paths: set<string>, at: Location, s: string,
                              w: Json, two: seq<string>, others: set<string>, there: Location, t: string)
    requires Enumerates(one, paths) && Enumerates(two, others)
    requires RewriteAll(v, one, Sealer(suite, dek)).Ok? && RewriteAll(w, two, Sealer(suite, dek)).Ok?
    requires Hits(v, SegmentLists(paths), at, s) && Hits(w, SegmentLists(others), there, t)
    ensures var x, y := RewriteAll(v, one, Sealer(suite, dek)).value, RewriteAll(w, two, Sealer(suite, dek)).value;
            LabelAt(x, at) == LabelAt(y, there) <==> s == t
  {
    SealerUndone(suite, dek);
    SealedLeavesMatch(Sealer(suite, dek), Opener(suite, dek), v, one, paths, at, s, w, two, others, there, t);
  }
}

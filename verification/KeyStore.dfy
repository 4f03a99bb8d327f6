/**
 * The key store on the heap: every copy of the key owns its own buffer, and dropping a copy
 * zeroes that buffer and no other.
 */
module KeyStore {
  import opened Prelude
  import opened Cipher

  datatype DekError = NotInitialised | InvalidLength(length: nat)

  /** A boxed key; the buffer is owned by this object alone. */
  class DekBytes {
    const buf: array<Byte>

    constructor (key: Bytes)
      requires |key| == 32
      ensures fresh(buf) && buf[..] == key
    {
      buf := new Byte[KEY_LEN](i requires 0 <= i < |key| => key[i]);
    }

    method Clone() returns (copy: DekBytes)
      requires buf.Length == 32
      ensures fresh(copy) && fresh(copy.buf) && copy.buf[..] == buf[..]
    {
      copy := new DekBytes(buf[..]);
    }

    /** Overwrites the key material with zeroes. */
    method Drop()
      modifies buf
      ensures buf[..] == Zeros(buf.Length)
    {
      for i := 0 to buf.Length
        invariant forall j :: 0 <= j < i ==> buf[j] == 0
      {
        buf[i] := 0;
      }
    }
  }

  class DekStore {
    var inner: DekBytes?

    ghost predicate Valid()
      reads this
    {
      inner != null ==> inner.buf.Length == KEY_LEN
    }

    /** The stored key. */
    ghost function Key(): (k: Option<Bytes>)
      reads this, if inner == null then {} else {inner.buf}
    {
      if inner == null then None else Some(inner.buf[..])
    }

    constructor ()
      ensures Valid() && Key() == None
    {
      inner := null;
    }

    method IsReady() returns (ready: bool)
      ensures ready <==> Key().Some?
    {
      ready := inner != null;
    }

    /** Installs a key of the right length in a new buffer; the replaced key is zeroed. */
    method Store(key: Bytes) returns (r: Result<(), DekError>)
      requires Valid()
      modifies this, if inner == null then {} else {inner.buf}
      ensures Valid()
      ensures r == if |key| == 32 then Ok(()) else Err(InvalidLength(|key|))
      ensures r.Ok? ==> Key() == Some(key) && fresh(inner) && fresh(inner.buf)
      ensures r.Ok? && old(inner) != null ==> old(inner).buf[..] == Zeros(32)
      ensures r.Err? ==> inner == old(inner) && Key() == old(Key())
    {
      if |key| != KEY_LEN {
        return Err(InvalidLength(|key|));
      }
      var replaced := inner;
      inner := new DekBytes(key);
      if replaced != null {
        replaced.Drop();
      }
      return Ok(());
    }

    /** A copy of the key, in a buffer that nothing else refers to. */
    method Current() returns (r: Result<DekBytes, DekError>)
      requires Valid()
      ensures Key().None? ==> r == Err(NotInitialised)
      ensures Key().Some? ==> r.Ok? && fresh(r.value) && fresh(r.value.buf) && Some(r.value.buf[..]) == Key()
      ensures r.Ok? ==> r.value.buf.Length == 32
    {
      if inner == null {
        return Err(NotInitialised);
      }
      var copy := inner.Clone();
      assert |copy.buf[..]| == KEY_LEN;
      return Ok(copy);
    }
  }

  // ---- Any interleaving of stores, reads and drops ----------------------------------------

  /** One atomic access to the store, or the end of one copy's life. */
  datatype Access = StoreKey(key: Bytes) | Take(id: nat) | Release(id: nat)

  /** The keys as values: the stored one, and those held by requests. */
  datatype Keys = Keys(current: Option<Bytes>, held: map<nat, Bytes>)

  function AfterAccess(k: Keys, a: Access): Keys {
    match a
    case StoreKey(key) => if |key| == KEY_LEN then k.(current := Some(key)) else k
    case Take(id) => if k.current.Some? && id !in k.held then k.(held := k.held[id := k.current.value]) else k
    case Release(id) => k.(held := k.held - {id})
  }

  function AfterAll(k: Keys, accesses: seq<Access>): Keys
    decreases |accesses|
  {
    if accesses == [] then k else AfterAll(AfterAccess(k, accesses[0]), accesses[1..])
  }

  /** A key that a request holds stays what it was until that request lets go of it. */
  lemma {:induction false} HeldKeySurvives(k: Keys, accesses: seq<Access>, id: nat)
    requires id in k.held && Release(id) !in accesses
    ensures var after := AfterAll(k, accesses); id in after.held && after.held[id] == k.held[id]
    decreases |accesses|
  {
    if accesses == [] {
    } else {
      HeldKeySurvives(AfterAccess(k, accesses[0]), accesses[1..], id);
    }
  }

  lemma {:induction false} AfterAppend(k: Keys, first: seq<Access>, second: seq<Access>)
    ensures AfterAll(k, first + second) == AfterAll(AfterAll(k, first), second)
    decreases |first|
  {
    if first == [] {
      assert first + second == second;
    } else {
      assert (first + second)[0] == first[0] && (first + second)[1..] == first[1..] + second;
      AfterAppend(AfterAccess(k, first[0]), first[1..], second);
    }
  }

  /** A store that replaces the key. */
  predicate Replaces(a: Access) {
    a.StoreKey? && |a.key| == 32
  }

  lemma {:induction false} CurrentStays(k: Keys, accesses: seq<Access>)
    requires forall a :: a in accesses ==> !Replaces(a)
    ensures AfterAll(k, accesses).current == k.current
    decreases |accesses|
  {
    if accesses == [] {
    } else {
      assert !Replaces(accesses[0]);
      CurrentStays(AfterAccess(k, accesses[0]), accesses[1..]);
    }
  }

  /** What a request takes is the key last stored, and it holds that until it lets go. */
  lemma HeldIsLastStored(k: Keys, key: Bytes, between: seq<Access>, id: nat, after: seq<Access>)
    requires |key| == 32 && Release(id) !in after
    requires forall a :: a in between ==> !Replaces(a)
    requires id !in AfterAll(k, [StoreKey(key)] + between).held
    ensures var now := AfterAll(k, [StoreKey(key)] + between + ([Take(id)] + after)); id in now.held && now.held[id] == key
  {
    var first, second := [StoreKey(key)] + between, [Take(id)] + after;
    AfterAppend(k, first, second);
    assert first[1..] == between && second[1..] == after;
    CurrentStays(AfterAccess(k, StoreKey(key)), between);
    HeldKeySurvives(AfterAccess(AfterAll(k, first), Take(id)), after, id);
  }

  lemma {:induction false} NotTaken(k: Keys, id: nat, accesses: seq<Access>)
    requires id !in k.held && Take(id) !in accesses
    ensures id !in AfterAll(k, accesses).held
    decreases |accesses|
  {
    if accesses == [] {
    } else {
      NotTaken(AfterAccess(k, accesses[0]), id, accesses[1..]);
    }
  }

  /** What a request has let go of it does not hold again without taking a copy. */
  lemma ReleasedStaysReleased(k: Keys, id: nat, after: seq<Access>)
    requires Take(id) !in after
    ensures id !in AfterAll(AfterAccess(k, Release(id)), after).held
  {
    NotTaken(AfterAccess(k, Release(id)), id, after);
  }

  /** A key once stored is never lost: a store of the wrong length changes nothing. */
  lemma {:induction false} ReadyForever(k: Keys, accesses: seq<Access>)
    requires k.current.Some? && |k.current.value| == 32
    ensures var after := AfterAll(k, accesses); after.current.Some? && |after.current.value| == 32
    decreases |accesses|
  {
    if accesses == [] {
    } else {
      ReadyForever(AfterAccess(k, accesses[0]), accesses[1..]);
    }
  }

  ghost function Buffers(copies: map<nat, DekBytes>): set<array<Byte>> {
    set id | id in copies :: copies[id].buf
  }

  ghost predicate Unshared(copies: map<nat, DekBytes>) {
    forall id, other :: id in copies && other in copies && id != other ==> copies[id].buf != copies[other].buf
  }

  lemma AddCopy(copies: map<nat, DekBytes>, id: nat, copy: DekBytes)
    requires Unshared(copies) && id !in copies && copy.buf !in Buffers(copies)
    ensures Unshared(copies[id := copy]) && Buffers(copies[id := copy]) == Buffers(copies) + {copy.buf}
  {
    var more := copies[id := copy];
    forall b ensures b in Buffers(more) <==> b in Buffers(copies) || b == copy.buf {
      if b == copy.buf {
        assert more[id].buf == b;
      }
      if i :| i in copies && copies[i].buf == b {
        assert more[i].buf == b;
      }
    }
  }

  lemma RemoveCopy(copies: map<nat, DekBytes>, id: nat)
    requires Unshared(copies) && id in copies
    ensures Unshared(copies - {id}) && Buffers(copies - {id}) == Buffers(copies) - {copies[id].buf}
  {
    forall i | i in copies && i != id ensures copies[i].buf in Buffers(copies - {id}) {
      assert (copies - {id})[i].buf == copies[i].buf;
    }
  }

  /** The store and the copies handed out of it. */
  class Vault {
    const store: DekStore
    var copies: map<nat, DekBytes>
    /** The buffers that were stored or handed out and have been let go. */
    ghost var retired: set<array<Byte>>

    ghost function Stored(): set<array<Byte>>
      reads this, store
    {
      if store.inner == null then {} else {store.inner.buf}
    }

    ghost function Held(): set<array<Byte>>
      reads this
    {
      Buffers(copies)
    }

    /** No buffer is shared: not between two copies, and not between a copy and the store. */
    ghost predicate Valid()
      reads this, store
    {
      && store.Valid()
      && (forall id :: id in copies ==> copies[id].buf.Length == KEY_LEN)
      && Unshared(copies)
      && Stored() !! Held()
      && retired !! Stored() && retired !! Held()
    }

    /** No key material is left in a buffer that was let go. */
    ghost predicate Erased()
      reads this, retired
    {
      forall b :: b in retired ==> b[..] == Zeros(b.Length)
    }

    /** Every buffer that has ever been stored or handed out. */
    ghost function Issued(): set<array<Byte>>
      reads this, store
    {
      Stored() + Held() + retired
    }

    ghost function Contents(): Keys
      reads this, store, Stored(), Held()
    {
      Keys(store.Key(), map id | id in copies :: copies[id].buf[..])
    }

    constructor ()
      ensures Valid() && Erased() && fresh(store) && Contents() == Keys(None, map[])
    {
      store := new DekStore();
      copies, retired := map[], {};
    }

    /** Storing leaves every copy alone and zeroes the key it replaces. */
    method StoreNew(key: Bytes)
      requires Valid() && Erased()
      modifies this`retired, store, Stored()
      ensures Valid() && Erased() && Contents() == AfterAccess(old(Contents()), StoreKey(key))
      ensures old(Issued()) <= Issued()
      ensures fresh(Stored() - old(Stored())) && Held() == old(Held())
      ensures |key| == 32 && old(store.inner) != null ==> old(store.inner).buf[..] == Zeros(32)
    {
      var r := store.Store(key);
      retired := retired + (old(Stored()) - Stored());
      assert Contents().held == old(Contents()).held;
    }

    /** Reading hands out a copy in a buffer of its own; a copy that is not kept is dropped. */
    method TakeCopy(id: nat)
      requires Valid() && Erased()
      modifies this
      ensures Valid() && Erased() && Contents() == AfterAccess(old(Contents()), Take(id))
      ensures old(Issued()) <= Issued()
      ensures Stored() == old(Stored()) && fresh(Held() - old(Held()))
    {
      var r := store.Current();
      assert Contents() == old(Contents());
      if r.Ok? {
        if id in copies {
          Discard(r.value);
        } else {
          Keep(id, r.value);
        }
      }
    }

    method Keep(id: nat, copy: DekBytes)
      requires Valid() && id !in copies
      requires copy.buf !in Issued() && copy.buf.Length == 32 && store.Key() == Some(copy.buf[..])
      modifies this`copies
      ensures Valid() && Contents() == AfterAccess(old(Contents()), Take(id))
      ensures Held() == old(Held()) + {copy.buf}
    {
      AddCopy(copies, id, copy);
      copies := copies[id := copy];
    }

    method Discard(copy: DekBytes)
      requires Valid() && Erased() && copy.buf !in Issued()
      modifies this`retired, copy.buf
      ensures Valid() && Erased() && Contents() == old(Contents())
      ensures retired == old(retired) + {copy.buf} && copy.buf[..] == Zeros(copy.buf.Length)
    {
      copy.Drop();
      retired := retired + {copy.buf};
    }

    method Forget(id: nat) returns (copy: DekBytes)
      requires Valid() && id in copies
      modifies this`copies
      ensures Valid() && Contents() == AfterAccess(old(Contents()), Release(id))
      ensures copy == old(copies[id]) && copy.buf.Length == 32
      ensures copy.buf in old(Held()) && copy.buf !in Stored() && Held() == old(Held()) - {copy.buf}
    {
      RemoveCopy(copies, id);
      copy := copies[id];
      copies := copies - {id};
    }

    /** Dropping a copy zeroes its buffer and changes no other key. */
    method ReleaseCopy(id: nat)
      requires Valid() && Erased()
      modifies this, Held()
      ensures Valid() && Erased() && Contents() == AfterAccess(old(Contents()), Release(id))
      ensures old(Issued()) <= Issued() && Stored() == old(Stored()) && Held() <= old(Held())
      ensures id in old(copies) ==> old(copies[id]).buf[..] == Zeros(32)
    {
      if id in copies {
        var copy := Forget(id);
        Discard(copy);
      }
    }

    /** One access acts on the buffers as `AfterAccess` does on values. */
    method Do(a: Access)
      requires Valid() && Erased()
      modifies this, store, Stored(), Held()
      ensures Valid() && Erased() && Contents() == AfterAccess(old(Contents()), a)
      ensures old(Issued()) <= Issued()
      ensures fresh(Stored() - old(Stored())) && fresh(Held() - old(Held()))
    {
      match a
      case StoreKey(key) => StoreNew(key);
      case Take(id) => TakeCopy(id);
      case Release(id) => ReleaseCopy(id);
    }

    /**
     * Any interleaving: the buffers hold what the values say and remain unshared throughout. None
     * that was ever stored or handed out is lost sight of, and none that was let go holds a key.
     */
    method Run(accesses: seq<Access>)
      requires Valid() && Erased()
      modifies this, store, Stored(), Held()
      ensures Valid() && Erased() && Contents() == AfterAll(old(Contents()), accesses)
      ensures old(Issued()) <= Issued()
    {
      for i := 0 to |accesses|
        invariant Valid() && Erased() && AfterAll(Contents(), accesses[i..]) == AfterAll(old(Contents()), accesses)
        invariant old(Issued()) <= Issued()
        invariant fresh(Stored() - old(Stored())) && fresh(Held() - old(Held()))
      {
        assert accesses[i..][1..] == accesses[i + 1..];
        Do(accesses[i]);
      }
    }
  }
}

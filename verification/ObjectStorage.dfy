/** The direct-mapped cache of records over one bump-allocated buffer. */
module ObjectStorage {
  import opened Bytes
  import opened ObjectIndex
  import opened Wrappers

  /** What a record is stored under. */
  datatype Key = Key(target: int, id: Identity, a: nat, b: nat)

  /** A slot: its key, and the region of the buffer that belongs to it for good. */
  datatype Entry = Entry(used: bool, key: Key, start: nat, len: nat, cap: nat)

  /** A store that went through. */
  datatype Store = Store(key: Key, bytes: seq<byte>)

  /** The last store that went into a slot. */
  function LastInto(history: seq<Store>, slot: nat, count: nat): (s: Option<Store>)
    requires count > 0 && (forall i :: 0 <= i < |history| ==> Hashed(history[i].key.id))
  {
    if history == [] then None
    else
      var last := history[|history| - 1];
      if Bucket(last.key.id, count) == slot then Some(last) else LastInto(history[..|history| - 1], slot, count)
  }

  /** The last store under a key. */
  function LastUnder(history: seq<Store>, key: Key): (s: Option<Store>)
    ensures s.Some? ==> s.value.key == key
  {
    if history == [] then None
    else if history[|history| - 1].key == key then Some(history[|history| - 1])
    else LastUnder(history[..|history| - 1], key)
  }

  /** When the slot of a key was last filled under that key, this is the last store under it. */
  lemma {:induction false} LastIntoIsLastUnder(history: seq<Store>, key: Key, count: nat)
    requires count > 0 && Hashed(key.id) && (forall i :: 0 <= i < |history| ==> Hashed(history[i].key.id))
    ensures var into := LastInto(history, Bucket(key.id, count), count);
            into.Some? && into.value.key == key ==> LastUnder(history, key) == into
  {
    if history != [] {
      LastIntoIsLastUnder(history[..|history| - 1], key, count);
    }
  }

  /** Store i is the last one under its key, and none behind it went into its slot. */
  ghost predicate Surviving(history: seq<Store>, key: Key, count: nat, i: nat)
    requires count > 0 && Hashed(key.id) && (forall j :: 0 <= j < |history| ==> Hashed(history[j].key.id))
  {
    i < |history| && history[i].key == key && forall j :: i < j < |history| ==> Bucket(history[j].key.id, count) != Bucket(key.id, count)
  }

  lemma SurvivingLast(history: seq<Store>, key: Key, count: nat)
    requires count > 0 && Hashed(key.id) && history != [] && (forall j :: 0 <= j < |history| ==> Hashed(history[j].key.id))
    requires Bucket(history[|history| - 1].key.id, count) == Bucket(key.id, count)
    ensures forall i: nat :: Surviving(history, key, count, i) <==> i == |history| - 1 && history[|history| - 1].key == key
  {
    hide Bucket, Hashed;
  }

  lemma SurvivingFront(history: seq<Store>, key: Key, count: nat)
    requires count > 0 && Hashed(key.id) && history != [] && (forall j :: 0 <= j < |history| ==> Hashed(history[j].key.id))
    requires Bucket(history[|history| - 1].key.id, count) != Bucket(key.id, count)
    ensures forall i: nat :: Surviving(history, key, count, i) ==> i < |history| - 1 && Surviving(history[..|history| - 1], key, count, i)
    ensures forall i: nat :: Surviving(history[..|history| - 1], key, count, i) ==> Surviving(history, key, count, i)
  {
    hide Bucket, Hashed;
    var front := history[..|history| - 1];
    forall i: nat
      ensures Surviving(history, key, count, i) <==> Surviving(front, key, count, i)
    {
      if Surviving(front, key, count, i) {
        assert history[i] == front[i];
        forall j | i < j < |history|
          ensures Bucket(history[j].key.id, count) != Bucket(key.id, count)
        {
          assert j < |front| ==> history[j] == front[j];
        }
      }
      if Surviving(history, key, count, i) {
        assert i < |front|;
      }
    }
  }

  /** The last store into the slot of a key is under that key exactly when a store under it survives. */
  lemma {:induction false} LastIntoSurvives(history: seq<Store>, key: Key, count: nat)
    requires count > 0 && Hashed(key.id) && (forall j :: 0 <= j < |history| ==> Hashed(history[j].key.id))
    ensures var into := LastInto(history, Bucket(key.id, count), count);
      && (into.Some? && into.value.key == key <==> exists i: nat :: Surviving(history, key, count, i))
      && (forall i: nat :: Surviving(history, key, count, i) ==> into == Some(history[i]))
  {
    hide Bucket, Hashed, Surviving;
    if history == [] {
      assert !exists i: nat :: Surviving(history, key, count, i) by {
        NoneSurvives(key, count);
      }
    } else if Bucket(history[|history| - 1].key.id, count) == Bucket(key.id, count) {
      SurvivingLast(history, key, count);
      var last: nat := |history| - 1;
      assert Surviving(history, key, count, last) <==> history[last].key == key;
    } else {
      SurvivingFront(history, key, count);
      var front := history[..|history| - 1];
      LastIntoSurvives(front, key, count);
      if exists i: nat :: Surviving(front, key, count, i) {
        var i: nat :| Surviving(front, key, count, i);
        assert Surviving(history, key, count, i);
      }
    }
  }

  lemma NoneSurvives(key: Key, count: nat)
    requires count > 0 && Hashed(key.id)
    ensures forall i: nat :: !Surviving([], key, count, i)
  {
  }

  lemma LastIntoNext(history: seq<Store>, more: Store, slot: nat, count: nat)
    requires count > 0 && Hashed(more.key.id) && (forall i :: 0 <= i < |history| ==> Hashed(history[i].key.id))
    ensures LastInto(history + [more], slot, count) == if Bucket(more.key.id, count) == slot then Some(more) else LastInto(history, slot, count)
  {
    assert (history + [more])[..|history|] == history;
  }

  predicate Disjoint(e: Entry, f: Entry) {
    e.start + e.cap <= f.start || f.start + f.cap <= e.start || e.cap == 0 || f.cap == 0
  }

  /** The regions of the slots lie in the used prefix of the buffer, and no two overlap. */
  ghost predicate Fits(entries: seq<Entry>, used: nat) {
    && (forall i :: 0 <= i < |entries| ==> entries[i].len <= entries[i].cap && entries[i].start + entries[i].cap <= used)
    && (forall i, j :: 0 <= i < j < |entries| ==> Disjoint(entries[i], entries[j]))
  }

  lemma FitsAt(entries: seq<Entry>, used: nat, i: nat)
    requires Fits(entries, used) && i < |entries|
    ensures entries[i].len <= entries[i].cap && entries[i].start + entries[i].cap <= used
  {
  }

  /** What a slot holds, or nothing. */
  ghost function Content(e: Entry, buffer: seq<byte>): Option<Store>
    requires e.start + e.len <= |buffer|
  {
    if e.used then Some(Store(e.key, buffer[e.start..e.start + e.len])) else None
  }

  /** A record written into a slot's own region, or behind everything into an unused slot, leaves
      every other slot's content alone. */
  lemma FilledSlot(entries: seq<Entry>, used: nat, buffer: seq<byte>, slot: nat, e: Entry, used': nat, buffer': seq<byte>)
    requires Fits(entries, used) && slot < |entries| && used <= used' <= |buffer| == |buffer'|
    requires e.len <= e.cap && e.start + e.cap <= used'
    requires (e.start == entries[slot].start && e.cap == entries[slot].cap) || e.start == used
    requires forall k :: 0 <= k < |buffer| && !(e.start <= k < e.start + e.len) ==> buffer'[k] == buffer[k]
    ensures Fits(entries[slot := e], used')
    ensures forall i :: 0 <= i < |entries| && i != slot ==> Content(entries[i], buffer') == Content(entries[i], buffer)
  {
    var after := entries[slot := e];
    forall i, j | 0 <= i < j < |after|
      ensures Disjoint(after[i], after[j])
    {
      assert Disjoint(entries[i], entries[j]);
    }
    forall i | 0 <= i < |entries| && i != slot
      ensures Content(entries[i], buffer') == Content(entries[i], buffer)
    {
      var f := entries[i];
      assert if i < slot then Disjoint(f, entries[slot]) else Disjoint(entries[slot], f);
      assert forall k :: f.start <= k < f.start + f.len ==> buffer'[k] == buffer[k];
      assert buffer'[f.start..f.start + f.len] == buffer[f.start..f.start + f.len];
    }
  }

  class Cache {
    var entries: seq<Entry>
    const storage: array<byte>
    var storageUsed: nat
    ghost var history: seq<Store>

    /** Every slot's region lies in the used prefix, no two overlap, and each slot holds what was
        last stored into it. */
    ghost predicate Valid()
      reads this, storage
    {
      && storageUsed <= storage.Length && |entries| > 0 && Fits(entries, storageUsed)
      && (forall i :: 0 <= i < |history| ==> Hashed(history[i].key.id))
      && (forall i :: 0 <= i < |entries| ==> LastInto(history, i, |entries|) == Content(entries[i], storage[..]))
    }

    constructor (slots: nat, size: nat)
      requires slots > 0
      ensures Valid() && fresh(storage) && history == [] && |entries| == slots && storage.Length == size
    {
      entries := seq(slots, _ => Entry(false, Key(0, Identity(0, 0), 0, 0), 0, 0, 0));
      storage := new byte[size];
      storageUsed := 0;
      history := [];
    }

    /** Copies a record into a region of the buffer. */
    method Fill(start: nat, out: seq<byte>)
      requires start + |out| <= storage.Length
      modifies storage
      ensures storage[..][start..start + |out|] == out
      ensures forall k :: 0 <= k < storage.Length && !(start <= k < start + |out|) ==> storage[..][k] == old(storage[..])[k]
    {
      forall k | 0 <= k < |out| {
        storage[start + k] := out[k];
      }
    }

    /** A store succeeds exactly when the record fits the slot's own region, or the slot is unused
        and the record fits behind everything; otherwise nothing changes. */
    method Put(key: Key, out: seq<byte>) returns (ok: bool)
      requires Valid() && Hashed(key.id)
      modifies this, storage
      ensures Valid() && |entries| == old(|entries|)
      ensures var e := old(entries)[Bucket(key.id, |entries|)];
              ok <==> e.cap >= |out| || (!e.used && old(storageUsed) + |out| <= storage.Length)
      ensures history == if ok then old(history) + [Store(key, out)] else old(history)
      ensures !ok ==> unchanged(this) && unchanged(storage)
    {
      hide LastInto, Bucket, Hashed, Fits;
      var slot := Bucket(key.id, |entries|);
      var e := entries[slot];
      FitsAt(entries, storageUsed, slot);
      var start, cap := e.start, e.cap;
      if e.cap < |out| {
        if e.used || storageUsed + |out| > storage.Length {
          return false;
        }
        start := storageUsed;
        cap := |out|;
        storageUsed := storageUsed + |out|;
      }
      Fill(start, out);
      entries := entries[slot := Entry(true, key, start, |out|, cap)];
      history := history + [Store(key, out)];
      ok := true;
      FilledSlot(old(entries), old(storageUsed), old(storage[..]), slot, entries[slot], storageUsed, storage[..]);
      forall i | 0 <= i < |entries|
        ensures entries[i].start + entries[i].len <= storage.Length
             && LastInto(history, i, |entries|) == Content(entries[i], storage[..])
      {
        FitsAt(entries, storageUsed, i);
        LastIntoNext(old(history), Store(key, out), i, |entries|);
      }
    }

    /** The slot of a key is found exactly when a store under the key survives, and it holds the
        bytes of that store, the last one under the key. */
    method Lookup(key: Key) returns (slot: int)
      requires Valid() && Hashed(key.id)
      ensures slot >= 0 <==> exists i: nat :: Surviving(history, key, |entries|, i)
      ensures slot >= 0 ==> slot < |entries| && Content(entries[slot], storage[..]) == LastUnder(history, key) != None
      ensures slot >= 0 ==> forall i: nat :: Surviving(history, key, |entries|, i) ==>
                entries[slot].start + entries[slot].len <= storage.Length
                && storage[entries[slot].start..entries[slot].start + entries[slot].len] == history[i].bytes
    {
      hide Surviving;
      var i := Bucket(key.id, |entries|);
      LastIntoSurvives(history, key, |entries|);
      FitsAt(entries, storageUsed, i);
      LastIntoIsLastUnder(history, key, |entries|);
      if entries[i].used && entries[i].key == key {
        return i;
      }
      slot := -1;
    }
  }
}

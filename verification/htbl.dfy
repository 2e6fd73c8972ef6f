/** kern/htbl.c: the hash table. */
module Htbl {
  import opened Words
  import opened Bits
  import opened Options
  import opened Slots

  const INITIAL_CAPACITY: U32 := 32
  const ENTRY_SIZE := 8
  const MAX_KEYS := 0x400_0000

  /** fnv1a32_hash. */
  method Fnv1a32Hash(key: Str) returns (hash: U32)
    ensures hash == FnvFrom(FNV_OFFSET, key)
  {
    hide HashStep;
    hash := FNV_OFFSET;
    var i := 0;
    while i < |key|
      invariant 0 <= i <= |key|
      invariant FnvFrom(hash, key[i..]) == FnvFrom(FNV_OFFSET, key)
    {
      assert key[i..][0] == key[i] && key[i..][1..] == key[i + 1..];
      hash := HashStep(hash, key[i]);
      i := i + 1;
    }
  }

  /** What every table keeps: a power-of-two capacity, an exact count of at most
      half of it, distinct keys, and unbroken probe runs. */
  ghost predicate WellFormed<V>(es: seq<Entry<V>>, length: nat) {
    && (exists k :: k >= 5 && |es| == Pow2(k))
    && length == Occupied(es) <= |es| / 2
    && DistinctKeys(es)
    && WellProbed(es)
  }

  /** struct htbl. */
  class Table<V> {
    var entries: array<Entry<V>>
    var capacity: nat
    var length: nat

    ghost predicate Valid()
      reads this, entries
    {
      entries.Length == capacity && WellFormed(entries[..], length)
    }

    /** The abstract map from keys to values. */
    ghost function M(): map<Str, Option<V>>
      requires Valid()
      reads this, entries
    {
      Contents(entries[..])
    }

    /** Its capacity is no larger than its keys account for. */
    ghost predicate Tight()
      reads this
    {
      capacity <= Max(INITIAL_CAPACITY, 4 * length)
    }

    /** A tight table takes another key, as long as it holds fewer than 2^26. */
    lemma RoomForKey()
      requires Valid() && Tight() && |M()| < MAX_KEYS
      ensures |M()| == length
      ensures Crowded() ==> 2 * capacity * ENTRY_SIZE < U32_MODULUS
    {
      ContentsSize(entries[..]);
    }

    lemma EvenCapacity()
      requires Valid()
      ensures capacity / 2 * 2 == capacity
    {
      var k :| k >= 5 && capacity == Pow2(k);
      assert Pow2(k) == 2 * Pow2(k - 1);
    }

    /** The next put has to expand the table first. */
    predicate Crowded()
      reads this
    {
      length >= capacity / 2
    }

    /** htbl_create. */
    constructor ()
      ensures Valid() && fresh(entries)
      ensures M() == map[] && capacity == INITIAL_CAPACITY && !Crowded() && Tight()
    {
      capacity, length := INITIAL_CAPACITY, 0;
      entries := new Entry<V>[INITIAL_CAPACITY](_ => Empty);
      new;
      AllEmpty(entries[..]);
      assert |entries[..]| == Pow2(5);
    }

    /** The temporary table of htbl_expand. */
    constructor OfSize(capacity: nat)
      requires exists k :: k >= 5 && capacity == Pow2(k)
      ensures Valid() && fresh(entries)
      ensures M() == map[] && this.capacity == capacity && length == 0
    {
      this.capacity, this.length := capacity, 0;
      entries := new Entry<V>[capacity](_ => Empty);
      new;
      AllEmpty(entries[..]);
    }

    /** The probe loop of htbl_get and htbl_put: from the key's home, with
        wrap-around, to its slot or to the first empty one. */
    method Probe(key: Str) returns (index: nat, ghost d: nat)
      requires Valid()
      ensures d < entries.Length && Passed(entries[..], key, d)
      ensures index == At(entries.Length, Home(entries.Length, key), d)
      ensures entries[index].Empty? || entries[index].key == key
    {
      ghost var es := entries[..];
      var hash := Fnv1a32Hash(key);
      index := And(hash, capacity - 1);
      assert index == Home(capacity, key) by {
        ghost var k :| k >= 5 && |es| == Pow2(k);
        MaskIsMod(hash, k);
      }
      d := 0;
      ProbeStops(es, key, 0);
      while entries[index].Full?
        invariant d < |es| && Passed(es, key, d) && index == At(|es|, Home(|es|, key), d)
        decreases |es| - d
      {
        if entries[index].key == key {
          return;
        }
        index := index + 1;
        if index >= capacity {
          index := 0;
        }
        ProbeStops(es, key, d + 1);
        d := d + 1;
      }
    }

    /** htbl_get. */
    method Get(key: Str) returns (value: Option<V>)
      requires Valid()
      ensures value == if key in M() then M()[key] else None
    {
      var index, d := Probe(key);
      if entries[index].Full? {
        ContentsAt(entries[..], index);
        return entries[index].value;
      }
      ProbeMisses(entries[..], key, d);
      return None;
    }

    /** htbl_put. The doubled slot array, if one is needed, must have a 32-bit
        size. The measure says that the puts of htbl_expand never expand. */
    method Put(key: Str, value: Option<V>)
      requires Valid()
      requires Crowded() ==> 2 * capacity * ENTRY_SIZE < U32_MODULUS
      modifies this, entries
      ensures Valid() && (entries == old(entries) || fresh(entries))
      ensures M() == old(M())[key := value]
      ensures length == old(length) + if key in old(M()) then 0 else 1
      ensures capacity == old(capacity) * if old(Crowded()) then 2 else 1
      ensures old(Tight()) ==> Tight()
      decreases if Crowded() then 2 else 0
    {
      EvenCapacity();
      if length >= capacity / 2 {
        Expand();
      }
      Set(key, value);
    }

    /** The second half of htbl_put, on a table with room. */
    method Set(key: Str, value: Option<V>)
      requires Valid() && !Crowded()
      modifies this`length, entries
      ensures Valid()
      ensures M() == old(M())[key := value]
      ensures length == old(length) + if key in old(M()) then 0 else 1
    {
      ghost var es := entries[..];
      var index, d := Probe(key);
      OccupiedUpdate(es, index, Full(key, value));
      hide Occupied, Passed, WellProbed, Home, At, Contents;
      if entries[index].Full? {
        OverwriteKeeps(es, index, value);
        ContentsAt(es, index);
        entries[index] := Full(entries[index].key, value);
      } else {
        ProbeMisses(es, key, d);
        InsertKeeps(es, key, value, d);
        entries[index] := Full(key, value);
        length := length + 1;
      }
      assert entries[..] == es[index := Full(key, value)];
    }

    /** htbl_expand: the same map in twice the room. */
    method Expand()
      requires Valid() && Crowded()
      requires 2 * capacity * ENTRY_SIZE < U32_MODULUS
      modifies this
      ensures Valid() && fresh(entries) && !Crowded()
      ensures M() == old(M()) && length == old(length) && capacity == 2 * old(capacity)
      decreases 1
    {
      ghost var es := entries[..];
      assert exists k :: k >= 5 && 2 * capacity == Pow2(k) by {
        ghost var k :| k >= 5 && |es| == Pow2(k);
        assert Pow2(k + 1) == 2 * Pow2(k);
      }
      var temp := new Table<V>.OfSize(capacity * 2);
      assert es[..0] == [] && Occupied(es[..0]) == 0 && Contents(es[..0]) == map[] && DistinctKeys(es[..0]);
      assert DistinctKeys(es) && length == Occupied(es) && length < capacity;
      hide Contents, Occupied, WellProbed, DistinctKeys, Pow2, WellFormed;
      var i := 0;
      while i < capacity
        invariant 0 <= i <= capacity == |es| && entries[..] == es
        invariant unchanged(this)
        invariant temp.Valid() && fresh(temp) && fresh(temp.entries)
        invariant temp.capacity == 2 * capacity
        invariant temp.length == Occupied(es[..i]) <= length
        invariant DistinctKeys(es[..i]) && temp.M() == Contents(es[..i])
      {
        var entry := entries[i];
        NextSlot(es, i);
        NextOccupied(es, i);
        if entry.Full? {
          temp.Put(entry.key, entry.value);
        }
        i := i + 1;
      }
      assert es[..i] == es;
      assert temp.length == length;
      entries := temp.entries;
      capacity := capacity * 2;
    }
  }
}

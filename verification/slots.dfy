/** The slot array of the open-addressing table, as a value: the invariant that
    makes linear probing work, and what one insertion does to it. */
module Slots {
  import opened Words
  import opened Bits
  import opened Options

  /** A C string, without its terminator. */
  type Str = seq<Byte>

  /** A slot; a NULL key marks it empty. A value may itself be NULL. */
  datatype Entry<V> = Empty | Full(key: Str, value: Option<V>)

  const FNV_OFFSET: U32 := 2166136261
  const FNV_PRIME: U32 := 16777619

  function HashStep(hash: U32, b: Byte): U32 {
    Wrap32(Wrap32(Xor(hash, b as int)) * FNV_PRIME)
  }

  /** FNV-1a, as a fold over the bytes of the key. */
  function FnvFrom(hash: U32, s: Str): U32
    decreases s
  {
    if s == [] then hash else FnvFrom(HashStep(hash, s[0]), s[1..])
  }

  /** Exclusive or with a byte leaves the higher bytes alone. */
  lemma XorLow(hash: U32, b: Byte)
    ensures Xor(hash, b as int) == hash / 0x100 * 0x100 + Xor(hash % 0x100, b as int)
  {
    assert Pow2(8) == 0x100;
    XorHigh(hash, b as int, 8);
  }

  /** One step, from the low byte of the hash and what it becomes. */
  lemma StepIs(hash: U32, b: Byte, low: nat, next: U32, carry: nat)
    requires Xor(hash % 0x100, b as int) == low < 0x100
    requires (hash / 0x100 * 0x100 + low) * FNV_PRIME == carry * U32_MODULUS + next
    ensures HashStep(hash, b) == next
  {
    XorLow(hash, b);
    hide Xor;
    var x := hash / 0x100 * 0x100 + low;
    assert x < U32_MODULUS;
    DivUnique(x * FNV_PRIME, U32_MODULUS, carry, next);
  }

  lemma XorOfA(low: nat)
    requires low == 0xc5
    ensures Xor(low, 0x61) == 0xa4
  {
  }

  /** The hash of "a", as the authors of FNV publish it. */
  lemma FnvOfA()
    ensures FnvFrom(FNV_OFFSET, [0x61]) == 0xe40c_292c
  {
    XorOfA(FNV_OFFSET % 0x100);
    hide Xor;
    StepIs(FNV_OFFSET, 0x61, 0xa4, 0xe40c_292c, 8461672);
    hide HashStep;
    assert [0x61 as Byte][1..] == [];
    assert FnvFrom(0xe40c_292c, []) == 0xe40c_292c;
  }

  /** The slot a key would like to have. */
  function Home(capacity: nat, key: Str): (h: nat)
    requires capacity > 0
    ensures h < capacity
  {
    FnvFrom(FNV_OFFSET, key) % capacity
  }

  /** The slot d steps after home, wrapping around. */
  function At(capacity: nat, home: nat, d: nat): (i: nat)
    requires home < capacity && d < capacity
    ensures i < capacity
  {
    if home + d < capacity then home + d else home + d - capacity
  }

  /** How many steps it is from slot a to slot b. */
  function Dist(capacity: nat, a: nat, b: nat): (d: nat)
    requires a < capacity && b < capacity
    ensures d < capacity && At(capacity, a, d) == b
    ensures forall e :: 0 <= e < capacity && At(capacity, a, e) == b ==> e == d
  {
    if a <= b then b - a else b + capacity - a
  }

  ghost predicate DistinctKeys<V>(es: seq<Entry<V>>) {
    forall i, j :: 0 <= i < j < |es| && es[i].Full? && es[j].Full? ==> es[i].key != es[j].key
  }

  /** The slots d steps and fewer from a key's home are all taken. */
  ghost predicate RunTaken<V>(es: seq<Entry<V>>, home: nat, d: nat)
    requires home < |es| && d <= |es|
  {
    forall e :: 0 <= e < d ==> es[At(|es|, home, e)].Full?
  }

  /** Between the home of a stored key and its slot there is no gap. */
  ghost predicate WellProbed<V>(es: seq<Entry<V>>) {
    forall i :: 0 <= i < |es| && es[i].Full? ==>
                  RunTaken(es, Home(|es|, es[i].key), Dist(|es|, Home(|es|, es[i].key), i))
  }

  /** The abstract table. */
  ghost function Contents<V>(es: seq<Entry<V>>): map<Str, Option<V>>
    requires DistinctKeys(es)
  {
    map i | 0 <= i < |es| && es[i].Full? :: es[i].key := es[i].value
  }

  lemma ContentsAt<V>(es: seq<Entry<V>>, i: nat)
    requires DistinctKeys(es) && i < |es| && es[i].Full?
    ensures es[i].key in Contents(es) && Contents(es)[es[i].key] == es[i].value
  {
  }

  ghost predicate Stores<V>(es: seq<Entry<V>>, key: Str) {
    exists i :: 0 <= i < |es| && es[i].Full? && es[i].key == key
  }

  lemma ContentsStored<V>(es: seq<Entry<V>>)
    requires DistinctKeys(es)
    ensures forall k :: k in Contents(es) <==> Stores(es, k)
  {
  }

  lemma ContentsIs<V>(es: seq<Entry<V>>, m: map<Str, Option<V>>)
    requires DistinctKeys(es)
    requires forall i :: 0 <= i < |es| && es[i].Full? ==> es[i].key in m && m[es[i].key] == es[i].value
    requires forall k :: k in m ==> Stores(es, k)
    ensures Contents(es) == m
  {
  }

  function Occupied<V>(es: seq<Entry<V>>): (n: nat)
    ensures n <= |es|
  {
    if es == [] then 0 else Occupied(es[..|es| - 1]) + if es[|es| - 1].Full? then 1 else 0
  }

  lemma {:induction false} OccupiedUpdate<V>(es: seq<Entry<V>>, i: nat, e: Entry<V>)
    requires i < |es| && e.Full?
    ensures Occupied(es[i := e]) == Occupied(es) + if es[i].Full? then 0 else 1
  {
    var last := |es| - 1;
    if i < last {
      assert es[i := e][..last] == es[..last][i := e];
      OccupiedUpdate(es[..last], i, e);
    } else {
      assert es[i := e][..last] == es[..last];
    }
  }

  /** A table that is not full has an empty slot. */
  lemma {:induction false} RoomLeft<V>(es: seq<Entry<V>>) returns (i: nat)
    requires Occupied(es) < |es|
    ensures i < |es| && es[i].Empty?
  {
    var last := |es| - 1;
    if es[last].Empty? {
      i := last;
    } else {
      i := RoomLeft(es[..last]);
    }
  }

  /** Probing from the key's home has passed d slots without finding it. */
  ghost predicate Passed<V>(es: seq<Entry<V>>, key: Str, d: nat)
    requires 0 < |es| && d <= |es|
  {
    forall e :: 0 <= e < d ==>
                  var s := es[At(|es|, Home(|es|, key), e)]; s.Full? && s.key != key
  }

  /** A probe meets an empty slot before it comes round. */
  lemma ProbeStops<V>(es: seq<Entry<V>>, key: Str, d: nat)
    requires Occupied(es) < |es| && d <= |es| && Passed(es, key, d)
    ensures d < |es|
  {
    var gap := RoomLeft(es);
    var e := Dist(|es|, Home(|es|, key), gap);
    assert es[At(|es|, Home(|es|, key), e)].Empty?;
  }

  /** A probe that stops at an empty slot has shown the key absent. */
  lemma ProbeMisses<V>(es: seq<Entry<V>>, key: Str, d: nat)
    requires 0 < |es| && DistinctKeys(es) && WellProbed(es)
    requires d < |es| && Passed(es, key, d) && es[At(|es|, Home(|es|, key), d)].Empty?
    ensures key !in Contents(es)
  {
    forall i | 0 <= i < |es| && es[i].Full?
      ensures es[i].key != key
    {
      var home := Home(|es|, es[i].key);
      var e := Dist(|es|, home, i);
      assert RunTaken(es, home, e) && At(|es|, home, e) == i;
    }
  }

  /** Overwriting the value of a stored key keeps everything in place. */
  lemma OverwriteKeeps<V>(es: seq<Entry<V>>, i: nat, value: Option<V>)
    requires i < |es| && es[i].Full? && DistinctKeys(es) && WellProbed(es)
    ensures var es' := es[i := Full(es[i].key, value)];
            DistinctKeys(es') && WellProbed(es') && Contents(es') == Contents(es)[es[i].key := value]
  {
    OverwrittenRuns(es, i, value);
    WrittenContents(es, i, es[i].key, value);
  }

  lemma OverwrittenRuns<V>(es: seq<Entry<V>>, i: nat, value: Option<V>)
    requires i < |es| && es[i].Full? && WellProbed(es)
    ensures WellProbed(es[i := Full(es[i].key, value)])
  {
    var es' := es[i := Full(es[i].key, value)];
    assert forall j :: 0 <= j < |es| ==> es'[j].Full? == es[j].Full?;
    forall j | 0 <= j < |es'| && es'[j].Full?
      ensures RunTaken(es', Home(|es|, es'[j].key), Dist(|es|, Home(|es|, es'[j].key), j))
    {
      assert RunTaken(es, Home(|es|, es[j].key), Dist(|es|, Home(|es|, es[j].key), j));
    }
  }

  /** Filling the first empty slot of a key's run keeps the runs unbroken and
      adds exactly that binding. */
  lemma InsertKeeps<V>(es: seq<Entry<V>>, key: Str, value: Option<V>, d: nat)
    requires 0 < |es| && DistinctKeys(es) && WellProbed(es)
    requires d < |es| && Passed(es, key, d) && es[At(|es|, Home(|es|, key), d)].Empty?
    ensures var es' := es[At(|es|, Home(|es|, key), d) := Full(key, value)];
            DistinctKeys(es') && WellProbed(es') && Contents(es') == Contents(es)[key := value]
  {
    InsertedRuns(es, key, value, d);
    ProbeMisses(es, key, d);
    WrittenContents(es, At(|es|, Home(|es|, key), d), key, value);
  }

  /** Writing a binding to a slot that is free, or already holds its key, binds
      the key and leaves every other binding alone. */
  lemma WrittenContents<V>(es: seq<Entry<V>>, at: nat, key: Str, value: Option<V>)
    requires at < |es| && DistinctKeys(es)
    requires if es[at].Empty? then key !in Contents(es) else es[at].key == key
    ensures var es' := es[at := Full(key, value)];
            DistinctKeys(es') && Contents(es') == Contents(es)[key := value]
  {
    var es' := es[at := Full(key, value)];
    OthersDiffer(es, at, key);
    ContentsStored(es);
    hide Contents;
    forall k | Stores(es, k) || k == key
      ensures Stores(es', k)
    {
      if k != key {
        var j :| 0 <= j < |es| && es[j].Full? && es[j].key == k;
        assert es'[j].key == k;
      } else {
        assert es'[at].key == k;
      }
    }
    ContentsIs(es', Contents(es)[key := value]);
  }

  lemma OthersDiffer<V>(es: seq<Entry<V>>, at: nat, key: Str)
    requires at < |es| && DistinctKeys(es)
    requires if es[at].Empty? then key !in Contents(es) else es[at].key == key
    ensures forall j :: 0 <= j < |es| && es[j].Full? ==>
              && es[j].key in Contents(es) && Contents(es)[es[j].key] == es[j].value
              && (j != at ==> es[j].key != key)
  {
    forall j | 0 <= j < |es| && es[j].Full?
      ensures es[j].key in Contents(es) && Contents(es)[es[j].key] == es[j].value
    {
      ContentsAt(es, j);
    }
  }

  lemma InsertedRuns<V>(es: seq<Entry<V>>, key: Str, value: Option<V>, d: nat)
    requires WellProbed(es)
    requires d < |es| && Passed(es, key, d)
    ensures WellProbed(es[At(|es|, Home(|es|, key), d) := Full(key, value)])
  {
    var at := At(|es|, Home(|es|, key), d);
    var es' := es[at := Full(key, value)];
    assert forall j :: 0 <= j < |es| && es[j].Full? ==> es'[j].Full?;
    forall j | 0 <= j < |es'| && es'[j].Full?
      ensures RunTaken(es', Home(|es|, es'[j].key), Dist(|es|, Home(|es|, es'[j].key), j))
    {
      if j != at {
        assert RunTaken(es, Home(|es|, es[j].key), Dist(|es|, Home(|es|, es[j].key), j));
      } else {
        assert Dist(|es|, Home(|es|, key), at) == d;
        assert RunTaken(es, Home(|es|, key), d);
      }
    }
  }

  /** Copying a table out slot by slot meets each binding once. */
  lemma NextSlot<V>(es: seq<Entry<V>>, i: nat)
    requires i < |es| && DistinctKeys(es)
    ensures DistinctKeys(es[..i]) && DistinctKeys(es[..i + 1])
    ensures es[i].Full? ==> es[i].key !in Contents(es[..i])
    ensures Contents(es[..i + 1])
         == if es[i].Full? then Contents(es[..i])[es[i].key := es[i].value] else Contents(es[..i])
  {
    var was, now := es[..i], es[..i + 1];
    assert DistinctKeys(was) && DistinctKeys(now);
    ContentsStored(was);
    hide Contents;
    if es[i].Full? {
      assert !Stores(was, es[i].key);
      Extended(was, es[i]);
    } else {
      Skipped(was, es[i]);
    }
    assert now == was + [es[i]];
  }

  lemma Extended<V>(es: seq<Entry<V>>, e: Entry<V>)
    requires DistinctKeys(es) && e.Full? && !Stores(es, e.key)
    ensures DistinctKeys(es + [e]) && Contents(es + [e]) == Contents(es)[e.key := e.value]
  {
    var now := es + [e];
    forall j | 0 <= j < |es| && es[j].Full?
      ensures es[j].key in Contents(es) && Contents(es)[es[j].key] == es[j].value
    {
      ContentsAt(es, j);
    }
    ContentsStored(es);
    hide Contents;
    forall k | Stores(es, k) || k == e.key
      ensures Stores(now, k)
    {
      if k == e.key {
        assert now[|es|].key == k;
      } else {
        var j :| 0 <= j < |es| && es[j].Full? && es[j].key == k;
        assert now[j].key == k;
      }
    }
    ContentsIs(now, Contents(es)[e.key := e.value]);
  }

  lemma Skipped<V>(es: seq<Entry<V>>, e: Entry<V>)
    requires DistinctKeys(es) && e.Empty?
    ensures DistinctKeys(es + [e]) && Contents(es + [e]) == Contents(es)
  {
    var now := es + [e];
    forall k | k in Contents(es)
      ensures Stores(now, k)
    {
      var j :| 0 <= j < |es| && es[j].Full? && es[j].key == k;
      assert now[j].key == k;
    }
    ContentsIs(now, Contents(es));
  }

  lemma NextOccupied<V>(es: seq<Entry<V>>, i: nat)
    requires i < |es|
    ensures Occupied(es[..i + 1]) == Occupied(es[..i]) + if es[i].Full? then 1 else 0
    ensures Occupied(es[..i + 1]) <= Occupied(es)
  {
    assert es[..i + 1][..i] == es[..i];
    OccupiedPrefix(es, i + 1);
  }

  lemma {:induction false} OccupiedPrefix<V>(es: seq<Entry<V>>, i: nat)
    requires i <= |es|
    ensures Occupied(es[..i]) <= Occupied(es)
  {
    if i < |es| {
      assert es[..|es| - 1][..i] == es[..i];
      OccupiedPrefix(es[..|es| - 1], i);
    } else {
      assert es[..i] == es;
    }
  }

  /** A table just allocated is empty. */
  lemma {:induction false} AllEmpty<V>(es: seq<Entry<V>>)
    requires forall i :: 0 <= i < |es| ==> es[i].Empty?
    ensures Occupied(es) == 0 && DistinctKeys(es) && WellProbed(es) && Contents(es) == map[]
  {
    if es != [] {
      AllEmpty(es[..|es| - 1]);
    }
  }

  /** The table holds as many keys as slots are occupied. */
  lemma {:induction false} ContentsSize<V>(es: seq<Entry<V>>)
    requires DistinctKeys(es)
    ensures |Contents(es)| == Occupied(es)
  {
    if es != [] {
      var n := |es| - 1;
      NextSlot(es, n);
      assert es[..n + 1] == es;
      hide Contents, DistinctKeys;
      ContentsSize(es[..n]);
    } else {
      AllEmpty(es);
    }
  }
}

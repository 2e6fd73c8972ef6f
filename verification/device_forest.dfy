/** The order in which devices and their subdevices go: kern/io/driver.c removes
    what a device reaches through registered subdevices, children first. */
module DeviceForest {

  /** The registered devices and the subdevices of each. A subdevice need not be
      registered itself. */
  type Forest<D> = map<D, seq<D>>

  /** No device is among its own subdevices, at any depth. */
  ghost predicate Acyclic<D>(kids: Forest<D>, rank: D -> nat) {
    forall d :: d in kids ==> forall c :: c in kids[d] ==> rank(c) < rank(d)
  }

  ghost predicate Below<D>(ds: seq<D>, rank: D -> nat, bound: nat) {
    forall d :: d in ds ==> rank(d) < bound
  }

  ghost function Elements<D>(s: seq<D>): set<D> {
    set d | d in s
  }

  /** The devices that deregistering d removes, in order. */
  ghost function Removal<D>(kids: Forest<D>, rank: D -> nat, d: D): seq<D>
    requires Acyclic(kids, rank)
    decreases rank(d), 2, 0
  {
    if d !in kids then [] else RemovalAll(kids, rank, kids[d], rank(d)) + [d]
  }

  /** The devices that deregistering each of ds removes, in order. */
  ghost function RemovalAll<D>(kids: Forest<D>, rank: D -> nat, ds: seq<D>, bound: nat): seq<D>
    requires Acyclic(kids, rank) && Below(ds, rank, bound)
    decreases bound, 1, |ds|
  {
    if ds == [] then [] else
      var first := Removal(kids, rank, ds[0]);
      first + RemovalAll(kids - Elements(first), rank, ds[1..], bound)
  }

  /** What deregistering one device amounts to. */
  lemma RemovalOf<D>(kids: Forest<D>, rank: D -> nat, d: D)
    requires Acyclic(kids, rank)
    ensures d !in kids ==> Removal(kids, rank, d) == []
    ensures d in kids ==> Below(kids[d], rank, rank(d))
                          && Removal(kids, rank, d) == RemovalAll(kids, rank, kids[d], rank(d)) + [d]
                          && d !in Elements(RemovalAll(kids, rank, kids[d], rank(d)))
  {
    if d in kids {
      RemovalAllPostorder(kids, rank, kids[d], rank(d));
    }
  }

  lemma AcyclicLess<D>(kids: Forest<D>, rank: D -> nat, gone: set<D>)
    requires Acyclic(kids, rank)
    ensures Acyclic(kids - gone, rank)
  {
  }

  /** The next of several removals. */
  lemma RemovalNext<D>(kids: Forest<D>, rank: D -> nat, ds: seq<D>, i: nat, bound: nat)
    requires Acyclic(kids, rank) && i < |ds| && Below(ds, rank, bound)
    ensures var first := Removal(kids, rank, ds[i]);
            RemovalAll(kids, rank, ds[i..], bound)
            == first + RemovalAll(kids - Elements(first), rank, ds[i + 1..], bound)
  {
    assert ds[i..][0] == ds[i] && ds[i..][1..] == ds[i + 1..];
  }

  lemma RemovalNone<D>(kids: Forest<D>, rank: D -> nat, bound: nat)
    requires Acyclic(kids, rank)
    ensures Below([], rank, bound) && RemovalAll(kids, rank, [], bound) == []
  {
  }

  lemma ElementsNone<D>()
    ensures Elements<D>([]) == {}
  {
  }

  lemma ElementsOne<D>(d: D)
    ensures Elements([d]) == {d}
  {
  }

  lemma ElementsBoth<D>(a: seq<D>, b: seq<D>)
    ensures Elements(a + b) == Elements(a) + Elements(b)
  {
  }

  // ---- children before parents

  /** No device comes twice, and behind every device nothing it depends on is
      left registered. */
  ghost predicate Postorder<D>(kids: Forest<D>, r: seq<D>) {
    forall i :: 0 <= i < |r| ==> r[i] in kids && r[i] !in r[..i] && ChildrenIn(kids, r[i], r[..i])
  }

  ghost predicate ChildrenIn<D>(kids: Forest<D>, d: D, s: seq<D>)
    requires d in kids
  {
    forall c :: c in kids[d] && c in kids ==> c in s
  }

  lemma PostorderAppend<D>(kids: Forest<D>, a: seq<D>, b: seq<D>)
    requires Postorder(kids, a) && Postorder(kids - Elements(a), b)
    ensures Postorder(kids, a + b)
  {
    var r := a + b;
    forall i | 0 <= i < |r|
      ensures r[i] in kids && r[i] !in r[..i] && ChildrenIn(kids, r[i], r[..i])
    {
      if i < |a| {
        assert r[..i] == a[..i];
      } else {
        var j := i - |a|;
        assert r[..i] == a + b[..j] && r[i] == b[j];
        assert ChildrenIn(kids - Elements(a), b[j], b[..j]);
      }
    }
  }

  lemma PostorderParent<D>(kids: Forest<D>, a: seq<D>, d: D)
    requires Postorder(kids, a) && d in kids && d !in a && ChildrenIn(kids, d, a)
    ensures Postorder(kids, a + [d])
  {
    var r := a + [d];
    forall i | 0 <= i < |r|
      ensures r[i] in kids && r[i] !in r[..i] && ChildrenIn(kids, r[i], r[..i])
    {
      assert r[..i] == a[..i];
    }
  }

  /** Deregistering a device removes it last, and every device after what it
      depends on. */
  lemma {:induction false} RemovalPostorder<D>(kids: Forest<D>, rank: D -> nat, d: D)
    requires Acyclic(kids, rank)
    ensures var r := Removal(kids, rank, d);
            && Postorder(kids, r)
            && (d in kids <==> d in r)
            && (forall x :: x in r ==> rank(x) <= rank(d))
    decreases rank(d), 2, 0
  {
    if d in kids {
      var a := RemovalAll(kids, rank, kids[d], rank(d));
      RemovalAllPostorder(kids, rank, kids[d], rank(d));
      assert d !in a;
      PostorderParent(kids, a, d);
    }
  }

  lemma {:induction false} RemovalAllPostorder<D>(kids: Forest<D>, rank: D -> nat, ds: seq<D>, bound: nat)
    requires Acyclic(kids, rank) && Below(ds, rank, bound)
    ensures var r := RemovalAll(kids, rank, ds, bound);
            && Postorder(kids, r)
            && (forall d :: d in ds && d in kids ==> d in r)
            && Below(r, rank, bound)
    decreases bound, 1, |ds|
  {
    if ds != [] {
      var first := Removal(kids, rank, ds[0]);
      var rest := RemovalAll(kids - Elements(first), rank, ds[1..], bound);
      RemovalPostorder(kids, rank, ds[0]);
      RemovalAllPostorder(kids - Elements(first), rank, ds[1..], bound);
      PostorderAppend(kids, first, rest);
      forall d | d in ds && d in kids
        ensures d in first + rest
      {
        if d !in first {
          assert d != ds[0] && d in ds[1..];
        }
      }
    }
  }

  /** What is no subdevice, at any depth, stays. */
  lemma NotRemoved<D>(kids: Forest<D>, rank: D -> nat, d: D, other: D)
    requires Acyclic(kids, rank) && rank(d) < rank(other)
    ensures other !in Elements(Removal(kids, rank, d))
  {
    RemovalPostorder(kids, rank, d);
  }

  // ---- exactly the registered descendants

  /** Whether the route, the numbers of the subdevices to take on the way down,
      leads from d to x over registered devices only. */
  ghost predicate Leads<D>(kids: Forest<D>, d: D, route: seq<nat>, x: D) {
    && d in kids
    && if route == [] then d == x else
         route[0] < |kids[d]| && Leads(kids, kids[d][route[0]], route[1..], x)
  }

  /** x is registered, and d or a subdevice of it, at any depth. */
  ghost predicate Reaches<D>(kids: Forest<D>, d: D, x: D) {
    exists route :: Leads(kids, d, route, x)
  }

  lemma ReachesThrough<D>(kids: Forest<D>, d: D, c: D, x: D)
    requires d in kids && c in kids[d] && Reaches(kids, c, x)
    ensures Reaches(kids, d, x)
  {
    var route :| Leads(kids, c, route, x);
    var i: nat :| i < |kids[d]| && kids[d][i] == c;
    assert ([i] + route)[1..] == route;
    assert Leads(kids, d, [i] + route, x);
  }

  /** What a smaller forest reaches, the larger one does. */
  lemma {:induction false} LeadsMore<D>(kids: Forest<D>, gone: set<D>, d: D, route: seq<nat>, x: D)
    requires Leads(kids - gone, d, route, x)
    ensures Leads(kids, d, route, x)
    decreases |route|
  {
    if route != [] {
      LeadsMore(kids, gone, kids[d][route[0]], route[1..], x);
    }
  }

  lemma {:induction false} RemovedIsReached<D>(kids: Forest<D>, rank: D -> nat, d: D, x: D)
    requires Acyclic(kids, rank) && x in Removal(kids, rank, d)
    ensures Reaches(kids, d, x)
    decreases rank(d), 2, 0
  {
    if x == d {
      assert Leads(kids, d, [], x);
    } else {
      var c := SomeReached(kids, rank, kids[d], rank(d), x);
      ReachesThrough(kids, d, c, x);
    }
  }

  lemma {:induction false} SomeReached<D>(kids: Forest<D>, rank: D -> nat, ds: seq<D>, bound: nat, x: D)
    returns (d: D)
    requires Acyclic(kids, rank) && Below(ds, rank, bound) && x in RemovalAll(kids, rank, ds, bound)
    ensures d in ds && Reaches(kids, d, x)
    decreases bound, 1, |ds|
  {
    var first := Removal(kids, rank, ds[0]);
    if x in first {
      RemovedIsReached(kids, rank, ds[0], x);
      d := ds[0];
    } else {
      d := SomeReached(kids - Elements(first), rank, ds[1..], bound, x);
      var route :| Leads(kids - Elements(first), d, route, x);
      LeadsMore(kids, Elements(first), d, route, x);
    }
  }

  /** A postorder holds, with a device, everything the device reaches. */
  lemma {:induction false} PostorderClosed<D>(kids: Forest<D>, r: seq<D>, d: D, route: seq<nat>, x: D)
    requires Postorder(kids, r) && Leads(kids, d, route, x) && d in r
    ensures x in r
    decreases |route|
  {
    if route != [] {
      var i: nat :| i < |r| && r[i] == d;
      assert ChildrenIn(kids, r[i], r[..i]);
      PostorderClosed(kids, r, kids[d][route[0]], route[1..], x);
    }
  }

  /** Deregistering a device removes exactly what it reaches. */
  lemma RemovedExactly<D>(kids: Forest<D>, rank: D -> nat, d: D, x: D)
    requires Acyclic(kids, rank)
    ensures x in Removal(kids, rank, d) <==> Reaches(kids, d, x)
  {
    if x in Removal(kids, rank, d) {
      RemovedIsReached(kids, rank, d, x);
    }
    if Reaches(kids, d, x) {
      var route :| Leads(kids, d, route, x);
      RemovalPostorder(kids, rank, d);
      PostorderClosed(kids, Removal(kids, rank, d), d, route, x);
    }
  }

  // ---- a list without some of its members

  function Without<D(==)>(s: seq<D>, gone: set<D>): seq<D> {
    if s == [] then [] else
      var r := Without(s[..|s| - 1], gone);
      if s[|s| - 1] in gone then r else r + [s[|s| - 1]]
  }

  lemma {:induction false} WithoutMember<D>(s: seq<D>, gone: set<D>)
    ensures forall x :: x in Without(s, gone) <==> x in s && x !in gone
  {
    if s != [] {
      WithoutMember(s[..|s| - 1], gone);
    }
  }

  lemma {:induction false} WithoutSame<D>(s: seq<D>, a: set<D>, b: set<D>)
    requires forall d | d in s :: d in a <==> d in b
    ensures Without(s, a) == Without(s, b)
  {
    if s != [] {
      WithoutSame(s[..|s| - 1], a, b);
    }
  }

  /** One of several removals, on what the removals in r have left. */
  lemma RemovalStep<D>(all: Forest<D>, r: seq<D>, rank: D -> nat, ds: seq<D>, i: nat, top: D)
    requires Acyclic(all - Elements(r), rank) && i < |ds| && Below(ds[i..], rank, rank(top))
    ensures var kids := all - Elements(r);
            var first := Removal(kids, rank, ds[i]);
            && rank(ds[i]) < rank(top) && Below(ds[i + 1..], rank, rank(top))
            && Acyclic(kids - Elements(first), rank)
            && r + RemovalAll(kids, rank, ds[i..], rank(top))
               == r + first + RemovalAll(kids - Elements(first), rank, ds[i + 1..], rank(top))
            && kids - Elements(first) == all - Elements(r + first)
            && top !in Elements(first) && Elements(r + first) == Elements(r) + Elements(first)
  {
    hide Without, Removal, RemovalAll, Acyclic;
    var kids := all - Elements(r);
    var first := Removal(kids, rank, ds[i]);
    assert ds[i..][0] == ds[i] && ds[i..][1..] == ds[i + 1..];
    RemovalNext(kids, rank, ds[i..], 0, rank(top));
    assert ds[i..][0..] == ds[i..];
    AcyclicLess(kids, rank, Elements(first));
    NotRemoved(kids, rank, ds[i], top);
    ElementsBoth(r, first);
  }
}

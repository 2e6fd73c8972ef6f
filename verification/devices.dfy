/** kern/io/driver.c: the list of devices, and taking devices off it. */
module Devices {
  import opened DeviceForest
  import opened LinkedList

  /** The subdevices array; the functions here never write to it. */
  datatype Subdevices = Null | Array(items: seq<Device>)

  /** struct device, as far as the registry looks at it. */
  class Device {
    const name: string
    /** enum device_type. */
    const kind: int
    /** Whether there is a destroy function. */
    const destructible: bool
    const subdevices: Subdevices
    var numSubdevices: nat

    constructor (name: string, kind: int, destructible: bool, subdevices: Subdevices, n: nat)
      requires subdevices.Array? ==> n <= |subdevices.items|
      ensures this.name == name && this.kind == kind && this.destructible == destructible
      ensures this.subdevices == subdevices && numSubdevices == n && Valid()
    {
      this.name, this.kind, this.destructible := name, kind, destructible;
      this.subdevices, this.numSubdevices := subdevices, n;
    }

    ghost predicate Valid()
      reads this
    {
      subdevices.Array? ==> numSubdevices <= |subdevices.items|
    }

    /** The subdevices in use. */
    ghost function Kids(): seq<Device>
      requires Valid()
      reads this
    {
      if subdevices.Null? then [] else subdevices.items[..numSubdevices]
    }
  }

  /** The devices that have a destroy function, in order. */
  function Destructible(s: seq<Device>): seq<Device> {
    if s == [] then [] else
      var r := Destructible(s[..|s| - 1]);
      if s[|s| - 1].destructible then r + [s[|s| - 1]] else r
  }

  lemma {:induction false} DestructibleBoth(a: seq<Device>, b: seq<Device>)
    ensures Destructible(a + b) == Destructible(a) + Destructible(b)
  {
    if b == [] {
      assert a + b == a;
    } else {
      var all := a + b;
      assert all[..|all| - 1] == a + b[..|b| - 1] && all[|all| - 1] == b[|b| - 1];
      DestructibleBoth(a, b[..|b| - 1]);
    }
  }

  lemma DestructibleOne(d: Device)
    ensures Destructible([]) == []
    ensures Destructible([d]) == if d.destructible then [d] else []
  {
  }

  /** Nodes of the list of devices. */
  type Link = Node<Device>

  /** The nodes whose devices have not gone. */
  function Keep(nodes: seq<Link>, gone: set<Device>): seq<Link> {
    if nodes == [] then [] else
      var r := Keep(nodes[..|nodes| - 1], gone);
      if nodes[|nodes| - 1].value in gone then r else r + [nodes[|nodes| - 1]]
  }

  lemma {:induction false} KeepValues(nodes: seq<Link>, gone: set<Device>)
    ensures ValuesOf(Keep(nodes, gone)) == Without(ValuesOf(nodes), gone)
  {
    if nodes != [] {
      var n := |nodes| - 1;
      KeepValues(nodes[..n], gone);
      assert ValuesOf(nodes)[..n] == ValuesOf(nodes[..n]);
    } else {
      assert ValuesOf(nodes) == [];
    }
  }

  lemma {:induction false} KeepBoth(nodes: seq<Link>, a: set<Device>, b: set<Device>)
    ensures Keep(Keep(nodes, a), b) == Keep(nodes, a + b)
  {
    if nodes != [] {
      var n := |nodes| - 1;
      var r := Keep(nodes[..n], a);
      KeepBoth(nodes[..n], a, b);
      if nodes[n].value !in a {
        assert (r + [nodes[n]])[..|r|] == r;
      }
    }
  }

  lemma {:induction false} KeepNone(nodes: seq<Link>)
    ensures Keep(nodes, {}) == nodes
  {
    if nodes != [] {
      KeepNone(nodes[..|nodes| - 1]);
    }
  }

  lemma {:induction false} KeepMember(nodes: seq<Link>, gone: set<Device>)
    ensures forall n :: n in Keep(nodes, gone) <==> n in nodes && n.value !in gone
  {
    if nodes != [] {
      KeepMember(nodes[..|nodes| - 1], gone);
    }
  }

  /** Of distinct devices, unlinking one node keeps all nodes but those with its
      device. */
  lemma {:induction false} KeepOthers(nodes: seq<Link>, i: nat)
    requires i < |nodes| && Distinct(ValuesOf(nodes))
    ensures Keep(nodes, {nodes[i].value}) == nodes[..i] + nodes[i + 1..]
  {
    var n := |nodes| - 1;
    assert ValuesOf(nodes[..n]) == ValuesOf(nodes)[..n];
    if i < n {
      assert ValuesOf(nodes)[i] != ValuesOf(nodes)[n];
      KeepOthers(nodes[..n], i);
      assert nodes[i + 1..] == nodes[..n][i + 1..] + [nodes[n]];
    } else {
      KeepAll(nodes[..n], nodes[n].value);
    }
  }

  /** What is left when the i-th node is unlinked. */
  lemma Unlinked(was: seq<Link>, i: nat, now: seq<Link>)
    requires i < |was| && Distinct(ValuesOf(was)) && now == was[..i] + was[i + 1..]
    ensures Distinct(ValuesOf(now))
    ensures forall d :: d in ValuesOf(now) <==> d in ValuesOf(was) && d != was[i].value
  {
    var v := ValuesOf(was);
    assert ValuesOf(now) == v[..i] + v[i + 1..];
    forall d
      ensures d in ValuesOf(now) <==> d in v && d != v[i]
    {
      assert d in v[..i] + [v[i]] + v[i + 1..] <==> d in v by {
        assert v == v[..i] + [v[i]] + v[i + 1..];
      }
    }
  }

  lemma OneMore(was: seq<Link>, node: Link)
    requires Distinct(ValuesOf(was)) && node.value !in ValuesOf(was)
    ensures ValuesOf(was + [node]) == ValuesOf(was) + [node.value] && Distinct(ValuesOf(was + [node]))
  {
    assert ValuesOf(was + [node]) == ValuesOf(was) + [node.value];
  }

  lemma {:induction false} KeepAll(nodes: seq<Link>, d: Device)
    requires d !in ValuesOf(nodes)
    ensures Keep(nodes, {d}) == nodes
  {
    if nodes != [] {
      var n := |nodes| - 1;
      assert ValuesOf(nodes)[n] != d && ValuesOf(nodes)[..n] == ValuesOf(nodes[..n]);
      KeepAll(nodes[..n], d);
    }
  }

  /** The nodes of the list, the forest on it, and the calls of destroy functions
      so far. */
  datatype State = State(nodes: seq<Link>, kids: Forest<Device>, destroyed: seq<Device>)
  {
    function Devices(): seq<Device> { ValuesOf(nodes) }
  }

  /** From a to b, the devices in r have gone, in that order. */
  ghost predicate Gone(a: State, r: seq<Device>, b: State) {
    && b.nodes == Keep(a.nodes, Elements(r))
    && b.kids == a.kids - Elements(r)
    && b.destroyed == a.destroyed + Destructible(r)
  }

  lemma GoneNone(a: State)
    ensures Gone(a, [], a)
  {
    KeepNone(a.nodes);
    assert Elements<Device>([]) == {};
  }

  lemma GoneKids(a: State, r: seq<Device>, b: State)
    requires Gone(a, r, b)
    ensures b.kids == a.kids - Elements(r)
  {
  }

  /** A node that is not of the devices gone is still there. */
  lemma GoneKeeps(a: State, r: seq<Device>, b: State, n: Link) returns (k: nat)
    requires Gone(a, r, b) && n in a.nodes && n.value !in Elements(r)
    ensures k < |b.nodes| && b.nodes[k] == n
  {
    KeepMember(a.nodes, Elements(r));
    k :| k < |b.nodes| && b.nodes[k] == n;
  }

  /** A device gone after its subdevices. */
  lemma GoneLast(a: State, r: seq<Device>, mid: State, d: Device, b: State)
    requires Gone(a, r, mid.(kids := a.kids - Elements(r)))
    requires mid.kids - {d} == a.kids - Elements(r) - {d}
    requires b.nodes == Keep(mid.nodes, {d}) && b.kids == mid.kids - {d}
    requires b.destroyed == mid.destroyed + (if d.destructible then [d] else [])
    ensures Gone(a, r + [d], b)
  {
    hide Gone;
    GoneOne(mid.(kids := a.kids - Elements(r)), d, b);
    GoneThen(a, r, mid.(kids := a.kids - Elements(r)), [d], b);
  }

  lemma GoneOne(a: State, d: Device, b: State)
    requires b.nodes == Keep(a.nodes, {d}) && b.kids == a.kids - {d}
    requires b.destroyed == a.destroyed + (if d.destructible then [d] else [])
    ensures Gone(a, [d], b)
  {
    ElementsOne(d);
    DestructibleOne(d);
  }

  lemma GoneThen(a: State, r: seq<Device>, b: State, s: seq<Device>, c: State)
    requires Gone(a, r, b) && Gone(b, s, c)
    ensures Gone(a, r + s, c)
  {
    hide Keep, Destructible;
    KeepBoth(a.nodes, Elements(r), Elements(s));
    ElementsBoth(r, s);
    DestructibleBoth(r, s);
  }

  /** The list of devices. */
  class Registry {
    const list: List<Device>
    /** The nodes of the list. */
    ghost var nodes: seq<Link>
    /** The registered devices and their subdevices. */
    ghost var kids: Forest<Device>
    /** The calls of destroy functions so far. */
    ghost var destroyed: seq<Device>

    /** driver_init, on the storage of the two sentinels of the list. */
    constructor (head: Link, tail: Link)
      requires head != tail
      modifies head, tail
      ensures Valid() && fresh(list.Repr - {head, tail}) && nodes == [] && destroyed == []
    {
      list := new List(head, tail);
      nodes, kids, destroyed := [], map[], [];
    }

    /** The registered devices, in order. */
    ghost function Devices(): seq<Device>
      reads this
    {
      ValuesOf(nodes)
    }

    ghost predicate Valid()
      reads this, list, list.Repr, list.head, list.tail, Devices()
    {
      OnList() && Sound()
    }

    /** The list holds the nodes. */
    ghost predicate OnList()
      reads this, list, list.Repr, list.head, list.tail
    {
      list.Valid() && this !in list.Repr && nodes == list.Items()
    }

    /** The forest is that of the devices, which are distinct. */
    ghost predicate Sound()
      reads this, list, Devices()
    {
      && Distinct(Devices())
      && (forall d | d in kids :: d in Devices())
      && forall d | d in Devices() :: d !in list.Repr && d in kids && d.Valid() && d.Kids() == kids[d]
    }

    ghost function Now(): State
      reads this
    {
      State(nodes, kids, destroyed)
    }

    /** The list part of device_register, for a device that is not on the list. */
    method Register(device: Device)
      requires Valid() && device.Valid() && device !in Devices() && device !in list.Repr
      modifies this, list, list.Repr
      ensures Valid() && Devices() == old(Devices()) + [device] && kids == old(kids)[device := device.Kids()]
      ensures fresh(list.Repr - old(list.Repr)) && destroyed == old(destroyed)
    {
      hide Distinct, ValuesOf, List.Valid, List.Items;
      var node := new Node(device);
      ghost var was := nodes;
      OneMore(was, node);
      assert Sound() && OnList();
      list.Append(node);
      nodes, kids := list.Items(), kids[device := device.Kids()];
      forall d | d in Devices()
        ensures d !in list.Repr && d in kids && d.Valid() && d.Kids() == kids[d]
      {
        assert d != device ==> old(d in Devices() && d !in list.Repr && d in kids && d.Kids() == kids[d]);
      }
    }

    /** device_deregister: the device and all it reaches go, children first. */
    method Deregister(device: Device, ghost rank: Device -> nat) returns (found: bool)
      requires Valid() && Acyclic(kids, rank)
      modifies this, list, list.Repr, Devices()
      ensures found <==> device in old(Devices())
      ensures Valid() && list.Repr == old(list.Repr) && forall d | d in Devices() :: d in old(Devices())
      ensures Gone(old(Now()), old(Removal(kids, rank, device)), Now())
      decreases rank(device), 3
    {
      var current, i := list.Find(device);
      if current == null {
        assert device !in Devices();
        hide Gone, Removal;
        RemovalOf(kids, rank, device);
        GoneNone(Now());
        return false;
      }
      Take(current, i, rank);
      return true;
    }

    /** What device_deregister does at the node of the device. */
    method Take(current: Link, ghost i: nat, ghost rank: Device -> nat)
      requires Valid() && Acyclic(kids, rank) && i < |nodes| && nodes[i] == current
      modifies this, list, list.Repr, Devices()
      ensures Valid() && list.Repr == old(list.Repr) && forall d | d in Devices() :: d in old(Devices())
      ensures Gone(old(Now()), old(Removal(kids, rank, current.value)), Now())
      decreases rank(current.value), 2
    {
      var device := current.value;
      assert Devices()[i] == device;
      hide Gone, Removal, RemovalAll, Acyclic, Below, Distinct, Elements, Keep, ValuesOf, OnList;
      ghost var start := Now();
      RemovalOf(kids, rank, device);
      ghost var r: seq<Device> := RemovalAll(kids, rank, kids[device], rank(device));
      var _ := DeregisterSubdevices(device, rank);
      ghost var mid := Now();
      ghost var k := GoneKeeps(start, r, mid.(kids := start.kids - Elements(r)), current);
      Destroy(device);
      Drop(current, k);
      GoneLast(start, r, mid, device, Now());
    }

    /** The call of the destroy function, if there is one. */
    method Destroy(device: Device)
      requires Valid()
      modifies this`destroyed
      ensures Valid() && destroyed == old(destroyed) + if device.destructible then [device] else []
    {
      if device.destructible {
        destroyed := destroyed + [device];
      }
    }

    /** The end of device_deregister: the node found before is unlinked now. */
    method Drop(current: Link, ghost i: nat)
      requires Valid() && i < |nodes| && nodes[i] == current
      modifies this`nodes, this`kids, list, list.Repr
      ensures Valid() && list.Repr == old(list.Repr) && forall d | d in Devices() :: d in old(Devices())
      ensures nodes == Keep(old(nodes), {current.value}) && kids == old(kids) - {current.value}
    {
      ghost var was := nodes;
      assert i + 2 < |list.spine| && list.spine[i + 1] == current;
      hide Keep, Distinct, ValuesOf, List.Valid, List.Items;
      KeepOthers(was, i);
      list.Remove(current, i);
      nodes, kids := list.Items(), kids - {current.value};
      Unlinked(was, i, nodes);
      forall d | d in Devices()
        ensures d !in list.Repr && d in kids && d.Valid() && d.Kids() == kids[d]
      {
        assert old(d in Devices() && d !in list.Repr && d in kids && d.Valid() && d.Kids() == kids[d]);
      }
    }

    /** The end of device_deregister_subdevices. */
    method ResetCount(device: Device)
      requires Valid() && device.Valid() && device.subdevices.Array? && device !in list.Repr
      modifies this`kids, device
      ensures Valid() && device.Valid() && device.Kids() == [] && kids - {device} == old(kids) - {device}
      ensures device in kids <==> device in old(kids)
    {
      list.Sentinels();
      hide Distinct, ValuesOf, OnList;
      device.numSubdevices := 0;
      assert device.Kids() == [];
      if device in kids {
        kids := kids[device := []];
      }
      forall d | d in Devices()
        ensures d !in list.Repr && d in kids && d.Valid() && d.Kids() == kids[d]
      {
        if d != device {
          assert old(d !in list.Repr && d in kids && d.Valid() && d.Kids() == kids[d]);
        }
      }
    }

    /** device_deregister_subdevices. */
    method DeregisterSubdevices(device: Device, ghost rank: Device -> nat) returns (any: bool)
      requires Valid() && Acyclic(kids, rank) && device !in list.Repr
      requires device.Valid() && Below(device.Kids(), rank, rank(device))
      modifies this, list, list.Repr, Devices(), device
      ensures any <==> device.subdevices.Array?
      ensures device in Devices() <==> device in old(Devices())
      ensures Valid() && list.Repr == old(list.Repr) && forall d | d in Devices() :: d in old(Devices())
      ensures device.Valid() && device.Kids() == []
      ensures var r := old(RemovalAll(kids, rank, device.Kids(), rank(device)));
              && Gone(old(Now()), r, Now().(kids := old(kids) - Elements(r)))
              && kids - {device} == old(kids) - Elements(r) - {device}
      decreases rank(device), 1
    {
      hide Gone, Removal, RemovalAll, Acyclic, Below, Distinct, Elements, Keep, OnList;
      ghost var start := Now();
      ghost var ds: seq<Device>, bound := device.Kids(), rank(device);
      GoneNone(start);
      ElementsNone<Device>();
      RemovalNone(kids, rank, bound);
      if device.subdevices.Null? {
        return false;
      }
      var i := 0;
      ghost var r: seq<Device> := [];
      while i < device.numSubdevices
        invariant i <= |ds| == device.numSubdevices
        invariant device in kids ==> kids[device] == ds
        invariant Valid() && Below(ds[i..], rank, bound) && Acyclic(kids, rank)
        invariant list.Repr == old(list.Repr) && forall d | d in Devices() :: d in start.Devices()
        invariant device !in Elements(r) && kids == start.kids - Elements(r)
        invariant Gone(start, r, Now())
        invariant RemovalAll(start.kids, rank, ds, bound) == r + RemovalAll(kids, rank, ds[i..], bound)
        decreases |ds| - i
      {
        var subdevice := device.subdevices.items[i];
        assert subdevice == ds[i];
        ghost var before, first: seq<Device> := Now(), Removal(kids, rank, subdevice);
        RemovalStep(start.kids, r, rank, ds, i, device);
        assert forall k :: 0 <= k < |Devices()| ==> Devices()[k] in start.Devices();
        var _ := Deregister(subdevice, rank);
        GoneThen(start, r, before, first, Now());
        GoneKids(before, first, Now());
        assert device in kids ==> device.Kids() == ds;
        r := r + first;
        i := i + 1;
      }
      assert ds[i..] == [] && r + [] == r;
      RemovalNone(kids, rank, bound);
      ResetCount(device);
      return true;
    }
  }

  /** What a deregistration does to the list: exactly the device and its registered
      descendants go, the others keep their order, and no destroy function runs
      before those of the registered subdevices. */
  lemma DeregisterExactly(a: State, rank: Device -> nat, device: Device, b: State)
    requires Acyclic(a.kids, rank) && Gone(a, Removal(a.kids, rank, device), b)
    requires forall d | d in a.Devices() :: d in a.kids
    ensures forall d | d in a.Devices() :: d in b.Devices() <==> !Reaches(a.kids, device, d)
    ensures b.Devices() == Without(a.Devices(), set d | d in a.Devices() && Reaches(a.kids, device, d))
    ensures var r := Removal(a.kids, rank, device);
            Postorder(a.kids, r) && b.destroyed == a.destroyed + Destructible(r)
  {
    var r := Removal(a.kids, rank, device);
    RemovalPostorder(a.kids, rank, device);
    KeepValues(a.nodes, Elements(r));
    WithoutMember(a.Devices(), Elements(r));
    forall d | d in a.kids
      ensures d in r <==> Reaches(a.kids, device, d)
    {
      RemovedExactly(a.kids, rank, device, d);
    }
    WithoutSame(a.Devices(), Elements(r), set d | d in a.Devices() && Reaches(a.kids, device, d));
  }
}

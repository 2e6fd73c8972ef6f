/** kern/config.c: the configuration store, a hash table of hash tables. */
module Config {
  import opened Options
  import opened Slots
  import opened Settings
  import opened Htbl

  type Tables = map<Str, Table<Value>>
  type Arrays = map<Str, array<Entry<Value>>>

  /** The bindings of a table none of whose values is NULL. */
  function Bindings<V>(m: map<Str, V>): map<Str, Option<V>> {
    map k | k in m :: Some(m[k])
  }

  lemma BindingsMore<V>(m: map<Str, V>, k: Str, v: V)
    ensures Bindings(m[k := v]) == Bindings(m)[k := Some(v)]
  {
  }

  lemma BindingsSize<V>(m: map<Str, V>)
    ensures |Bindings(m)| == |m|
  {
    assert Bindings(m).Keys == m.Keys;
  }

  /** A table on its slot array stands for a map. */
  ghost predicate Holds<V>(t: Table<V>, entries: array<Entry<V>>, m: map<Str, V>)
    reads t, entries
  {
    t.entries == entries && t.Valid() && t.Tight() && t.M() == Bindings(m)
  }

  /** The outer table holds the tables of the namespaces. */
  ghost predicate Binds(t: Table<Table<Value>>, tables: Tables)
    reads t, t.entries
  {
    Holds(t, t.entries, tables)
  }

  /** Every table and every slot array belongs to one namespace. */
  ghost predicate Separate(tables: Tables, arrays: Arrays, owner: map<object, Str>) {
    forall ns | ns in tables ::
      && ns in arrays
      && tables[ns] in owner && owner[tables[ns]] == ns
      && arrays[ns] in owner && owner[arrays[ns]] == ns
  }

  lemma SeparateArray(tables: Tables, arrays: Arrays, owner: map<object, Str>, ns: Str, entries: array<Entry<Value>>)
    requires Separate(tables, arrays, owner) && ns in tables
    requires entries == arrays[ns] || entries !in owner
    ensures Separate(tables, arrays[ns := entries], owner[entries := ns])
  {
  }

  lemma SeparateTable(tables: Tables, arrays: Arrays, owner: map<object, Str>, ns: Str,
                      t: Table<Value>, entries: array<Entry<Value>>)
    requires Separate(tables, arrays, owner) && t !in owner && entries !in owner && (t as object) != entries
    ensures Separate(tables[ns := t], arrays[ns := entries], owner[t := ns][entries := ns])
  {
  }

  /** The abstract store, the tables of the namespaces and their slot arrays, and
      the namespace that each of these objects belongs to. */
  datatype Layout = Layout(values: Settings, tables: Tables, arrays: Arrays, owner: map<object, Str>)

  /** The outer table holds the tables of the namespaces, and these the values. */
  ghost predicate Stands(outer: Table<Table<Value>>, g: Layout)
    reads outer, outer.entries, g.owner.Keys
  {
    && Binds(outer, g.tables) && Outside(outer, g.owner)
    && Separate(g.tables, g.arrays, g.owner)
    && g.values.Keys == g.tables.Keys
    && forall ns | ns in g.tables :: Holds(g.tables[ns], g.arrays[ns], g.values[ns])
  }

  /** The outer table is none of the objects of a namespace. */
  ghost predicate Outside(outer: Table<Table<Value>>, owner: map<object, Str>)
    reads outer
  {
    outer !in owner && outer.entries !in owner
  }

  /** The layout after a put into the table of one namespace. */
  ghost function Replaced(g: Layout, ns: Str, entries: array<Entry<Value>>, m: map<Str, Value>): Layout {
    Layout(g.values[ns := m], g.tables, g.arrays[ns := entries], g.owner[entries := ns])
  }

  lemma StandsReplaced(outer: Table<Table<Value>>, g: Layout, ns: Str, entries: array<Entry<Value>>, m: map<Str, Value>)
    requires Binds(outer, g.tables) && Outside(outer, g.owner) && (entries as object) != outer.entries
    requires Separate(g.tables, g.arrays, g.owner) && g.values.Keys == g.tables.Keys
    requires ns in g.tables && (entries == g.arrays[ns] || entries !in g.owner)
    requires Holds(g.tables[ns], entries, m)
    requires forall a | a in g.tables && a != ns :: Holds(g.tables[a], g.arrays[a], g.values[a])
    ensures Stands(outer, Replaced(g, ns, entries, m))
  {
    hide Holds, Binds;
    SeparateArray(g.tables, g.arrays, g.owner, ns, entries);
    assert (entries as object) != outer;
  }

  /** The layout after a new table for a namespace. */
  ghost function Added(g: Layout, ns: Str, t: Table<Value>, entries: array<Entry<Value>>): Layout {
    Layout(g.values[ns := map[]], g.tables[ns := t], g.arrays[ns := entries], g.owner[t := ns][entries := ns])
  }

  lemma StandsAdded(outer: Table<Table<Value>>, g: Layout, ns: Str, t: Table<Value>, entries: array<Entry<Value>>)
    requires Binds(outer, g.tables[ns := t]) && Outside(outer, g.owner)
    requires (t as object) != outer.entries && (entries as object) != outer.entries
    requires Separate(g.tables, g.arrays, g.owner) && g.values.Keys == g.tables.Keys
    requires t !in g.owner && entries !in g.owner && Holds(t, entries, map[])
    requires forall a | a in g.tables :: Holds(g.tables[a], g.arrays[a], g.values[a])
    ensures Stands(outer, Added(g, ns, t, entries))
  {
    hide Holds, Binds;
    assert (t as object) != entries && (t as object) != outer && (entries as object) != outer;
    SeparateTable(g.tables, g.arrays, g.owner, ns, t, entries);
  }

  /** The settings. */
  class Config {
    const namespaces: Table<Table<Value>>
    ghost var g: Layout

    ghost predicate Valid()
      reads this, namespaces, namespaces.entries, g.owner.Keys
    {
      Stands(namespaces, g) && this !in g.owner
    }

    /** The abstract store. */
    ghost function Values(): Settings
      reads this
    {
      g.values
    }

    /** config_init. */
    constructor ()
      ensures Valid() && Values() == map[] && g.owner == map[]
      ensures fresh(namespaces) && fresh(namespaces.entries)
    {
      namespaces := new Table<Table<Value>>();
      g := Layout(map[], map[], map[], map[]);
    }

    /** The table of a registered namespace: the first lookup of config_get_common
        and config_set_common. */
    method Namespace(ns: Str) returns (t: Table<Value>)
      requires Valid() && ns in Values()
      ensures ns in g.tables && t == g.tables[ns] && t in g.owner && t.entries in g.owner
    {
      assert Holds(g.tables[ns], g.arrays[ns], g.values[ns]);
      hide Table.Valid, Table.M;
      var table := namespaces.Get(ns);
      t := table.value;
    }

    /** config_get_common. The code asserts that the namespace is registered. */
    method GetCommon(ns: Str, key: Str) returns (value: Option<Value>)
      requires Valid() && ns in Values()
      ensures value == Lookup(Values(), Path(ns, key))
    {
      var t := Namespace(ns);
      assert Holds(t, g.arrays[ns], g.values[ns]);
      value := t.Get(key);
    }

    /** config_set_common, with a value of any type. */
    method SetCommon(ns: Str, key: Str, value: Value)
      requires Valid() && ns in Values() && |Values()[ns]| < MAX_KEYS
      modifies this`g, g.owner.Keys
      ensures Valid() && fresh(g.owner.Keys - old(g.owner.Keys)) && namespaces.entries == old(namespaces.entries)
      ensures Values() == Assign(old(Values()), Path(ns, key), value)
    {
      hide Stands, Assign;
      var t := Namespace(ns);
      ghost var next := PutInto(namespaces, g, t, ns, key, value);
      g := next;
    }

    /** config_newns: a namespace that is there already loses its settings. */
    method NewNamespace(name: Str)
      requires Valid() && |Values()| < MAX_KEYS
      modifies this`g, namespaces, namespaces.entries
      ensures Valid() && fresh(g.owner.Keys - old(g.owner.Keys))
      ensures namespaces.entries == old(namespaces.entries) || fresh(namespaces.entries)
      ensures Values() == old(Values())[name := map[]]
    {
      hide Holds, Binds, Table.Valid, Table.M;
      var t := EmptyTable();
      assert Stands(namespaces, g) && t !in g.owner && t.entries !in g.owner;
      hide Stands;
      ghost var next := AddTable(namespaces, g, name, t);
      g := next;
    }

    /** What the code asserts: the namespace of the path is registered. */
    ghost predicate Reachable(path: Str)
      reads this
    {
      ParseKey(path).Some? ==> ParseKey(path).value.ns in Values()
    }

    /** The namespace of the path has fewer keys than a table can address. */
    ghost predicate RoomAt(path: Str)
      requires Reachable(path)
      reads this
    {
      ParseKey(path).Some? ==> |Values()[ParseKey(path).value.ns]| < MAX_KEYS
    }

    /** config_parse_key. */
    static method SplitPath(path: Str) returns (p: Option<Path>)
      ensures p == ParseKey(path)
    {
      var i := 0;
      while i < |path| && path[i] != COLON
        invariant 0 <= i <= |path| && COLON !in path[..i]
      {
        i := i + 1;
      }
      if i == |path| {
        NoSeparator(path);
        return None;
      }
      SeparatorIs(path, i);
      return Some(Path(path[..i], path[i + 1..]));
    }

    /** config_setint, config_setstr and config_setobj: a path without a colon is
        ignored. */
    method Set(path: Str, value: Value)
      requires Valid() && Reachable(path) && RoomAt(path)
      modifies this`g, g.owner.Keys
      ensures Valid() && fresh(g.owner.Keys - old(g.owner.Keys)) && namespaces.entries == old(namespaces.entries)
      ensures Values() == if ParseKey(path) == None then old(Values()) else Assign(old(Values()), ParseKey(path).value, value)
      ensures forall q :: Found(Values(), q) == if q == path && COLON in path then Some(value) else old(Found(Values(), q))
    {
      hide Found, Stands, Assign, Lookup;
      var p := SplitPath(path);
      ParseKeyExact(path, Path([], []));
      if p == None {
        return;
      }
      AssignFound(Values(), path, value);
      SetCommon(p.value.ns, p.value.key, value);
    }

    /** config_exists and the common part of the getters. */
    method Get(path: Str) returns (value: Option<Value>)
      requires Valid() && Reachable(path)
      ensures value == Found(Values(), path)
    {
      hide Stands;
      var p := SplitPath(path);
      if p == None {
        return None;
      }
      value := GetCommon(p.value.ns, p.value.key);
    }

    /** config_getint: 0 for a path that is not there or is not an int. */
    method GetInt(path: Str) returns (n: int)
      requires Valid() && Reachable(path)
      ensures match Found(Values(), path) case Some(IntValue(v)) => n == v case _ => n == 0
    {
      var value := Get(path);
      match value {
        case Some(IntValue(v)) => n := v;
        case _ => n := 0;
      }
    }

    /** config_getstr: NULL for a path that is not there or is not a string. */
    method GetStr(path: Str) returns (s: Option<Str>)
      requires Valid() && Reachable(path)
      ensures match Found(Values(), path) case Some(StrValue(v)) => s == Some(v) case _ => s == None
    {
      var value := Get(path);
      match value {
        case Some(StrValue(v)) => s := Some(v);
        case _ => s := None;
      }
    }

    /** config_gettype: 1, 2 or 3 for an int, a string or an object, 0 for none. */
    method GetType(path: Str) returns (kind: nat)
      requires Valid() && Reachable(path)
      ensures kind == 0 <==> Found(Values(), path) == None
      ensures kind != 0 ==> var v := Found(Values(), path).value;
                            (kind == 1 <==> v.IntValue?) && (kind == 2 <==> v.StrValue?) && (kind == 3 <==> v.ObjValue?)
    {
      var value := Get(path);
      match value {
        case None => kind := 0;
        case Some(IntValue(_)) => kind := 1;
        case Some(StrValue(_)) => kind := 2;
        case Some(ObjValue(_)) => kind := 3;
      }
    }
  }

  /** One operation on a store with few keys. */
  method Perform(c: Config, op: Op)
    requires c.Valid() && |c.Values()| < MAX_KEYS
    requires op.SetPath? ==> c.Reachable(op.path) && c.RoomAt(op.path)
    modifies c`g, c.namespaces, c.namespaces.entries, c.g.owner.Keys
    ensures c.Valid() && c.Values() == Apply(old(c.Values()), op)
    ensures fresh(c.g.owner.Keys - old(c.g.owner.Keys))
    ensures c.namespaces.entries == old(c.namespaces.entries) || fresh(c.namespaces.entries)
  {
    ApplyIs(c.Values(), op);
    hide Stands, Apply, Assign;
    match op {
      case Register(ns) => c.NewNamespace(ns);
      case SetPath(path, value) => c.Set(path, value);
    }
  }

  /** A run from config_init on: the store holds what the run amounts to. Up to 2^26
      operations cannot fill a table. */
  method Replay(ops: seq<Op>) returns (c: Config)
    requires Legal(ops) && |ops| <= MAX_KEYS
    ensures fresh(c) && c.Valid() && c.Values() == After(ops)
  {
    hide Stands, Apply;
    c := new Config();
    var k := 0;
    assert ops[..0] == [];
    while k < |ops|
      invariant 0 <= k <= |ops| && c.Valid() && c.Values() == After(ops[..k])
      invariant fresh(c) && fresh(c.namespaces) && fresh(c.namespaces.entries) && fresh(c.g.owner.Keys)
    {
      AfterSize(ops[..k]);
      AfterNext(ops, k);
      assert LegalAt(ops, k);
      Perform(c, ops[k]);
      k := k + 1;
    }
    assert ops[..k] == ops;
  }

  lemma ApplyIs(s: Settings, op: Op)
    ensures op.Register? ==> Apply(s, op) == s[op.ns := map[]]
    ensures op.SetPath? && ParseKey(op.path) == None ==> Apply(s, op) == s
    ensures op.SetPath? && ParseKey(op.path).Some? && ParseKey(op.path).value.ns in s ==>
              Apply(s, op) == Assign(s, ParseKey(op.path).value, op.value)
  {
  }

  /** htbl_create. */
  method EmptyTable() returns (t: Table<Value>)
    ensures fresh(t) && fresh(t.entries) && Holds(t, t.entries, map[])
  {
    t := new Table<Value>();
  }

  /** A put into a table. */
  method PutValue<V>(t: Table<V>, ghost m: map<Str, V>, key: Str, value: V)
    requires Holds(t, t.entries, m) && |m| < MAX_KEYS
    modifies t, t.entries
    ensures t.entries == old(t.entries) || fresh(t.entries)
    ensures Holds(t, t.entries, m[key := value])
  {
    hide Table.Valid, Table.M, Bindings;
    BindingsSize(m);
    BindingsMore(m, key, value);
    t.RoomForKey();
    t.Put(key, Some(value));
  }

  /** The put of config_set_common among the tables of the other namespaces. */
  method PutInto(outer: Table<Table<Value>>, ghost g: Layout, t: Table<Value>, ghost ns: Str, key: Str, value: Value)
    returns (ghost next: Layout)
    requires Stands(outer, g) && ns in g.tables && t == g.tables[ns] && |g.values[ns]| < MAX_KEYS
    modifies t, t.entries
    ensures Stands(outer, next) && next.tables == g.tables && next.owner == g.owner[t.entries := ns]
    ensures next.values == Assign(g.values, Path(ns, key), value)
    ensures t.entries == old(t.entries) || fresh(t.entries)
  {
    assert Holds(t, g.arrays[ns], g.values[ns]);
    assert forall a | a in g.tables && a != ns :: g.tables[a] != t && g.arrays[a] != t.entries;
    hide Holds, Binds;
    PutValue(t, g.values[ns], key, value);
    forall a | a in g.tables && a != ns
      ensures Holds(g.tables[a], g.arrays[a], g.values[a])
    {
      assert old(Holds(g.tables[a], g.arrays[a], g.values[a]));
    }
    next := Replaced(g, ns, t.entries, g.values[ns][key := value]);
    StandsReplaced(outer, g, ns, t.entries, g.values[ns][key := value]);
  }

  /** The put of config_newns beside the tables of the other namespaces. */
  method AddTable(outer: Table<Table<Value>>, ghost g: Layout, name: Str, t: Table<Value>) returns (ghost next: Layout)
    requires Stands(outer, g) && |g.values| < MAX_KEYS && Holds(t, t.entries, map[])
    requires t !in g.owner && t.entries !in g.owner
    requires (t as object) != outer.entries && (t.entries as object) != outer.entries
    modifies outer, outer.entries
    ensures Stands(outer, next) && next.owner == g.owner[t := name][t.entries := name]
    ensures next.values == g.values[name := map[]]
    ensures outer.entries == old(outer.entries) || fresh(outer.entries)
  {
    SameSize(g.values, g.tables);
    hide Holds;
    ghost var entries := t.entries;
    PutValue(outer, g.tables, name, t);
    assert t.entries == entries;
    hide Binds;
    forall a | a in g.tables
      ensures Holds(g.tables[a], g.arrays[a], g.values[a])
    {
      assert old(Holds(g.tables[a], g.arrays[a], g.values[a]));
    }
    next := Added(g, name, t, entries);
    StandsAdded(outer, g, name, t, entries);
  }

  lemma SameSize<K, V, W>(a: map<K, V>, b: map<K, W>)
    requires a.Keys == b.Keys
    ensures |a| == |b|
  {
  }
}

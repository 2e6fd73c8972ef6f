/** What the configuration store of kern/config.c holds: typed values under
    paths of the form namespace:key. */
module Settings {
  import opened Words
  import opened Options
  import opened Slots

  /** struct config_value. */
  datatype Value = IntValue(ival: int) | StrValue(sval: Str) | ObjValue(oval: U32)

  type Settings = map<Str, map<Str, Value>>

  const COLON: Byte := 58

  datatype Path = Path(ns: Str, key: Str)

  function Separator(path: Str): (i: nat)
    ensures i <= |path| && COLON !in path[..i] && (i < |path| ==> path[i] == COLON)
  {
    if path == [] || path[0] == COLON then 0 else
      var i := Separator(path[1..]) + 1;
      assert path[..i] == [path[0]] + path[1..][..i - 1];
      i
  }

  /** config_parse_key: the path is split at the first colon. */
  function ParseKey(path: Str): Option<Path> {
    var i := Separator(path);
    if i == |path| then None else Some(Path(path[..i], path[i + 1..]))
  }

  lemma {:induction false} SeparatorIs(path: Str, n: nat)
    requires n < |path| && path[n] == COLON && COLON !in path[..n]
    ensures Separator(path) == n
  {
    if n > 0 {
      assert path[0] == path[..n][0];
      assert path[1..][..n - 1] == path[..n][1..];
      SeparatorIs(path[1..], n - 1);
    }
  }

  lemma NoSeparator(path: Str)
    requires COLON !in path
    ensures Separator(path) == |path|
  {
  }

  /** Exactly the paths with a colon are split, and the parts tell the path. */
  lemma ParseKeyExact(path: Str, p: Path)
    ensures ParseKey(path) == None <==> COLON !in path
    ensures ParseKey(path) == Some(p) <==> path == p.ns + [COLON] + p.key && COLON !in p.ns
  {
    var i := Separator(path);
    if i == |path| {
      assert path[..i] == path;
    } else {
      assert path == path[..i] + [COLON] + path[i + 1..];
    }
    if path == p.ns + [COLON] + p.key && COLON !in p.ns {
      var n := |p.ns|;
      assert path[n] == COLON && path[..n] == p.ns && path[n + 1..] == p.key;
      SeparatorIs(path, n);
    }
  }

  /** The value under a path, if the namespace and the key are there. */
  function Lookup(s: Settings, p: Path): Option<Value> {
    if p.ns in s && p.key in s[p.ns] then Some(s[p.ns][p.key]) else None
  }

  function Found(s: Settings, path: Str): Option<Value> {
    var p := ParseKey(path);
    if p == None then None else Lookup(s, p.value)
  }

  /** A value set under a path of a registered namespace. */
  function Assign(s: Settings, p: Path, v: Value): Settings
    requires p.ns in s
  {
    s[p.ns := s[p.ns][p.key := v]]
  }

  /** Setting one path changes what is found there, whatever type it had before,
      and nothing under any other path. */
  lemma AssignOneOnly(s: Settings, path: Str, v: Value, other: Str)
    requires ParseKey(path).Some? && ParseKey(other).Some? && ParseKey(path).value.ns in s
    ensures Lookup(Assign(s, ParseKey(path).value, v), ParseKey(other).value)
         == if other == path then Some(v) else Lookup(s, ParseKey(other).value)
  {
    var p, q := ParseKey(path).value, ParseKey(other).value;
    ParseKeyExact(path, p);
    ParseKeyExact(other, q);
  }

  /** The same for every path, split or not. */
  lemma AssignFound(s: Settings, path: Str, v: Value)
    requires ParseKey(path).Some? && ParseKey(path).value.ns in s
    ensures forall q :: Found(Assign(s, ParseKey(path).value, v), q) == if q == path then Some(v) else Found(s, q)
  {
    forall q
      ensures Found(Assign(s, ParseKey(path).value, v), q) == if q == path then Some(v) else Found(s, q)
    {
      if ParseKey(q).Some? {
        AssignOneOnly(s, path, v, q);
      }
    }
  }

  // ---- runs

  /** config_newns, or a set of any type. */
  datatype Op = Register(ns: Str) | SetPath(path: Str, value: Value)

  function Apply(s: Settings, op: Op): Settings {
    match op
    case Register(ns) => s[ns := map[]]
    case SetPath(path, v) =>
      if ParseKey(path).Some? && ParseKey(path).value.ns in s then Assign(s, ParseKey(path).value, v) else s
  }

  /** The settings after a run. */
  function After(ops: seq<Op>): Settings {
    if ops == [] then map[] else Apply(After(ops[..|ops| - 1]), ops[|ops| - 1])
  }

  /** What the code asserts of the k-th operation: the namespace is registered. */
  ghost predicate LegalAt(ops: seq<Op>, k: nat)
    requires k < |ops|
  {
    ops[k].SetPath? && ParseKey(ops[k].path).Some? ==> ParseKey(ops[k].path).value.ns in After(ops[..k])
  }

  ghost predicate Legal(ops: seq<Op>) {
    forall k :: 0 <= k < |ops| ==> LegalAt(ops, k)
  }

  /** The operation changes what is found under the path. */
  predicate Concerns(op: Op, path: Str) {
    match op
    case Register(ns) => ParseKey(path).Some? && ParseKey(path).value.ns == ns
    case SetPath(p, _) => p == path
  }

  lemma AfterNext(ops: seq<Op>, k: nat)
    requires k < |ops|
    ensures After(ops[..k + 1]) == Apply(After(ops[..k]), ops[k])
  {
    assert ops[..k + 1][..k] == ops[..k];
  }

  lemma LegalBefore(ops: seq<Op>)
    requires ops != [] && Legal(ops)
    ensures Legal(ops[..|ops| - 1]) && LegalAt(ops, |ops| - 1)
  {
    var before := ops[..|ops| - 1];
    forall k | 0 <= k < |before|
      ensures LegalAt(before, k)
    {
      assert LegalAt(ops, k) && before[..k] == ops[..k];
    }
  }

  /** What one operation does to one path. */
  lemma ApplyFound(s: Settings, op: Op, path: Str)
    requires op.SetPath? && ParseKey(op.path).Some? ==> ParseKey(op.path).value.ns in s
    ensures Found(Apply(s, op), path) ==
            if !Concerns(op, path) then Found(s, path)
            else if op.SetPath? && ParseKey(path).Some? then Some(op.value) else None
  {
    if op.SetPath? && ParseKey(op.path).Some? && ParseKey(path).Some? {
      AssignOneOnly(s, op.path, op.value, path);
    }
  }

  /** In every run, a path holds the value last set, unless its namespace has been
      registered since. */
  lemma {:induction false} LastSet(ops: seq<Op>, k: nat)
    requires Legal(ops) && k < |ops| && ops[k].SetPath? && ParseKey(ops[k].path).Some?
    requires forall j :: k < j < |ops| ==> !Concerns(ops[j], ops[k].path)
    ensures Found(After(ops), ops[k].path) == Some(ops[k].value)
  {
    var n := |ops| - 1;
    LegalBefore(ops);
    ApplyFound(After(ops[..n]), ops[n], ops[k].path);
    if k < n {
      LastSet(ops[..n], k);
    }
  }

  /** And it holds nothing if it was not set since then, or not at all. */
  lemma {:induction false} NotSet(ops: seq<Op>, path: Str, k: nat)
    requires Legal(ops) && k <= |ops| && (k > 0 ==> ops[k - 1].Register? && Concerns(ops[k - 1], path))
    requires forall j :: k <= j < |ops| ==> !Concerns(ops[j], path)
    ensures Found(After(ops), path) == None
  {
    if ops != [] {
      var n := |ops| - 1;
      LegalBefore(ops);
      ApplyFound(After(ops[..n]), ops[n], path);
      if k <= n {
        NotSet(ops[..n], path, k);
      }
    }
  }

  /** Each operation adds a key at most. */
  lemma {:induction false} AfterSize(ops: seq<Op>)
    ensures |After(ops)| <= |ops|
    ensures forall ns | ns in After(ops) :: |After(ops)[ns]| <= |ops|
  {
    if ops != [] {
      AfterSize(ops[..|ops| - 1]);
    }
  }
}

/** Parameters in one flat map under prefixed keys, and the tree of groups that
    the map stands for. */
module Parameters {
  import opened Strings

  // ------------------------------------------------------------ prefixed keys

  /** The prefix of the group that is reached by naming subgroups from the root. */
  function Prefix(path: seq<string>): string {
    if path == [] then "" else path[0] + "/" + Prefix(path[1..])
  }

  /** Names without the group separator. */
  ghost predicate CleanPath(path: seq<string>) {
    forall name :: name in path ==> '/' !in name
  }

  /** The key is directly in the group, not in a subgroup. */
  predicate Direct(key: string, prefix: string) {
    prefix <= key && '/' !in key[|prefix|..]
  }

  /** `subgroup` extends the prefix by one name. */
  lemma {:induction false} PrefixOfSubgroup(path: seq<string>, name: string)
    ensures Prefix(path + [name]) == Prefix(path) + name + "/"
  {
    if path == [] {
      assert ([] + [name])[1..] == [];
    } else {
      assert (path + [name])[1..] == path[1..] + [name];
      PrefixOfSubgroup(path[1..], name);
    }
  }

  lemma FirstSeparator(a: string, b: string, u: string, v: string)
    requires a + "/" + u == b + "/" + v && '/' !in a && '/' !in b
    ensures a == b && u == v
  {
    var key := a + "/" + u;
    assert key[|a|] == '/' && key[|b|] == '/';
    assert forall k :: 0 <= k < |a| ==> key[k] == a[k] && key[k] != '/';
    assert forall k :: 0 <= k < |b| ==> key[k] == b[k] && key[k] != '/';
    assert key[..|a|] == a && key[..|b|] == b;
    assert key[|a| + 1..] == u && key[|b| + 1..] == v;
  }

  /** No key is directly in two groups. */
  lemma {:induction false} InOneGroupOnly(p: seq<string>, q: seq<string>, key: string)
    requires CleanPath(p) && CleanPath(q) && Direct(key, Prefix(p)) && Direct(key, Prefix(q))
    ensures p == q
    decreases |p|
  {
    if p == [] || q == [] {
      HasSeparator(p);
      HasSeparator(q);
      assert forall path :: Prefix(path) <= key && '/' in Prefix(path) ==> '/' in key;
    } else {
      var u, v := key[|p[0]| + 1..], key[|q[0]| + 1..];
      assert key == p[0] + "/" + u && key == q[0] + "/" + v;
      FirstSeparator(p[0], q[0], u, v);
      DirectBelow(p, key, u);
      DirectBelow(q, key, v);
      InOneGroupOnly(p[1..], q[1..], u);
      assert p == [p[0]] + p[1..] && q == [q[0]] + q[1..];
    }
  }

  lemma HasSeparator(path: seq<string>)
    ensures path != [] ==> '/' in Prefix(path)
  {
    if path != [] {
      assert Prefix(path)[|path[0]|] == '/';
    }
  }

  lemma DirectBelow(path: seq<string>, key: string, rest: string)
    requires path != [] && Direct(key, Prefix(path)) && key == path[0] + "/" + rest
    ensures Direct(rest, Prefix(path[1..]))
  {
    var below := Prefix(path[1..]);
    var n := |path[0]| + 1;
    assert Prefix(path) == path[0] + "/" + below;
    assert below == Prefix(path)[n..] && rest == key[n..];
    assert Prefix(path)[n..] == key[..|Prefix(path)|][n..] == key[n..][..|below|];
    assert rest[|below|..] == key[|Prefix(path)|..];
  }

  /** Every key is directly in some group. */
  lemma {:induction false} InSomeGroup(key: string) returns (path: seq<string>, name: string)
    ensures CleanPath(path) && '/' !in name && key == Prefix(path) + name
    decreases |key|
  {
    if '/' !in key {
      path, name := [], key;
    } else {
      var i := Find(key, '/');
      FindSplits(key, '/', i);
      var first, rest := key[..i], key[i + 1..];
      var below, last := InSomeGroup(rest);
      path, name := [first] + below, last;
      assert path[1..] == below;
      assert key == first + "/" + rest;
      assert Prefix(path) + name == first + "/" + (Prefix(below) + last);
    }
  }

  // -------------------------------------------------- operations on the flat map

  /** The direct entries of the group with this prefix, by their names. */
  function Entries(data: Params, prefix: string): (e: Params)
    ensures forall name :: name in e <==> '/' !in name && prefix + name in data
    ensures forall name :: name in e ==> e[name] == data[prefix + name]
  {
    var names := set key | key in data && Direct(key, prefix) :: key[|prefix|..];
    assert forall name :: '/' !in name && prefix + name in data ==> (prefix + name)[|prefix|..] == name;
    assert forall key :: key in data && Direct(key, prefix) ==> prefix + key[|prefix|..] == key;
    map name | name in names :: data[prefix + name]
  }

  /** Without the direct entries of the group. */
  function Cleared(data: Params, prefix: string): Params {
    map key | key in data && !Direct(key, prefix) :: data[key]
  }

  /** Every entry of `source` put under the prefix, or only the missing ones. */
  function Filled(data: Params, prefix: string, source: Params, replace: bool): (r: Params)
    ensures forall key :: key in r <==> key in data || (prefix <= key && key[|prefix|..] in source)
    ensures forall key :: key in r ==>
              r[key] == if prefix <= key && key[|prefix|..] in source && (replace || key !in data)
                        then source[key[|prefix|..]] else data[key]
  {
    var added := set name | name in source :: prefix + name;
    assert forall name :: (prefix + name)[|prefix|..] == name;
    assert forall key :: prefix <= key ==> prefix + key[|prefix|..] == key;
    map key | key in data.Keys + added ::
      if prefix <= key && key[|prefix|..] in source && (replace || key !in data) then source[key[|prefix|..]] else data[key]
  }

  /** Both maps have the same at these keys, or nothing. */
  ghost predicate Same(a: Params, x: string, b: Params, y: string) {
    (x in a <==> y in b) && (x in a ==> a[x] == b[y])
  }

  lemma FillOneMoreAt(data: Params, prefix: string, part: Params, name: string, value: string, replace: bool, key: string)
    requires name !in part
    ensures var next, filled := Filled(data, prefix, part[name := value], replace), Filled(data, prefix, part, replace);
            Same(next, key, if replace || prefix + name !in filled then filled[prefix + name := value] else filled, key)
  {
    PartsOfKey(prefix, name);
    if prefix <= key {
      KeyParts(prefix, key);
    }
  }

  lemma FillOneMore(data: Params, prefix: string, part: Params, name: string, value: string, replace: bool)
    requires name !in part
    ensures var filled := Filled(data, prefix, part, replace);
            Filled(data, prefix, part[name := value], replace)
            == if replace || prefix + name !in filled then filled[prefix + name := value] else filled
  {
    var next, filled := Filled(data, prefix, part[name := value], replace), Filled(data, prefix, part, replace);
    var expected := if replace || prefix + name !in filled then filled[prefix + name := value] else filled;
    forall key ensures key in next <==> key in expected
               ensures key in next ==> next[key] == expected[key] {
      FillOneMoreAt(data, prefix, part, name, value, replace, key);
    }
  }

  datatype Op =
    | Set(path: seq<string>, name: string, value: string)
    | SetDefault(path: seq<string>, name: string, value: string)
    | Erase(path: seq<string>, name: string)
    | Clear(path: seq<string>)
    | FromMap(path: seq<string>, source: Params, clearBefore: bool, replace: bool)

  /** What a call on a group does to the flat map. */
  function OnFlat(data: Params, op: Op): Params {
    var prefix := Prefix(op.path);
    match op
    case Set(_, name, value) => data[prefix + name := value]
    case SetDefault(_, name, value) => if prefix + name in data then data else data[prefix + name := value]
    case Erase(_, name) => data - {prefix + name}
    case Clear(_) => Cleared(data, prefix)
    case FromMap(_, source, clearBefore, replace) =>
      Filled(if clearBefore then Cleared(data, prefix) else data, prefix, source, replace)
  }

  // ----------------------------------------------------------- the tree of groups

  datatype Group = Group(entries: Params, groups: map<string, Group>)

  const EMPTY := Group(map[], map[])

  /** The entries of a group; a group that is not there has none. */
  function At(tree: Group, path: seq<string>): Params
    decreases |path|
  {
    if path == [] then tree.entries
    else if path[0] in tree.groups then At(tree.groups[path[0]], path[1..])
    else map[]
  }

  /** The tree with other entries in one group. */
  function With(tree: Group, path: seq<string>, entries: Params): Group
    decreases |path|
  {
    if path == [] then tree.(entries := entries)
    else
      var below := if path[0] in tree.groups then tree.groups[path[0]] else EMPTY;
      tree.(groups := tree.groups[path[0] := With(below, path[1..], entries)])
  }

  lemma {:induction false} EmptyAt(path: seq<string>)
    ensures At(EMPTY, path) == map[]
  {
  }

  lemma {:induction false} WithAt(tree: Group, path: seq<string>, entries: Params, other: seq<string>)
    ensures At(With(tree, path, entries), other) == if other == path then entries else At(tree, other)
    decreases |path|
  {
    if path != [] && other != [] && path[0] == other[0] {
      var below := if path[0] in tree.groups then tree.groups[path[0]] else EMPTY;
      WithAt(below, path[1..], entries, other[1..]);
      EmptyAt(other[1..]);
      assert path == [path[0]] + path[1..] && other == [other[0]] + other[1..];
    }
  }

  /** What a call does to the entries of its group. */
  function OnEntries(e: Params, op: Op): Params {
    match op
    case Set(_, name, value) => e[name := value]
    case SetDefault(_, name, value) => if name in e then e else e[name := value]
    case Erase(_, name) => e - {name}
    case Clear(_) => map[]
    case FromMap(_, source, clearBefore, replace) =>
      var kept := if clearBefore then map[] else e;
      if replace then kept + source else source + kept
  }

  /** What a call on a group makes of one name: a set or a filling that replaces
      wins over what there is, a default and one that does not replace give way,
      and what is neither named nor cleared stays. */
  lemma EntryAfter(e: Params, op: Op, name: string)
    ensures var r := OnEntries(e, op);
            match op
            case Set(_, n, v) => if name == n then name in r && r[name] == v else Same(r, name, e, name)
            case SetDefault(_, n, v) => if name == n && name !in e then name in r && r[name] == v else Same(r, name, e, name)
            case Erase(_, n) => if name == n then name !in r else Same(r, name, e, name)
            case Clear(_) => name !in r
            case FromMap(_, source, clearBefore, replace) =>
              if name in source && (replace || clearBefore || name !in e) then name in r && r[name] == source[name]
              else if clearBefore then name !in r
              else Same(r, name, e, name)
  {
  }

  function OnTree(tree: Group, op: Op): Group {
    With(tree, op.path, OnEntries(At(tree, op.path), op))
  }

  ghost predicate CleanOp(op: Op) {
    && CleanPath(op.path)
    && (op.Set? || op.SetDefault? || op.Erase? ==> '/' !in op.name)
    && (op.FromMap? ==> forall name :: name in op.source ==> '/' !in name)
  }

  /** The flat map holds the entries of every group of the tree. */
  ghost predicate Represents(data: Params, tree: Group) {
    forall path :: CleanPath(path) ==> Entries(data, Prefix(path)) == At(tree, path)
  }

  lemma KeyParts(prefix: string, key: string)
    requires prefix <= key
    ensures key == prefix + key[|prefix|..]
  {
  }

  lemma PartsOfKey(prefix: string, name: string)
    ensures prefix <= prefix + name && (prefix + name)[|prefix|..] == name
    ensures Direct(prefix + name, prefix) <==> '/' !in name
  {
  }

  lemma FilledInside(data: Params, prefix: string, op: Op, name: string)
    requires op.FromMap? && prefix == Prefix(op.path) && '/' !in name
    ensures Same(OnFlat(data, op), prefix + name, OnEntries(Entries(data, prefix), op), name)
  {
    PartsOfKey(prefix, name);
    var flat := if op.clearBefore then Cleared(data, prefix) else data;
    var kept := if op.clearBefore then map[] else Entries(data, prefix);
    assert Same(flat, prefix + name, kept, name);
  }

  lemma InsideAt(data: Params, prefix: string, op: Op, name: string)
    requires CleanOp(op) && prefix == Prefix(op.path) && '/' !in name
    ensures Same(OnFlat(data, op), prefix + name, OnEntries(Entries(data, prefix), op), name)
  {
    PartsOfKey(prefix, name);
    match op
    case Set(_, n, _) => PartsOfKey(prefix, n);
    case SetDefault(_, n, _) => PartsOfKey(prefix, n);
    case Erase(_, n) => PartsOfKey(prefix, n);
    case Clear(_) =>
    case FromMap(_, _, _, _) => FilledInside(data, prefix, op, name);
  }

  /** In its own group, a call does what it does to the entries. */
  lemma InsideGroup(data: Params, op: Op)
    requires CleanOp(op)
    ensures Entries(OnFlat(data, op), Prefix(op.path)) == OnEntries(Entries(data, Prefix(op.path)), op)
  {
    var prefix := Prefix(op.path);
    var after, expected := Entries(OnFlat(data, op), prefix), OnEntries(Entries(data, prefix), op);
    forall name: string
      ensures name in after <==> name in expected
      ensures name in after ==> after[name] == expected[name]
    {
      if '/' !in name {
        InsideAt(data, prefix, op, name);
      }
    }
  }

  /** A call touches only keys that are directly in its group. */
  lemma OutsideGroup(data: Params, op: Op, key: string)
    requires CleanOp(op) && !Direct(key, Prefix(op.path))
    ensures key in OnFlat(data, op) <==> key in data
    ensures key in data ==> OnFlat(data, op)[key] == data[key]
  {
    if op.Set? || op.SetDefault? || op.Erase? {
      PartsOfKey(Prefix(op.path), op.name);
    }
  }

  /** A call in one group never changes another. */
  lemma OtherGroupsKeep(data: Params, op: Op, path: seq<string>)
    requires CleanOp(op) && CleanPath(path) && path != op.path
    ensures Entries(OnFlat(data, op), Prefix(path)) == Entries(data, Prefix(path))
  {
    var prefix := Prefix(path);
    forall name: string | '/' !in name
      ensures prefix + name in OnFlat(data, op) <==> prefix + name in data
      ensures prefix + name in data ==> OnFlat(data, op)[prefix + name] == data[prefix + name]
    {
      PartsOfKey(prefix, name);
      if Direct(prefix + name, Prefix(op.path)) {
        InOneGroupOnly(path, op.path, prefix + name);
      }
      OutsideGroup(data, op, prefix + name);
    }
  }

  /** One call on the flat map is the call on the tree. */
  lemma CallRefines(data: Params, tree: Group, op: Op)
    requires CleanOp(op) && Represents(data, tree)
    ensures Represents(OnFlat(data, op), OnTree(tree, op))
  {
    forall path | CleanPath(path)
      ensures Entries(OnFlat(data, op), Prefix(path)) == At(OnTree(tree, op), path)
    {
      WithAt(tree, op.path, OnEntries(At(tree, op.path), op), path);
      if path == op.path {
        InsideGroup(data, op);
      } else {
        OtherGroupsKeep(data, op, path);
      }
    }
  }

  function RunFlat(ops: seq<Op>): Params {
    if ops == [] then map[] else OnFlat(RunFlat(ops[..|ops| - 1]), ops[|ops| - 1])
  }

  function RunTree(ops: seq<Op>): Group {
    if ops == [] then EMPTY else OnTree(RunTree(ops[..|ops| - 1]), ops[|ops| - 1])
  }

  /** Over every run of calls on every group, the flat map is the tree of groups. */
  lemma {:induction false} RunRefines(ops: seq<Op>)
    requires forall op :: op in ops ==> CleanOp(op)
    ensures Represents(RunFlat(ops), RunTree(ops))
    decreases |ops|
  {
    if ops == [] {
      forall path ensures Entries(map[], Prefix(path)) == At(EMPTY, path) {
        EmptyAt(path);
      }
    } else {
      var init, op := ops[..|ops| - 1], ops[|ops| - 1];
      assert op in ops && forall o :: o in init ==> o in ops;
      RunRefines(init);
      CallRefines(RunFlat(init), RunTree(init), op);
    }
  }

  /** Two flat maps that stand for the same tree are the same: nothing is kept
      outside the groups. */
  lemma SameTreeSameMap(a: Params, b: Params, tree: Group)
    requires Represents(a, tree) && Represents(b, tree)
    ensures a == b
  {
    forall key ensures key in a <==> key in b
               ensures key in a && key in b ==> a[key] == b[key] {
      var path, name := InSomeGroup(key);
      assert Entries(a, Prefix(path)) == Entries(b, Prefix(path));
      assert name in Entries(a, Prefix(path)) <==> key in a;
      assert name in Entries(b, Prefix(path)) <==> key in b;
    }
  }

  /** Storing one group into an empty map and filling another group from it, in
      the same map or another, copies the entries exactly and changes no other
      group. */
  lemma CopyIsExact(from: Params, source: seq<string>, to: Params, target: seq<string>)
    requires CleanPath(target)
    ensures var op := FromMap(target, Entries(from, Prefix(source)), true, true);
            && Entries(OnFlat(to, op), Prefix(target)) == Entries(from, Prefix(source))
            && forall path :: CleanPath(path) && path != target ==>
                 Entries(OnFlat(to, op), Prefix(path)) == Entries(to, Prefix(path))
  {
    var copied := Entries(from, Prefix(source));
    var op := FromMap(target, copied, true, true);
    InsideGroup(to, op);
    assert map[] + copied == copied;
    forall path | CleanPath(path) && path != target
      ensures Entries(OnFlat(to, op), Prefix(path)) == Entries(to, Prefix(path))
    {
      OtherGroupsKeep(to, op, path);
    }
  }

  // ---------------------------------------------------------- locks and commits

  /** The flags of one view and the number of commits that reached the root. */
  datatype Book = Book(locked: bool, changed: bool, commits: nat)

  datatype Call = Write | Lock | Unlock

  function OnBook(b: Book, call: Call): Book {
    match call
    case Write => if b.locked then b.(changed := true) else b.(commits := b.commits + 1)
    case Lock => b.(locked := true, changed := false)
    case Unlock => Book(false, b.changed, if b.changed then b.commits + 1 else b.commits)
  }

  function RunBook(b: Book, calls: seq<Call>): Book {
    if calls == [] then b else OnBook(RunBook(b, calls[..|calls| - 1]), calls[|calls| - 1])
  }

  /** The last of the lock and unlock calls is a lock. */
  predicate IsLocked(calls: seq<Call>) {
    calls != [] &&
    (calls[|calls| - 1] == Lock || (calls[|calls| - 1] == Write && IsLocked(calls[..|calls| - 1])))
  }

  /** Call `i` wrote under a lock, and no lock has been taken since. */
  predicate WroteAt(calls: seq<Call>, i: nat)
    requires i < |calls|
  {
    calls[i] == Write && IsLocked(calls[..i]) && Lock !in calls[i..]
  }

  ghost predicate WrittenUnderLock(calls: seq<Call>) {
    exists i :: 0 <= i < |calls| && WroteAt(calls, i)
  }

  /** Call `i` commits: it writes while nothing is locked, or unlocks after
      something was written under a lock. */
  ghost predicate Commits(calls: seq<Call>, i: nat)
    requires i < |calls|
  {
    (calls[i] == Write && !IsLocked(calls[..i])) || (calls[i] == Unlock && WrittenUnderLock(calls[..i]))
  }

  ghost function CommitCount(calls: seq<Call>): nat {
    if calls == [] then 0
    else CommitCount(calls[..|calls| - 1]) + if Commits(calls, |calls| - 1) then 1 else 0
  }

  lemma WroteAtNext(calls: seq<Call>, call: Call, i: nat)
    requires i < |calls|
    ensures WroteAt(calls + [call], i) <==> call != Lock && WroteAt(calls, i)
  {
    var next := calls + [call];
    assert next[..i] == calls[..i] && next[i..] == calls[i..] + [call];
    assert Lock in next[i..] <==> Lock in calls[i..] || call == Lock;
  }

  lemma WritesLast(calls: seq<Call>, call: Call)
    ensures WroteAt(calls + [call], |calls|) <==> call == Write && IsLocked(calls)
  {
    var next := calls + [call];
    assert next[..|calls|] == calls && next[|calls|..] == [call];
  }

  lemma WrittenUnderLockNext(calls: seq<Call>, call: Call)
    ensures WrittenUnderLock(calls + [call]) <==> call != Lock && (WrittenUnderLock(calls) || (call == Write && IsLocked(calls)))
  {
    var next := calls + [call];
    WritesLast(calls, call);
    forall i | 0 <= i < |calls|
      ensures WroteAt(next, i) <==> call != Lock && WroteAt(calls, i)
    {
      WroteAtNext(calls, call, i);
    }
    if WroteAt(next, |calls|) {
      assert WrittenUnderLock(next);
    }
  }

  /** The flags and the commits of a new view, by what was called: after any calls,
      it is locked if the last of the lock and unlock calls is a lock, and it
      is changed if something was written under a lock since the last lock; a
      second unlock commits again what the first has committed. */
  lemma {:induction false} BookIsHistory(calls: seq<Call>)
    ensures RunBook(Book(false, false, 0), calls) == Book(IsLocked(calls), WrittenUnderLock(calls), CommitCount(calls))
    decreases |calls|
  {
    if calls != [] {
      var init, call := calls[..|calls| - 1], calls[|calls| - 1];
      BookIsHistory(init);
      WrittenUnderLockNext(init, call);
      assert init + [call] == calls;
    }
  }

  /** Something was written after the last commit. */
  predicate Pending(b: Book, calls: seq<Call>) {
    calls != [] &&
    var init, call := calls[..|calls| - 1], calls[|calls| - 1];
    RunBook(b, calls).commits == RunBook(b, init).commits && (call == Write || Pending(b, init))
  }

  /** What is pending will be committed by the next unlock, at every point. */
  predicate NothingForgotten(b: Book, calls: seq<Call>) {
    && (Pending(b, calls) <==> RunBook(b, calls).locked && RunBook(b, calls).changed)
    && (calls == [] || NothingForgotten(b, calls[..|calls| - 1]))
  }

  /** Some call locks the view while it is locked and changed. */
  predicate LocksOverChanges(b: Book, calls: seq<Call>) {
    calls != [] &&
    var init, call := calls[..|calls| - 1], calls[|calls| - 1];
    (call == Lock && RunBook(b, init).locked && RunBook(b, init).changed) || LocksOverChanges(b, init)
  }

  /** Over every run, no write is forgotten if and only if the view is never
      locked again over changes. */
  lemma {:induction false} NothingForgottenIff(b: Book, calls: seq<Call>)
    requires !b.locked
    ensures NothingForgotten(b, calls) <==> !LocksOverChanges(b, calls)
    decreases |calls|
  {
    if calls != [] {
      NothingForgottenIff(b, calls[..|calls| - 1]);
    }
  }

  /** Four calls that forget a write: it is never committed. */
  lemma SecondLockForgets()
    ensures var calls := [Lock, Write, Lock, Unlock];
            && LocksOverChanges(Book(false, false, 0), calls)
            && RunBook(Book(false, false, 0), calls) == Book(false, false, 0)
            && Pending(Book(false, false, 0), calls)
  {
    var b, calls := Book(false, false, 0), [Lock, Write, Lock, Unlock];
    assert calls[..3] == [Lock, Write, Lock] && calls[..3][..2] == [Lock, Write];
    assert [Lock, Write][..1] == [Lock] && [Lock][..0] == [];
    assert RunBook(b, [Lock]) == Book(true, false, 0);
    assert RunBook(b, [Lock, Write]) == Book(true, true, 0);
    assert RunBook(b, [Lock, Write, Lock]) == Book(true, false, 0);
    assert Pending(b, [Lock, Write]) && Pending(b, [Lock, Write, Lock]);
  }

  // ------------------------------------------------------------------- the class

  /** The map that a root and all its subgroups share. */
  class Data {
    var entries: Params
    var commits: nat

    constructor ()
      ensures entries == map[] && commits == 0
    {
      entries, commits := map[], 0;
    }
  }

  /** The characters that a strict `get` keeps in a name. */
  predicate IsSafe(c: char) {
    '0' <= c <= '9' || c == '_' || c == '-' || 'a' <= c <= 'z' || 'A' <= c <= 'Z'
  }

  datatype MapPointer = Null | To(values: Params)

  class ParameterMap {
    const data: Data
    const prefix: string
    const parent: ParameterMap?
    ghost const depth: nat
    var locked: bool
    var changed: bool

    /** The chain of parents ends at a root, and all share one map. */
    ghost predicate Valid()
      decreases depth
    {
      parent != null ==> parent.depth < depth && parent.data == data && parent.Valid()
    }

    ghost function State(): Book
      reads this, data
    {
      Book(locked, changed, data.commits)
    }

    constructor ()
      ensures Valid() && fresh(data) && prefix == Prefix([]) && data.entries == RunFlat([])
      ensures State() == Book(false, false, 0)
    {
      data := new Data();
      prefix, parent, depth, locked, changed := "", null, 0, false, false;
    }

    constructor Below(p: ParameterMap, pfx: string)
      requires p.Valid()
      ensures Valid() && data == p.data && prefix == pfx && parent == p
      ensures !locked && !changed
    {
      data, prefix, parent, depth, locked, changed := p.data, pfx, p, p.depth + 1, false, false;
    }

    method Subgroup(name: string) returns (group: ParameterMap)
      requires Valid()
      ensures fresh(group) && group.Valid() && group.data == data && group.parent == this
      ensures forall path :: prefix == Prefix(path) ==> group.prefix == Prefix(path + [name])
      ensures !group.locked && !group.changed
    {
      group := new ParameterMap.Below(this, prefix + name + "/");
      forall path ensures Prefix(path + [name]) == Prefix(path) + name + "/" {
        PrefixOfSubgroup(path, name);
      }
    }

    /** Goes up to the root, whatever is locked on the way. */
    method CommitChanges()
      requires Valid()
      modifies data`commits
      ensures data.commits == old(data.commits) + 1
      decreases depth
    {
      if parent != null {
        parent.CommitChanges();
      } else {
        data.commits := data.commits + 1;
      }
    }

    method Lock()
      modifies this
      ensures State() == OnBook(old(State()), Call.Lock)
    {
      locked, changed := true, false;
    }

    method Unlock()
      requires Valid()
      modifies this, data`commits
      ensures State() == OnBook(old(State()), Call.Unlock)
    {
      locked := false;
      if changed {
        CommitChanges();
      }
    }

    method Written()
      requires Valid()
      modifies this, data`commits
      ensures State() == OnBook(old(State()), Write)
    {
      if !locked {
        CommitChanges();
      } else {
        changed := true;
      }
    }

    /** In strict mode, with every unsafe character of the name replaced. */
    method Get(name: string, default: string, strict: bool) returns (value: string)
      ensures var n := if strict then seq(|name|, i requires 0 <= i < |name| => if IsSafe(name[i]) then name[i] else '_') else name;
              value == if prefix + n in data.entries then data.entries[prefix + n] else default
    {
      var n := name;
      if strict {
        for i := 0 to |n|
          invariant |n| == |name|
          invariant forall k :: 0 <= k < i ==> n[k] == if IsSafe(name[k]) then name[k] else '_'
          invariant forall k :: i <= k < |name| ==> n[k] == name[k]
        {
          if !IsSafe(n[i]) {
            n := n[i := '_'];
          }
        }
        assert n == seq(|name|, i requires 0 <= i < |name| => if IsSafe(name[i]) then name[i] else '_');
      }
      value := if prefix + n in data.entries then data.entries[prefix + n] else default;
    }

    method Set(name: string, value: string)
      requires Valid()
      modifies this, data
      ensures forall path :: prefix == Prefix(path) ==> data.entries == OnFlat(old(data.entries), Op.Set(path, name, value))
      ensures State() == OnBook(old(State()), Write)
    {
      data.entries := data.entries[prefix + name := value];
      Written();
    }

    /** Neither commits nor marks a change. */
    method SetDefault(name: string, value: string)
      modifies data`entries
      ensures forall path :: prefix == Prefix(path) ==>
                data.entries == OnFlat(old(data.entries), Op.SetDefault(path, name, value))
    {
      if prefix + name !in data.entries {
        data.entries := data.entries[prefix + name := value];
      }
    }

    /** Neither commits nor marks a change. */
    method Erase(name: string)
      modifies data`entries
      ensures forall path :: prefix == Prefix(path) ==> data.entries == OnFlat(old(data.entries), Op.Erase(path, name))
    {
      data.entries := data.entries - {prefix + name};
    }

    /** The names of the direct entries, each once. */
    method EnumKeys() returns (keys: seq<string>)
      ensures NoRepeats(keys)
      ensures forall name :: name in keys <==> name in Entries(data.entries, prefix)
    {
      keys := [];
      var seen := {};
      while exists key :: key in data.entries && key !in seen
        invariant NoRepeats(keys)
        invariant forall name :: name in keys <==> '/' !in name && prefix + name in seen
        invariant forall key :: key in seen ==> key in data.entries
        decreases data.entries.Keys - seen
      {
        var key: string :| key in data.entries && key !in seen;
        if prefix <= key && '/' !in key[|prefix|..] {
          KeyParts(prefix, key);
          keys := keys + [key[|prefix|..]];
        }
        forall name: string | prefix + name == key ensures name == key[|prefix|..] {
          PartsOfKey(prefix, name);
        }
        seen := seen + {key};
      }
    }

    /** Removes the direct entries; neither commits nor marks a change. */
    method Clear()
      modifies data`entries
      ensures data.entries == Cleared(old(data.entries), prefix)
    {
      ghost var before := data.entries;
      var keys := EnumKeys();
      for i := 0 to |keys|
        invariant data.entries == before - set k | 0 <= k < i :: prefix + keys[k]
      {
        data.entries := data.entries - {prefix + keys[i]};
      }
      forall key: string | key in before
        ensures Direct(key, prefix) <==> exists k :: 0 <= k < |keys| && key == prefix + keys[k]
      {
        if Direct(key, prefix) {
          KeyParts(prefix, key);
          assert key[|prefix|..] in keys;
        } else if k :| 0 <= k < |keys| && key == prefix + keys[k] {
          assert keys[k] in keys;
          PartsOfKey(prefix, keys[k]);
        }
      }
    }

    method FromMap(source: MapPointer, clearBefore: bool, replace: bool)
      requires Valid()
      modifies this, data
      ensures source.To? ==>
                && (forall path :: prefix == Prefix(path) ==>
                      data.entries == OnFlat(old(data.entries), Op.FromMap(path, source.values, clearBefore, replace)))
                && State() == OnBook(old(State()), Write)
      ensures source.Null? ==>
                && data.entries == (if clearBefore then Cleared(old(data.entries), prefix) else old(data.entries))
                && State() == old(State())
    {
      if clearBefore {
        Clear();
      }
      if source.Null? {
        return;
      }
      Put(source.values, replace);
      Written();
    }

    /** Every entry of the map under the prefix, or only the missing ones. */
    method Put(source: Params, replace: bool)
      modifies data`entries
      ensures data.entries == Filled(old(data.entries), prefix, source, replace)
    {
      ghost var before, part: Params := data.entries, map[];
      var done := {};
      while exists name :: name in source && name !in done
        invariant part.Keys == done && forall name :: name in part ==> name in source && part[name] == source[name]
        invariant data.entries == Filled(before, prefix, part, replace)
        decreases source.Keys - done
      {
        var name: string :| name in source && name !in done;
        FillOneMore(before, prefix, part, name, source[name], replace);
        part := part[name := source[name]];
        if replace || prefix + name !in data.entries {
          data.entries := data.entries[prefix + name := source[name]];
        }
        done := done + {name};
      }
      assert part == source;
    }

    /** Puts the direct entries into a map, where the map has none of that name. */
    method ToMap(target: Params, clearBefore: bool) returns (r: Params)
      ensures r == Entries(data.entries, prefix) + if clearBefore then map[] else target
    {
      var start := if clearBefore then map[] else target;
      var keys := EnumKeys();
      ghost var direct := Entries(data.entries, prefix);
      forall i: nat | i < |keys| ensures prefix + keys[i] in data.entries && direct[keys[i]] == data.entries[prefix + keys[i]] {
        assert keys[i] in keys;
      }
      r := InsertNamed(start, keys, data.entries, prefix);
      forall name ensures name in r <==> name in direct || name in start
                  ensures name in r ==> r[name] == if name in start then start[name] else direct[name] {
        assert name in direct ==> name in keys;
      }
    }
  }

  /** Inserts the named entries that are not there yet. */
  method InsertNamed(start: Params, keys: seq<string>, entries: Params, prefix: string) returns (r: Params)
    requires forall i :: 0 <= i < |keys| ==> prefix + keys[i] in entries
    ensures forall name :: name in r <==> name in start || name in keys
    ensures forall name :: name in start ==> r[name] == start[name]
    ensures forall i :: 0 <= i < |keys| && keys[i] !in start ==> r[keys[i]] == entries[prefix + keys[i]]
  {
    r := start;
    for i := 0 to |keys|
      invariant forall name :: name in r <==> name in start || name in keys[..i]
      invariant forall name :: name in start ==> r[name] == start[name]
      invariant forall k :: 0 <= k < i && keys[k] !in start ==> keys[k] in r && r[keys[k]] == entries[prefix + keys[k]]
    {
      if keys[i] !in r {
        r := r[keys[i] := entries[prefix + keys[i]]];
      }
    }
  }
}

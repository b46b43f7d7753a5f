/** A configuration in memory and its file: what `set` and `erase` log, and how
    `sync` brings the two together. */
module ConfigSync {
  import opened FsmGraph
  import opened Strings
  import opened LocalConfig

  // ---------------------------------------------------- the log of erased keys

  datatype Edit = SetKey(key: string, value: string) | EraseKey(key: string)

  function RemoveFirst(s: seq<string>, k: string): seq<string> {
    if s == [] then [] else if s[0] == k then s[1..] else [s[0]] + RemoveFirst(s[1..], k)
  }

  function LogStep(log: seq<string>, edit: Edit): seq<string> {
    match edit
    case SetKey(k, _) => RemoveFirst(log, k)
    case EraseKey(k) => if k in log then log else log + [k]
  }

  function LogAfter(log: seq<string>, edits: seq<Edit>): seq<string> {
    if edits == [] then log else LogStep(LogAfter(log, edits[..|edits| - 1]), edits[|edits| - 1])
  }

  /** The last of the edits of the key, if any. */
  function Last(edits: seq<Edit>, k: string): (r: Option<Edit>)
    ensures r.Some? ==> r.value in edits && r.value.key == k
    ensures r.None? ==> forall e :: e in edits ==> e.key != k
  {
    if edits == [] then None
    else if edits[|edits| - 1].key == k then Some(edits[|edits| - 1]) else Last(edits[..|edits| - 1], k)
  }

  /** The key was erased, and not set since. */
  predicate LastIsErase(edits: seq<Edit>, k: string) {
    Last(edits, k) == Some(EraseKey(k))
  }

  lemma {:induction false} RemovesFirst(s: seq<string>, k: string)
    requires NoRepeats(s)
    ensures NoRepeats(RemoveFirst(s, k))
    ensures forall x :: x in RemoveFirst(s, k) <==> x in s && x != k
    decreases |s|
  {
    if s != [] {
      FirstOfList(s);
      if s[0] != k {
        RemovesFirst(s[1..], k);
        FirstInFront(s[0], RemoveFirst(s[1..], k));
      }
    }
  }

  lemma FirstInFront(x: string, s: seq<string>)
    requires NoRepeats(s) && x !in s
    ensures NoRepeats([x] + s) && forall y :: y in [x] + s <==> y == x || y in s
  {
  }

  /** Over every sequence of set and erase calls, the log holds exactly the keys
      whose last operation was an erase, each once, and of the keys that were not
      touched those that it held before. */
  lemma {:induction false} LogIsExact(log: seq<string>, edits: seq<Edit>)
    requires NoRepeats(log)
    ensures NoRepeats(LogAfter(log, edits))
    ensures forall k :: k in LogAfter(log, edits) <==> LastIsErase(edits, k) || (Last(edits, k) == None && k in log)
    decreases |edits|
  {
    if edits != [] {
      var init, edit := edits[..|edits| - 1], edits[|edits| - 1];
      LogIsExact(log, init);
      match edit
      case SetKey(k, _) => RemovesFirst(LogAfter(log, init), k);
      case EraseKey(k) =>
    }
  }

  // ---------------------------------------------------------------- the merge

  /** What a merge promises of every key: our value stays; theirs joins unless we
      have the key or have erased it; and there is nothing else. */
  ghost predicate IsMerge(merged: Params, mine: Params, theirs: Params, deleted: seq<string>) {
    && (forall k :: k in mine ==> k in merged && merged[k] == mine[k])
    && (forall k :: k in theirs && k !in mine && k !in deleted ==> k in merged && merged[k] == theirs[k])
    && (forall k :: k in merged ==> k in mine || (k in theirs && k !in deleted))
  }

  /** Both sides changed: ours where we have the key, else theirs unless we
      erased it. */
  ghost function Merge(mine: Params, theirs: Params, deleted: seq<string>): (merged: Params)
    ensures IsMerge(merged, mine, theirs, deleted)
  {
    map k | k in mine.Keys + theirs.Keys && (k in mine || k !in deleted) :: if k in mine then mine[k] else theirs[k]
  }

  // ------------------------------------------------- merging a second time

  /** The key that a line of the file spells, if any. */
  function LineKeys(line: string): set<string> {
    var j := Find(line, '=');
    if j + 1 >= |line| then {} else {line[..j]}
  }

  /** The keys that a text spells. */
  function SpelledKeys(text: string): set<string>
    decreases |text|
  {
    if text == "" then {} else LineKeys(FirstLine(text)) + SpelledKeys(OtherLines(text))
  }

  lemma AddLineKeys(m: Params, line: string)
    ensures forall x :: x in AddLine(m, line) <==> x in m || x in LineKeys(line)
  {
  }

  lemma {:induction false} AddLinesKeys(m: Params, text: string)
    ensures forall x :: x in AddLines(m, text) <==> x in m || x in SpelledKeys(text)
    decreases |text|
  {
    if text != "" {
      AddLineKeys(m, FirstLine(text));
      AddLinesKeys(AddLine(m, FirstLine(text)), OtherLines(text));
    }
  }

  /** What follows a newline is spelled on its own. */
  lemma {:induction false} SpelledJoin(a: string, b: string)
    requires a != "" ==> a[|a| - 1] == '\n'
    ensures SpelledKeys(a + b) == SpelledKeys(a) + SpelledKeys(b)
    decreases |a|
  {
    if a == "" {
      assert a + b == b;
    } else {
      FirstLineOfJoin(a, b);
      SpelledJoin(OtherLines(a), b);
      assert SpelledKeys(a) == LineKeys(FirstLine(a)) + SpelledKeys(OtherLines(a));
    }
  }

  lemma FirstLineOfJoin(a: string, b: string)
    requires a != "" && a[|a| - 1] == '\n'
    ensures FirstLine(a + b) == FirstLine(a) && OtherLines(a + b) == OtherLines(a) + b
    ensures OtherLines(a) != "" ==> OtherLines(a)[|OtherLines(a)| - 1] == '\n'
  {
    var i := Find(a, '\n');
    assert i < |a|;
    assert (a + b)[..i] == a[..i] && (a + b)[i] == '\n';
    FindSplits(a + b, '\n', i);
    assert (a + b)[i + 1..] == a[i + 1..] + b;
  }

  lemma {:induction false} SpelledTextHas(m: Params, keys: seq<string>, k: string)
    requires (forall x :: x in keys ==> x in m) && k in keys
    ensures SpelledKeys(Line(k, m[k])) <= SpelledKeys(PrintText(m, keys))
    decreases |keys|
  {
    var key, rest := keys[0], keys[1..];
    SpelledJoin(Line(key, m[key]), PrintText(m, rest));
    if k != key {
      assert k in rest;
      SpelledTextHas(m, rest, k);
    }
  }

  lemma {:induction false} SpelledTextWithin(m: Params, keys: seq<string>, bound: set<string>)
    requires forall k :: k in keys ==> k in m && SpelledKeys(Line(k, m[k])) <= bound
    ensures SpelledKeys(PrintText(m, keys)) <= bound
    decreases |keys|
  {
    if keys != [] {
      var key, rest := keys[0], keys[1..];
      assert key in keys;
      SpelledJoin(Line(key, m[key]), PrintText(m, rest));
      SpelledTextWithin(m, rest, bound);
    }
  }

  /** No printed line of the map spells a key that the map does not have. */
  ghost predicate SpellsOwnKeys(m: Params) {
    forall k :: k in m ==> SpelledKeys(Line(k, m[k])) <= m.Keys
  }

  lemma LoadedKeys(m: Params, text: string)
    requires IsTextOf(text, m)
    ensures LoadText(text).Keys <= m.Keys <==> SpellsOwnKeys(m)
  {
    var keys :| Enumerates(m, keys) && text == PrintText(m, keys);
    AddLinesKeys(map[], text);
    if SpellsOwnKeys(m) {
      SpelledTextWithin(m, keys, m.Keys);
    } else {
      var k :| k in m && !(SpelledKeys(Line(k, m[k])) <= m.Keys);
      assert k in keys;
      SpelledTextHas(m, keys, k);
      var x :| x in SpelledKeys(Line(k, m[k])) && x !in m;
      assert x in LoadText(text);
    }
  }

  lemma NobodySpells(m: Params, keys: seq<string>, k: string)
    requires (forall x :: x in keys ==> x in m) && !Spells(m, k)
    ensures k !in SpelledKeys(PrintText(m, keys))
  {
    var others := SpelledKeys(PrintText(m, keys)) - {k};
    forall x | x in keys
      ensures SpelledKeys(Line(x, m[x])) <= others
    {
      SpelledTextHas(m, keys, x);
    }
    SpelledTextWithin(m, keys, others);
  }

  lemma SomebodySpells(m: Params, keys: seq<string>, k: string)
    requires (forall x :: x in keys <==> x in m) && Spells(m, k)
    ensures k in SpelledKeys(PrintText(m, keys))
  {
    var x :| x in m && k in SpelledKeys(Line(x, m[x]));
    SpelledTextHas(m, keys, x);
  }

  /** What can be read back of the text of a map: the keys that its lines spell. */
  lemma LoadedIff(m: Params, text: string, k: string)
    requires IsTextOf(text, m)
    ensures k in LoadText(text) <==> Spells(m, k)
  {
    var keys :| Enumerates(m, keys) && text == PrintText(m, keys);
    AddLinesKeys(map[], text);
    if Spells(m, k) {
      SomebodySpells(m, keys, k);
    } else {
      NobodySpells(m, keys, k);
    }
  }

  /** Some printed line of the map spells the key. */
  ghost predicate Spells(m: Params, k: string) {
    exists x :: x in m && k in SpelledKeys(Line(x, m[x]))
  }

  /** Merging a map again with what has been written of it leaves it as it is
      exactly when its printed lines spell no other keys. */
  lemma SecondMergeIsIdleIff(merged: Params, written: string)
    requires IsTextOf(written, merged)
    ensures Merge(merged, LoadText(written), []) == merged <==> SpellsOwnKeys(merged)
  {
    LoadedKeys(merged, written);
    MergeIsIdleIff(merged, LoadText(written));
  }

  lemma MergeIsIdleIff(mine: Params, theirs: Params)
    ensures Merge(mine, theirs, []) == mine <==> theirs.Keys <= mine.Keys
  {
    var merged := Merge(mine, theirs, []);
    assert forall k :: k in merged <==> k in mine || k in theirs;
    assert forall k :: k in mine ==> merged[k] == mine[k];
  }

  /** A key without `=` and newline spells at most itself. */
  lemma CleanKeySpells(key: string, value: string)
    requires CleanKey(key)
    ensures SpelledKeys(Line(key, value)) <= {key}
  {
    ReadsPrintedLine(map[], key, value, "");
    AddsPrintedLine(map[], key, value);
    assert Line(key, value) + "" == Line(key, value);
    AddLinesKeys(map[], Line(key, value));
  }

  /** So it is left as it is whenever its keys are clean, although the empty
      values that were written are not read back. */
  lemma CleanKeysAreIdle(merged: Params, written: string)
    requires IsTextOf(written, merged) && CleanKeys(merged)
    ensures Merge(merged, LoadText(written), []) == merged
  {
    forall k | k in merged
      ensures SpelledKeys(Line(k, merged[k])) <= merged.Keys
    {
      CleanKeySpells(k, merged[k]);
    }
    SecondMergeIsIdleIff(merged, written);
  }

  /** An entry that `set` accepts and that does not survive: the second merge
      finds another key in the line that was written. */
  lemma SecondMergeAddsAKey()
    ensures LoadText("a=b=c\n") == map["a" := "b=c"]
    ensures IsTextOf("a=b=c\n", map["a=b" := "c"])
    ensures Merge(map["a=b" := "c"], LoadText("a=b=c\n"), []) == map["a=b" := "c", "a" := "b=c"]
  {
    SameLine();
    LoadsOtherKey();
    OneLineText(map["a=b" := "c"], "a=b");
    MergeOfTwo("a=b", "c", "a", "b=c");
  }

  lemma MergeOfTwo(k: string, v: string, other: string, w: string)
    requires k != other
    ensures Merge(map[k := v], map[other := w], []) == map[k := v, other := w]
  {
  }

  lemma SameLine()
    ensures Line("a=b", "c") == "a=b=c\n" == Line("a", "b=c")
  {
    EscapePlain("c");
    EscapePlain("b=c");
  }

  lemma LoadsOtherKey()
    ensures LoadText("a=b=c\n") == map["a" := "b=c"]
  {
    SameLine();
    LoadsOneLine("a", "b=c");
  }

  lemma LoadsOneLine(key: string, value: string)
    requires CleanKey(key) && value != ""
    ensures LoadText(Line(key, value)) == map[key := value]
  {
    ReadsPrintedLine(map[], key, value, "");
    assert Line(key, value) + "" == Line(key, value);
    AddsPrintedLine(map[], key, value);
  }

  lemma {:induction false} EscapePlain(v: string)
    requires '\\' !in v && '\n' !in v && '\r' !in v
    ensures Escape(v) == v
    decreases |v|
  {
    if v != "" {
      EscapePlain(v[1..]);
    }
  }

  lemma OneLineText(m: Params, key: string)
    requires m.Keys == {key}
    ensures IsTextOf(Line(key, m[key]), m)
  {
    assert [key][1..] == [];
    assert PrintText(m, [key]) == Line(key, m[key]) + PrintText(m, []) == Line(key, m[key]);
    assert Enumerates(m, [key]);
  }

  lemma CleanSpellsOwn(m: Params, k: string)
    requires CleanKeys(m) && k !in m
    ensures !Spells(m, k)
  {
    forall x | x in m
      ensures k !in SpelledKeys(Line(x, m[x]))
    {
      CleanKeySpells(x, m[x]);
    }
  }

  // ------------------------------------------------------------------- editing

  /** What a sequence of edits makes of a key. */
  ghost predicate AfterEdits(before: Params, after: Params, edits: seq<Edit>, k: string) {
    match Last(edits, k)
    case None => (k in after <==> k in before) && (k in before ==> after[k] == before[k])
    case Some(SetKey(_, v)) => k in after && after[k] == v
    case Some(EraseKey(_)) => k !in after
  }

  ghost predicate Edited(before: Params, after: Params, edits: seq<Edit>) {
    forall k :: AfterEdits(before, after, edits, k)
  }

  /** And what it is after a merge with `theirs`. */
  ghost predicate Settled(before: Params, deleted: seq<string>, theirs: Params, after: Params, edits: seq<Edit>, k: string) {
    match Last(edits, k)
    case Some(SetKey(_, v)) => k in after && after[k] == v
    case Some(EraseKey(_)) => k !in after
    case None =>
      if k in before then k in after && after[k] == before[k]
      else if k in theirs && k !in deleted then k in after && after[k] == theirs[k]
      else k !in after
  }

  ghost predicate AllSettled(before: Params, deleted: seq<string>, theirs: Params, after: Params, edits: seq<Edit>) {
    forall k :: Settled(before, deleted, theirs, after, edits, k)
  }

  lemma OneMoreEdit(before: Params, q: Params, r: Params, edits: seq<Edit>, edit: Edit)
    requires Edited(before, q, edits)
    requires r == if edit.SetKey? then q[edit.key := edit.value] else q - {edit.key}
    ensures Edited(before, r, edits + [edit])
  {
    forall k
      ensures AfterEdits(before, r, edits + [edit], k)
    {
      assert AfterEdits(before, q, edits, k);
      assert (edits + [edit])[..|edits|] == edits;
      assert Last(edits + [edit], k) == if edit.key == k then Some(edit) else Last(edits, k);
    }
  }

  lemma MergeSettles(before: Params, deleted: seq<string>, edited: Params, theirs: Params, after: Params, edits: seq<Edit>)
    requires NoRepeats(deleted) && Edited(before, edited, edits)
    requires IsMerge(after, edited, theirs, LogAfter(deleted, edits))
    ensures AllSettled(before, deleted, theirs, after, edits)
  {
    LogIsExact(deleted, edits);
    forall k
      ensures Settled(before, deleted, theirs, after, edits, k)
    {
      assert AfterEdits(before, edited, edits, k);
    }
  }

  lemma ErasedReadBack(before: Params, deleted: seq<string>, theirs: Params, m: Params, text: string, edits: seq<Edit>)
    requires IsTextOf(text, m) && AllSettled(before, deleted, theirs, m, edits)
    ensures forall k :: LastIsErase(edits, k) ==> (k in LoadText(text) <==> Spells(m, k))
    ensures CleanKeys(m) ==> forall k :: LastIsErase(edits, k) ==> k !in LoadText(text)
  {
    forall k | LastIsErase(edits, k)
      ensures k in LoadText(text) <==> Spells(m, k)
      ensures CleanKeys(m) ==> k !in LoadText(text)
    {
      LoadedIff(m, text, k);
      assert Settled(before, deleted, theirs, m, edits, k);
      if CleanKeys(m) {
        CleanSpellsOwn(m, k);
      }
    }
  }

  // ------------------------------------------------------------ the operations

  /** The file, and when it was last written. */
  class Disk {
    var content: Option<string>
    var modified: nat

    constructor ()
      ensures content == None
    {
      content, modified := None, 0;
    }
  }

  class Config {
    var parameters: Params
    var keysDeleted: seq<string>
    var timeLoaded: nat
    var timeModified: nat
    var locked: bool
    var changed: bool
    const disk: Disk

    /** A configuration loaded from its file, or empty without one. */
    constructor (d: Disk, now: nat)
      ensures disk == d && keysDeleted == [] && timeLoaded == timeModified == now && !locked && !changed
      ensures parameters == if d.content.Some? then LoadText(d.content.value) else map[]
    {
      disk := d;
      keysDeleted, timeLoaded, timeModified, locked, changed := [], now, now, false, false;
      parameters := map[];
      new;
      if d.content.Some? {
        parameters := ReadText(d.content.value);
      }
    }

    /** Returns false even when it has saved, because it shadows its answer; so it
        neither updates `timeLoaded` nor empties `keysDeleted`. */
    method Save(now: nat) returns (ans: bool)
      modifies disk
      ensures !ans
      ensures disk.modified == now && disk.content.Some? && IsTextOf(disk.content.value, parameters)
    {
      var text := SaveText(parameters);
      disk.content, disk.modified := Some(text), now;
      ans := false;
    }

    /** Returns false even when it has loaded, for the same reason. */
    method Load() returns (ans: bool)
      requires disk.content.Some?
      modifies this`parameters
      ensures !ans && parameters == LoadText(disk.content.value)
    {
      parameters := ReadText(disk.content.value);
      ans := false;
    }

    method Set(name: string, value: string, now: nat)
      modifies this`parameters, this`keysDeleted, this`timeModified, this`changed, disk
      ensures parameters == old(parameters)[name := value]
      ensures keysDeleted == LogStep(old(keysDeleted), SetKey(name, value))
      ensures timeModified == now
      ensures locked ==> changed && disk.content == old(disk.content) && disk.modified == old(disk.modified)
      ensures !locked ==> changed == old(changed) && disk.modified == now
                          && disk.content.Some? && IsTextOf(disk.content.value, parameters)
    {
      timeModified := now;
      parameters := parameters[name := value];
      if !locked {
        var _ := Save(now);
      } else {
        changed := true;
      }
      keysDeleted := EraseFirst(keysDeleted, name);
    }

    method Erase(name: string, now: nat)
      modifies this`parameters, this`keysDeleted, this`timeModified
      ensures parameters == old(parameters) - {name}
      ensures keysDeleted == LogStep(old(keysDeleted), EraseKey(name))
      ensures timeModified == now
    {
      timeModified := now;
      parameters := parameters - {name};
      if name !in keysDeleted {
        keysDeleted := keysDeleted + [name];
      }
    }

    /** The merge of `sync`, on the map loaded from the file. */
    method MergeWith(theirs: Params) returns (merged: Params)
      modifies this`parameters, this`keysDeleted
      ensures merged == parameters == Merge(old(parameters), theirs, old(keysDeleted))
      ensures IsMerge(parameters, old(parameters), theirs, old(keysDeleted))
      ensures keysDeleted == []
    {
      merged := theirs;
      for i := 0 to |keysDeleted|
        invariant keysDeleted == old(keysDeleted) && parameters == old(parameters)
        invariant merged == map k | k in theirs && k !in keysDeleted[..i] :: theirs[k]
      {
        merged := merged - {keysDeleted[i]};
      }
      assert keysDeleted[..|keysDeleted|] == keysDeleted;
      ghost var kept := merged;
      keysDeleted := [];
      merged := PutAll(merged, parameters);
      parameters := AddMissing(parameters, merged);
    }

    /** Synchronises memory and file; `readable` says whether the file can be
        read when it has to be. */
    method Sync(now: nat, readable: bool) returns (ans: bool)
      modifies this`parameters, this`keysDeleted, disk
      // The file is missing: it is written
      ensures old(disk.content).None? ==>
                && !ans && Unchanged(old(parameters), old(keysDeleted))
                && disk.modified == now && disk.content.Some? && IsTextOf(disk.content.value, parameters)
      // Only the file changed: it is loaded
      ensures old(disk.content).Some? && timeModified <= timeLoaded < old(disk.modified) ==>
                && !ans && keysDeleted == old(keysDeleted)
                && disk.content == old(disk.content) && disk.modified == old(disk.modified)
                && parameters == (if readable then LoadText(old(disk.content).value) else old(parameters))
      // Nothing changed
      ensures old(disk.content).Some? && timeModified <= timeLoaded && old(disk.modified) <= timeLoaded ==>
                && ans && Unchanged(old(parameters), old(keysDeleted))
                && disk.content == old(disk.content) && disk.modified == old(disk.modified)
      // Only memory changed: the file is replaced
      ensures old(disk.content).Some? && old(disk.modified) <= timeLoaded < timeModified ==>
                && !ans && Unchanged(old(parameters), old(keysDeleted))
                && disk.modified == now && disk.content.Some? && IsTextOf(disk.content.value, parameters)
      // Both changed: they are merged, and then equal
      ensures old(disk.content).Some? && timeLoaded < timeModified && timeLoaded < old(disk.modified) ==>
                if !readable then
                  && !ans && Unchanged(old(parameters), old(keysDeleted))
                  && disk.content == old(disk.content) && disk.modified == old(disk.modified)
                else
                  && ans && keysDeleted == []
                  && parameters == Merge(old(parameters), LoadText(old(disk.content).value), old(keysDeleted))
                  && disk.modified == now && disk.content.Some? && IsTextOf(disk.content.value, parameters)
    {
      if disk.content.None? {
        ans := Save(now);
        return;
      }
      if timeModified <= timeLoaded {
        if disk.modified > timeLoaded {
          if readable {
            ans := Load();
          } else {
            ans := false;
          }
          return;
        } else {
          return true;
        }
      }
      if disk.modified <= timeLoaded {
        ans := Save(now);
        return;
      }
      if !readable {
        return false;
      }
      var theirs := ReadText(disk.content.value);
      var merged := MergeWith(theirs);
      var text := SaveText(merged);
      disk.content, disk.modified := Some(text), now;
      return true;
    }

    ghost predicate Unchanged(p: Params, d: seq<string>)
      reads this
    {
      parameters == p && keysDeleted == d
    }

    /** A sequence of set and erase calls. */
    method EditAll(edits: seq<Edit>, times: seq<nat>)
      requires |times| == |edits|
      modifies this`parameters, this`keysDeleted, this`timeModified, this`changed, disk
      ensures keysDeleted == LogAfter(old(keysDeleted), edits)
      ensures Edited(old(parameters), parameters, edits)
      ensures edits != [] ==> timeModified == times[|times| - 1]
    {
      assert edits[..0] == [];
      for n := 0 to |edits|
        invariant keysDeleted == LogAfter(old(keysDeleted), edits[..n])
        invariant Edited(old(parameters), parameters, edits[..n])
        invariant n > 0 ==> timeModified == times[n - 1]
      {
        ghost var before := parameters;
        assert edits[..n + 1][..n] == edits[..n];
        match edits[n] {
          case SetKey(k, v) => Set(k, v, times[n]);
          case EraseKey(k) => Erase(k, times[n]);
        }
        OneMoreEdit(old(parameters), before, parameters, edits[..n], edits[n]);
        assert edits[..n + 1] == edits[..n] + [edits[n]];
      }
      assert edits[..|edits|] == edits;
    }

    /** A sequence of set and erase calls, while somebody else replaces the file by
        `theirs`, and then a sync. Every key is as its last edit has left it; one
        that was not edited keeps our value, or else has theirs unless it was
        erased before. An erased key is not read back from the new file either,
        unless the line of another key spells it. */
    method EditAndSync(edits: seq<Edit>, times: seq<nat>, theirs: string, written: nat, now: nat)
      requires |times| == |edits| > 0 && NoRepeats(keysDeleted)
      requires timeLoaded < times[|times| - 1] && timeLoaded < written
      modifies this`parameters, this`keysDeleted, this`timeModified, this`changed, disk
      ensures AllSettled(old(parameters), old(keysDeleted), LoadText(theirs), parameters, edits)
      ensures keysDeleted == []
      ensures disk.content.Some? && IsTextOf(disk.content.value, parameters)
      ensures forall k :: LastIsErase(edits, k) ==> (k in LoadText(disk.content.value) <==> Spells(parameters, k))
      ensures CleanKeys(parameters) ==> forall k :: LastIsErase(edits, k) ==> k !in LoadText(disk.content.value)
    {
      EditAll(edits, times);
      ghost var edited := parameters;
      disk.content, disk.modified := Some(theirs), written;
      var _ := Sync(now, true);
      MergeSettles(old(parameters), old(keysDeleted), edited, LoadText(theirs), parameters, edits);
      ErasedReadBack(old(parameters), old(keysDeleted), LoadText(theirs), parameters, disk.content.value, edits);
    }
  }

  /** Two calls of `sync` when both sides have changed. The first merges; since
      nothing refreshes `timeLoaded`, the second merges again, and leaves memory
      as the first has left it exactly when what was written spells no other keys. */
  method SyncTwice(config: Config, now: nat, later: nat) returns (merged: Params, again: Params)
    requires config.disk.content.Some?
    requires config.timeLoaded < config.timeModified && config.timeLoaded < config.disk.modified && config.timeLoaded < now
    modifies config`parameters, config`keysDeleted, config.disk
    ensures merged == Merge(old(config.parameters), LoadText(old(config.disk.content).value), old(config.keysDeleted))
    ensures again == config.parameters
    ensures again == merged <==> SpellsOwnKeys(merged)
    ensures config.disk.content.Some? && IsTextOf(config.disk.content.value, again)
  {
    var _ := config.Sync(now, true);
    merged := config.parameters;
    SecondMergeIsIdleIff(merged, config.disk.content.value);
    var _ := config.Sync(later, true);
    again := config.parameters;
  }

  /** Finds a key in the log and erases it. */
  method EraseFirst(s: seq<string>, k: string) returns (r: seq<string>)
    ensures r == RemoveFirst(s, k)
  {
    var i := 0;
    while i < |s| && s[i] != k
      invariant 0 <= i <= |s|
      invariant s[..i] + RemoveFirst(s[i..], k) == RemoveFirst(s, k)
    {
      RemoveFirstLater(s, k, i);
      i := i + 1;
    }
    if i < |s| {
      assert s[i..][1..] == s[i + 1..];
      r := s[..i] + s[i + 1..];
    } else {
      assert s[..i] + [] == s;
      r := s;
    }
  }

  lemma RemoveFirstLater(s: seq<string>, k: string, i: nat)
    requires i < |s| && s[i] != k
    ensures s[..i] + RemoveFirst(s[i..], k) == s[..i + 1] + RemoveFirst(s[i + 1..], k)
  {
    assert s[i..][1..] == s[i + 1..];
    assert s[..i + 1] == s[..i] + [s[i]];
    assert RemoveFirst(s[i..], k) == [s[i]] + RemoveFirst(s[i + 1..], k);
  }

  /** One line of `loadMap`. */
  method ReadLine(m: Params, line: string) returns (r: Params)
    ensures r == AddLine(m, line)
  {
    r := m;
    var j := Find(line, '=');
    if j + 1 < |line| {
      var value := UnescapeInPlace(line[j + 1..]);
      if line[..j] !in m {
        r := m[line[..j] := value];
      }
    }
  }

  /** The reading loop of `loadMap`. */
  method ReadText(text: string) returns (m: Params)
    ensures m == LoadText(text)
  {
    m := map[];
    var pos := 0;
    assert text[0..] == text;
    while pos < |text|
      invariant 0 <= pos <= |text|
      invariant AddLines(m, text[pos..]) == LoadText(text)
      decreases |text| - pos
    {
      var rest := text[pos..];
      var i := Find(rest, '\n');
      m := ReadLine(m, rest[..i]);
      pos := if i < |rest| then pos + i + 1 else |text|;
      assert text[pos..] == if i < |rest| then rest[i + 1..] else "";
    }
  }

  /** Every entry of `ours` replaces or joins those of `m`. */
  method PutAll(m: Params, ours: Params) returns (r: Params)
    ensures r == m + ours
  {
    r := m;
    var done := {};
    while exists k :: k in ours && k !in done
      invariant forall k :: k in done ==> k in ours
      invariant r == m + map k | k in ours && k in done :: ours[k]
      decreases ours.Keys - done
    {
      var key: string :| key in ours && key !in done;
      r := (r - {key})[key := ours[key]];
      done := done + {key};
    }
  }

  /** Entries of `m` whose keys are not in `ours` join it. */
  method AddMissing(ours: Params, m: Params) returns (r: Params)
    ensures r == m + ours
  {
    r := ours;
    var done := {};
    while exists k :: k in m && k !in done
      invariant r == (map k | k in m && k in done :: m[k]) + ours
      decreases m.Keys - done
    {
      var key: string :| key in m && key !in done;
      if key !in r {
        r := r[key := m[key]];
      }
      done := done + {key};
    }
  }
}

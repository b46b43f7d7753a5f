/** Configuration files: the escaping of values, and the `key=value` text of a map. */
module LocalConfig {
  import opened Strings

  // ------------------------------------------------------------- escaping

  function EscapeChar(c: char): string {
    if c == '\\' then "\\\\" else if c == '\n' then "\\n" else if c == '\r' then "\\r" else [c]
  }

  function Escape(v: string): string {
    if v == "" then "" else EscapeChar(v[0]) + Escape(v[1..])
  }

  /** A backslash and one of these stand for one character. */
  predicate EscapePair(a: char, b: char) {
    a == '\\' && (b == '\\' || b == 'n' || b == 'r')
  }

  function PairMeans(b: char): char {
    if b == 'n' then '\n' else if b == 'r' then '\r' else '\\'
  }

  function Unescape(v: string): string {
    if |v| <= 1 then v
    else if EscapePair(v[0], v[1]) then [PairMeans(v[1])] + Unescape(v[2..])
    else [v[0]] + Unescape(v[1..])
  }

  /** One turn of the loop: `out` is what has been escaped so far. */
  lemma EscapeStep(v: string, done: nat, out: string, value: string)
    requires done < |v| && value == out + v[done..]
    ensures |out| < |value| && value[|out|] == v[done]
    ensures var next := out + EscapeChar(v[done]);
            && value[..|out|] + EscapeChar(v[done]) + value[|out| + 1..] == next + v[done + 1..]
            && next + Escape(v[done + 1..]) == out + Escape(v[done..])
            && (EscapeChar(v[done]) == [v[done]] ==> value == next + v[done + 1..])
  {
    assert v[done..][1..] == v[done + 1..];
    assert value[..|out|] == out && value[|out| + 1..] == v[done + 1..];
  }

  /** The loop of `saveMap` that escapes a value in place. */
  method EscapeInPlace(v: string) returns (value: string)
    ensures value == Escape(v)
  {
    value := v;
    var pos := 0;
    ghost var done, out := 0, "";
    ghost var escaped := Escape(v);
    assert v[0..] == v;
    while pos < |value|
      invariant 0 <= done <= |v| && |out| == pos
      invariant value == out + v[done..]
      invariant out + Escape(v[done..]) == escaped
      decreases |v| - done
    {
      value, pos := EscapeAt(value, pos, v, done, out);
      EscapeStep(v, done, out, out + v[done..]);
      out := out + EscapeChar(v[done]);
      done := done + 1;
    }
    assert v[done..] == "" && out + "" == out;
  }

  /** One turn of the loop, at a position in the value. */
  method EscapeAt(value0: string, pos0: nat, ghost v: string, ghost done: nat, ghost out: string) returns (value: string, pos: nat)
    requires done < |v| && value0 == out + v[done..] && pos0 == |out|
    ensures value == out + EscapeChar(v[done]) + v[done + 1..]
    ensures pos == |out + EscapeChar(v[done])|
  {
    EscapeStep(v, done, out, value0);
    value, pos := value0, pos0;
    var c := value[pos];
    if c == '\\' || c == '\n' || c == '\r' {
      value := value[..pos] + EscapeChar(c) + value[pos + 1..];
      pos := pos + 1;
    }
    pos := pos + 1;
  }

  /** The loop of `loadMap` that unescapes a value in place; the value is not
      empty there. */
  method UnescapeInPlace(v: string) returns (value: string)
    requires v != ""
    ensures value == Unescape(v)
  {
    value := v;
    var pos := 0;
    while pos < |value| - 1
      invariant 0 <= pos <= |value| && value != ""
      invariant value[..pos] + Unescape(value[pos..]) == Unescape(v)
      decreases |value| - pos
    {
      ghost var before := value;
      var tail := value[pos..];
      if EscapePair(value[pos], value[pos + 1]) {
        assert tail[2..] == value[pos + 2..];
        value := value[..pos] + [PairMeans(value[pos + 1])] + value[pos + 2..];
        assert value[pos + 1..] == tail[2..];
      } else {
        assert tail[1..] == value[pos + 1..];
      }
      pos := pos + 1;
      assert value[..pos] == before[..pos - 1] + [value[pos - 1]];
    }
    assert |value[pos..]| <= 1 && value == value[..pos] + value[pos..];
  }

  /** Unescaping undoes escaping, on runs of backslashes too. */
  lemma {:induction false} UnescapeEscape(v: string)
    ensures Unescape(Escape(v)) == v
    decreases |v|
  {
    if v != "" {
      UnescapeEscape(v[1..]);
      var e, rest := EscapeChar(v[0]), Escape(v[1..]);
      if |e| == 2 {
        assert (e + rest)[2..] == rest;
      } else {
        assert (e + rest)[1..] == rest;
        if rest == "" {
          EscapeLongEnough(v[1..]);
        }
      }
    }
  }

  lemma {:induction false} EscapeLongEnough(v: string)
    ensures |Escape(v)| >= |v|
    decreases |v|
  {
    if v != "" {
      EscapeLongEnough(v[1..]);
    }
  }

  lemma {:induction false} EscapeOneLine(v: string)
    ensures '\n' !in Escape(v) && '\r' !in Escape(v)
    decreases |v|
  {
    if v != "" {
      EscapeOneLine(v[1..]);
    }
  }

  /** Escaping works character by character, and touches only three of them. */
  lemma {:induction false} EscapeAppend(a: string, b: string)
    ensures Escape(a + b) == Escape(a) + Escape(b)
    decreases |a|
  {
    if a == "" {
      assert a + b == b;
    } else {
      assert (a + b)[1..] == a[1..] + b;
      EscapeAppend(a[1..], b);
    }
  }

  lemma EscapeOne(c: char)
    ensures Escape([c]) == if c == '\\' then "\\\\" else if c == '\n' then "\\n" else if c == '\r' then "\\r" else [c]
  {
    assert [c][1..] == "" && Escape("") == "";
  }

  /** No backslash in the string is followed by a backslash, an `n` or an `r`. */
  ghost predicate NoPairs(v: string) {
    forall i :: 0 <= i < |v| - 1 ==> v[i] == '\\' ==> v[i + 1] !in "\\nr"
  }

  /** Unescaping leaves alone a string without such pairs, a backslash before
      anything else and at the end too. */
  lemma {:induction false} UnescapeKeeps(v: string)
    requires NoPairs(v)
    ensures Unescape(v) == v
    decreases |v|
  {
    if |v| > 1 {
      assert v[0] == '\\' ==> v[0 + 1] !in "\\nr";
      assert forall i :: 0 <= i < |v[1..]| ==> v[1..][i] == v[i + 1];
      UnescapeKeeps(v[1..]);
    }
  }

  /** Of any other string, it replaces the first pair, and goes on behind it. */
  lemma {:induction false} UnescapeFirstPair(a: string, b: char, rest: string)
    requires NoPairs(a) && (a != "" ==> a[|a| - 1] != '\\') && b in "\\nr"
    ensures Unescape(a + ['\\', b] + rest)
         == a + [if b == 'n' then '\n' else if b == 'r' then '\r' else '\\'] + Unescape(rest)
    decreases |a|
  {
    var v := a + ['\\', b] + rest;
    if a == "" {
      assert v[2..] == rest;
    } else {
      assert v[0] == '\\' ==> |a| > 1 && v[1] == a[0 + 1];
      assert v[1..] == a[1..] + ['\\', b] + rest;
      assert forall i :: 0 <= i < |a[1..]| ==> a[1..][i] == a[i + 1];
      UnescapeFirstPair(a[1..], b, rest);
    }
  }

  // ------------------------------------------------------------- the text

  /** What one line adds to a map: `insert` keeps a key that is there, and a line
      without `=` or without a value adds nothing. */
  function AddLine(m: Params, line: string): Params {
    var j := Find(line, '=');
    if j + 1 >= |line| || line[..j] in m then m
    else m[line[..j] := Unescape(line[j + 1..])]
  }

  function FirstLine(text: string): string {
    text[..Find(text, '\n')]
  }

  /** What follows the first line and its newline, if it has one. */
  function OtherLines(text: string): (r: string)
    ensures text != "" ==> |r| < |text|
  {
    var i := Find(text, '\n');
    if i < |text| then text[i + 1..] else ""
  }

  /** The lines of a text, one after the other. */
  function AddLines(m: Params, text: string): Params
    decreases |text|
  {
    if text == "" then m else AddLines(AddLine(m, FirstLine(text)), OtherLines(text))
  }

  function LoadText(text: string): Params {
    AddLines(map[], text)
  }

  function Lines(text: string): seq<string>
    decreases |text|
  {
    if text == "" then [] else [FirstLine(text)] + Lines(OtherLines(text))
  }

  /** The line gives the key a value: the key, the first `=`, and something. */
  predicate Gives(line: string, key: string) {
    '=' !in key && key + "=" < line
  }

  /** Where the first line is that gives the key a value, or how many lines there
      are. */
  function FirstGiving(lines: seq<string>, key: string): (i: nat)
    ensures i <= |lines| && (i < |lines| ==> Gives(lines[i], key))
    ensures forall k :: 0 <= k < i ==> !Gives(lines[k], key)
  {
    if lines == [] || Gives(lines[0], key) then 0 else 1 + FirstGiving(lines[1..], key)
  }

  lemma {:induction false} AddLineGives(m: Params, line: string, key: string)
    ensures key in AddLine(m, line) <==> key in m || Gives(line, key)
    ensures key in m ==> AddLine(m, line)[key] == m[key]
    ensures key !in m && Gives(line, key) ==> AddLine(m, line)[key] == Unescape(line[|key| + 1..])
  {
    var j := Find(line, '=');
    if Gives(line, key) {
      assert line[|key|] == (key + "=")[|key|] == '=' && line[..|key|] == (key + "=")[..|key|] == key;
      FindSplits(line, '=', |key|);
    }
  }

  /** The map has the key if and only if some line gives it a value, and then what
      the first such line gives it, unescaped. */
  ghost predicate FirstWins(m: Params, lines: seq<string>, key: string) {
    var i := FirstGiving(lines, key);
    (key in m <==> i < |lines|) && (key in m ==> m[key] == Unescape(lines[i][|key| + 1..]))
  }

  lemma {:induction false} FirstWinsNext(m: Params, line: string, lines: seq<string>, key: string)
    requires if Gives(line, key) then key in m && m[key] == Unescape(line[|key| + 1..]) else FirstWins(m, lines, key)
    ensures FirstWins(m, [line] + lines, key)
  {
    assert ([line] + lines)[1..] == lines;
  }

  lemma {:induction false} AddLinesKeep(m: Params, text: string, key: string)
    requires key in m
    ensures key in AddLines(m, text) && AddLines(m, text)[key] == m[key]
    decreases |text|
  {
    if text != "" {
      AddLineGives(m, FirstLine(text), key);
      AddLinesKeep(AddLine(m, FirstLine(text)), OtherLines(text), key);
    }
  }

  lemma {:induction false} LinesGive(m: Params, text: string, key: string)
    requires key !in m
    ensures FirstWins(AddLines(m, text), Lines(text), key)
    decreases |text|
  {
    if text != "" {
      var line, rest := FirstLine(text), OtherLines(text);
      AddLineGives(m, line, key);
      if Gives(line, key) {
        AddLinesKeep(AddLine(m, line), rest, key);
      } else {
        LinesGive(AddLine(m, line), rest, key);
      }
      FirstWinsNext(AddLines(m, text), line, Lines(rest), key);
    }
  }

  /** Of every text, exactly what is loaded of it. */
  lemma LoadsFirstGiven(text: string, key: string)
    ensures FirstWins(LoadText(text), Lines(text), key)
  {
    LinesGive(map[], text, key);
  }

  function Line(key: string, value: string): string {
    key + "=" + Escape(value) + "\n"
  }

  ghost function PrintText(m: Params, keys: seq<string>): string
    requires forall k :: k in keys ==> k in m
  {
    if keys == [] then "" else Line(keys[0], m[keys[0]]) + PrintText(m, keys[1..])
  }

  /** `keys` lists the keys of the map, each once. The program lists them in
      order; nothing below depends on that. */
  ghost predicate Enumerates(m: Params, keys: seq<string>) {
    NoRepeats(keys) && (forall k :: k in keys <==> k in m)
  }

  ghost predicate IsTextOf(text: string, m: Params) {
    exists keys :: Enumerates(m, keys) && text == PrintText(m, keys)
  }

  /** `saveMap`, up to the file it writes to. */
  method SaveText(m: Params) returns (text: string)
    ensures IsTextOf(text, m)
  {
    text := "";
    var done := {};
    ghost var keys: seq<string> := [];
    while exists k :: k in m && k !in done
      invariant NoRepeats(keys) && (forall k :: k in keys <==> k in done) && forall k :: k in keys ==> k in m
      invariant text == PrintText(m, keys)
      decreases m.Keys - done
    {
      var key: string :| key in m && key !in done;
      var value := EscapeInPlace(m[key]);
      PrintTextAppend(m, keys, key);
      text := text + (key + "=" + value + "\n");
      keys := keys + [key];
      done := done + {key};
    }
    assert Enumerates(m, keys);
  }

  lemma {:induction false} PrintTextAppend(m: Params, keys: seq<string>, key: string)
    requires key in m && forall k :: k in keys ==> k in m
    ensures PrintText(m, keys + [key]) == PrintText(m, keys) + Line(key, m[key])
    decreases |keys|
  {
    if keys == [] {
      assert ([key])[1..] == [];
    } else {
      assert (keys + [key])[1..] == keys[1..] + [key];
      PrintTextAppend(m, keys[1..], key);
    }
  }

  // ------------------------------------------------------------ round trip

  /** A key that the text can hold. */
  predicate CleanKey(k: string) {
    '=' !in k && '\n' !in k
  }

  ghost predicate CleanKeys(m: Params) {
    forall k :: k in m ==> CleanKey(k)
  }

  /** The entries that are read back: those with a value. */
  ghost function NonEmpty(m: Params): Params {
    map k | k in m && m[k] != "" :: m[k]
  }

  lemma AddsPrintedLine(m: Params, key: string, value: string)
    requires CleanKey(key)
    ensures AddLine(m, key + "=" + Escape(value)) == if value == "" || key in m then m else m[key := value]
  {
    var line := key + "=" + Escape(value);
    FindAt(key, '=', Escape(value));
    assert line == key + ['='] + Escape(value);
    assert line[..|key|] == key && line[|key| + 1..] == Escape(value);
    UnescapeEscape(value);
    EscapeLongEnough(value);
  }

  lemma ReadsPrintedLine(m: Params, key: string, value: string, rest: string)
    requires CleanKey(key)
    ensures AddLines(m, Line(key, value) + rest) == AddLines(AddLine(m, key + "=" + Escape(value)), rest)
  {
    var line := key + "=" + Escape(value);
    EscapeOneLine(value);
    var text := Line(key, value) + rest;
    assert text == line + ['\n'] + rest;
    FindAt(line, '\n', rest);
    assert text[..|line|] == line && text[|line| + 1..] == rest;
  }

  /** `r` is `acc` with the non-empty entries of `m` under `keys`. */
  ghost predicate Extends(r: Params, acc: Params, m: Params, keys: seq<string>)
    requires forall k :: k in keys ==> k in m
  {
    && (forall k :: k in r <==> k in acc || (k in keys && m[k] != ""))
    && (forall k :: k in acc ==> r[k] == acc[k])
    && (forall k :: k in keys && m[k] != "" ==> r[k] == m[k])
  }

  lemma {:induction false} ReadsPrintedText(acc: Params, m: Params, keys: seq<string>)
    requires (forall k :: k in keys ==> k in m && CleanKey(k) && k !in acc) && NoRepeats(keys)
    ensures Extends(AddLines(acc, PrintText(m, keys)), acc, m, keys)
    decreases |keys|
  {
    if keys != [] {
      var key, rest := keys[0], keys[1..];
      FirstOfList(keys);
      ReadsPrintedLine(acc, key, m[key], PrintText(m, rest));
      AddsPrintedLine(acc, key, m[key]);
      ReadsPrintedText(AddLine(acc, key + "=" + Escape(m[key])), m, rest);
    }
  }

  lemma FirstOfList(keys: seq<string>)
    requires NoRepeats(keys) && keys != []
    ensures NoRepeats(keys[1..]) && keys[0] !in keys[1..]
    ensures forall k :: k in keys <==> k == keys[0] || k in keys[1..]
  {
    assert keys == [keys[0]] + keys[1..];
  }

  /** Loading what was saved gives back the map, less its empty values. */
  lemma SaveThenLoad(m: Params, text: string)
    requires CleanKeys(m) && IsTextOf(text, m)
    ensures LoadText(text) == NonEmpty(m)
  {
    var keys :| Enumerates(m, keys) && text == PrintText(m, keys);
    ReadsPrintedText(map[], m, keys);
    assert Extends(LoadText(text), map[], m, keys);
  }

  lemma {:induction false} UnescapeNotEmpty(v: string)
    requires v != ""
    ensures Unescape(v) != ""
  {
  }

  /** What can be loaded: clean keys with values. */
  ghost predicate Loadable(m: Params) {
    CleanKeys(m) && forall k :: k in m ==> m[k] != ""
  }

  lemma AddLineLoadable(m: Params, line: string)
    requires Loadable(m) && '\n' !in line
    ensures Loadable(AddLine(m, line))
  {
    var j := Find(line, '=');
    if j + 1 < |line| && line[..j] !in m {
      UnescapeNotEmpty(line[j + 1..]);
      assert CleanKey(line[..j]);
    }
  }

  lemma {:induction false} AddLinesLoadable(m: Params, text: string)
    requires Loadable(m)
    ensures Loadable(AddLines(m, text))
    decreases |text|
  {
    if text != "" {
      AddLineLoadable(m, FirstLine(text));
      AddLinesLoadable(AddLine(m, FirstLine(text)), OtherLines(text));
    }
  }

  /** Whatever the text, the keys that are loaded have no `=` and no newline, and
      the values are not empty. */
  lemma LoadedIsLoadable(text: string)
    ensures Loadable(LoadText(text))
  {
    AddLinesLoadable(map[], text);
  }

  /** A map survives saving and loading exactly when none of its keys holds `=` or
      a newline and none of its values is empty. */
  lemma SaveThenLoadIff(m: Params, text: string)
    requires IsTextOf(text, m)
    ensures LoadText(text) == m <==> Loadable(m)
  {
    LoadedIsLoadable(text);
    if Loadable(m) {
      SaveThenLoad(m, text);
      assert NonEmpty(m) == m;
    }
  }
}

/** `splitArguments`: a command line cut at spaces, with quotes. */
module SplitArguments {
  import opened Strings

  /** The components, or a scanning loop that never ends. */
  datatype Split = Components(args: seq<string>) | NeverEnds

  /** What the loop is looking for: the next space or quote, or a closing quote. */
  datatype Mode = AnyText | Closing(quote: char)

  /** The rest of the line after `n` characters. */
  function Skip(s: string, n: nat): string {
    if n < |s| then s[n..] else ""
  }

  /** One turn of the scanning loop on a rest of the line that is not empty: it
      ends, or goes on with a shorter rest. */
  datatype Step = Stop(split: Split) | Go(rest: string, mode: Mode, args: seq<string>)

  /** The turn, case by case. A character that is not found is at the length. */
  function Next(rest: string, mode: Mode, args: seq<string>): (s: Step)
    requires rest != ""
    ensures s.Go? ==> |s.rest| < |rest|
  {
    var ws, dq, sq := Find(rest, ' '), Find(rest, '"'), Find(rest, '\'');
    var n := |rest|;
    if ws == n && sq == n && dq == n then Stop(Components(args + [rest]))
    else if mode == AnyText && ws < dq && ws < sq then Go(Skip(rest, ws + 1), AnyText, args + [rest[..ws]])
    else if mode == AnyText && ((ws == n && sq != n) || (ws == n && dq != n) || ws > sq || ws > dq) then
      if dq == n || dq > sq then Go(Skip(rest, sq + 1), Closing('\''), args) else Go(Skip(rest, dq + 1), Closing('"'), args)
    else if mode == Closing('\'') && sq != n then Go(Skip(rest, sq + 2), AnyText, args + [rest[..sq]])
    else if mode == Closing('"') && dq != n then Go(Skip(rest, dq + 2), AnyText, args + [rest[..dq]])
    else Stop(NeverEnds)
  }

  /** The scanning loop on the rest of the line. */
  function Scan(rest: string, mode: Mode, args: seq<string>): Split
    decreases |rest|
  {
    if rest == "" then Components(args)
    else match Next(rest, mode, args)
      case Stop(split) => split
      case Go(r, m, a) => Scan(r, m, a)
  }

  lemma SkipMore(source: string, iPos: nat, n: nat)
    ensures Skip(Skip(source, iPos), n) == Skip(source, iPos + n)
  {
    if iPos + n < |source| {
      assert source[iPos..][n..] == source[iPos + n..];
    }
  }

  lemma SkipIsDrop(s: string, n: nat)
    requires n <= |s|
    ensures Skip(s, n) == s[n..]
  {
  }

  /** One turn of the loop: it ends, or moves the position and goes on. */
  method Turn(rest: string, mode: Mode, found: seq<string>)
    returns (ended: bool, r: Split, advance: nat, nextChar: Mode, args: seq<string>)
    requires rest != ""
    ensures Next(rest, mode, found) == if ended then Stop(r) else Go(Skip(rest, advance), nextChar, args)
    ensures !ended ==> advance > 0
  {
    ended, r, advance, nextChar, args := false, NeverEnds, 0, mode, found;
    var wsPos, dqPos, sqPos := Find(rest, ' '), Find(rest, '"'), Find(rest, '\'');
    if wsPos == |rest| && sqPos == |rest| && dqPos == |rest| {
      // neither a space nor a quote is left
      ended, r := true, Components(args + [rest]);
    } else if mode == AnyText && wsPos < dqPos && wsPos < sqPos {
      // a space ends a component
      args := args + [rest[..wsPos]];
      advance := wsPos + 1;
    } else if mode == AnyText {
      // a quote opens before the next space
      if dqPos == |rest| || dqPos > sqPos {
        nextChar := Closing('\'');
        advance := sqPos + 1;
      } else {
        nextChar := Closing('"');
        advance := dqPos + 1;
      }
    } else if mode == Closing('\'') && sqPos != |rest| {
      // inside single quotes
      args := args + [rest[..sqPos]];
      advance := sqPos + 2;
      nextChar := AnyText;
    } else if mode == Closing('"') && dqPos != |rest| {
      // inside double quotes
      args := args + [rest[..dqPos]];
      advance := dqPos + 2;
      nextChar := AnyText;
    } else {
      // nothing changes here, so the loop goes round for ever
      ended := true;
    }
  }

  lemma ScanTurn(rest: string, mode: Mode, args: seq<string>, s: Step)
    requires rest != "" && s == Next(rest, mode, args)
    ensures s.Stop? ==> Scan(rest, mode, args) == s.split
    ensures s.Go? ==> Scan(rest, mode, args) == Scan(s.rest, s.mode, s.args)
  {
  }

  /** The scanning loop, over a position in the line. The list of components is
      static: it starts with those of earlier calls. */
  method Scanning(source: string, earlier: seq<string>) returns (r: Split)
    ensures r == Scan(source, AnyText, earlier)
  {
    var args := earlier;
    var iPos := 0;
    var nextChar := AnyText;
    ghost var result, rest := Scan(source, AnyText, earlier), source;
    while iPos < |source|
      invariant rest == Skip(source, iPos) && Scan(rest, nextChar, args) == result
      decreases |source| - iPos
    {
      var ended, stopped, advance, mode, found := Turn(source[iPos..], nextChar, args);
      ScanTurn(rest, nextChar, args, if ended then Stop(stopped) else Go(Skip(rest, advance), mode, found));
      if ended {
        return stopped;
      }
      SkipMore(source, iPos, advance);
      rest := Skip(rest, advance);
      iPos, nextChar, args := iPos + advance, mode, found;
    }
    r := Components(args);
  }

  /** An element of the buffer of C strings. */
  datatype Pointer = Null | To(text: string)

  /** Where the terminator goes: after the components, or at the end of the buffer. */
  function Terminator(count: nat, bufferSize: nat, bufferOffset: nat): nat
    requires bufferOffset < bufferSize
  {
    if bufferOffset + count < bufferSize then bufferOffset + count else bufferSize - 1
  }

  /** The loop that puts the components into the buffer, after those that are
      there, and a terminator behind them. */
  method Fill(args: seq<string>, charBuffer: array<Pointer>, bufferSize: nat, bufferOffset: nat) returns (i: nat)
    requires bufferOffset < bufferSize <= charBuffer.Length
    modifies charBuffer
    ensures i == Terminator(|args|, bufferSize, bufferOffset) && charBuffer[i] == Null
    ensures forall k :: bufferOffset <= k < i ==> charBuffer[k] == To(args[k - bufferOffset])
    ensures forall k :: 0 <= k < charBuffer.Length && !(bufferOffset <= k <= i) ==> charBuffer[k] == old(charBuffer[k])
  {
    i := bufferOffset;
    for n := 0 to |args|
      invariant i == bufferOffset + n < bufferSize
      invariant forall k :: bufferOffset <= k < i ==> charBuffer[k] == To(args[k - bufferOffset])
      invariant forall k :: 0 <= k < charBuffer.Length && !(bufferOffset <= k < i) ==> charBuffer[k] == old(charBuffer[k])
    {
      if i + 1 >= bufferSize {
        charBuffer[i] := Null;
        break;
      }
      charBuffer[i] := To(args[n]);
      i := i + 1;
    }
    charBuffer[i] := Null;
  }

  // ------------------------------------------------------------ round trip

  /** A component as it is written on a line. */
  datatype Token = Plain(text: string) | Quoted(quote: char, text: string)

  predicate IsQuote(c: char) {
    c == '\'' || c == '"'
  }

  predicate ValidToken(t: Token) {
    match t
    case Plain(text) => text != "" && ' ' !in text && '\'' !in text && '"' !in text
    case Quoted(quote, text) => IsQuote(quote) && quote !in text
  }

  function Written(t: Token): string {
    match t
    case Plain(text) => text
    case Quoted(quote, text) => [quote] + text + [quote]
  }

  function Join(tokens: seq<Token>): string {
    if tokens == [] then ""
    else if |tokens| == 1 then Written(tokens[0])
    else Written(tokens[0]) + [' '] + Join(tokens[1..])
  }

  function Contents(tokens: seq<Token>): seq<string> {
    if tokens == [] then [] else [tokens[0].text] + Contents(tokens[1..])
  }

  ghost predicate AllValid(tokens: seq<Token>) {
    forall t :: t in tokens ==> ValidToken(t)
  }

  lemma FindAbsent(s: string, c: char)
    requires c !in s
    ensures Find(s, c) == |s|
  {
    FindSplits(s, c, |s|);
    assert s[..|s|] == s;
  }

  /** A plain component followed by a space. */
  lemma ScansPlain(text: string, rest: string, args: seq<string>)
    requires ValidToken(Plain(text))
    ensures Scan(text + [' '] + rest, AnyText, args) == Scan(rest, AnyText, args + [text])
  {
    var s := text + [' '] + rest;
    FindAt(text, ' ', rest);
    assert s[|text|] == ' ' && s[..|text|] == text && s[|text| + 1..] == rest;
    NotWithin(s, '"', |text|);
    NotWithin(s, '\'', |text|);
  }

  /** A character that is not among the first `n + 1` is found after them. */
  lemma NotWithin(s: string, c: char, n: nat)
    requires n < |s| && c !in s[..n] && s[n] != c
    ensures Find(s, c) > n
  {
  }

  lemma ScansOpening(q: char, s: string, args: seq<string>)
    requires IsQuote(q)
    ensures Scan([q] + s, AnyText, args) == Scan(s, Closing(q), args)
  {
    var line := [q] + s;
    FindSplits(line, q, 0);
    NotWithin(line, ' ', 0);
    NotWithin(line, if q == '"' then '\'' else '"', 0);
    assert Skip(line, 1) == line[1..] == s;
    ScanTurn(line, AnyText, args, Go(s, Closing(q), args));
  }

  lemma ScansClosing(q: char, text: string, after: string, args: seq<string>)
    requires IsQuote(q) && q !in text
    ensures Scan(text + [q] + after, Closing(q), args) == Scan(Skip(after, 1), AnyText, args + [text])
  {
    var line := text + [q] + after;
    FindAt(text, q, after);
    assert line[..|text|] == text;
    SkipPast(text, q, after);
    ScanTurn(line, Closing(q), args, Next(line, Closing(q), args));
  }

  lemma SkipPast(text: string, q: char, after: string)
    ensures Skip(text + [q] + after, |text| + 2) == Skip(after, 1)
  {
    var line := text + [q] + after;
    if after != "" {
      assert line[|text| + 2..] == after[1..];
    }
  }

  /** A quoted component, at the end of the line or followed by a character. */
  lemma ScansQuoted(t: Token, after: string, args: seq<string>)
    requires t.Quoted? && ValidToken(t)
    ensures Scan(Written(t) + after, AnyText, args) == Scan(Skip(after, 1), AnyText, args + [t.text])
  {
    ScansOpening(t.quote, t.text + [t.quote] + after, args);
    assert Written(t) + after == [t.quote] + (t.text + [t.quote] + after);
    ScansClosing(t.quote, t.text, after, args);
  }

  /** The last component. */
  lemma ScansLast(t: Token, args: seq<string>)
    requires ValidToken(t)
    ensures Scan(Written(t), AnyText, args) == Components(args + [t.text])
  {
    if t.Plain? {
      FindAbsent(t.text, ' ');
      FindAbsent(t.text, '"');
      FindAbsent(t.text, '\'');
    } else {
      assert Written(t) == Written(t) + "";
      ScansQuoted(t, "", args);
    }
  }

  /** A component and the space behind it. */
  lemma ScansNext(t: Token, after: string, args: seq<string>)
    requires ValidToken(t)
    ensures Scan(Written(t) + [' '] + after, AnyText, args) == Scan(after, AnyText, args + [t.text])
  {
    if t.Plain? {
      ScansPlain(t.text, after, args);
    } else {
      assert Written(t) + [' '] + after == Written(t) + ([' '] + after);
      ScansQuoted(t, [' '] + after, args);
      SkipIsDrop([' '] + after, 1);
    }
  }

  /** Splitting inverts the joining of components by single spaces. */
  lemma {:induction false} SplitsWhatWasJoined(tokens: seq<Token>, args: seq<string>)
    requires AllValid(tokens)
    ensures Scan(Join(tokens), AnyText, args) == Components(args + Contents(tokens))
    decreases |tokens|
  {
    if tokens != [] {
      var t, rest := tokens[0], tokens[1..];
      assert t in tokens && forall u :: u in rest ==> u in tokens;
      assert Contents(tokens) == [t.text] + Contents(rest);
      if rest == [] {
        ScansLast(t, args);
      } else {
        ScansNext(t, Join(rest), args);
        SplitsWhatWasJoined(rest, args + [t.text]);
        assert args + [t.text] + Contents(rest) == args + Contents(tokens);
      }
    }
  }

  // -------------------------------------------------------- reading any line

  /** Where a reader of the line is, character by character: in a component
      outside quotes, inside a quote that was opened, or at the character after a
      closing quote, which is skipped. */
  datatype Place = Outside(text: string) | Inside(quote: char, text: string) | AfterQuote

  datatype Reader = Reader(args: seq<string>, at: Place)

  /** A space ends a component, an opening quote drops what is in front of it, and
      a closing quote ends what it encloses. */
  function Read1(r: Reader, c: char): Reader {
    match r.at
    case Outside(text) =>
      if c == ' ' then Reader(r.args + [text], Outside(""))
      else if IsQuote(c) then r.(at := Inside(c, ""))
      else r.(at := Outside(text + [c]))
    case Inside(quote, text) =>
      if c == quote then Reader(r.args + [text], AfterQuote) else r.(at := Inside(quote, text + [c]))
    case AfterQuote => r.(at := Outside(""))
  }

  function Read(r: Reader, s: string): Reader
    decreases |s|
  {
    if s == "" then r else Read(Read1(r, s[0]), s[1..])
  }

  /** A space or a quote is among the characters. */
  predicate HasMark(s: string) {
    ' ' in s || '"' in s || '\'' in s
  }

  /** The line ends inside a quote after a space or the other quote. */
  predicate Hangs(r: Reader) {
    r.at.Inside? && HasMark(r.at.text)
  }

  /** What the line comes to when it ends here: an empty last component is
      dropped, and an open quote is a component, if it ends at all. */
  function Outcome(r: Reader): Split {
    if Hangs(r) then NeverEnds
    else if r.at.AfterQuote? || r.at.text == "" then Components(r.args)
    else Components(r.args + [r.at.text])
  }

  lemma {:induction false} ReadInTwo(r: Reader, a: string, b: string)
    ensures Read(r, a + b) == Read(Read(r, a), b)
    decreases |a|
  {
    if a == "" {
      assert a + b == b;
    } else {
      assert (a + b)[1..] == a[1..] + b;
      ReadInTwo(Read1(r, a[0]), a[1..], b);
    }
  }

  lemma {:induction false} ReadsPlain(args: seq<string>, text: string, s: string)
    requires !HasMark(s)
    ensures Read(Reader(args, Outside(text)), s) == Reader(args, Outside(text + s))
    decreases |s|
  {
    if s == "" {
      assert text + s == text;
    } else {
      assert s[0] in s && forall c :: c in s[1..] ==> c in s;
      ReadsPlain(args, text + [s[0]], s[1..]);
      assert text + [s[0]] + s[1..] == text + s;
    }
  }

  lemma {:induction false} ReadsInside(args: seq<string>, q: char, text: string, s: string)
    requires q !in s
    ensures Read(Reader(args, Inside(q, text)), s) == Reader(args, Inside(q, text + s))
    decreases |s|
  {
    if s == "" {
      assert text + s == text;
    } else {
      assert s[0] in s && forall c :: c in s[1..] ==> c in s;
      ReadsInside(args, q, text + [s[0]], s[1..]);
      assert text + [s[0]] + s[1..] == text + s;
    }
  }

  lemma ReadsUpTo(r: Reader, s: string, n: nat)
    requires n < |s|
    ensures Read(r, s) == Read(Read1(Read(r, s[..n]), s[n]), s[n + 1..])
  {
    assert s == s[..n] + s[n..];
    ReadInTwo(r, s[..n], s[n..]);
    assert s[n..][1..] == s[n + 1..];
  }

  lemma FindMember(s: string, c: char)
    ensures Find(s, c) < |s| <==> c in s
  {
    if c !in s {
      FindAbsent(s, c);
    }
  }

  lemma NoneBefore(s: string, c: char, n: nat)
    requires n <= Find(s, c)
    ensures c !in s[..n]
  {
    var i := Find(s, c);
    assert forall k :: 0 <= k < n ==> s[..n][k] == s[..i][k];
  }

  function Start(mode: Mode): Place {
    if mode == AnyText then Outside("") else Inside(mode.quote, "")
  }

  /** On every line, the scanning loop comes to what the reader does. */
  lemma {:induction false} ScansAsRead(rest: string, mode: Mode, args: seq<string>)
    requires mode.Closing? ==> IsQuote(mode.quote)
    ensures Scan(rest, mode, args) == Outcome(Read(Reader(args, Start(mode)), rest))
    decreases |rest|
  {
    if rest != "" {
      if mode == AnyText {
        OutsideTurn(rest, args);
      } else {
        InsideTurn(rest, mode.quote, args);
      }
    }
  }

  lemma {:induction false} OutsideTurn(rest: string, args: seq<string>)
    requires rest != ""
    ensures Scan(rest, AnyText, args) == Outcome(Read(Reader(args, Outside("")), rest))
    decreases |rest|, 0
  {
    var ws, dq, sq := Find(rest, ' '), Find(rest, '"'), Find(rest, '\'');
    var first := if ws < dq && ws < sq then ws else if dq < sq then dq else sq;
    if first == |rest| {
      FindMember(rest, ' ');
      FindMember(rest, '"');
      FindMember(rest, '\'');
      ReadsPlain(args, "", rest);
      assert "" + rest == rest;
    } else {
      OutsideReads(rest, args, first);
      OutsideStep(rest, args, first);
      if rest[first] == ' ' {
        ScansAsRead(rest[first + 1..], AnyText, args + [rest[..first]]);
      } else {
        ScansAsRead(rest[first + 1..], Closing(rest[first]), args);
      }
    }
  }

  /** The turn at the first space or quote. */
  lemma OutsideStep(rest: string, args: seq<string>, n: nat)
    requires n < |rest| && n <= Find(rest, ' ') && n <= Find(rest, '"') && n <= Find(rest, '\'')
    requires rest[n] == ' ' || IsQuote(rest[n])
    ensures Scan(rest, AnyText, args)
         == if rest[n] == ' ' then Scan(rest[n + 1..], AnyText, args + [rest[..n]]) else Scan(rest[n + 1..], Closing(rest[n]), args)
  {
    NoneBefore(rest, rest[n], n);
    FindSplits(rest, rest[n], n);
    SkipIsDrop(rest, n + 1);
    if rest[n] == ' ' {
      FoundElsewhere(rest, '"', n);
      FoundElsewhere(rest, '\'', n);
      SpaceTurn(rest, args, n);
    } else {
      FoundElsewhere(rest, ' ', n);
      FoundElsewhere(rest, if rest[n] == '"' then '\'' else '"', n);
      QuoteTurn(rest, args, n);
    }
  }

  lemma SpaceTurn(rest: string, args: seq<string>, n: nat)
    requires n < |rest| && Find(rest, ' ') == n < Find(rest, '"') && n < Find(rest, '\'')
    ensures Scan(rest, AnyText, args) == Scan(Skip(rest, n + 1), AnyText, args + [rest[..n]])
  {
    ScanTurn(rest, AnyText, args, Go(Skip(rest, n + 1), AnyText, args + [rest[..n]]));
  }

  lemma QuoteTurn(rest: string, args: seq<string>, n: nat)
    requires n < |rest| && IsQuote(rest[n]) && Find(rest, rest[n]) == n < Find(rest, ' ')
    requires Find(rest, if rest[n] == '"' then '\'' else '"') > n
    ensures Scan(rest, AnyText, args) == Scan(Skip(rest, n + 1), Closing(rest[n]), args)
  {
    ScanTurn(rest, AnyText, args, Go(Skip(rest, n + 1), Closing(rest[n]), args));
  }

  lemma FoundElsewhere(s: string, c: char, n: nat)
    requires n < |s| && n <= Find(s, c) && s[n] != c
    ensures Find(s, c) > n
  {
  }

  lemma OutsideReads(rest: string, args: seq<string>, n: nat)
    requires n < |rest| && n <= Find(rest, ' ') && n <= Find(rest, '"') && n <= Find(rest, '\'')
    requires rest[n] == ' ' || IsQuote(rest[n])
    ensures var next := if rest[n] == ' ' then Reader(args + [rest[..n]], Outside("")) else Reader(args, Inside(rest[n], ""));
            Read(Reader(args, Outside("")), rest) == Read(next, rest[n + 1..])
  {
    NoneBefore(rest, ' ', n);
    NoneBefore(rest, '"', n);
    NoneBefore(rest, '\'', n);
    ReadsPlain(args, "", rest[..n]);
    assert "" + rest[..n] == rest[..n];
    ReadsUpTo(Reader(args, Outside("")), rest, n);
  }

  lemma InsideToTheEnd(rest: string, q: char, args: seq<string>)
    requires rest != "" && IsQuote(q) && Find(rest, q) == |rest|
    ensures Scan(rest, Closing(q), args) == Outcome(Read(Reader(args, Inside(q, "")), rest))
  {
    FindMember(rest, q);
    ReadsInside(args, q, "", rest);
    assert "" + rest == rest;
    FindMember(rest, ' ');
    FindMember(rest, '"');
    FindMember(rest, '\'');
  }

  lemma ReadsPastQuote(q: char, rest: string, args: seq<string>, n: nat)
    requires n < |rest| && rest[n] == q && q !in rest[..n]
    ensures Outcome(Read(Reader(args, Inside(q, "")), rest))
         == Outcome(Read(Reader(args + [rest[..n]], Outside("")), Skip(rest, n + 2)))
  {
    ReadsInside(args, q, "", rest[..n]);
    assert "" + rest[..n] == rest[..n];
    ReadsUpTo(Reader(args, Inside(q, "")), rest, n);
    var after := rest[n + 1..];
    if after != "" {
      assert Skip(rest, n + 2) == after[1..];
    }
  }

  lemma {:induction false} InsideTurn(rest: string, q: char, args: seq<string>)
    requires rest != "" && IsQuote(q)
    ensures Scan(rest, Closing(q), args) == Outcome(Read(Reader(args, Inside(q, "")), rest))
    decreases |rest|, 0
  {
    var n := Find(rest, q);
    if n == |rest| {
      InsideToTheEnd(rest, q, args);
    } else {
      NoneBefore(rest, q, n);
      ReadsPastQuote(q, rest, args, n);
      ScanTurn(rest, Closing(q), args, Go(Skip(rest, n + 2), AnyText, args + [rest[..n]]));
      ScansAsRead(Skip(rest, n + 2), AnyText, args + [rest[..n]]);
    }
  }

  /** Over every line, the scanning loop never ends exactly when the line ends
      inside an open quote with a space or the other quote in it. */
  lemma NeverEndsIff(line: string, args: seq<string>)
    ensures Scan(line, AnyText, args) == NeverEnds <==> Hangs(Read(Reader(args, Outside("")), line))
  {
    ScansAsRead(line, AnyText, args);
  }

  /** Such a line: a quote, and a space before the line ends. */
  lemma OpenQuoteNeverEnds()
    ensures Scan("\"a b", AnyText, []) == NeverEnds
  {
    NeverEndsIff("\"a b", []);
    assert "\"a b"[1..] == "a b";
    ReadsInside([], '"', "", "a b");
    assert "" + "a b" == "a b" && ' ' in "a b";
    assert Read(Reader([], Outside("")), "\"a b") == Read(Reader([], Inside('"', "")), "a b");
  }

  // ------------------------------------------------------ lines without quotes

  /** Pieces with a space between each and the next. */
  function Spaced(pieces: seq<string>): string {
    if pieces == [] then ""
    else if |pieces| == 1 then pieces[0]
    else Spaced(pieces[..|pieces| - 1]) + " " + pieces[|pieces| - 1]
  }

  ghost predicate NoSpaces(pieces: seq<string>) {
    forall p :: p in pieces ==> ' ' !in p
  }

  lemma {:induction false} ReadsPieces(args: seq<string>, text: string, s: string) returns (r: Reader)
    requires '"' !in s && '\'' !in s && NoSpaces(args + [text])
    ensures r == Read(Reader(args, Outside(text)), s) && r.at.Outside?
    ensures NoSpaces(r.args + [r.at.text]) && Spaced(r.args + [r.at.text]) == Spaced(args + [text]) + s
    ensures r.at.text == "" <==> if s == "" then text == "" else s[|s| - 1] == ' '
    decreases |s|
  {
    if s == "" {
      r := Reader(args, Outside(text));
      assert Spaced(args + [text]) + s == Spaced(args + [text]);
    } else {
      var next := Read1(Reader(args, Outside(text)), s[0]);
      PieceGrows(args, text, s[0]);
      r := ReadsPieces(next.args, next.at.text, s[1..]);
      assert Spaced(args + [text]) + s == (Spaced(args + [text]) + [s[0]]) + s[1..];
    }
  }

  lemma PieceGrows(args: seq<string>, text: string, c: char)
    requires !IsQuote(c) && NoSpaces(args + [text])
    ensures var next := Read1(Reader(args, Outside(text)), c);
            && next.at.Outside? && NoSpaces(next.args + [next.at.text])
            && Spaced(next.args + [next.at.text]) == Spaced(args + [text]) + [c]
            && (next.at.text == "" <==> c == ' ')
  {
    var all := args + [text];
    assert all[..|all| - 1] == args;
    if c == ' ' {
      var more := all + [""];
      assert more[..|more| - 1] == all;
      assert Spaced(all) + " " + "" == Spaced(all) + [c];
    } else {
      var longer := args + [text + [c]];
      assert longer[..|longer| - 1] == args;
      assert text in all;
    }
  }

  /** A line without quotes is cut at every space: its components, which hold no
      spaces, make up the line again, with an empty one behind them if the line
      is empty or ends with a space. */
  lemma SplitsAtSpaces(line: string) returns (args: seq<string>)
    requires '"' !in line && '\'' !in line
    ensures Scan(line, AnyText, []) == Components(args) && NoSpaces(args)
    ensures line == Spaced(if line == "" || line[|line| - 1] == ' ' then args + [""] else args)
  {
    ScansAsRead(line, AnyText, []);
    assert [] + [""] == [""];
    var r := ReadsPieces([], "", line);
    assert Spaced([""]) + line == line;
    NoSpacesInFront(r.args, r.at.text);
    if r.at.text == "" {
      args := r.args;
      assert r.args + [r.at.text] == args + [""];
    } else {
      args := r.args + [r.at.text];
    }
  }

  lemma NoSpacesInFront(pieces: seq<string>, last: string)
    requires NoSpaces(pieces + [last])
    ensures NoSpaces(pieces)
  {
    assert forall p :: p in pieces ==> p in pieces + [last];
  }

  /** What the caller finds in the buffer: the components that were joined, in
      order, and a terminator, when the buffer is large enough. */
  method SplitArguments(earlier: seq<string>, source: string, charBuffer: array<Pointer>, bufferSize: nat, bufferOffset: nat)
    returns (r: Split, i: nat)
    requires bufferOffset < bufferSize <= charBuffer.Length
    modifies charBuffer
    ensures r == Scan(source, AnyText, earlier)
    ensures r.Components? ==> i == Terminator(|r.args|, bufferSize, bufferOffset) && charBuffer[i] == Null
    ensures r.Components? ==> forall k :: bufferOffset <= k < i ==> charBuffer[k] == To(r.args[k - bufferOffset])
    ensures forall tokens: seq<Token> :: earlier == [] && source == Join(tokens) && AllValid(tokens) && bufferOffset + |tokens| < bufferSize ==>
              && i == bufferOffset + |tokens| && charBuffer[i] == Null
              && forall k :: 0 <= k < |tokens| ==> charBuffer[bufferOffset + k] == To(tokens[k].text)
  {
    r := Scanning(source, earlier);
    i := bufferOffset;
    if r.Components? {
      i := Fill(r.args, charBuffer, bufferSize, bufferOffset);
    }
    forall tokens: seq<Token> | earlier == [] && source == Join(tokens) && AllValid(tokens) && bufferOffset + |tokens| < bufferSize
      ensures i == bufferOffset + |tokens| && charBuffer[i] == Null
      ensures forall k :: 0 <= k < |tokens| ==> charBuffer[bufferOffset + k] == To(tokens[k].text)
    {
      SplitsWhatWasJoined(tokens, []);
      assert [] + Contents(tokens) == Contents(tokens);
      ContentsAt(tokens);
    }
  }

  lemma {:induction false} ContentsAt(tokens: seq<Token>)
    ensures |Contents(tokens)| == |tokens|
    ensures forall k :: 0 <= k < |tokens| ==> Contents(tokens)[k] == tokens[k].text
    decreases |tokens|
  {
    if tokens != [] {
      ContentsAt(tokens[1..]);
    }
  }
}

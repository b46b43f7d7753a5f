/** Base64 as `base64_encode` and `base64_decode` compute it, with an accumulator
    of 32 bits that wraps, against the definition of section 4 of RFC 4648. */
module Base64 {
  import opened Octets

  type sextet = x: int | 0 <= x < 64

  const UINT_RANGE := 0x1_0000_0000

  /** The alphabet. */
  function Symbol(v: sextet): char {
    if v < 26 then ('A' as int + v) as char
    else if v < 52 then ('a' as int + (v - 26)) as char
    else if v < 62 then ('0' as int + (v - 52)) as char
    else if v == 62 then '+' else '/'
  }

  /** The reverse table: 64 for what is not in the alphabet. */
  function ReverseTable(c: char): (v: nat)
    ensures v <= 64
  {
    if 'A' <= c <= 'Z' then c as int - 'A' as int
    else if 'a' <= c <= 'z' then c as int - 'a' as int + 26
    else if '0' <= c <= '9' then c as int - '0' as int + 52
    else if c == '+' then 62 else if c == '/' then 63 else 64
  }

  /** What the decoder skips: white space of the C locale, and padding. */
  predicate Skips(c: char) {
    c == ' ' || '\t' <= c <= '\r' || c == '='
  }

  lemma SymbolReverse(v: sextet)
    ensures ReverseTable(Symbol(v)) == v && !Skips(Symbol(v))
  {
  }

  /** Table 1 of RFC 4648: upper case, lower case, digits, and two more. */
  lemma AlphabetOfTheRfc(v: sextet)
    ensures Symbol(0) == 'A' && Symbol(26) == 'a' && Symbol(52) == '0' && Symbol(62) == '+' && Symbol(63) == '/'
    ensures v !in {25, 51, 61, 62, 63} ==> Symbol(v + 1) as int == Symbol(v) as int + 1
  {
  }

  /** The reverse table knows the alphabet and nothing else. */
  lemma ReverseKnowsTheAlphabet(c: char)
    ensures ReverseTable(c) < 64 <==> exists v: sextet :: Symbol(v) == c
    ensures ReverseTable(c) < 64 ==> Symbol(ReverseTable(c)) == c
  {
    if ReverseTable(c) < 64 {
      var v: sextet := ReverseTable(c);
      assert Symbol(v) == c;
    }
  }

  /** White space and padding. */
  lemma SkipsExactly(c: char)
    ensures Skips(c) <==> c as int in {9, 10, 11, 12, 13, 32, 61}
  {
  }

  // ------------------------------------------------------- the definition

  /** The four 6-bit groups of three bytes, one by one. */
  function First(a: byte): sextet {
    a / 4
  }

  function Second(a: byte, b: byte): sextet {
    a as int % 4 * 16 + b as int / 16
  }

  function Third(b: byte, c: byte): sextet {
    b as int % 16 * 4 + c as int / 64
  }

  function Fourth(c: byte): sextet {
    c % 64
  }

  /** The 6-bit groups of the bytes: 24 bits make four, and a shorter end is
      filled up with zero bits. */
  function Groups(b: seq<byte>): seq<sextet> {
    if b == [] then []
    else if |b| == 1 then [First(b[0]), Second(b[0], 0)]
    else if |b| == 2 then [First(b[0]), Second(b[0], b[1]), Third(b[1], 0)]
    else [First(b[0]), Second(b[0], b[1]), Third(b[1], b[2]), Fourth(b[2])] + Groups(b[3..])
  }

  function Symbols(v: seq<sextet>): (s: string)
    ensures |s| == |v|
  {
    if v == [] then "" else [Symbol(v[0])] + Symbols(v[1..])
  }

  function Padding(n: nat): string {
    if n % 3 == 0 then "" else if n % 3 == 1 then "==" else "="
  }

  /** Section 4 of RFC 4648. */
  function Rfc4648(b: seq<byte>): string {
    Symbols(Groups(b)) + Padding(|b|)
  }

  /** The three bytes of four 6-bit groups, one by one. */
  function Byte1(u: sextet, v: sextet): byte {
    u as int * 4 + v as int / 16
  }

  function Byte2(v: sextet, w: sextet): byte {
    v as int % 16 * 16 + w as int / 4
  }

  function Byte3(w: sextet, x: sextet): byte {
    w as int % 4 * 64 + x as int
  }

  /** The bytes of 6-bit groups; bits that do not make up a byte are dropped. */
  function Bytes(v: seq<sextet>): seq<byte> {
    if |v| < 2 then []
    else if |v| == 2 then [Byte1(v[0], v[1])]
    else if |v| == 3 then [Byte1(v[0], v[1]), Byte2(v[1], v[2])]
    else [Byte1(v[0], v[1]), Byte2(v[1], v[2]), Byte3(v[2], v[3])] + Bytes(v[4..])
  }

  lemma BytesBack(a: byte, b: byte, c: byte)
    ensures Byte1(First(a), Second(a, b)) == a
    ensures Byte2(Second(a, b), Third(b, c)) == b
    ensures Byte3(Third(b, c), Fourth(c)) == c
  {
  }

  lemma BytesStep(v: seq<sextet>, rest: seq<sextet>)
    requires |v| == 4
    ensures Bytes(v + rest) == [Byte1(v[0], v[1]), Byte2(v[1], v[2]), Byte3(v[2], v[3])] + Bytes(rest)
  {
    assert (v + rest)[4..] == rest;
  }

  lemma BytesOfOne(a: byte)
    ensures Bytes([First(a), Second(a, 0)]) == [a]
  {
    BytesBack(a, 0, 0);
  }

  lemma BytesOfTwo(a: byte, b: byte)
    ensures Bytes([First(a), Second(a, b), Third(b, 0)]) == [a, b]
  {
    BytesBack(a, b, 0);
  }

  lemma BytesOfThree(b: seq<byte>)
    requires |b| >= 3
    ensures Bytes(Groups(b)) == [b[0], b[1], b[2]] + Bytes(Groups(b[3..]))
  {
    BytesBack(b[0], b[1], b[2]);
    BytesStep([First(b[0]), Second(b[0], b[1]), Third(b[1], b[2]), Fourth(b[2])], Groups(b[3..]));
  }

  lemma {:induction false} BytesOfGroups(b: seq<byte>)
    ensures Bytes(Groups(b)) == b
    decreases |b|
  {
    if |b| == 1 {
      BytesOfOne(b[0]);
    } else if |b| == 2 {
      BytesOfTwo(b[0], b[1]);
    } else if |b| >= 3 {
      BytesOfThree(b);
      BytesOfGroups(b[3..]);
      assert b == [b[0], b[1], b[2]] + b[3..];
    }
  }

  lemma {:induction false} GroupsLength(b: seq<byte>)
    ensures |Groups(b)| == |b| / 3 * 4 + (if |b| % 3 == 0 then 0 else |b| % 3 + 1)
    decreases |b|
  {
    if |b| >= 3 {
      GroupsLength(b[3..]);
      assert |Groups(b)| == 4 + |Groups(b[3..])|;
    }
  }

  /** Four symbols for every three bytes begun. */
  lemma RfcLength(b: seq<byte>)
    ensures |Rfc4648(b)| == (|b| + 2) / 3 * 4
  {
    GroupsLength(b);
  }

  // ---------------------------------------------------------- the encoder

  /** The groups that are complete after the bytes, without the unfinished one. */
  function WholeGroups(b: seq<byte>): seq<sextet> {
    if b == [] then []
    else if |b| == 1 then [First(b[0])]
    else if |b| == 2 then [First(b[0]), Second(b[0], b[1])]
    else [First(b[0]), Second(b[0], b[1]), Third(b[1], b[2]), Fourth(b[2])] + WholeGroups(b[3..])
  }

  /** The groups that byte `x` completes after the bytes before it. */
  function NextGroups(b: seq<byte>, x: byte): seq<sextet> {
    if |b| % 3 == 0 then [First(x)]
    else if |b| % 3 == 1 then [Second(b[|b| - 1], x)]
    else [Third(b[|b| - 1], x), Fourth(x)]
  }

  lemma {:induction false} WholeGroupsAppend(b: seq<byte>, x: byte)
    ensures WholeGroups(b + [x]) == WholeGroups(b) + NextGroups(b, x)
    decreases |b|
  {
    if |b| >= 3 {
      var rest := b[3..];
      assert (b + [x])[3..] == rest + [x];
      WholeGroupsAppend(rest, x);
      NextGroupsOfRest(b, x);
    }
  }

  lemma NextGroupsOfRest(b: seq<byte>, x: byte)
    requires |b| >= 3
    ensures NextGroups(b[3..], x) == NextGroups(b, x)
  {
    assert |b[3..]| % 3 == |b| % 3;
  }

  /** The unfinished group, if any, filled up. */
  function LastGroup(b: seq<byte>): seq<sextet> {
    if |b| % 3 == 0 then []
    else if |b| % 3 == 1 then [Second(b[|b| - 1], 0)]
    else [Third(b[|b| - 1], 0)]
  }

  lemma {:induction false} GroupsAreWholeAndLast(b: seq<byte>)
    ensures Groups(b) == WholeGroups(b) + LastGroup(b)
    decreases |b|
  {
    if |b| >= 3 {
      GroupsAreWholeAndLast(b[3..]);
      assert |b[3..]| % 3 == |b| % 3;
      assert LastGroup(b[3..]) == LastGroup(b);
    }
  }

  /** What the low bits of the accumulator are when bytes have been shifted in:
      the bits of the last byte that have not been written. */
  predicate AccHolds(acc: nat, bits: nat, b: seq<byte>) {
    && (|b| % 3 == 0 ==> bits == 0)
    && (|b| % 3 == 1 ==> bits == 2 && acc % 4 == b[|b| - 1] % 4)
    && (|b| % 3 == 2 ==> bits == 4 && acc % 16 == b[|b| - 1] % 16)
  }

  /** Division by the powers of two that the shifts and masks stand for. */
  lemma Parts4(a: nat, q: nat, r: nat)
    requires a == 4 * q + r && r < 4
    ensures a / 4 == q && a % 4 == r
  {
  }

  lemma Parts16(a: nat, q: nat, r: nat)
    requires a == 16 * q + r && r < 16
    ensures a / 16 == q && a % 16 == r
  {
  }

  lemma Parts64(a: nat, q: nat, r: nat)
    requires a == 64 * q + r && r < 64
    ensures a / 64 == q && a % 64 == r
  {
  }

  lemma Parts256(a: nat, q: nat, r: nat)
    requires a == 256 * q + r && r < 256
    ensures a / 256 == q && a % 256 == r
  {
  }

  /** Wrapping at 2^32 keeps the low 8, 10 and 12 bits. */
  lemma LowBits8(a: nat, k: nat, r: nat)
    requires a == 256 * k + r && r < 256
    ensures a / 4 % 64 == r / 4 && a % 4 == r % 4
  {
    var q, t := r / 4, r % 4;
    Parts4(a, 64 * k + q, t);
    Parts64(64 * k + q, k, q);
  }

  lemma LowBits10(a: nat, k: nat, r: nat)
    requires a == 1024 * k + r && r < 1024
    ensures a / 16 % 64 == r / 16 && a % 16 == r % 16
  {
    var q, t := r / 16, r % 16;
    Parts16(a, 64 * k + q, t);
    Parts64(64 * k + q, k, q);
  }

  lemma LowBits12(a: nat, k: nat, r: nat)
    requires a == 4096 * k + r && r < 4096
    ensures a / 64 % 64 == r / 64 && a % 64 == r % 64
  {
    var q, t := r / 64, r % 64;
    Parts64(a, 64 * k + q, t);
    Parts64(64 * k + q, k, q);
  }

  /** What is left of a number when it wraps. */
  lemma Wrapped(y: nat) returns (laps: nat)
    ensures y == UINT_RANGE * laps + y % UINT_RANGE
  {
    laps := y / UINT_RANGE;
  }

  lemma NotNegative(m: nat, k: int, r: nat)
    requires m > 0 && r < m && 0 <= m * k + r
    ensures k >= 0
  {
    NegativeProduct(m, k);
  }

  lemma NegativeProduct(m: int, k: int)
    requires m >= 0
    ensures k < 0 ==> m * k <= -m
  {
  }

  /** Wrapping takes multiples of `m` away, and leaves the rest below `m`. */
  lemma QuotientOfWrapped(y: nat, m: nat, n: nat, q: nat, r: nat) returns (k: nat)
    requires m > 0 && UINT_RANGE == m * n && y == m * q + r && r < m
    ensures y % UINT_RANGE == m * k + r
  {
    var laps := Wrapped(y);
    var w: nat := y % UINT_RANGE;
    var lost := n * laps;
    TimesTwice(m, n, laps);
    TimesDifference(m, q, lost);
    NotNegative(m, q - lost, r);
    k := q - lost;
  }

  lemma TimesTwice(m: nat, n: nat, laps: nat)
    ensures m * n * laps == m * (n * laps)
  {
  }

  lemma TimesDifference(m: nat, q: nat, lost: nat)
    ensures m * (q - lost) == m * q - m * lost
  {
  }

  /** Shifting a byte into the wrapping accumulator, by what is pending. */
  lemma ShiftIn0(acc: nat, x: byte)
    ensures var a := (acc * 256 + x) % UINT_RANGE; a / 4 % 64 == First(x) && a % 4 == x % 4
  {
    var y: nat := acc * 256 + x;
    var k := QuotientOfWrapped(y, 256, 0x100_0000, acc, x);
    LowBits8(y % UINT_RANGE, k, x);
  }

  lemma ShiftIn1(acc: nat, x: byte, last: byte)
    requires acc % 4 == last % 4
    ensures var a := (acc * 256 + x) % UINT_RANGE; a / 16 % 64 == Second(last, x) && a % 16 == x % 16
  {
    var y: nat := acc * 256 + x;
    var k := QuotientOfWrapped(y, 1024, 0x40_0000, acc / 4, last as int % 4 * 256 + x);
    LowBits10(y % UINT_RANGE, k, last as int % 4 * 256 + x);
  }

  lemma ShiftIn2(acc: nat, x: byte, last: byte)
    requires acc % 16 == last % 16
    ensures var a := (acc * 256 + x) % UINT_RANGE; a / 64 % 64 == Third(last, x) && a % 64 == Fourth(x)
  {
    var y: nat := acc * 256 + x;
    var k := QuotientOfWrapped(y, 4096, 0x10_0000, acc / 16, last as int % 16 * 256 + x);
    LowBits12(y % UINT_RANGE, k, last as int % 16 * 256 + x);
  }

  /** `acc >> n`, and `acc << n` in 32 bits. */
  function ShiftRight(acc: nat, n: nat): nat
    decreases n
  {
    if n == 0 then acc else ShiftRight(acc / 2, n - 1)
  }

  function ShiftLeft(acc: nat, n: nat): nat
    decreases n
  {
    if n == 0 then acc % UINT_RANGE else ShiftLeft(acc * 2, n - 1)
  }

  /** `(acc >> bits) & 0x3f` and `(acc >> bits) & 0xff`. */
  function Sextet(acc: nat, bits: nat): sextet {
    ShiftRight(acc, bits) % 64
  }

  function Octet(acc: nat, bits: nat): byte {
    ShiftRight(acc, bits) % 256
  }

  lemma ShiftedBy2(acc: nat)
    ensures ShiftRight(acc, 2) == acc / 4
  {
    assert ShiftRight(acc, 2) == ShiftRight(acc / 2, 1) == ShiftRight(acc / 2 / 2, 0);
  }

  lemma ShiftedBy4(acc: nat)
    ensures ShiftRight(acc, 4) == acc / 16
  {
    assert ShiftRight(acc, 4) == ShiftRight(acc / 2, 3) == ShiftRight(acc / 2 / 2, 2);
    ShiftedBy2(acc / 2 / 2);
  }

  lemma ShiftedBy6(acc: nat)
    ensures ShiftRight(acc, 6) == acc / 64
  {
    assert ShiftRight(acc, 6) == ShiftRight(acc / 2, 5) == ShiftRight(acc / 2 / 2, 4);
    ShiftedBy4(acc / 2 / 2);
  }

  /** The groups still to come out of the accumulator. */
  ghost predicate WillEmit(acc: nat, bits: nat, next: seq<sextet>) {
    if bits < 6 then next == []
    else next != [] && next[0] == Sextet(acc, bits - 6) && WillEmit(acc, bits - 6, next[1..])
  }

  lemma {:induction false} WillEmitFirst(acc: nat, bits: nat, next: seq<sextet>, written: string)
    requires WillEmit(acc, bits, next) && bits >= 6
    ensures written + Symbols(next) == (written + [Symbol(Sextet(acc, bits - 6))]) + Symbols(next[1..])
  {
  }

  /** The inner loop of the encoder: symbols come out while there are six bits. */
  method EmitSymbols(retval: array<char>, pos: nat, acc: nat, start: nat, ghost next: seq<sextet>) returns (outpos: nat, bits: nat)
    requires WillEmit(acc, start, next) && pos + |next| <= retval.Length
    modifies retval
    ensures outpos == pos + |next| && bits == start - 6 * |next|
    ensures retval[..outpos] == old(retval[..pos]) + Symbols(next)
    ensures retval[outpos..] == old(retval[pos + |next|..])
  {
    outpos, bits := pos, start;
    ghost var left := next;
    assert retval[..pos] + Symbols(next) == old(retval[..pos]) + Symbols(next);
    while bits >= 6
      invariant WillEmit(acc, bits, left) && outpos + |left| == pos + |next| && bits == start - 6 * (outpos - pos)
      invariant retval[..outpos] + Symbols(left) == old(retval[..pos]) + Symbols(next)
      invariant retval[pos + |next|..] == old(retval[pos + |next|..])
    {
      ghost var written := retval[..outpos];
      bits := bits - 6;
      var c := Symbol(Sextet(acc, bits));
      WillEmitFirst(acc, bits + 6, left, written);
      retval[outpos] := c;
      outpos := outpos + 1;
      assert retval[..outpos] == written + [c];
      left := left[1..];
    }
    assert retval[..outpos] + "" == retval[..outpos];
  }

  /** A byte shifted in makes the accumulator hold the groups it completes. */
  lemma ByteWillEmit(acc: nat, bits: nat, b: seq<byte>, x: byte)
    requires AccHolds(acc, bits, b)
    ensures var a := (acc * 256 + x) % UINT_RANGE;
            var next := NextGroups(b, x);
            && 6 * |next| <= bits + 8
            && WillEmit(a, bits + 8, next)
            && AccHolds(a, bits + 8 - 6 * |next|, b + [x])
  {
    var a: nat := (acc * 256 + x) % UINT_RANGE;
    assert (b + [x])[|b|] == x;
    if |b| % 3 == 0 {
      ShiftIn0(acc, x);
      ShiftedBy2(a);
      assert |b + [x]| % 3 == 1;
    } else if |b| % 3 == 1 {
      ShiftIn1(acc, x, b[|b| - 1]);
      ShiftedBy4(a);
      assert |b + [x]| % 3 == 2;
    } else {
      ShiftIn2(acc, x, b[|b| - 1]);
      ShiftedBy6(a);
      assert [Third(b[|b| - 1], x), Fourth(x)][1..] == [Fourth(x)];
      assert |b + [x]| % 3 == 0;
      assert WillEmit(a, 6, [Fourth(x)]);
    }
  }

  lemma {:induction false} SymbolsAppend(v: seq<sextet>, w: seq<sextet>)
    ensures Symbols(v + w) == Symbols(v) + Symbols(w)
    decreases |v|
  {
    if v == [] {
      assert v + w == w;
    } else {
      assert (v + w)[1..] == v[1..] + w;
      SymbolsAppend(v[1..], w);
    }
  }

  /** Four for every three begun. */
  lemma SizeOfEncoding(n: nat)
    ensures n % 3 == 0 ==> (n + 2) / 3 * 4 == n / 3 * 4
    ensures n % 3 != 0 ==> (n + 2) / 3 * 4 == n / 3 * 4 + 4
  {
    var q, r := n / 3, n % 3;
    assert n == 3 * q + r;
  }

  lemma SizeGrows(m: nat, n: nat)
    requires m <= n
    ensures (m + 2) / 3 * 4 <= (n + 2) / 3 * 4
  {
    assert (m + 2) / 3 <= (n + 2) / 3;
  }

  lemma WholeGroupsFit(b: seq<byte>, i: nat)
    requires i <= |b|
    ensures |WholeGroups(b[..i])| <= (|b| + 2) / 3 * 4
    ensures i == |b| ==> |WholeGroups(b)| + |LastGroup(b)| + |Padding(|b|)| == (|b| + 2) / 3 * 4
  {
    var front := b[..i];
    GroupsLength(front);
    GroupsAreWholeAndLast(front);
    SizeOfEncoding(i);
    SizeGrows(i, |b|);
    if i == |b| {
      assert front == b;
    }
  }

  function Equals(n: nat): (s: string)
    ensures |s| == n
  {
    seq(n, _ => '=')
  }

  /** One turn of the loop over the bytes. */
  method EncodeByte(retval: array<char>, pos: nat, acc0: nat, bits0: nat, x: byte, ghost before: seq<byte>)
    returns (outpos: nat, acc: nat, bits: nat)
    requires AccHolds(acc0, bits0, before) && pos == |WholeGroups(before)| <= retval.Length
    requires |WholeGroups(before + [x])| <= retval.Length
    requires retval[..pos] == Symbols(WholeGroups(before)) && retval[pos..] == Equals(retval.Length - pos)
    modifies retval
    ensures AccHolds(acc, bits, before + [x]) && outpos == |WholeGroups(before + [x])|
    ensures retval[..outpos] == Symbols(WholeGroups(before + [x])) && retval[outpos..] == Equals(retval.Length - outpos)
  {
    ghost var next := NextGroups(before, x);
    ByteWillEmit(acc0, bits0, before, x);
    WholeGroupsAppend(before, x);
    SymbolsAppend(WholeGroups(before), next);
    ghost var tail := retval[pos..];
    assert retval[pos + |next|..] == tail[|next|..];
    acc := (acc0 * 256 + x) % UINT_RANGE;
    outpos, bits := EmitSymbols(retval, pos, acc, bits0 + 8, next);
  }

  /** `base64_encode`: the loop over the bytes computes the definition. */
  method Encode(data: seq<byte>) returns (s: string)
    ensures s == Rfc4648(data)
  {
    // what is not written stays padding
    var size := (|data| + 2) / 3 * 4;
    var retval := new char[size](_ => '=');
    var outpos: nat, bits: nat, acc: nat := 0, 0, 0;
    for i := 0 to |data|
      invariant AccHolds(acc, bits, data[..i])
      invariant outpos == |WholeGroups(data[..i])| <= size
      invariant retval[..outpos] == Symbols(WholeGroups(data[..i])) && retval[outpos..] == Equals(size - outpos)
    {
      WholeGroupsFit(data, i + 1);
      assert data[..i + 1] == data[..i] + [data[i]];
      outpos, acc, bits := EncodeByte(retval, outpos, acc, bits, data[i], data[..i]);
    }
    assert data[..|data|] == data;
    WholeGroupsFit(data, |data|);
    outpos := Flush(retval, outpos, acc, bits, data);
    s := retval[..];
    Padded(s, outpos, data);
  }

  /** What has not been written is the padding. */
  lemma Padded(s: string, outpos: nat, data: seq<byte>)
    requires outpos <= |s| == (|data| + 2) / 3 * 4
    requires s[..outpos] == Symbols(Groups(data)) && s[outpos..] == Equals(|s| - outpos)
    ensures s == Rfc4648(data)
  {
    RfcLength(data);
    assert s[outpos..] == Padding(|data|);
    assert s == s[..outpos] + s[outpos..];
  }

  /** Any trailing bits that are missing. */
  method Flush(retval: array<char>, pos: nat, acc: nat, bits: nat, data: seq<byte>) returns (outpos: nat)
    requires AccHolds(acc, bits, data)
    requires pos == |WholeGroups(data)| && pos + |LastGroup(data)| <= retval.Length
    requires retval[..pos] == Symbols(WholeGroups(data)) && retval[pos..] == Equals(retval.Length - pos)
    modifies retval
    ensures outpos == |Groups(data)| <= retval.Length
    ensures retval[..outpos] == Symbols(Groups(data)) && retval[outpos..] == Equals(retval.Length - outpos)
  {
    outpos := pos;
    ghost var tail := retval[pos..];
    ghost var written := retval[..pos];
    GroupsAreWholeAndLast(data);
    SymbolsAppend(WholeGroups(data), LastGroup(data));
    if bits > 0 {
      FlushIsLastGroup(acc, bits, data);
      var shifted := ShiftLeft(acc, 6 - bits);
      var c := Symbol(shifted % 64);
      retval[outpos] := c;
      outpos := outpos + 1;
      assert retval[..outpos] == written + [c] && retval[outpos..] == tail[1..];
      assert Symbols(LastGroup(data)) == [c];
    } else {
      assert Symbols(LastGroup(data)) == "" && written + "" == written;
    }
  }

  lemma FlushIsLastGroup(acc: nat, bits: nat, b: seq<byte>)
    requires AccHolds(acc, bits, b) && bits > 0
    ensures bits <= 6 && LastGroup(b) == [ShiftLeft(acc, 6 - bits) % 64]
  {
    if bits == 2 {
      assert ShiftLeft(acc, 4) == ShiftLeft(acc * 2, 3) == ShiftLeft(acc * 2 * 2, 2);
      assert ShiftLeft(acc * 2 * 2, 2) == ShiftLeft(acc * 2 * 2 * 2, 1) == acc * 16 % UINT_RANGE;
      var k := QuotientOfWrapped(acc * 16, 64, 0x400_0000, acc / 4, acc % 4 * 16);
      Parts64(acc * 16 % UINT_RANGE, k, acc % 4 * 16);
    } else {
      assert ShiftLeft(acc, 2) == ShiftLeft(acc * 2, 1) == acc * 4 % UINT_RANGE;
      var k := QuotientOfWrapped(acc * 4, 64, 0x400_0000, acc / 16, acc % 16 * 4);
      Parts64(acc * 4 % UINT_RANGE, k, acc % 16 * 4);
    }
  }

  // ---------------------------------------------------------- the decoder

  /** A byte string, or the exception for an illegal character. */
  datatype Decoded = Ok(bytes: seq<byte>) | Illegal

  predicate LegalChar(c: char) {
    Skips(c) || ReverseTable(c) < 64
  }

  predicate AllLegal(s: string) {
    forall c :: c in s ==> LegalChar(c)
  }

  /** The group a legal character stands for, if any. */
  function Spells(c: char): seq<sextet>
    requires LegalChar(c)
  {
    if Skips(c) then [] else var v: sextet := ReverseTable(c); [v]
  }

  /** The 6-bit groups a legal text spells, white space and padding skipped. */
  function Spelled(s: string): seq<sextet>
    requires AllLegal(s)
  {
    if s == "" then []
    else
      var c := s[|s| - 1];
      assert c in s;
      Spelled(s[..|s| - 1]) + Spells(c)
  }

  /** What the decoder is for. */
  function Decoding(s: string): Decoded {
    if AllLegal(s) then Ok(Bytes(Spelled(s))) else Illegal
  }

  /** Eight bits make a byte, and what is left over is dropped. */
  lemma {:induction false} DecodedLength(v: seq<sextet>)
    ensures |Bytes(v)| == 6 * |v| / 8
    decreases |v|
  {
    if |v| >= 4 {
      DecodedLength(v[4..]);
    }
  }

  /** The byte that one more group completes, if any. */
  function NextByte(v: seq<sextet>, x: sextet): seq<byte> {
    if |v| % 4 == 0 then []
    else if |v| % 4 == 1 then [Byte1(v[|v| - 1], x)]
    else if |v| % 4 == 2 then [Byte2(v[|v| - 1], x)]
    else [Byte3(v[|v| - 1], x)]
  }

  lemma AppendToOne(v: seq<sextet>, x: sextet)
    requires |v| == 1
    ensures Bytes(v + [x]) == [Byte1(v[0], x)]
  {
  }

  lemma AppendToTwo(v: seq<sextet>, x: sextet)
    requires |v| == 2
    ensures Bytes(v + [x]) == Bytes(v) + [Byte2(v[1], x)]
  {
  }

  lemma AppendToThree(v: seq<sextet>, x: sextet)
    requires |v| == 3
    ensures Bytes(v + [x]) == Bytes(v) + [Byte3(v[2], x)]
  {
    assert v + [x] == (v + [x]) + [];
    BytesStep(v + [x], []);
  }

  lemma {:induction false} BytesAppend(v: seq<sextet>, x: sextet)
    ensures Bytes(v + [x]) == Bytes(v) + NextByte(v, x)
    decreases |v|
  {
    if |v| >= 4 {
      var front, rest := v[..4], v[4..];
      assert v == front + rest && v + [x] == front + (rest + [x]);
      BytesStep(front, rest);
      BytesStep(front, rest + [x]);
      BytesAppend(rest, x);
      NextByteOfRest(v, x);
    } else if |v| == 3 {
      AppendToThree(v, x);
    } else if |v| == 2 {
      AppendToTwo(v, x);
    } else if |v| == 1 {
      AppendToOne(v, x);
    }
  }

  lemma NextByteOfRest(v: seq<sextet>, x: sextet)
    requires |v| >= 4
    ensures NextByte(v[4..], x) == NextByte(v, x)
  {
    assert |v[4..]| % 4 == |v| % 4;
  }

  /** What the low bits of the accumulator are when groups have been shifted in. */
  predicate HoldsGroups(acc: nat, bits: nat, v: seq<sextet>) {
    && (|v| % 4 == 0 ==> bits == 0)
    && (|v| % 4 == 1 ==> bits == 6 && acc % 64 == v[|v| - 1])
    && (|v| % 4 == 2 ==> bits == 4 && acc % 16 == v[|v| - 1] % 16)
    && (|v| % 4 == 3 ==> bits == 2 && acc % 4 == v[|v| - 1] % 4)
  }

  lemma OctetBits12(a: nat, k: nat, r: nat)
    requires a == 4096 * k + r && r < 4096
    ensures a / 16 % 256 == r / 16 && a % 16 == r % 16
  {
    var q, t := r / 16, r % 16;
    Parts16(a, 256 * k + q, t);
    Parts256(256 * k + q, k, q);
  }

  lemma OctetBits10(a: nat, k: nat, r: nat)
    requires a == 1024 * k + r && r < 1024
    ensures a / 4 % 256 == r / 4 && a % 4 == r % 4
  {
    var q, t := r / 4, r % 4;
    Parts4(a, 256 * k + q, t);
    Parts256(256 * k + q, k, q);
  }

  /** Shifting a group into the wrapping accumulator, by what is pending. */
  lemma GroupShift0(acc: nat, x: sextet)
    ensures (acc * 64 + x) % UINT_RANGE % 64 == x
  {
    var y: nat := acc * 64 + x;
    var k := QuotientOfWrapped(y, 64, 0x400_0000, acc, x);
    Parts64(y % UINT_RANGE, k, x);
  }

  lemma GroupShift1(acc: nat, last: sextet, x: sextet)
    requires acc % 64 == last
    ensures var a := (acc * 64 + x) % UINT_RANGE; Octet(a, 4) == Byte1(last, x) && a % 16 == x % 16
  {
    var y: nat := acc * 64 + x;
    var r: nat := last as int * 64 + x;
    var k := QuotientOfWrapped(y, 4096, 0x10_0000, acc / 64, r);
    OctetBits12(y % UINT_RANGE, k, r);
    ShiftedBy4(y % UINT_RANGE);
    Parts16(r, last as int * 4 + x as int / 16, x as int % 16);
  }

  lemma GroupShift2(acc: nat, last: sextet, x: sextet)
    requires acc % 16 == last % 16
    ensures var a := (acc * 64 + x) % UINT_RANGE; Octet(a, 2) == Byte2(last, x) && a % 4 == x % 4
  {
    var y: nat := acc * 64 + x;
    var r: nat := last as int % 16 * 64 + x;
    var k := QuotientOfWrapped(y, 1024, 0x40_0000, acc / 16, r);
    OctetBits10(y % UINT_RANGE, k, r);
    ShiftedBy2(y % UINT_RANGE);
    Parts4(r, last as int % 16 * 16 + x as int / 4, x as int % 4);
  }

  lemma GroupShift3(acc: nat, last: sextet, x: sextet)
    requires acc % 4 == last % 4
    ensures Octet((acc * 64 + x) % UINT_RANGE, 0) == Byte3(last, x)
  {
    var y: nat := acc * 64 + x;
    var r: nat := last as int % 4 * 64 + x;
    var k := QuotientOfWrapped(y, 256, 0x100_0000, acc / 4, r);
    Parts256(y % UINT_RANGE, k, r);
  }

  lemma GroupShiftsIn(acc: nat, bits: nat, v: seq<sextet>, x: sextet)
    requires HoldsGroups(acc, bits, v)
    ensures var a := (acc * 64 + x) % UINT_RANGE;
            if bits + 6 >= 8 then
              HoldsGroups(a, bits - 2, v + [x]) && NextByte(v, x) == [Octet(a, bits - 2)]
            else
              HoldsGroups(a, bits + 6, v + [x]) && NextByte(v, x) == []
  {
    assert (v + [x])[|v|] == x;
    if |v| % 4 == 0 {
      GroupShift0(acc, x);
      assert |v + [x]| % 4 == 1;
    } else if |v| % 4 == 1 {
      GroupShift1(acc, v[|v| - 1], x);
      assert |v + [x]| % 4 == 2;
    } else if |v| % 4 == 2 {
      GroupShift2(acc, v[|v| - 1], x);
      assert |v + [x]| % 4 == 3;
    } else {
      GroupShift3(acc, v[|v| - 1], x);
      assert |v + [x]| % 4 == 0;
    }
  }

  /** One turn of the loop, for a character that is not skipped. */
  method DecodeGroup(retval0: seq<byte>, acc0: nat, bits0: nat, x: sextet, ghost v: seq<sextet>)
    returns (retval: seq<byte>, acc: nat, bits: nat)
    requires HoldsGroups(acc0, bits0, v) && retval0 == Bytes(v)
    ensures HoldsGroups(acc, bits, v + [x]) && retval == Bytes(v + [x])
  {
    GroupShiftsIn(acc0, bits0, v, x);
    BytesAppend(v, x);
    retval := retval0;
    acc := (acc0 * 64 + x) % UINT_RANGE;
    bits := bits0 + 6;
    if bits >= 8 {
      bits := bits - 8;
      retval := retval + [Octet(acc, bits)];
    }
  }

  /** `base64_decode`: the loop over the characters computes the decoding, and
      stops at the first illegal one. */
  method Decode(s: string) returns (r: Decoded)
    ensures r == Decoding(s)
    ensures r == Illegal <==> exists c :: c in s && !Skips(c) && ReverseTable(c) == 64
    ensures r.Ok? ==> |r.bytes| == 6 * |Spelled(s)| / 8
  {
    var retval: seq<byte> := [];
    var bits: nat, acc: nat := 0, 0;
    for i := 0 to |s|
      invariant AllLegal(s[..i])
      invariant HoldsGroups(acc, bits, Spelled(s[..i])) && retval == Bytes(Spelled(s[..i]))
    {
      var c := s[i];
      ghost var v := Spelled(s[..i]);
      assert s[..i + 1] == s[..i] + [c];
      if Skips(c) {
        SpelledAppend(s[..i], c);
      } else {
        var x := ReverseTable(c);
        if x > 63 {
          assert c in s && !LegalChar(c);
          return Illegal;
        }
        SpelledAppend(s[..i], c);
        retval, acc, bits := DecodeGroup(retval, acc, bits, x, v);
      }
    }
    assert s[..|s|] == s;
    r := Ok(retval);
    DecodedLength(Spelled(s));
  }

  // ------------------------------------------------------------ round trip

  /** The text without what the decoder skips. */
  function Squeeze(s: string): string {
    if s == "" then ""
    else Squeeze(s[..|s| - 1]) + if Skips(s[|s| - 1]) then "" else [s[|s| - 1]]
  }

  lemma {:induction false} SqueezeMembers(s: string)
    ensures forall c :: c in Squeeze(s) <==> c in s && !Skips(c)
    decreases |s|
  {
    if s != "" {
      SqueezeMembers(s[..|s| - 1]);
      assert s == s[..|s| - 1] + [s[|s| - 1]];
    }
  }

  lemma SpelledAppend(s: string, c: char)
    requires AllLegal(s) && LegalChar(c)
    ensures AllLegal(s + [c])
    ensures Skips(c) ==> Spelled(s + [c]) == Spelled(s)
    ensures !Skips(c) ==> ReverseTable(c) < 64 && Spelled(s + [c]) == Spelled(s) + [ReverseTable(c)]
  {
    assert (s + [c])[..|s|] == s;
    assert Spelled(s + [c]) == Spelled(s) + Spells(c);
  }

  lemma SqueezeAppend(s: string, c: char)
    ensures Squeeze(s + [c]) == if Skips(c) then Squeeze(s) else Squeeze(s) + [c]
  {
    assert (s + [c])[..|s|] == s;
  }

  lemma {:induction false} SpelledSqueezed(s: string)
    requires AllLegal(s)
    ensures AllLegal(Squeeze(s)) && Spelled(Squeeze(s)) == Spelled(s)
    decreases |s|
  {
    if s != "" {
      var init, c := s[..|s| - 1], s[|s| - 1];
      assert s == init + [c] && c in s;
      SpelledSqueezed(init);
      SqueezeAppend(init, c);
      SpelledAppend(init, c);
      if !Skips(c) {
        SpelledAppend(Squeeze(init), c);
      }
    }
  }

  lemma {:induction false} SpelledSymbols(v: seq<sextet>)
    ensures AllLegal(Symbols(v)) && Spelled(Symbols(v)) == v
    decreases |v|
  {
    if v != [] {
      var init, x := v[..|v| - 1], v[|v| - 1];
      SpelledSymbols(init);
      SymbolsAppend(init, [x]);
      assert v == init + [x];
      assert Symbols([x]) == [Symbol(x)];
      SymbolReverse(x);
      SpelledAppend(Symbols(init), Symbol(x));
    }
  }

  /** Decoding depends only on what is not skipped. */
  lemma DecodingSqueezed(s: string)
    ensures Decoding(Squeeze(s)) == Decoding(s)
  {
    SqueezeMembers(s);
    if AllLegal(s) {
      SpelledSqueezed(s);
    } else {
      var c :| c in s && !LegalChar(c);
      assert c in Squeeze(s);
    }
  }

  lemma {:induction false} SqueezeSymbols(v: seq<sextet>, padding: string)
    requires forall c :: c in padding ==> Skips(c)
    ensures Squeeze(Symbols(v) + padding) == Symbols(v)
    decreases |v| + |padding|
  {
    var s := Symbols(v) + padding;
    if padding != "" {
      assert s[..|s| - 1] == Symbols(v) + padding[..|padding| - 1];
      SqueezeSymbols(v, padding[..|padding| - 1]);
      assert s[|s| - 1] == padding[|padding| - 1] && padding[|padding| - 1] in padding;
    } else if v != [] {
      var init, x := v[..|v| - 1], v[|v| - 1];
      assert v == init + [x];
      SymbolsAppend(init, [x]);
      assert Symbols([x]) == [Symbol(x)];
      SymbolReverse(x);
      assert s[..|s| - 1] == Symbols(init) + "";
      SqueezeSymbols(init, "");
    }
  }

  /** Decoding gives back what was encoded, and still does when white space (or
      padding) has been put in or taken out anywhere. */
  lemma DecodesWhatWasEncoded(b: seq<byte>, s: string)
    requires Squeeze(s) == Squeeze(Rfc4648(b))
    ensures Decoding(s) == Ok(b)
  {
    var v := Groups(b);
    SqueezeSymbols(v, Padding(|b|));
    SpelledSymbols(v);
    BytesOfGroups(b);
    DecodingSqueezed(s);
  }
}

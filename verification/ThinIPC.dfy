/** ThinIPC messages: a buffer that values are written to and read from, and the
    chunks it travels in. `short` is 16 bits and `int` fields 32, little-endian;
    the size of `long` is a parameter, as it depends on the platform. */
module ThinIPC {
  import opened Octets
  import opened FsmGraph

  type int16 = x: int | -0x8000 <= x < 0x8000
  type int32 = x: int | -0x8000_0000 <= x < 0x8000_0000

  // ------------------------------------------------------ numbers as bytes

  /** Byte `k` of `v` in two's complement, 0 the lowest. */
  function Byte(v: int, k: nat): byte
    decreases k
  {
    if k == 0 then v % 256 else Byte(v / 256, k - 1)
  }

  /** The low two and four bytes of `v`, lowest first. */
  function ShortBytes(v: int): (r: seq<byte>)
    ensures |r| == 2
  {
    [Byte(v, 0), Byte(v, 1)]
  }

  function IntBytes(v: int): (r: seq<byte>)
    ensures |r| == 4
  {
    [Byte(v, 0), Byte(v, 1), Byte(v, 2), Byte(v, 3)]
  }

  function Unsigned4(b: seq<byte>): (u: nat)
    requires |b| == 4
    ensures u < 0x1_0000_0000
  {
    b[0] as int + 0x100 * b[1] as int + 0x1_0000 * b[2] as int + 0x100_0000 * b[3] as int
  }

  /** The signed value of two, four and eight bytes. */
  function ShortOf(b: seq<byte>): (v: int16)
    requires |b| == 2
  {
    var u := b[0] as int + 0x100 * b[1] as int;
    if u < 0x8000 then u else u - 0x1_0000
  }

  function IntOf(b: seq<byte>): (v: int32)
    requires |b| == 4
  {
    var u := Unsigned4(b);
    if u < 0x8000_0000 then u else u - 0x1_0000_0000
  }

  function LongOf(b: seq<byte>): (v: int)
    requires |b| == 8
  {
    var u := Unsigned4(b[..4]) + 0x1_0000_0000 * Unsigned4(b[4..]);
    if u < 0x8000_0000_0000_0000 then u else u - 0x1_0000_0000_0000_0000
  }

  lemma ShortRoundTrip(v: int16)
    ensures ShortOf(ShortBytes(v)) == v
  {
    assert Byte(v, 1) == v / 256 % 256;
  }

  lemma IntRoundTrip(v: int32)
    ensures IntOf(IntBytes(v)) == v
  {
    assert Byte(v, 1) == v / 256 % 256;
    assert Byte(v, 2) == Byte(v / 256, 1) == v / 256 / 256 % 256;
    assert Byte(v, 3) == Byte(v / 256, 2) == Byte(v / 256 / 256, 1) == v / 256 / 256 / 256 % 256;
    FourDigits(v, v / 256, v / 256 / 256, v / 256 / 256 / 256);
  }

  /** A number is its four lowest digits to the base 256, and what is above them. */
  lemma FourDigits(v: int, v1: int, v2: int, v3: int)
    requires v1 == v / 256 && v2 == v1 / 256 && v3 == v2 / 256
    ensures v == v % 256 + 0x100 * (v1 % 256) + 0x1_0000 * (v2 % 256) + 0x100_0000 * (v3 % 256) + 0x1_0000_0000 * (v3 / 256)
  {
    assert v == 256 * v1 + v % 256 && v1 == 256 * v2 + v1 % 256;
    assert v2 == 256 * v3 + v2 % 256 && v3 == 256 * (v3 / 256) + v3 % 256;
  }

  /** The bytes that continue a 32-bit value to 64 bits. */
  function SignExtension(v: int): seq<byte> {
    var b: byte := if v < 0 then 255 else 0;
    [b, b, b, b]
  }

  lemma UnsignedExtreme(b: seq<byte>)
    requires |b| == 4
    ensures Unsigned4(b) == 0 <==> b == [0, 0, 0, 0]
    ensures Unsigned4(b) == 0xFFFF_FFFF <==> b == [255, 255, 255, 255]
  {
  }

  /** `readInt` where `long` has 8 bytes takes in the four bytes that follow the
      field: it returns what was written exactly when they happen to be the sign
      extension of the value. */
  lemma LongReadBackIff(v: int32, next: seq<byte>)
    requires |next| == 4
    ensures LongOf(IntBytes(v) + next) == v <==> next == SignExtension(v)
  {
    var b := IntBytes(v) + next;
    assert b[..4] == IntBytes(v) && b[4..] == next;
    IntRoundTrip(v);
    UnsignedExtreme(next);
  }

  /** Two ints in a row: the first is not read back where `long` has 8 bytes. */
  lemma FirstOfTwoIntsIsLost()
    ensures LongOf(IntBytes(1) + IntBytes(1)) != 1
  {
    LongReadBackIff(1, IntBytes(1));
    assert IntBytes(1)[0] == Byte(1, 0) == 1;
  }

  // ----------------------------------------------------------- the fields

  datatype Field = ShortField(s: int16) | IntField(i: int32) | StringField(str: seq<byte>)

  datatype FieldKind = AShort | AnInt | AString

  function KindOf(f: Field): FieldKind {
    match f case ShortField(_) => AShort case IntField(_) => AnInt case StringField(_) => AString
  }

  /** The bytes one write appends. */
  function FieldBytes(f: Field): seq<byte> {
    match f
    case ShortField(s) => ShortBytes(s)
    case IntField(i) => IntBytes(i)
    case StringField(str) => ShortBytes(|str|) + str
  }

  function Encode(fields: seq<Field>): seq<byte> {
    if fields == [] then [] else FieldBytes(fields[0]) + Encode(fields[1..])
  }

  function ReadShortAt(data: seq<byte>, pos: nat): (int16, nat) {
    if pos + 2 > |data| then (0, pos) else (ShortOf(data[pos..pos + 2]), pos + 2)
  }

  /** `beyond` is the memory after the buffer, which `readInt` may reach. */
  function ReadIntAt(data: seq<byte>, pos: nat, longSize: nat, beyond: seq<byte>): (int, nat)
    requires (longSize == 4 || longSize == 8) && |beyond| >= 4
  {
    if pos + 4 > |data| then (0, pos)
    else if longSize == 4 then (IntOf(data[pos..pos + 4]), pos + 4)
    else (LongOf((data + beyond)[pos..pos + 8]), pos + 4)
  }

  function ReadStringAt(data: seq<byte>, pos: nat): (seq<byte>, nat) {
    if pos + 2 > |data| then ([], pos)
    else
      var len := ShortOf(data[pos..pos + 2]);
      if len < 0 || pos + 2 + len > |data| then ([], pos + 2)
      else (data[pos + 2..pos + 2 + len], pos + 2 + len)
  }

  /** Reading one field of the given kind, where `long` has 4 bytes. */
  function ReadFieldAt(data: seq<byte>, pos: nat, kind: FieldKind): (Field, nat) {
    match kind
    case AShort => var (v, p) := ReadShortAt(data, pos); (ShortField(v), p)
    case AnInt => var (v, p) := ReadIntAt(data, pos, 4, [0, 0, 0, 0]); (IntField(v), p)
    case AString => var (v, p) := ReadStringAt(data, pos); (StringField(v), p)
  }

  function Decode(data: seq<byte>, pos: nat, kinds: seq<FieldKind>): seq<Field>
    decreases |kinds|
  {
    if kinds == [] then []
    else
      var (f, p) := ReadFieldAt(data, pos, kinds[0]);
      [f] + Decode(data, p, kinds[1..])
  }

  function Kinds(fields: seq<Field>): (r: seq<FieldKind>)
    ensures |r| == |fields|
  {
    if fields == [] then [] else [KindOf(fields[0])] + Kinds(fields[1..])
  }

  /** Every string is short enough for its 16-bit length. */
  ghost predicate StringsFit(fields: seq<Field>) {
    forall f :: f in fields && f.StringField? ==> |f.str| < 0x8000
  }

  lemma ReadsShortBack(before: seq<byte>, s: int16, rest: seq<byte>)
    ensures ReadShortAt(before + ShortBytes(s) + rest, |before|) == (s, |before| + 2)
  {
    ShortRoundTrip(s);
    assert (before + ShortBytes(s) + rest)[|before|..|before| + 2] == ShortBytes(s);
  }

  lemma ReadsIntBack(before: seq<byte>, i: int32, rest: seq<byte>, beyond: seq<byte>)
    requires |beyond| >= 4
    ensures ReadIntAt(before + IntBytes(i) + rest, |before|, 4, beyond) == (i, |before| + 4)
  {
    IntRoundTrip(i);
    assert (before + IntBytes(i) + rest)[|before|..|before| + 4] == IntBytes(i);
  }

  lemma ReadsStringBack(before: seq<byte>, str: seq<byte>, rest: seq<byte>)
    requires |str| < 0x8000
    ensures ReadStringAt(before + (ShortBytes(|str|) + str) + rest, |before|) == (str, |before| + 2 + |str|)
  {
    var len := ShortBytes(|str|);
    var data := before + (len + str) + rest;
    ShortRoundTrip(|str|);
    assert data[|before|..|before| + 2] == len;
    assert data[|before| + 2..|before| + 2 + |str|] == str;
  }

  /** The field is read back and the cursor is after it. */
  lemma ReadsFieldBack(before: seq<byte>, f: Field, rest: seq<byte>)
    requires f.StringField? ==> |f.str| < 0x8000
    ensures ReadFieldAt(before + FieldBytes(f) + rest, |before|, KindOf(f)) == (f, |before| + |FieldBytes(f)|)
  {
    match f
    case ShortField(s) => ReadsShortBack(before, s, rest);
    case IntField(i) => ReadsIntBack(before, i, rest, [0, 0, 0, 0]);
    case StringField(str) => ReadsStringBack(before, str, rest);
  }

  /** Nothing is read of a field that has been cut short: the cursor stays before
      it, or, when the length of a string has arrived, behind the length. */
  lemma CutFieldIsNotRead(before: seq<byte>, f: Field, n: nat)
    requires n < |FieldBytes(f)| && (f.StringField? ==> |f.str| < 0x8000)
    ensures ReadFieldAt(before + FieldBytes(f)[..n], |before|, KindOf(f)) ==
              match f
              case ShortField(_) => (ShortField(0), |before|)
              case IntField(_) => (IntField(0), |before|)
              case StringField(_) => (StringField([]), |before| + if n < 2 then 0 else 2)
  {
    if f.StringField? && n >= 2 {
      var data := before + FieldBytes(f)[..n];
      ShortRoundTrip(|f.str|);
      assert data[|before|..|before| + 2] == ShortBytes(|f.str|);
    }
  }

  /** Nor of a string whose length is negative or runs past the end. */
  lemma BadLengthIsNotRead(data: seq<byte>, pos: nat)
    requires pos + 2 <= |data|
    requires var len := ShortOf(data[pos..pos + 2]); !(0 <= len as int <= |data| - (pos + 2))
    ensures ReadStringAt(data, pos) == ([], pos + 2)
  {
  }

  lemma DecodeFirst(data: seq<byte>, pos: nat, kinds: seq<FieldKind>, f: Field, p: nat)
    requires kinds != [] && ReadFieldAt(data, pos, kinds[0]) == (f, p)
    ensures Decode(data, pos, kinds) == [f] + Decode(data, p, kinds[1..])
  {
  }

  lemma SplitAt(data: seq<byte>, pos: nat, bytes: seq<byte>, rest: seq<byte>)
    requires pos <= |data| && data[pos..] == bytes + rest
    ensures pos + |bytes| <= |data| && data == data[..pos] + bytes + rest && data[pos + |bytes|..] == rest
  {
    assert data == data[..pos] + data[pos..];
    assert data[pos + |bytes|..] == data[pos..][|bytes|..];
  }

  lemma ReadsFieldAt(data: seq<byte>, pos: nat, f: Field, rest: seq<byte>)
    requires f.StringField? ==> |f.str| < 0x8000
    requires pos <= |data| && data[pos..] == FieldBytes(f) + rest
    ensures ReadFieldAt(data, pos, KindOf(f)) == (f, pos + |FieldBytes(f)|)
    ensures pos + |FieldBytes(f)| <= |data| && data[pos + |FieldBytes(f)|..] == rest
  {
    SplitAt(data, pos, FieldBytes(f), rest);
    ReadsFieldBack(data[..pos], f, rest);
  }

  /** What was written is read back, in order. */
  lemma {:induction false} ReadsBack(data: seq<byte>, pos: nat, fields: seq<Field>)
    requires StringsFit(fields)
    requires pos <= |data| && data[pos..] == Encode(fields)
    ensures Decode(data, pos, Kinds(fields)) == fields
    decreases |fields|
  {
    if fields != [] {
      assert fields[0] in fields;
      ReadsFieldAt(data, pos, fields[0], Encode(fields[1..]));
      ReadsBack(data, pos + |FieldBytes(fields[0])|, fields[1..]);
    }
  }

  // ----------------------------------------------------------- the chunks

  /** What travels: the size of the message and then its bytes. */
  function Frame(data: seq<byte>): seq<byte> {
    ShortBytes(|data|) + data
  }

  /** Cut into pieces of `c` bytes, the last one shorter if need be. */
  function Cut(bytes: seq<byte>, c: nat): (r: seq<seq<byte>>)
    requires c > 0
    ensures |r| > 0
    decreases |bytes|
  {
    if |bytes| <= c then [bytes] else [bytes[..c]] + Cut(bytes[c..], c)
  }

  ghost function Concat(chunks: seq<seq<byte>>): seq<byte> {
    if chunks == [] then [] else chunks[0] + Concat(chunks[1..])
  }

  /** The pieces make up the whole, and none is empty or longer than `c`. */
  lemma {:induction false} CutIsCut(bytes: seq<byte>, c: nat)
    requires c > 0 && |bytes| > 0
    ensures Concat(Cut(bytes, c)) == bytes
    ensures forall k :: 0 <= k < |Cut(bytes, c)| ==> 0 < |Cut(bytes, c)[k]| <= c
    decreases |bytes|
  {
    if |bytes| <= c {
      assert Cut(bytes, c)[1..] == [];
    } else {
      CutIsCut(bytes[c..], c);
      assert Cut(bytes, c)[1..] == Cut(bytes[c..], c);
    }
  }

  /** There are as many as the length divided by `c`, rounded up. */
  lemma {:induction false} CutCount(bytes: seq<byte>, c: nat)
    requires c > 0 && |bytes| > 0
    ensures (|Cut(bytes, c)| - 1) * c < |bytes| <= |Cut(bytes, c)| * c
    decreases |bytes|
  {
    if |bytes| > c {
      CutCount(bytes[c..], c);
      OneMorePiece(|Cut(bytes[c..], c)|, c);
    }
  }

  lemma OneMorePiece(m: int, c: nat)
    ensures (m + 1) * c == m * c + c && m * c == (m - 1) * c + c
  {
  }

  /** A receiving message: nothing of a message yet, or its size and its first
      bytes. */
  datatype Receiver = Waiting | Partial(size: nat, got: seq<byte>)

  /** What a chunk makes of it: the message is complete, or not yet. */
  datatype Received = Complete(data: seq<byte>) | More(receiver: Receiver)

  /** `putChunk` on a buffer of exactly `c` bytes with `beyond` after it in
      memory: the copy of a small message may run past the buffer. */
  function Put(r: Receiver, buf: seq<byte>, c: nat, beyond: seq<byte>): Received
    requires 2 < c == |buf| < 0x8000 && |beyond| >= 2
    requires r.Partial? ==> |r.got| <= r.size
  {
    match r
    case Waiting =>
      var size := ShortOf(buf[..2]);
      if size <= 0 then More(Waiting)
      else if size <= c then Complete((buf + beyond)[2..2 + size])
      else More(Partial(size, buf[2..]))
    case Partial(size, got) =>
      var readSize := size - |got|;
      if readSize <= c then Complete(got + buf[..readSize])
      else More(Partial(size, got + buf))
  }

  /** A datagram overwrites the start of the buffer. */
  function Overlay(buf: seq<byte>, d: seq<byte>): (r: seq<byte>)
    requires |d| <= |buf|
    ensures |r| == |buf|
  {
    d + buf[|d|..]
  }

  /** The loop of `recv` over the datagrams that arrive: the message, and how
      many of them it took. */
  function Receive(r: Receiver, buf: seq<byte>, wire: seq<seq<byte>>, c: nat, beyond: seq<byte>): (Option<seq<byte>>, nat)
    requires 2 < c == |buf| < 0x8000 && |beyond| >= 2
    requires r.Partial? ==> |r.got| <= r.size
    requires forall k :: 0 <= k < |wire| ==> |wire[k]| <= c
    decreases |wire|
  {
    if wire == [] then (None, 0)
    else
      var b := Overlay(buf, wire[0]);
      match Put(r, b, c, beyond)
      case Complete(data) => (Some(data), 1)
      case More(r1) => var (d, n) := Receive(r1, b, wire[1..], c, beyond); (d, n + 1)
  }

  /** One turn of the loop. */
  lemma ReceiveTurn(r: Receiver, buf: seq<byte>, wire: seq<seq<byte>>, c: nat, beyond: seq<byte>)
    requires 2 < c == |buf| < 0x8000 && |beyond| >= 2
    requires r.Partial? ==> |r.got| <= r.size
    requires wire != [] && forall k :: 0 <= k < |wire| ==> |wire[k]| <= c
    ensures var b := Overlay(buf, wire[0]);
            var turn := Put(r, b, c, beyond);
            && (turn.Complete? ==> Receive(r, buf, wire, c, beyond) == (Some(turn.data), 1))
            && (turn.More? ==>
                  && (turn.receiver.Partial? ==> |turn.receiver.got| <= turn.receiver.size)
                  && Receive(r, buf, wire, c, beyond).0 == Receive(turn.receiver, b, wire[1..], c, beyond).0
                  && Receive(r, buf, wire, c, beyond).1 == Receive(turn.receiver, b, wire[1..], c, beyond).1 + 1)
  {
  }

  /** A first datagram whose size is not positive is passed over. */
  lemma BadSizeIsPassedOver(buf: seq<byte>, wire: seq<seq<byte>>, c: nat, beyond: seq<byte>)
    requires 2 < c == |buf| < 0x8000 && |beyond| >= 2
    requires wire != [] && forall k :: 0 <= k < |wire| ==> |wire[k]| <= c
    requires ShortOf(Overlay(buf, wire[0])[..2]) <= 0
    ensures var (d, n) := Receive(Waiting, Overlay(buf, wire[0]), wire[1..], c, beyond);
            Receive(Waiting, buf, wire, c, beyond) == (d, n + 1)
  {
    ReceiveTurn(Waiting, buf, wire, c, beyond);
  }

  /** The rest of a message that has begun to arrive. */
  lemma {:induction false} ReceivesRest(data: seq<byte>, pos: nat, buf: seq<byte>, c: nat, beyond: seq<byte>, more: seq<seq<byte>>)
    requires 2 < c == |buf| < 0x8000 && |beyond| >= 2 && pos < |data|
    requires forall k :: 0 <= k < |more| ==> |more[k]| <= c
    ensures forall k :: 0 <= k < |Cut(data[pos..], c) + more| ==> |(Cut(data[pos..], c) + more)[k]| <= c
    ensures Receive(Partial(|data|, data[..pos]), buf, Cut(data[pos..], c) + more, c, beyond)
         == (Some(data), |Cut(data[pos..], c)|)
    decreases |data| - pos
  {
    var rest := data[pos..];
    CutIsCut(rest, c);
    var wire := Cut(rest, c) + more;
    var b := Overlay(buf, wire[0]);
    if |rest| <= c {
      assert data[..pos] + b[..|rest|] == data;
    } else {
      assert b == rest[..c];
      assert data[..pos] + b == data[..pos + c];
      assert rest[c..] == data[pos + c..];
      assert wire[1..] == Cut(data[pos + c..], c) + more;
      ReceivesRest(data, pos + c, b, c, beyond, more);
    }
  }

  /** The first chunk of a frame, in the buffer. */
  lemma FirstChunk(data: seq<byte>, buf: seq<byte>, c: nat, more: seq<seq<byte>>)
    requires 2 < c == |buf| < 0x8000 && 1 <= |data| < 0x8000
    ensures var wire := Cut(Frame(data), c) + more;
            && 0 < |wire[0]| <= c
            && ShortOf(Overlay(buf, wire[0])[..2]) == |data|
            && (if |data| <= c - 2 then Overlay(buf, wire[0])[2..2 + |data|] == data && wire == [wire[0]] + more
                else Overlay(buf, wire[0])[2..] == data[..c - 2] && wire[1..] == Cut(data[c - 2..], c) + more)
  {
    var frame := Frame(data);
    var wire := Cut(frame, c) + more;
    CutIsCut(frame, c);
    var b := Overlay(buf, wire[0]);
    ShortRoundTrip(|data|);
    assert b[..2] == frame[..2] == ShortBytes(|data|);
    if |data| > c - 2 {
      assert b == frame[..c] && frame[..c][2..] == data[..c - 2];
      assert frame[c..] == data[c - 2..];
      assert wire[1..] == Cut(frame[c..], c) + more;
    }
  }

  /** No chunk is longer than the buffer. */
  lemma ChunksFit(data: seq<byte>, c: nat, more: seq<seq<byte>>)
    requires 2 < c
    requires forall k :: 0 <= k < |more| ==> |more[k]| <= c
    ensures forall k :: 0 <= k < |Cut(Frame(data), c) + more| ==> |(Cut(Frame(data), c) + more)[k]| <= c
  {
    CutIsCut(Frame(data), c);
  }

  /** What the receiver of the chunks of a message of `n` bytes gets, for every
      size: all of it, unless the size is one of the two for which the sender
      cuts a second chunk but the receiver does not expect one. */
  lemma ReceivesFrame(data: seq<byte>, buf: seq<byte>, c: nat, beyond: seq<byte>, more: seq<seq<byte>>)
    requires 2 < c == |buf| < 0x8000 && |beyond| >= 2 && 1 <= |data| < 0x8000
    requires forall k :: 0 <= k < |more| ==> |more[k]| <= c
    ensures forall k :: 0 <= k < |Cut(Frame(data), c) + more| ==> |(Cut(Frame(data), c) + more)[k]| <= c
    ensures Receive(Waiting, buf, Cut(Frame(data), c) + more, c, beyond) ==
              if c - 2 < |data| <= c then (Some(data[..c - 2] + beyond[..|data| - (c - 2)]), 1)
              else (Some(data), |Cut(Frame(data), c)|)
  {
    ChunksFit(data, c, more);
    FirstChunk(data, buf, c, more);
    var wire := Cut(Frame(data), c) + more;
    var b := Overlay(buf, wire[0]);
    if |data| <= c - 2 {
      assert (b + beyond)[2..2 + |data|] == b[2..2 + |data|];
      assert |Cut(Frame(data), c)| == 1;
    } else if |data| <= c {
      CopyRunsPast(b, c, beyond, data);
    } else {
      ReceivesRest(data, c - 2, b, c, beyond, more);
      assert |Cut(Frame(data), c)| == 1 + |Cut(data[c - 2..], c)|;
    }
  }

  lemma CopyRunsPast(b: seq<byte>, c: nat, beyond: seq<byte>, data: seq<byte>)
    requires 2 < c == |b| && |beyond| >= 2 && c - 2 < |data| <= c && b[2..] == data[..c - 2]
    ensures (b + beyond)[2..2 + |data|] == data[..c - 2] + beyond[..|data| - (c - 2)]
  {
    assert (b + beyond)[2..2 + |data|] == b[2..] + beyond[..|data| - (c - 2)];
  }

  /** The transport is faithful for a message exactly when its size is at most
      the capacity less 2, or above the capacity: then it arrives whatever is in
      memory after the buffer, and no datagram of it is left over. */
  lemma FaithfulIff(data: seq<byte>, buf: seq<byte>, c: nat)
    requires 2 < c == |buf| < 0x8000 && 1 <= |data| < 0x8000
    ensures forall k :: 0 <= k < |Cut(Frame(data), c)| ==> |Cut(Frame(data), c)[k]| <= c
    ensures (forall beyond: seq<byte> :: |beyond| >= 2 ==>
               Receive(Waiting, buf, Cut(Frame(data), c), c, beyond) == (Some(data), |Cut(Frame(data), c)|))
       <==> |data| <= c - 2 || |data| > c
  {
    var wire := Cut(Frame(data), c);
    assert wire + [] == wire;
    forall beyond: seq<byte> | |beyond| >= 2
      ensures forall k :: 0 <= k < |wire| ==> |wire[k]| <= c
      ensures Receive(Waiting, buf, wire, c, beyond) ==
                if c - 2 < |data| <= c then (Some(data[..c - 2] + beyond[..|data| - (c - 2)]), 1) else (Some(data), |wire|)
    {
      ReceivesFrame(data, buf, c, beyond, []);
    }
    if c - 2 < |data| <= c {
      assert |Cut(Frame(data)[c..], c)| == 1;
      var beyond: seq<byte> := [0, 0];
      assert Receive(Waiting, buf, wire, c, beyond).1 == 1 && |wire| == 2;
    }
  }

  /** A message of the capacity of the chunks that `send` and `recv` use: the last
      two bytes that arrive are not its own. */
  lemma MessageOfTheCapacityIsLost()
    ensures var data: seq<byte> := seq(1024, _ => 7);
            var buf: seq<byte> := seq(1024, _ => 0);
            && (forall k :: 0 <= k < |Cut(Frame(data), 1024)| ==> |Cut(Frame(data), 1024)[k]| <= 1024)
            && Receive(Waiting, buf, Cut(Frame(data), 1024), 1024, [0, 0]).0 == Some(data[..1022] + [0, 0]) != Some(data)
  {
    var data: seq<byte> := seq(1024, _ => 7);
    var buf: seq<byte> := seq(1024, _ => 0);
    assert Cut(Frame(data), 1024) + [] == Cut(Frame(data), 1024);
    ReceivesFrame(data, buf, 1024, [0, 0], []);
    assert [0, 0][..2] == [0, 0];
    assert (data[..1022] + [0, 0])[1022] == 0 && data[1022] == 7;
  }

  /** Writing fields, sending them in chunks, receiving and reading them gives
      the same fields, at every size at which the transport is faithful. */
  lemma FieldsTravel(fields: seq<Field>, buf: seq<byte>, c: nat, beyond: seq<byte>)
    requires 2 < c == |buf| < 0x8000 && |beyond| >= 2 && StringsFit(fields)
    requires var n := |Encode(fields)|; 1 <= n <= c - 2 || c < n < 0x8000
    ensures var wire := Cut(Frame(Encode(fields)), c);
            && (forall k :: 0 <= k < |wire| ==> |wire[k]| <= c)
            && Receive(Waiting, buf, wire, c, beyond) == (Some(Encode(fields)), |wire|)
            && Decode(Encode(fields), 0, Kinds(fields)) == fields
  {
    var data := Encode(fields);
    ReceivesFrame(data, buf, c, beyond, []);
    assert Cut(Frame(data), c) + [] == Cut(Frame(data), c);
    ReadsBack(data, 0, fields);
  }

  // ------------------------------------------------------------ the message

  /** What a sum is when it is stored in a `short`. */
  function ToShort(x: int): (v: int16)
    ensures -0x8000 <= x < 0x8000 ==> v as int == x
  {
    (x + 0x8000) % 0x1_0000 - 0x8000
  }

  /** A message: a growing buffer with a cursor for values and one for chunks. */
  class Message {
    var data: seq<byte>
    var size: int16
    var ioPos: int16
    var chunkPos: int16

    ghost predicate Valid()
      reads this
    {
      && 0 <= ioPos && 0 <= chunkPos
      && (size >= 0 ==> |data| == size as int && chunkPos <= size)
      && (size < 0 ==> data == [] && chunkPos == 0)
    }

    constructor ()
      ensures Valid() && data == [] && size == 0 && ioPos == 0 && chunkPos == 0
    {
      data, size, ioPos, chunkPos := [], 0, 0, 0;
    }

    method Reset()
      modifies this
      ensures Valid() && data == [] && size == 0 && ioPos == 0 && chunkPos == 0
    {
      data, size, ioPos, chunkPos := [], 0, 0, 0;
    }

    method Rewind()
      requires Valid()
      modifies this`ioPos, this`chunkPos
      ensures Valid() && ioPos == 0 && chunkPos == 0
    {
      ioPos, chunkPos := 0, 0;
    }

    /** The bytes have been written at `pos` to a buffer that held `before`, and
        the buffer has grown by as many. The new bytes at its end have no set
        value unless the writing was at the end. */
    ghost predicate Wrote(before: seq<byte>, pos: int, bytes: seq<byte>)
      requires 0 <= pos <= |before|
      reads this
    {
      && Valid() && size as int == |before| + |bytes| && ioPos as int == pos + |bytes|
      && data[..ioPos] == before[..pos] + bytes
      && (forall k :: ioPos as int <= k < |before| ==> data[k] == before[k])
      && (pos == |before| ==> data == before + bytes)
    }

    /** Resizes the buffer. A size that has wrapped is negative, and as many
        bytes cannot be allocated; below that, allocation is taken to succeed. */
    method Grow(n: nat) returns (ok: bool)
      requires Valid() && 0 <= size && 0 < n <= 0x7FFF + 2
      modifies this`data, this`size
      ensures ok <==> old(size) as int + n < 0x8000
      ensures size == ToShort(old(size) as int + n)
      ensures ok ==> |data| == size as int && data[..old(size)] == old(data)
      ensures !ok && old(size) as int + n < 0x1_0000 ==> data == old(data)
    {
      size := ToShort(size as int + n);
      ok := size > 0;
      if ok {
        var junk := Uninitialised(n);
        data := data + junk;
      } else if size == 0 {
        // a resize to nothing frees the buffer
        data := [];
      }
    }

    method Copy(ghost before: seq<byte>, bytes: seq<byte>)
      requires 0 <= ioPos as int <= |before| && size as int == |data| == |before| + |bytes|
      requires 0 <= chunkPos as int <= |before| && data[..|before|] == before
      modifies this`data, this`ioPos
      ensures Wrote(before, old(ioPos), bytes)
    {
      data := data[..ioPos] + bytes + data[ioPos as int + |bytes|..];
      ioPos := ioPos + |bytes|;
    }

    /** When the size would pass 32767, nothing is written, and the size is two
        less than it was: two are added and four taken away again. */
    method WriteShort(v: int16) returns (n: int16)
      requires Valid() && 0 <= ioPos <= size
      modifies this`data, this`size, this`ioPos
      ensures old(size) < 0x7FFF - 1 ==> n == 2 && Wrote(old(data), old(ioPos), FieldBytes(ShortField(v)))
      ensures old(size) >= 0x7FFF - 1 ==>
                n == 0 && data == old(data) && ioPos == old(ioPos) && size == old(size) - 2
    {
      ghost var before := data;
      var ok := Grow(2);
      if !ok {
        size := ToShort(size as int - 4);
        return 0;
      }
      Copy(before, ShortBytes(v));
      n := 2;
    }

    /** `v` is a `long`; its low four bytes are written. When the size would pass
        32767, nothing changes. */
    method WriteInt(v: int) returns (n: int16)
      requires Valid() && 0 <= ioPos <= size
      modifies this`data, this`size, this`ioPos
      ensures old(size) < 0x7FFF - 3 ==> n == 4 && Wrote(old(data), old(ioPos), IntBytes(v))
      ensures old(size) < 0x7FFF - 3 && -0x8000_0000 <= v < 0x8000_0000 ==>
                Wrote(old(data), old(ioPos), FieldBytes(IntField(v)))
      ensures old(size) >= 0x7FFF - 3 ==>
                n == 0 && Valid() && data == old(data) && ioPos == old(ioPos) && size == old(size)
    {
      ghost var before := data;
      var ok := Grow(4);
      if !ok {
        size := ToShort(size as int - 4);
        return 0;
      }
      Copy(before, IntBytes(v));
      n := 4;
    }

    /** When the size would pass 32767, nothing is written, and the size is what
        is left when four are taken away from the wrapped sum. */
    method WriteString(v: seq<byte>) returns (n: int16)
      requires Valid() && 0 <= ioPos <= size && |v| < 0x8000
      modifies this`data, this`size, this`ioPos
      ensures var total := old(size) as int + 2 + |v|;
              if total < 0x8000 then n as int == |v| && Wrote(old(data), old(ioPos), FieldBytes(StringField(v)))
              else
                && n == 0 && ioPos == old(ioPos) && size == ToShort(total - 4)
                && (total < 0x1_0000 ==> data == old(data))
    {
      ghost var before := data;
      var ok := Grow(2 + |v|);
      if !ok {
        size := ToShort(size as int - 4);
        return 0;
      }
      Copy(before, ShortBytes(|v|) + v);
      n := |v|;
    }

    method ReadShort() returns (v: int16)
      requires Valid()
      modifies this`ioPos
      ensures Valid() && (size >= 0 ==> (v, ioPos as nat) == ReadShortAt(data, old(ioPos)))
    {
      if ioPos as int + 2 > size as int {
        return 0;
      }
      v := ShortOf(data[ioPos..ioPos as int + 2]);
      ioPos := ioPos + 2;
    }

    method ReadInt(longSize: nat, beyond: seq<byte>) returns (v: int)
      requires Valid() && (longSize == 4 || longSize == 8) && |beyond| >= 4
      modifies this`ioPos
      ensures Valid() && (size >= 0 ==> (v, ioPos as nat) == ReadIntAt(data, old(ioPos), longSize, beyond))
    {
      if ioPos as int + 4 > size as int {
        return 0;
      }
      v := if longSize == 4 then IntOf(data[ioPos..ioPos as int + 4]) else LongOf((data + beyond)[ioPos..ioPos as int + 8]);
      ioPos := ioPos + 4;
    }

    method ReadString() returns (v: seq<byte>)
      requires Valid()
      modifies this`ioPos
      ensures Valid() && (size >= 0 ==> (v, ioPos as nat) == ReadStringAt(data, old(ioPos)))
    {
      if ioPos as int + 2 > size as int {
        return [];
      }
      var len := ShortOf(data[ioPos..ioPos as int + 2]);
      ioPos := ioPos + 2;
      if len < 0 || ioPos as int + len as int > size as int {
        return [];
      }
      v := data[ioPos..ioPos as int + len as int];
      ioPos := ioPos + len;
    }

    /** The first chunk: the size of the message, and then its bytes. */
    method GetFirstChunk(buffer: array<byte>, capacity: int16) returns (n: int16)
      requires Valid() && chunkPos == 0 < size && 2 < capacity && buffer.Length >= capacity as int
      modifies this`chunkPos, buffer
      ensures Valid() && 0 < chunkPos && 0 < n <= capacity && (chunkPos < size ==> n == capacity)
      ensures buffer[..n] == ShortBytes(|data|) + data[..chunkPos]
    {
      var header := ShortBytes(size);
      var cpSize: int16 := size;
      if cpSize as int + 2 > capacity as int {
        cpSize := capacity - 2;
      }
      CopyIn(buffer, 0, header);
      assert buffer[..2] == header;
      CopyIn(buffer, 2, data[..cpSize]);
      assert buffer[..2] == header;
      chunkPos := cpSize;
      n := cpSize + 2;
    }

    /** Copies the next chunk to the buffer. */
    method GetChunk(buffer: array<byte>, capacity: int16) returns (n: int16)
      requires Valid() && 2 < capacity && buffer.Length >= capacity as int
      modifies this`chunkPos, buffer
      ensures Valid()
      ensures old(chunkPos) >= size ==> n == 0 && chunkPos == old(chunkPos)
      ensures old(chunkPos) < size ==>
                && 0 < n <= capacity
                && buffer[..n] + data[chunkPos..] == (if old(chunkPos) == 0 then Frame(data) else data[old(chunkPos)..])
                && chunkPos > old(chunkPos)
                && (chunkPos < size ==> n == capacity)
    {
      if chunkPos >= size {
        return 0;
      }
      if chunkPos == 0 {
        n := GetFirstChunk(buffer, capacity);
        assert ShortBytes(|data|) + data[..chunkPos] + data[chunkPos..] == Frame(data);
      } else {
        var cpSize: int16 := size - chunkPos;
        if cpSize > capacity {
          cpSize := capacity;
        }
        ghost var pos := chunkPos;
        CopyIn(buffer, 0, data[chunkPos..chunkPos as int + cpSize as int]);
        chunkPos := chunkPos + cpSize;
        n := cpSize;
        assert buffer[..n] == data[pos..chunkPos];
      }
    }

    ghost function Receiving(): Receiver
      requires Valid()
      reads this
    {
      if chunkPos == 0 then Waiting else Partial(size, data[..chunkPos])
    }

    /** Takes in a chunk of `capacity` bytes; `beyond` is the memory after it. */
    method PutChunk(buffer: array<byte>, capacity: int16, beyond: seq<byte>) returns (n: int16)
      requires Valid() && 2 < capacity && buffer.Length == capacity as int && |beyond| >= 2
      modifies this`data, this`size, this`chunkPos
      ensures Valid()
      ensures old(chunkPos == size && chunkPos != 0) ==>
                n == 0 && data == old(data) && size == old(size) && chunkPos == old(chunkPos)
      ensures !old(chunkPos == size && chunkPos != 0) ==>
                match Put(old(Receiving()), buffer[..], capacity, beyond)
                case Complete(d) => n as int == |d| && n == size && data == d && 0 < n
                case More(r) => n == 0 && Receiving() == r
    {
      if chunkPos == size && chunkPos != 0 {
        return 0;
      }
      if chunkPos == 0 {
        size := ShortOf(buffer[..2]);
        if size <= 0 {
          // nothing is allocated, or nothing to copy
          data := [];
          return 0;
        }
        data := Uninitialised(size as int);
        if size <= capacity {
          data := (buffer[..] + beyond)[2..2 + size as int];
          return size;
        }
        chunkPos := capacity - 2;
        data := buffer[2..] + data[chunkPos..];
        assert data[..chunkPos] == buffer[2..];
      } else {
        ghost var got := data[..chunkPos];
        var readSize: int16 := size - chunkPos;
        if readSize <= capacity {
          data := data[..chunkPos] + buffer[..readSize];
          return size;
        }
        data := data[..chunkPos] + buffer[..] + data[chunkPos as int + capacity as int..];
        chunkPos := chunkPos + capacity;
        assert data[..chunkPos] == got + buffer[..];
      }
      n := 0;
    }
  }

  // -------------------------------------------------------- the chunk loops

  /** The loop of `send` over a lossless wire: the datagrams it sends. */
  method Send(msg: Message, c: int16) returns (wire: seq<seq<byte>>)
    requires msg.Valid() && 2 < c && 0 <= msg.size
    modifies msg`ioPos, msg`chunkPos
    ensures wire == if msg.size == 0 then [] else Cut(Frame(msg.data), c)
  {
    var buf := new byte[c](_ => 0);
    ghost var frame := Frame(msg.data);
    msg.Rewind();
    wire := [];
    ghost var rest := frame;
    var clen := msg.GetChunk(buf, c);
    while clen > 0
      invariant msg.Valid() && msg.data == old(msg.data) && msg.size == old(msg.size)
      invariant 0 <= clen <= c && (msg.size == 0 ==> clen == 0 && wire == [])
      invariant clen > 0 ==> 0 < msg.chunkPos && buf[..clen] + msg.data[msg.chunkPos..] == rest
      invariant clen > 0 && msg.chunkPos < msg.size ==> clen == c
      invariant msg.size > 0 ==> Cut(frame, c) == if clen > 0 then wire + Cut(rest, c) else wire
      decreases msg.size - msg.chunkPos, clen
    {
      ghost var next := msg.data[msg.chunkPos..];
      SendFirst(wire, rest, buf[..clen], next, c);
      wire := wire + [buf[..clen]];
      clen := msg.GetChunk(buf, c);
      rest := next;
    }
  }

  lemma SendFirst(sent: seq<seq<byte>>, bytes: seq<byte>, first: seq<byte>, rest: seq<byte>, c: nat)
    requires c > 0 && bytes == first + rest && |first| <= c && (rest != [] ==> |first| == c)
    ensures sent + Cut(bytes, c) == (sent + [first]) + if rest == [] then [] else Cut(rest, c)
  {
    if rest != [] {
      assert bytes[..c] == first && bytes[c..] == rest;
    } else {
      assert bytes == first;
    }
  }

  /** One datagram of `recv`. */
  method TakeDatagram(msg: Message, datagram: seq<byte>, buf: array<byte>, beyond: seq<byte>) returns (len: int16)
    requires 2 < buf.Length < 0x8000 && |beyond| >= 2 && |datagram| <= buf.Length
    requires msg.Valid() && (msg.chunkPos == 0 || msg.chunkPos < msg.size)
    requires msg.Receiving().Partial? ==> |msg.Receiving().got| <= msg.Receiving().size
    modifies msg, buf
    ensures msg.Valid() && msg.ioPos == old(msg.ioPos)
    ensures buf[..] == Overlay(old(buf[..]), datagram)
    ensures var turn := Put(old(msg.Receiving()), buf[..], buf.Length, beyond);
            && (turn.Complete? ==> len > 0 && msg.data == turn.data)
            && (turn.More? ==> len == 0 && msg.Receiving() == turn.receiver && (msg.chunkPos == 0 || msg.chunkPos < msg.size))
  {
    ghost var before := buf[..];
    CopyIn(buf, 0, datagram);
    assert buf[..] == Overlay(before, datagram);
    len := msg.PutChunk(buf, buf.Length, beyond);
    if msg.chunkPos != 0 && len == 0 {
      assert msg.Receiving() == Partial(msg.size, msg.data[..msg.chunkPos]);
      assert |msg.data[..msg.chunkPos]| == msg.chunkPos as int;
    }
  }

  /** The loop of `recv` over the datagrams that arrive. When none is left it
      goes on waiting, and the result says so. */
  method Recv(msg: Message, wire: seq<seq<byte>>, buf: array<byte>, beyond: seq<byte>) returns (len: int16, taken: nat)
    requires 2 < buf.Length < 0x8000 && |beyond| >= 2
    requires forall k :: 0 <= k < |wire| ==> |wire[k]| <= buf.Length
    modifies msg, buf
    ensures msg.Valid() && msg.ioPos == 0 && taken <= |wire|
    ensures Receive(Waiting, old(buf[..]), wire, buf.Length, beyond) == (if len > 0 then Some(msg.data) else None, taken)
  {
    msg.Reset();
    taken := 0;
    while taken < |wire|
      invariant msg.Valid() && msg.ioPos == 0 && taken <= |wire|
      invariant msg.chunkPos == 0 || msg.chunkPos < msg.size
      invariant msg.Receiving().Partial? ==> |msg.Receiving().got| <= msg.Receiving().size
      invariant var (d, n) := Receive(msg.Receiving(), buf[..], wire[taken..], buf.Length, beyond);
                Receive(Waiting, old(buf[..]), wire, buf.Length, beyond) == (d, taken + n)
    {
      ghost var before, receiver := buf[..], msg.Receiving();
      ghost var rest := wire[taken..];
      assert rest[0] == wire[taken] && rest[1..] == wire[taken + 1..];
      ReceiveTurn(receiver, before, rest, buf.Length, beyond);
      len := TakeDatagram(msg, wire[taken], buf, beyond);
      taken := taken + 1;
      if len > 0 {
        return;
      }
    }
    len := 0;
  }

  /** Memory as it is allocated, with no set values. */
  method Uninitialised(n: nat) returns (m: seq<byte>)
    ensures |m| == n
  {
    ghost var zeros: seq<byte> := seq(n, _ => 0);
    assert |zeros| == n;
    m :| |m| == n;
  }

  /** `memcpy` into the buffer. */
  method CopyIn(buffer: array<byte>, at: nat, bytes: seq<byte>)
    requires at + |bytes| <= buffer.Length
    modifies buffer
    ensures buffer[..] == old(buffer[..at]) + bytes + old(buffer[at + |bytes|..])
  {
    for k := 0 to |bytes|
      invariant buffer[..at] == old(buffer[..at]) && buffer[at + |bytes|..] == old(buffer[at + |bytes|..])
      invariant buffer[at..at + k] == bytes[..k]
    {
      buffer[at + k] := bytes[k];
    }
    assert buffer[..] == buffer[..at] + buffer[at..at + |bytes|] + buffer[at + |bytes|..];
  }

  // ----------------------------------------------------------- end to end

  lemma {:induction false} EncodeAppend(fields: seq<Field>, f: Field)
    ensures Encode(fields + [f]) == Encode(fields) + FieldBytes(f)
  {
    if fields == [] {
      assert ([] + [f])[1..] == [];
      assert FieldBytes(f) + [] == FieldBytes(f);
    } else {
      assert (fields + [f])[1..] == fields[1..] + [f];
      EncodeAppend(fields[1..], f);
    }
  }

  lemma {:induction false} EncodeGrows(fields: seq<Field>, i: nat)
    requires i <= |fields|
    ensures |Encode(fields[..i])| <= |Encode(fields)|
    decreases |fields| - i
  {
    if i < |fields| {
      assert fields[..i + 1] == fields[..i] + [fields[i]];
      EncodeAppend(fields[..i], fields[i]);
      EncodeGrows(fields, i + 1);
    } else {
      assert fields[..i] == fields;
    }
  }

  /** Writes fields to a message one after the other, as the shorthand messages
      do. */
  method WriteFields(msg: Message, fields: seq<Field>)
    requires msg.Valid() && msg.data == [] && msg.size == 0 && msg.ioPos == 0
    requires StringsFit(fields) && |Encode(fields)| < 0x8000
    modifies msg
    ensures msg.Valid() && msg.data == Encode(fields) && msg.ioPos == msg.size && msg.size >= 0
  {
    for i := 0 to |fields|
      invariant msg.Valid() && msg.data == Encode(fields[..i]) && msg.ioPos == msg.size && msg.size >= 0
    {
      assert fields[..i + 1] == fields[..i] + [fields[i]];
      EncodeAppend(fields[..i], fields[i]);
      EncodeGrows(fields, i + 1);
      match fields[i]
      case ShortField(s) => var _ := msg.WriteShort(s);
      case IntField(n) => var _ := msg.WriteInt(n);
      case StringField(str) => var _ := msg.WriteString(str);
    }
    assert fields[..|fields|] == fields;
  }

  method ReadField(msg: Message, kind: FieldKind) returns (f: Field)
    requires msg.Valid() && msg.size >= 0
    modifies msg`ioPos
    ensures msg.Valid() && ReadFieldAt(msg.data, old(msg.ioPos), kind) == (f, msg.ioPos as nat)
  {
    match kind
    case AShort =>
      var s := msg.ReadShort();
      f := ShortField(s);
    case AnInt =>
      var n := msg.ReadInt(4, [0, 0, 0, 0]);
      f := IntField(n);
    case AString =>
      var str := msg.ReadString();
      f := StringField(str);
  }

  /** Reads fields of the given kinds one after the other, where `long` has 4
      bytes. */
  method ReadFields(msg: Message, kinds: seq<FieldKind>) returns (fields: seq<Field>)
    requires msg.Valid() && msg.size >= 0
    modifies msg`ioPos
    ensures fields == Decode(msg.data, old(msg.ioPos), kinds)
  {
    fields := [];
    assert kinds[0..] == kinds;
    for i := 0 to |kinds|
      invariant msg.Valid() && fields + Decode(msg.data, msg.ioPos, kinds[i..]) == Decode(msg.data, old(msg.ioPos), kinds)
    {
      ghost var pos: nat := msg.ioPos;
      assert kinds[i..][1..] == kinds[i + 1..];
      var f := ReadField(msg, kinds[i]);
      DecodeFirst(msg.data, pos, kinds[i..], f, msg.ioPos);
      fields := fields + [f];
    }
  }

  /** From fields to chunks and back, over fresh messages and any receiving
      buffer: the same fields come out, and no chunk is left over. */
  method Exchange(fields: seq<Field>, buf: array<byte>, beyond: seq<byte>) returns (r: seq<Field>, sent: nat, taken: nat)
    requires 2 < buf.Length < 0x8000 && |beyond| >= 2 && StringsFit(fields)
    requires var n := |Encode(fields)|; 1 <= n <= buf.Length - 2 || buf.Length < n < 0x8000
    modifies buf
    ensures r == fields && taken == sent
  {
    var a := new Message();
    WriteFields(a, fields);
    var wire := Send(a, buf.Length);
    FieldsTravel(fields, buf[..], buf.Length, beyond);
    var b := new Message();
    var len;
    len, taken := Recv(b, wire, buf, beyond);
    r := ReadFields(b, Kinds(fields));
    sent := |wire|;
  }
}

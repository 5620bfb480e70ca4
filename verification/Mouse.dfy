/** The serial mouse driver (mou_ser.c): three packet formats decoded byte by byte, however the bytes arrive. */
module Mouse {

  datatype Kind = PC | MS | PS2

  datatype State = IDLE | XSET | YSET | XADD | YADD

  /** What MOU_Read returns: relative motion and buttons. */
  datatype Event = Event(dx: int, dy: int, b: nat)

  /** The static variables of the parse routines. */
  datatype Parser = Parser(state: State, buttons: nat, xd: int, yd: int)

  const START: Parser := Parser(IDLE, 0, 0, 0)

  type Char = b: int | 0 <= b < 256

  const MWBUTTON_L: nat := 0x01
  const MWBUTTON_R: nat := 0x02
  const MWBUTTON_M: nat := 0x10

  // The values of the buttons in `buttons`, which MOU_Open sets for each kind of mouse
  function LeftBit(kind: Kind): nat { match kind case PC => 4 case MS => 2 case PS2 => 1 }
  function MiddleBit(kind: Kind): nat { match kind case PC => 2 case MS => 0 case PS2 => 0 }
  function RightBit(kind: Kind): nat { match kind case PC => 1 case MS => 1 case PS2 => 2 }
  function MaxBytes(kind: Kind): nat { match kind case PC => 5 case MS => 3 case PS2 => 4 }

  // a & bit, for a power of two or zero
  predicate IsSet(a: nat, bit: nat) { bit > 0 && a / bit % 2 == 1 }

  // A byte as a signed number: the code negates 256 - byte
  function Signed(byte: Char): int { if byte > 127 then -(256 - byte) else byte }

  // In the Microsoft format the high bits of a motion wait for the low six
  predicate Sane(kind: Kind, p: Parser) {
    kind.MS? ==>
      && (p.state.XADD? ==> p.xd in {0, 64, 128, 192} && p.yd in {0, 64, 128, 192})
      && (p.state.YADD? ==> 0 <= p.xd < 256 && p.yd in {0, 64, 128, 192})
  }

  /** ParsePC, ParseMS and ParsePS2: the state after a byte, and whether it completes a packet. */
  function Parse(kind: Kind, p: Parser, byte: Char): (r: (Parser, bool))
    requires Sane(kind, p)
    ensures Sane(kind, r.0)
  {
    match kind
    case PC => (
      match p.state
      case IDLE => (if byte / 8 == 0x80 / 8 then p.(buttons := 7 - byte % 8, state := XSET) else p, false)
      case XSET => (p.(xd := Signed(byte), state := YSET), false)
      case YSET => (p.(yd := -Signed(byte), state := XADD), false)
      case XADD => (p.(xd := p.xd + Signed(byte), state := YADD), false)
      case YADD => (p.(yd := p.yd - Signed(byte), state := IDLE), true))
    case MS => (
      match p.state
      case IDLE =>
        (if byte / 64 % 2 == 1 then Parser(XADD, byte / 16 % 4, byte % 4 * 64, byte / 4 % 4 * 64) else p, false)
      case XADD => (p.(xd := p.xd + byte % 64, state := YADD), false)
      case YADD =>
        var yd := p.yd + byte % 64;
        (p.(xd := if p.xd > 127 then p.xd - 256 else p.xd, yd := if yd > 127 then yd - 256 else yd, state := IDLE),
            true)
      case _ => (p, false))
    case PS2 => (
      match p.state
      case IDLE => (if byte / 8 % 2 == 1 then p.(buttons := byte % 4, state := XSET) else p, false)
      case XSET => (p.(xd := if byte > 127 then byte - 256 else byte, state := YSET), false)
      case YSET => (p.(yd := -(if byte > 127 then byte - 256 else byte), state := IDLE), true)
      case _ => (p, false))
  }

  // The event that MOU_Read makes of a completed packet
  function Report(kind: Kind, p: Parser): Event {
    Event(p.xd, p.yd, Buttons(kind, p.buttons))
  }

  function Buttons(kind: Kind, buttons: nat): nat {
    (if IsSet(buttons, LeftBit(kind)) then MWBUTTON_L else 0)
    + (if IsSet(buttons, RightBit(kind)) then MWBUTTON_R else 0)
    + (if IsSet(buttons, MiddleBit(kind)) then MWBUTTON_M else 0)
  }

  // All events of a stream of bytes, and the state it leaves
  function Decode(kind: Kind, p: Parser, bytes: seq<Char>): (r: (seq<Event>, Parser))
    requires Sane(kind, p)
    ensures Sane(kind, r.1)
    decreases |bytes|
  {
    if bytes == [] then ([], p)
    else
      var (q, done) := Parse(kind, p, bytes[0]);
      var (rest, last) := Decode(kind, q, bytes[1..]);
      ((if done then [Report(kind, q)] else []) + rest, last)
  }

  // Streams can be decoded piece by piece
  lemma {:induction false} DecodeJoin(kind: Kind, p: Parser, a: seq<Char>, b: seq<Char>)
    requires Sane(kind, p)
    ensures var (ea, pa) := Decode(kind, p, a);
      var (eb, pb) := Decode(kind, pa, b); Decode(kind, p, a + b) == (ea + eb, pb)
    decreases |a|
  {
    if a == [] {
      assert a + b == b && [] + Decode(kind, p, b).0 == Decode(kind, p, b).0;
    } else {
      var (q, done) := Parse(kind, p, a[0]);
      assert (a + b)[0] == a[0] && (a + b)[1..] == a[1..] + b;
      DecodeJoin(kind, q, a[1..], b);
      var first := if done then [Report(kind, q)] else [];
      var (ra, pa) := Decode(kind, q, a[1..]);
      assert first + ra + Decode(kind, pa, b).0 == first + (ra + Decode(kind, pa, b).0);
    }
  }

  /** A packet: the buttons held, and motions in [-128, 127]; the PC format has two of them, and only it has a middle
      button. */
  datatype Packet = Packet(left: bool, middle: bool, right: bool, x: int, y: int, x': int, y': int)

  predicate InByte(n: int) { -128 <= n <= 127 }

  ghost predicate Proper(kind: Kind, k: Packet) {
    InByte(k.x) && InByte(k.y) && InByte(k.x') && InByte(k.y') && (k.middle ==> kind.PC?)
  }

  // A button's bit in the byte that a mouse sends
  function If(held: bool, bit: nat): nat { if held then bit else 0 }

  // The buttons as each mouse sends them
  function Sent(kind: Kind, k: Packet): (n: nat)
    ensures n < if kind.PC? then 8 else 4
  {
    match kind
    case PC => If(k.left, 4) + If(k.middle, 2) + If(k.right, 1)
    case MS => If(k.left, 2) + If(k.right, 1)
    case PS2 => If(k.left, 1) + If(k.right, 2)
  }

  // Two's complement
  function Wrapped(n: int): Char { n % 256 }

  // The bytes that a mouse sends
  function Encode(kind: Kind, k: Packet): seq<Char> {
    match kind
    case PC => [0x80 + (7 - Sent(kind, k)), Wrapped(k.x), Wrapped(k.y), Wrapped(k.x'), Wrapped(k.y')]
    case MS => [0x40 + 16 * Sent(kind, k) + 4 * (Wrapped(k.y) / 64) + Wrapped(k.x) / 64, Wrapped(k.x) % 64,
        Wrapped(k.y) % 64]
    case PS2 => [0x08 + Sent(kind, k), Wrapped(k.x), Wrapped(k.y)]
  }

  // The motion and the buttons that the packet stands for; the screen's y axis points down
  function Meant(kind: Kind, k: Packet): Event {
    var b := If(k.left, MWBUTTON_L) + If(k.right, MWBUTTON_R) + If(k.middle, MWBUTTON_M);
    match kind
    case PC => Event(k.x + k.x', -(k.y + k.y'), b)
    case MS => Event(k.x, k.y, b)
    case PS2 => Event(k.x, -k.y, b)
  }

  // The buttons that are sent are the ones reported
  lemma ButtonsMeant(kind: Kind, k: Packet)
    requires Proper(kind, k)
    ensures Buttons(kind, Sent(kind, k)) == Meant(kind, k).b
  {
  }

  lemma DecodeNone(kind: Kind, p: Parser)
    requires Sane(kind, p)
    ensures Decode(kind, p, []) == ([], p)
  {
  }

  lemma DecodeOne(kind: Kind, p: Parser, byte: Char, bytes: seq<Char>)
    requires Sane(kind, p)
    ensures var (q, done) := Parse(kind, p, byte); var (rest, last) := Decode(kind, q, bytes);
      Decode(kind, p, [byte] + bytes) == ((if done then [Report(kind, q)] else []) + rest, last)
  {
    assert ([byte] + bytes)[0] == byte && ([byte] + bytes)[1..] == bytes;
  }

  // Three bytes that end a packet
  lemma DecodeThree(kind: Kind, p: Parser, a: Char, b: Char, c: Char)
    requires Sane(kind, p)
    ensures var (p1, d1) := Parse(kind, p, a); var (p2, d2) := Parse(kind, p1, b); var (p3, d3) := Parse(kind, p2, c);
      !d1 && !d2 && d3 ==> Decode(kind, p, [a, b, c]) == ([Report(kind, p3)], p3)
  {
    hide Parse, Decode, Report;
    var p1 := Parse(kind, p, a).0;
    var p2 := Parse(kind, p1, b).0;
    assert [a, b, c] == [a] + [b, c] && [b, c] == [b] + [c] && [c] == [c] + [];
    DecodeOne(kind, p, a, [b, c]);
    DecodeOne(kind, p1, b, [c]);
    DecodeOne(kind, p2, c, []);
    DecodeNone(kind, Parse(kind, p2, c).0);
    var event := [Report(kind, Parse(kind, p2, c).0)];
    assert event + [] == event && [] + event == event && [] + ([] + event) == event;
  }

  // Reading a two's complement byte as a signed number
  lemma SignedWrapped(n: int)
    requires InByte(n)
    ensures Signed(Wrapped(n)) == n
    ensures var w: int := Wrapped(n); (if w > 127 then w - 256 else w) == n && w / 64 * 64 + w % 64 == w
  {
  }

  lemma DecodePC(p: Parser, k: Packet)
    requires p.state.IDLE? && Proper(PC, k)
    ensures Decode(PC, p, Encode(PC, k)).0 == [Meant(PC, k)] && Decode(PC, p, Encode(PC, k)).1.state.IDLE?
  {
    hide Decode, Buttons, Signed, Wrapped, Sent, If;
    var e := Encode(PC, k);
    ButtonsMeant(PC, k);
    var p1 := p.(buttons := Sent(PC, k), state := XSET);
    var p2 := p1.(xd := k.x, state := YSET);
    SignedWrapped(k.x);
    SignedWrapped(k.y);
    SignedWrapped(k.x');
    SignedWrapped(k.y');
    DecodeThree(PC, p2, e[2], e[3], e[4]);
    assert e == [e[0]] + [e[1], e[2], e[3], e[4]] && [e[1], e[2], e[3], e[4]] == [e[1]] + [e[2], e[3], e[4]];
    DecodeOne(PC, p, e[0], [e[1], e[2], e[3], e[4]]);
    DecodeOne(PC, p1, e[1], [e[2], e[3], e[4]]);
  }

  lemma DecodeMS(p: Parser, k: Packet)
    requires p.state.IDLE? && Proper(MS, k)
    ensures Decode(MS, p, Encode(MS, k)).0 == [Meant(MS, k)] && Decode(MS, p, Encode(MS, k)).1.state.IDLE?
  {
    hide Decode, Buttons, Sent, If;
    var e := Encode(MS, k);
    ButtonsMeant(MS, k);
    ParseMS(p, k);
    DecodeThree(MS, p, e[0], e[1], e[2]);
  }

  lemma ParseMS(p: Parser, k: Packet)
    requires p.state.IDLE? && Proper(MS, k)
    ensures var e, p1 := Encode(MS, k), Parser(XADD, Sent(MS, k), Wrapped(k.x) / 64 * 64, Wrapped(k.y) / 64 * 64);
      && Parse(MS, p, e[0]) == (p1, false)
      && Parse(MS, p1, e[1]) == (p1.(xd := Wrapped(k.x), state := YADD), false)
      && Parse(MS, p1.(xd := Wrapped(k.x), state := YADD), e[2]) == (Parser(IDLE, Sent(MS, k), k.x, k.y), true)
  {
    hide Wrapped, Sent, If;
    Fields(Sent(MS, k), Wrapped(k.y) / 64, Wrapped(k.x) / 64);
    SignedWrapped(k.x);
    SignedWrapped(k.y);
  }

  // The fields of the first byte of a Microsoft packet
  lemma Fields(buttons: nat, q: nat, r: nat)
    requires buttons < 4 && q < 4 && r < 4
    ensures var h := 0x40 + 16 * buttons + 4 * q + r;
      h / 64 % 2 == 1 && h / 16 % 4 == buttons && h / 4 % 4 == q && h % 4 == r
  {
  }

  lemma DecodePS2(p: Parser, k: Packet)
    requires p.state.IDLE? && Proper(PS2, k)
    ensures Decode(PS2, p, Encode(PS2, k)).0 == [Meant(PS2, k)] && Decode(PS2, p, Encode(PS2, k)).1.state.IDLE?
  {
    hide Decode, Buttons, Sent, If;
    var e := Encode(PS2, k);
    ButtonsMeant(PS2, k);
    DecodeThree(PS2, p, e[0], e[1], e[2]);
  }

  // From IDLE, a packet decodes to what it stands for, whatever the variables held before
  lemma DecodePacket(kind: Kind, p: Parser, k: Packet)
    requires p.state.IDLE? && Proper(kind, k)
    ensures Decode(kind, p, Encode(kind, k)).0 == [Meant(kind, k)] && Decode(kind, p, Encode(kind, k)).1.state.IDLE?
  {
    match kind {
      case PC => DecodePC(p, k);
      case MS => DecodeMS(p, k);
      case PS2 => DecodePS2(p, k);
    }
  }

  // The byte that starts a packet: the top five bits, the sixth bit or the control bit
  predicate Starts(kind: Kind, byte: Char) {
    match kind
    case PC => 0x80 <= byte < 0x88
    case MS => 0x40 <= byte < 0x80 || 0xc0 <= byte
    case PS2 => byte % 16 >= 8
  }

  // Bytes are skipped until one starts a packet, and only until then
  lemma {:induction false} Skipped(kind: Kind, p: Parser, bytes: seq<Char>)
    requires p.state.IDLE? && forall i | 0 <= i < |bytes| :: !Starts(kind, bytes[i])
    ensures Decode(kind, p, bytes) == ([], p)
    decreases |bytes|
  {
    if bytes != [] {
      StartsExactly(kind, p, bytes[0]);
      DecodeOne(kind, p, bytes[0], bytes[1..]);
      assert bytes == [bytes[0]] + bytes[1..];
      Skipped(kind, p, bytes[1..]);
      var none: seq<Event> := [];
      assert none + none == none;
    }
  }

  lemma StartsExactly(kind: Kind, p: Parser, byte: Char)
    requires p.state.IDLE?
    ensures Starts(kind, byte) <==> Parse(kind, p, byte).0.state != IDLE
    ensures !Starts(kind, byte) ==> Parse(kind, p, byte) == (p, false)
  {
    hide Sane;
    match kind {
      case PC =>
      case MS =>
      case PS2 => LowNibble(byte);
    }
  }

  lemma LowNibble(byte: Char)
    ensures byte % 16 >= 8 <==> byte / 8 % 2 == 1
  {
  }

  // So noise in front of a packet does not matter
  lemma AfterNoise(kind: Kind, p: Parser, noise: seq<Char>, k: Packet)
    requires p.state.IDLE? && Proper(kind, k) && forall i | 0 <= i < |noise| :: !Starts(kind, noise[i])
    ensures Decode(kind, p, noise + Encode(kind, k)).0 == [Meant(kind, k)]
  {
    hide Encode, Meant;
    Skipped(kind, p, noise);
    DecodeJoin(kind, p, noise, Encode(kind, k));
    DecodePacket(kind, p, k);
    assert [] + [Meant(kind, k)] == [Meant(kind, k)];
  }

  ghost predicate AllProper(kind: Kind, ks: seq<Packet>) { forall i | 0 <= i < |ks| :: Proper(kind, ks[i]) }

  ghost function EncodeAll(kind: Kind, ks: seq<Packet>): seq<Char>
    requires AllProper(kind, ks)
  {
    if ks == [] then [] else Encode(kind, ks[0]) + EncodeAll(kind, ks[1..])
  }

  ghost function MeantAll(kind: Kind, ks: seq<Packet>): seq<Event> {
    if ks == [] then [] else [Meant(kind, ks[0])] + MeantAll(kind, ks[1..])
  }

  // Any sequence of packets decodes to the motions and buttons they stand for
  lemma {:induction false} DecodePackets(kind: Kind, p: Parser, ks: seq<Packet>)
    requires p.state.IDLE? && AllProper(kind, ks)
    decreases |ks|
    ensures Decode(kind, p, EncodeAll(kind, ks)).0 == MeantAll(kind, ks)
        && Decode(kind, p, EncodeAll(kind, ks)).1.state.IDLE?
  {
    hide Encode, Meant, Decode, Parse;
    if ks == [] {
      DecodeNone(kind, p);
    } else {
      DecodePacket(kind, p, ks[0]);
      DecodeJoin(kind, p, Encode(kind, ks[0]), EncodeAll(kind, ks[1..]));
      DecodePackets(kind, Decode(kind, p, Encode(kind, ks[0])).1, ks[1..]);
    }
  }

  /** What read() gives: some bytes, none yet, or an error. */
  datatype Arrival = Bytes(bytes: seq<Char>) | NoData | Failed

  const MOUSE_FAIL: int := -1
  const MOUSE_NODATA: int := 0
  const MOUSE_RELPOS: int := 1

  // The rest of a stream decodes to what is still to be reported of it
  ghost predicate Resumes(kind: Kind, stream: seq<Char>, reported: seq<Event>, p: Parser, pending: seq<Char>)
    requires Sane(kind, p)
  {
    Decode(kind, START, stream) == (reported + Decode(kind, p, pending).0, Decode(kind, p, pending).1)
  }

  lemma ResumesNone(kind: Kind)
    ensures Resumes(kind, [], [], START, [])
  {
    DecodeNone(kind, START);
    assert [] + Decode(kind, START, []).0 == [];
  }

  // More bytes arrive when all the others have been parsed
  lemma ResumesMore(kind: Kind, stream: seq<Char>, reported: seq<Event>, p: Parser, more: seq<Char>)
    requires Sane(kind, p) && Resumes(kind, stream, reported, p, [])
    ensures Resumes(kind, stream + more, reported, p, more)
  {
    DecodeNone(kind, p);
    DecodeJoin(kind, START, stream, more);
    assert reported + [] == reported;
  }

  // One byte is parsed
  lemma ResumesNext(kind: Kind, stream: seq<Char>, reported: seq<Event>, p: Parser, byte: Char, rest: seq<Char>,
                    pending: seq<Char>)
    requires Sane(kind, p) && pending == [byte] + rest && Resumes(kind, stream, reported, p, pending)
    ensures var (q, done) := Parse(kind, p, byte);
      Resumes(kind, stream, if done then reported + [Report(kind, q)] else reported, q, rest)
  {
    hide Parse;
    DecodeOne(kind, p, byte, rest);
    var (q, done) := Parse(kind, p, byte);
    var events := Decode(kind, q, rest).0;
    assert reported + ([Report(kind, q)] + events) == reported + [Report(kind, q)] + events;
    assert [] + events == events;
  }

  /** The driver's static variables: parser, buffer, bp and nbytes. */
  class Driver {
    const kind: Kind
    var parser: Parser
    var buffer: seq<Char>
    var bp: nat
    var nbytes: int
    ghost var stream: seq<Char>      // all bytes read so far
    ghost var reported: seq<Event>   // all events returned so far

    /** The end of MOU_Open */
    constructor (kind: Kind)
      ensures this.kind == kind && Valid() && stream == [] && reported == [] && nbytes == 0
    {
      this.kind, parser, buffer, bp, nbytes, stream, reported := kind, START, [], 0, 0, [], [];
      new;
      ResumesNone(kind);
    }

    ghost function Pending(): seq<Char>
      reads this
      requires nbytes > 0 ==> bp + nbytes <= |buffer|
    {
      if nbytes > 0 then buffer[bp..bp + nbytes] else []
    }

    ghost predicate Valid()
      reads this
    {
      Sane(kind, parser) && (nbytes > 0 ==> bp + nbytes <= |buffer|)
          && Resumes(kind, stream, reported, parser, Pending())
    }

    /** MOU_Read; `arrived` is what read() gives, if it is called */
    method Read(arrived: Arrival) returns (r: int, event: Event)
      requires Valid() && (arrived.Bytes? ==> |arrived.bytes| <= MaxBytes(kind))
      modifies this
      ensures Valid()
      ensures stream == if old(nbytes) <= 0 && arrived.Bytes? then old(stream) + arrived.bytes else old(stream)
      ensures reported == if r == MOUSE_RELPOS then old(reported) + [event] else old(reported)
      ensures r == MOUSE_FAIL <==> old(nbytes) <= 0 && arrived.Failed?
      ensures r == MOUSE_NODATA || r == MOUSE_FAIL ==> nbytes <= 0
      ensures r == MOUSE_RELPOS ==>
        0 <= nbytes < if old(nbytes) <= 0 && arrived.Bytes? then |arrived.bytes| else old(nbytes)
      ensures r in {MOUSE_FAIL, MOUSE_NODATA, MOUSE_RELPOS}
    {
      hide Resumes, Sane, Parse, Report;
      event := Event(0, 0, 0);
      if nbytes <= 0 {
        if arrived.Bytes? {
          ResumesMore(kind, stream, reported, parser, arrived.bytes);
          buffer, bp, nbytes := arrived.bytes, 0, |arrived.bytes|;
          stream := stream + arrived.bytes;
          assert buffer[0..nbytes] == arrived.bytes;
        } else {
          nbytes := -1;
          return if arrived.NoData? then MOUSE_NODATA else MOUSE_FAIL, event;
        }
      }
      r, event := Scan();
    }

    // The loop over the buffered bytes, up to the end of a packet
    method Scan() returns (r: int, event: Event)
      requires 0 <= nbytes && bp + nbytes <= |buffer| && Sane(kind, parser)
      requires Resumes(kind, stream, reported, parser, buffer[bp..bp + nbytes])
      modifies this
      ensures Valid() && stream == old(stream) && r in {MOUSE_NODATA, MOUSE_RELPOS}
      ensures reported == if r == MOUSE_RELPOS then old(reported) + [event] else old(reported)
      ensures if r == MOUSE_RELPOS then 0 <= nbytes < old(nbytes) else nbytes <= 0
    {
      hide Resumes, Sane, Parse, Report;
      event := Event(0, 0, 0);
      var left := nbytes;
      while left > 0
        invariant 0 <= left <= nbytes == old(nbytes) && bp + left <= |buffer|
        invariant Sane(kind, parser) && Resumes(kind, stream, reported, parser, buffer[bp..bp + left])
        invariant stream == old(stream) && reported == old(reported)
      {
        assert buffer[bp..bp + left] == [buffer[bp]] + buffer[bp + 1..bp + left];
        ResumesNext(kind, stream, reported, parser, buffer[bp], buffer[bp + 1..bp + left], buffer[bp..bp + left]);
        var (p, done) := Parse(kind, parser, buffer[bp]);
        parser, bp, left := p, bp + 1, left - 1;
        if done {
          event := Report(kind, parser);
          nbytes := left;
          reported := reported + [event];
          return MOUSE_RELPOS, event;
        }
      }
      assert buffer[bp..bp + left] == [];
      nbytes := -1;
      return MOUSE_NODATA, event;
    }
  }

  function Joined(chunks: seq<seq<Char>>): seq<Char> {
    if chunks == [] then [] else Joined(chunks[..|chunks| - 1]) + chunks[|chunks| - 1]
  }

  /** A program that polls the mouse: the bytes arrive in any chunks, and between two of them it reads until there is
      no more data.  What it sees depends on the stream alone. */
  method Poll(kind: Kind, chunks: seq<seq<Char>>) returns (events: seq<Event>)
    requires forall i | 0 <= i < |chunks| :: |chunks[i]| <= MaxBytes(kind)
    ensures events == Decode(kind, START, Joined(chunks)).0
  {
    hide Decode, Sane;
    var mouse := new Driver(kind);
    events := [];
    var i := 0;
    assert chunks[..0] == [];
    while i < |chunks|
      invariant 0 <= i <= |chunks| && fresh(mouse) && mouse.kind == kind && mouse.Valid() && mouse.nbytes <= 0
      invariant mouse.stream == Joined(chunks[..i]) && mouse.reported == events
    {
      assert chunks[..i + 1][..i] == chunks[..i];
      var r, event := mouse.Read(Bytes(chunks[i]));
      while r == MOUSE_RELPOS
        invariant fresh(mouse) && mouse.Valid() && mouse.kind == kind && mouse.stream == Joined(chunks[..i + 1])
        invariant r == MOUSE_RELPOS || mouse.nbytes <= 0
        invariant mouse.reported == if r == MOUSE_RELPOS then events + [event] else events
        invariant r == MOUSE_RELPOS ==> mouse.nbytes >= 0
        decreases if r == MOUSE_RELPOS then mouse.nbytes + 1 else 0
      {
        events := events + [event];
        r, event := mouse.Read(NoData);
      }
      i := i + 1;
    }
    assert chunks[..|chunks|] == chunks;
    DecodeNone(kind, mouse.parser);
    assert events + [] == events;
  }

  // However a stream of packets is cut into reads, the program sees what they stand for
  method PollPackets(kind: Kind, chunks: seq<seq<Char>>, ghost ks: seq<Packet>) returns (events: seq<Event>)
    requires forall i | 0 <= i < |chunks| :: |chunks[i]| <= MaxBytes(kind)
    requires AllProper(kind, ks) && Joined(chunks) == EncodeAll(kind, ks)
    ensures events == MeantAll(kind, ks)
  {
    DecodePackets(kind, START, ks);
    events := Poll(kind, chunks);
  }
}

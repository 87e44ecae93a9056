/** The framed wire protocol of gb_feeder_diag.py: a 16-byte little-endian header with a
    sequence number, sent and received over a byte stream that may split anywhere. */
module WireFraming {
  import opened Basics

  const MAGIC: nat := 0x47424E46
  const U16: nat := 0x1_0000
  const U32: nat := 0x1_0000_0000
  const HEADER: nat := 16

  datatype Message = Message(kind: nat, flags: nat, payload: seq<byte>)

  // ---------------------------------------------------------------- numbers

  /** `width` bytes, least significant first. */
  function Pack(n: nat, width: nat): seq<byte> {
    if width == 0 then [] else [n % 256] + Pack(n / 256, width - 1)
  }

  function Unpack(bytes: seq<byte>): nat {
    if bytes == [] then 0 else bytes[0] + 256 * Unpack(bytes[1..])
  }

  function Power(width: nat): nat {
    if width == 0 then 1 else 256 * Power(width - 1)
  }

  lemma {:induction false} PackRoundTrip(n: nat, width: nat)
    requires n < Power(width)
    ensures |Pack(n, width)| == width && Unpack(Pack(n, width)) == n
  {
    if width > 0 {
      PackRoundTrip(n / 256, width - 1);
      assert Pack(n, width)[1..] == Pack(n / 256, width - 1);
    }
  }

  // ---------------------------------------------------------------- frames

  /** What `struct.pack` accepts. */
  predicate Packable(m: Message, number: nat) {
    m.kind < U16 && m.flags < U16 && |m.payload| < U32 && number < U32
  }

  function Header(m: Message, number: nat): seq<byte> {
    Pack(MAGIC, 4) + Pack(m.kind, 2) + Pack(m.flags, 2) + Pack(|m.payload|, 4) + Pack(number, 4)
  }

  function Frame(m: Message, number: nat): seq<byte> {
    Header(m, number) + m.payload
  }

  datatype Fields = Fields(magic: nat, kind: nat, flags: nat, length: nat, number: nat)

  /** `struct.unpack`. */
  function Parse(raw: seq<byte>): Fields
    requires |raw| == HEADER
  {
    Fields(Unpack(raw[..4]), Unpack(raw[4..6]), Unpack(raw[6..8]), Unpack(raw[8..12]), Unpack(raw[12..]))
  }

  lemma ParseHeader(m: Message, number: nat)
    requires Packable(m, number)
    ensures |Header(m, number)| == HEADER
    ensures Parse(Header(m, number)) == Fields(MAGIC, m.kind, m.flags, |m.payload|, number)
  {
    PackRoundTrip(MAGIC, 4);
    PackRoundTrip(m.kind, 2);
    PackRoundTrip(m.flags, 2);
    PackRoundTrip(|m.payload|, 4);
    PackRoundTrip(number, 4);
    Pieces(Pack(MAGIC, 4), Pack(m.kind, 2), Pack(m.flags, 2), Pack(|m.payload|, 4), Pack(number, 4));
  }

  lemma Pieces(a: seq<byte>, b: seq<byte>, c: seq<byte>, d: seq<byte>, e: seq<byte>)
    requires |a| == 4 && |b| == 2 && |c| == 2 && |d| == 4 && |e| == 4
    ensures var raw := a + b + c + d + e;
            |raw| == HEADER && raw[..4] == a && raw[4..6] == b && raw[6..8] == c && raw[8..12] == d && raw[12..] == e
  {
  }

  lemma PackTwo(n: nat)
    requires n < U16
    ensures Pack(n, 2) == [n % 256, n / 256]
  {
    assert Pack(n / 256, 1) == [n / 256 % 256] + Pack(n / 256 / 256, 0);
  }

  lemma PackFour(n: nat)
    requires n < U32
    ensures Pack(n, 4) == [n % 256, n / 256 % 256, n / 65536 % 256, n / 16777216]
  {
    var a := n / 256;
    var b := a / 256;
    assert b == n / 65536 && b / 256 == n / 16777216;
    assert Pack(b, 2) == [b % 256, b / 256] by { PackTwo(b); }
    assert Pack(a, 3) == [a % 256] + Pack(b, 2);
    assert Pack(n, 4) == [n % 256] + Pack(a, 3);
  }

  /** The sixteen bytes on the wire: "FNBG", then type, flags, length and number, each
      least significant byte first. */
  lemma HeaderLayout(m: Message, number: nat)
    requires Packable(m, number)
    ensures var n := |m.payload|;
            Header(m, number) == [0x46, 0x4E, 0x42, 0x47, m.kind % 256, m.kind / 256, m.flags % 256, m.flags / 256]
                                 + [n % 256, n / 256 % 256, n / 65536 % 256, n / 16777216]
                                 + [number % 256, number / 256 % 256, number / 65536 % 256, number / 16777216]
  {
    PackFour(MAGIC);
    PackTwo(m.kind);
    PackTwo(m.flags);
    PackFour(|m.payload|);
    PackFour(number);
  }

  // ---------------------------------------------------------------- reading

  datatype Outcome =
    | Received(m: Message)
    | EndOfStream                           // EOFError
    | BadMagic(magic: nat)                  // ValueError
    | SeqMismatch(expected: nat, got: nat)  // ValueError

  /** What one read does: its outcome, the bytes left and the number due next. */
  datatype Read = Read(outcome: Outcome, rest: seq<byte>, due: nat)

  /** `_recv_msg`.  The counter has moved on by the time the payload is read. */
  function ReadMsg(stream: seq<byte>, due: nat): Read {
    if |stream| < HEADER then Read(EndOfStream, [], due)
    else
      var h, rest := Parse(stream[..HEADER]), stream[HEADER..];
      if h.magic != MAGIC then Read(BadMagic(h.magic), rest, due)
      else if h.number != due then Read(SeqMismatch(due, h.number), rest, due)
      else if |rest| < h.length then Read(EndOfStream, [], due + 1)
      else Read(Received(Message(h.kind, h.flags, rest[..h.length])), rest[h.length..], due + 1)
  }

  lemma ReadFrame(m: Message, number: nat, tail: seq<byte>, due: nat)
    requires Packable(m, number)
    ensures ReadMsg(Frame(m, number) + tail, due)
            == if number == due then Read(Received(m), tail, due + 1)
               else Read(SeqMismatch(due, number), m.payload + tail, due)
  {
    ParseHeader(m, number);
    var stream, rest := Frame(m, number) + tail, m.payload + tail;
    assert stream[..HEADER] == Header(m, number);
    assert stream[HEADER..] == rest;
    assert rest[..|m.payload|] == m.payload && rest[|m.payload|..] == tail;
  }

  // ---------------------------------------------------------------- sockets

  /** The receiving side of a connection: the bytes still to come, handed out in pieces of
      any size. */
  class Source {
    var rest: seq<byte>

    constructor (bytes: seq<byte>)
      ensures rest == bytes
    {
      rest := bytes;
    }

    /** `sock.recv`: at least one byte, as long as the peer sends more. */
    method Recv(n: nat) returns (chunk: seq<byte>)
      requires n > 0
      modifies this
      ensures |chunk| <= n && chunk + rest == old(rest)
      ensures chunk == [] <==> old(rest) == []
    {
      if rest == [] { return []; }
      var k: nat :| 1 <= k <= n && k <= |rest|;
      chunk := rest[..k];
      rest := rest[k..];
    }
  }

  datatype Bytes = Bytes(value: seq<byte>) | Eof

  /** `_recvall`. */
  method RecvAll(sock: Source, n: nat) returns (r: Bytes)
    modifies sock
    ensures if n <= |old(sock.rest)| then r == Bytes(old(sock.rest)[..n]) && sock.rest == old(sock.rest)[n..]
            else r == Eof && sock.rest == []
  {
    var buf: seq<byte> := [];
    while |buf| < n
      invariant |buf| <= n && buf + sock.rest == old(sock.rest)
    {
      var chunk := sock.Recv(n - |buf|);
      if chunk == [] { return Eof; }
      buf := buf + chunk;
    }
    r := Bytes(buf);
  }

  /** The counters of one thread, and what it has sent. */
  class Peer {
    var send: nat
    var recv: nat
    var wire: seq<byte>

    constructor ()
      ensures send == recv == 0 && wire == []
    {
      send, recv, wire := 0, 0, [];
    }

    method ResetSeq()
      modifies `send, `recv
      ensures send == recv == 0
    {
      send, recv := 0, 0;
    }

    /** `_send_msg`; false is the struct.error, raised before anything changes. */
    method SendMsg(m: Message) returns (ok: bool)
      modifies `send, `wire
      ensures ok <==> Packable(m, old(send))
      ensures if ok then send == old(send) + 1 && wire == old(wire) + Frame(m, old(send))
              else send == old(send) && wire == old(wire)
    {
      ok := m.kind < U16 && m.flags < U16 && |m.payload| < U32 && send < U32;
      if ok {
        wire := wire + (Header(m, send) + m.payload);
        send := send + 1;
      }
    }

    method RecvMsg(sock: Source) returns (r: Outcome)
      modifies `recv, sock
      ensures Read(r, sock.rest, recv) == ReadMsg(old(sock.rest), old(recv))
    {
      var raw := RecvAll(sock, HEADER);
      if raw.Eof? { return EndOfStream; }
      var h := Parse(raw.value);
      if h.magic != MAGIC { return BadMagic(h.magic); }
      if h.number != recv { return SeqMismatch(recv, h.number); }
      recv := recv + 1;
      var payload := Bytes([]);
      if h.length > 0 { payload := RecvAll(sock, h.length); }
      if payload.Eof? { return EndOfStream; }
      r := Received(Message(h.kind, h.flags, payload.value));
    }
  }

  // ---------------------------------------------------------------- whole streams

  datatype Numbered = Numbered(m: Message, number: nat)

  predicate AllPackable(frames: seq<Numbered>) {
    forall k :: 0 <= k < |frames| ==> Packable(frames[k].m, frames[k].number)
  }

  function Stream(frames: seq<Numbered>): seq<byte> {
    if frames == [] then [] else Frame(frames[0].m, frames[0].number) + Stream(frames[1..])
  }

  function Messages(frames: seq<Numbered>): seq<Message> {
    seq(|frames|, k requires 0 <= k < |frames| => frames[k].m)
  }

  /** Reading until something else than a message comes: the messages, what stopped the
      reader, and the number then due. */
  datatype Session = Session(messages: seq<Message>, stop: Outcome, due: nat)

  function ReadAll(stream: seq<byte>, due: nat): Session
    decreases |stream|
  {
    var r := ReadMsg(stream, due);
    if r.outcome.Received? then
      var later := ReadAll(r.rest, r.due);
      later.(messages := [r.outcome.m] + later.messages)
    else Session([], r.outcome, r.due)
  }

  /** How many frames carry consecutive numbers from `due` on. */
  function Consecutive(frames: seq<Numbered>, due: nat): (k: nat)
    ensures k <= |frames|
  {
    if frames == [] || frames[0].number != due then 0 else 1 + Consecutive(frames[1..], due + 1)
  }

  /** What reading frames gives, by their numbers alone. */
  function Delivered(frames: seq<Numbered>, due: nat): Session {
    if frames == [] then Session([], EndOfStream, due)
    else if frames[0].number != due then Session([], SeqMismatch(due, frames[0].number), due)
    else
      var later := Delivered(frames[1..], due + 1);
      later.(messages := [frames[0].m] + later.messages)
  }

  lemma ReadsFirst(first: Numbered, tail: seq<byte>, due: nat)
    requires Packable(first.m, first.number)
    ensures ReadAll(Frame(first.m, first.number) + tail, due)
            == if first.number != due then Session([], SeqMismatch(due, first.number), due)
               else var later := ReadAll(tail, due + 1); later.(messages := [first.m] + later.messages)
  {
    ReadFrame(first.m, first.number, tail, due);
  }

  lemma ReadsOne(frames: seq<Numbered>, due: nat, tail: seq<byte>)
    requires frames != [] && Packable(frames[0].m, frames[0].number) && tail == Stream(frames[1..])
    requires frames[0].number == due ==> ReadAll(tail, due + 1) == Delivered(frames[1..], due + 1)
    ensures ReadAll(Frame(frames[0].m, frames[0].number) + tail, due) == Delivered(frames, due)
  {
    ReadsFirst(frames[0], tail, due);
  }

  /** Reading the bytes of frames is reading the frames: an out-of-order frame stops the
      reader before it looks at the payload. */
  lemma {:induction false} ReadsFrames(frames: seq<Numbered>, due: nat)
    requires AllPackable(frames)
    ensures ReadAll(Stream(frames), due) == Delivered(frames, due)
    decreases |frames|
  {
    if frames != [] {
      var rest := frames[1..];
      assert forall k :: 0 <= k < |rest| ==> rest[k] == frames[k + 1];
      if frames[0].number == due { ReadsFrames(rest, due + 1); }
      ReadsOne(frames, due, Stream(rest));
    }
  }

  /** A reader takes exactly the frames with consecutive numbers from its counter on, and
      stops at the first other one. */
  lemma {:induction false} TakesConsecutive(frames: seq<Numbered>, due: nat)
    ensures var k := Consecutive(frames, due);
            Delivered(frames, due)
            == Session(Messages(frames[..k]),
                       if k == |frames| then EndOfStream else SeqMismatch(due + k, frames[k].number), due + k)
    decreases |frames|
  {
    var k := Consecutive(frames, due);
    if k > 0 {
      TakesConsecutive(frames[1..], due + 1);
      assert frames[..k][1..] == frames[1..][..k - 1];
    }
  }

  function Number(ms: seq<Message>, from: nat): seq<Numbered> {
    seq(|ms|, k requires 0 <= k < |ms| => Numbered(ms[k], from + k))
  }

  /** What a sender may send: the fields fit and the counter does not reach 2^32. */
  predicate Sendable(ms: seq<Message>, from: nat) {
    forall k :: 0 <= k < |ms| ==> Packable(ms[k], from + k)
  }

  lemma {:induction false} ConsecutiveIs(frames: seq<Numbered>, due: nat, k: nat)
    requires k <= |frames| && (forall i :: 0 <= i < k ==> frames[i].number == due + i)
    requires k < |frames| ==> frames[k].number != due + k
    ensures Consecutive(frames, due) == k
    decreases k
  {
    if k > 0 {
      assert forall i :: 0 <= i < |frames[1..]| ==> frames[1..][i] == frames[i + 1];
      ConsecutiveIs(frames[1..], due + 1, k - 1);
    }
  }

  /** Frames that follow the sender's up to k and then end, or differ in number. */
  lemma StopsAt(ms: seq<Message>, from: nat, frames: seq<Numbered>, k: nat)
    requires k <= |ms| && k <= |frames| && (k < |frames| ==> frames[k].number != from + k)
    requires forall i :: 0 <= i < k ==> frames[i] == Numbered(ms[i], from + i)
    ensures Delivered(frames, from)
            == Session(ms[..k], if k < |frames| then SeqMismatch(from + k, frames[k].number) else EndOfStream, from + k)
  {
    ConsecutiveIs(frames, from, k);
    TakesConsecutive(frames, from);
    assert Messages(frames[..k]) == ms[..k];
  }

  /** Round trip: whatever the messages and however `recv` splits the stream, reading it
      gives them back, with the two counters in step. */
  lemma RoundTrip(ms: seq<Message>, from: nat)
    requires Sendable(ms, from)
    ensures ReadAll(Stream(Number(ms, from)), from) == Session(ms, EndOfStream, from + |ms|)
  {
    ReadsFrames(Number(ms, from), from);
    StopsAt(ms, from, Number(ms, from), |ms|);
    assert ms[..|ms|] == ms;
  }

  function WithDrop(sent: seq<Numbered>, k: nat): seq<Numbered>
    requires k < |sent|
  {
    sent[..k] + sent[k + 1..]
  }

  function WithRepeat(sent: seq<Numbered>, k: nat): seq<Numbered>
    requires k < |sent|
  {
    sent[..k + 1] + sent[k..]
  }

  function WithSwap(sent: seq<Numbered>, i: nat, j: nat): seq<Numbered>
    requires i < |sent| && j < |sent|
  {
    sent[i := sent[j]][j := sent[i]]
  }

  lemma DropDelivered(ms: seq<Message>, from: nat, k: nat)
    requires k < |ms|
    ensures Delivered(WithDrop(Number(ms, from), k), from)
            == Session(ms[..k], if k + 1 < |ms| then SeqMismatch(from + k, from + k + 1) else EndOfStream, from + k)
  {
    StopsAt(ms, from, WithDrop(Number(ms, from), k), k);
  }

  lemma RepeatDelivered(ms: seq<Message>, from: nat, k: nat)
    requires k < |ms|
    ensures Delivered(WithRepeat(Number(ms, from), k), from)
            == Session(ms[..k + 1], SeqMismatch(from + k + 1, from + k), from + k + 1)
  {
    StopsAt(ms, from, WithRepeat(Number(ms, from), k), k + 1);
  }

  lemma SwapDelivered(ms: seq<Message>, from: nat, i: nat, j: nat)
    requires i < j < |ms|
    ensures Delivered(WithSwap(Number(ms, from), i, j), from)
            == Session(ms[..i], SeqMismatch(from + i, from + j), from + i)
  {
    StopsAt(ms, from, WithSwap(Number(ms, from), i, j), i);
  }

  /** A dropped frame is noticed at the next one; a dropped last frame cannot be. */
  lemma DropIsDetected(ms: seq<Message>, from: nat, k: nat)
    requires Sendable(ms, from) && k < |ms|
    ensures ReadAll(Stream(WithDrop(Number(ms, from), k)), from)
            == Session(ms[..k], if k + 1 < |ms| then SeqMismatch(from + k, from + k + 1) else EndOfStream, from + k)
  {
    ReadsFrames(WithDrop(Number(ms, from), k), from);
    DropDelivered(ms, from, k);
  }

  /** So is a repeated one. */
  lemma RepeatIsDetected(ms: seq<Message>, from: nat, k: nat)
    requires Sendable(ms, from) && k < |ms|
    ensures ReadAll(Stream(WithRepeat(Number(ms, from), k)), from)
            == Session(ms[..k + 1], SeqMismatch(from + k + 1, from + k), from + k + 1)
  {
    ReadsFrames(WithRepeat(Number(ms, from), k), from);
    RepeatDelivered(ms, from, k);
  }

  /** And so is the first of two exchanged ones. */
  lemma SwapIsDetected(ms: seq<Message>, from: nat, i: nat, j: nat)
    requires Sendable(ms, from) && i < j < |ms|
    ensures ReadAll(Stream(WithSwap(Number(ms, from), i, j)), from)
            == Session(ms[..i], SeqMismatch(from + i, from + j), from + i)
  {
    ReadsFrames(WithSwap(Number(ms, from), i, j), from);
    SwapDelivered(ms, from, i, j);
  }

  /** Any stream of frames is read to its end if and only if the numbers are consecutive
      from the reader's counter. */
  lemma AcceptedIffConsecutive(frames: seq<Numbered>, due: nat)
    requires AllPackable(frames)
    ensures ReadAll(Stream(frames), due).stop == EndOfStream
            <==> forall k :: 0 <= k < |frames| ==> frames[k].number == due + k
  {
    ReadsFrames(frames, due);
    TakesConsecutive(frames, due);
    ConsecutivePrefix(frames, due);
    if forall i :: 0 <= i < |frames| ==> frames[i].number == due + i { ConsecutiveIs(frames, due, |frames|); }
  }

  lemma {:induction false} ConsecutivePrefix(frames: seq<Numbered>, due: nat)
    ensures forall i :: 0 <= i < Consecutive(frames, due) ==> frames[i].number == due + i
    decreases |frames|
  {
    if frames != [] && frames[0].number == due {
      ConsecutivePrefix(frames[1..], due + 1);
      assert forall i :: 1 <= i < |frames| ==> frames[i] == frames[1..][i - 1];
    }
  }

  // ---------------------------------------------------------------- a broken connection

  /** A frame cut short is never read as a message. */
  lemma CutFrame(m: Message, number: nat, c: nat)
    requires Packable(m, number) && c < |Frame(m, number)|
    ensures ReadMsg(Frame(m, number)[..c], number).outcome == EndOfStream
  {
    ParseHeader(m, number);
    var stream := Frame(m, number)[..c];
    if c >= HEADER { assert stream[..HEADER] == Header(m, number); }
  }

  function FrameLength(m: Message): nat {
    HEADER + |m.payload|
  }

  function Length(ms: seq<Message>): nat {
    if ms == [] then 0 else FrameLength(ms[0]) + Length(ms[1..])
  }

  /** How many frames lie within the first c bytes. */
  function Whole(ms: seq<Message>, c: nat): (k: nat)
    ensures k <= |ms|
  {
    if ms == [] || c < FrameLength(ms[0]) then 0 else 1 + Whole(ms[1..], c - FrameLength(ms[0]))
  }

  lemma {:induction false} WholeSpec(ms: seq<Message>, c: nat)
    ensures var k := Whole(ms, c); Length(ms[..k]) <= c && (k < |ms| ==> c < Length(ms[..k + 1]))
    decreases |ms|
  {
    var k := Whole(ms, c);
    if k > 0 {
      WholeSpec(ms[1..], c - FrameLength(ms[0]));
      assert ms[..k][1..] == ms[1..][..k - 1];
      if k < |ms| { assert ms[..k + 1][1..] == ms[1..][..k]; }
    } else if ms != [] {
      assert ms[..1][1..] == [];
    }
  }

  lemma {:induction false} StreamLength(ms: seq<Message>, from: nat)
    requires Sendable(ms, from)
    ensures |Stream(Number(ms, from))| == Length(ms)
    decreases |ms|
  {
    if ms != [] {
      SplitsOff(ms, from);
      LaterSendable(ms, from);
      ParseHeader(ms[0], from);
      StreamLength(ms[1..], from + 1);
    }
  }

  predicate ReadsExactly(stream: seq<byte>, due: nat, ms: seq<Message>) {
    ReadAll(stream, due).messages == ms && ReadAll(stream, due).stop == EndOfStream
  }

  lemma CutEarly(m: Message, number: nat, tail: seq<byte>, c: nat)
    requires Packable(m, number) && c < FrameLength(m)
    ensures |Frame(m, number)| == FrameLength(m)
    ensures ReadsExactly((Frame(m, number) + tail)[..c], number, [])
  {
    ParseHeader(m, number);
    CutFrame(m, number, c);
    assert (Frame(m, number) + tail)[..c] == Frame(m, number)[..c];
  }

  lemma CutLater(m: Message, number: nat, tail: seq<byte>, c: nat, ms: seq<Message>)
    requires Packable(m, number) && FrameLength(m) <= c <= FrameLength(m) + |tail|
    requires ReadsExactly(tail[..c - FrameLength(m)], number + 1, ms)
    ensures |Frame(m, number)| == FrameLength(m)
    ensures ReadsExactly((Frame(m, number) + tail)[..c], number, [m] + ms)
  {
    ParseHeader(m, number);
    var first := Frame(m, number);
    assert (first + tail)[..c] == first + tail[..c - |first|];
    ReadsFirst(Numbered(m, number), tail[..c - |first|], number);
  }

  lemma WholeStep(ms: seq<Message>, c: nat)
    requires ms != []
    ensures ms[..Whole(ms, c)]
            == if c < FrameLength(ms[0]) then [] else [ms[0]] + ms[1..][..Whole(ms[1..], c - FrameLength(ms[0]))]
  {
  }

  lemma TailOf(ms: seq<Message>, from: nat) returns (tail: seq<byte>)
    requires Sendable(ms, from) && ms != []
    ensures Stream(Number(ms, from)) == Frame(ms[0], from) + tail && |Frame(ms[0], from)| == FrameLength(ms[0])
    ensures Packable(ms[0], from) && Sendable(ms[1..], from + 1) && tail == Stream(Number(ms[1..], from + 1))
  {
    tail := Stream(Number(ms[1..], from + 1));
    SplitsOff(ms, from);
    LaterSendable(ms, from);
    ParseHeader(ms[0], from);
  }

  lemma {:induction false} CutStreamOf(ms: seq<Message>, from: nat, stream: seq<byte>, c: nat)
    requires Sendable(ms, from) && stream == Stream(Number(ms, from)) && c <= |stream|
    ensures ReadsExactly(stream[..c], from, ms[..Whole(ms, c)])
    decreases |ms|
  {
    if ms == [] {
      assert stream[..c] == [] && ms[..0] == [];
    } else {
      var tail := TailOf(ms, from);
      if c < FrameLength(ms[0]) {
        CutFirst(ms, from, stream, tail, c);
      } else {
        CutStreamOf(ms[1..], from + 1, tail, c - FrameLength(ms[0]));
        CutRest(ms, from, stream, tail, c);
      }
    }
  }

  /** However early the connection breaks, the reader gets the messages whose frames
      arrived whole, and nothing else, before its EOFError. */
  lemma CutStream(ms: seq<Message>, from: nat, c: nat)
    requires Sendable(ms, from) && c <= Length(ms)
    ensures |Stream(Number(ms, from))| == Length(ms)
    ensures ReadsExactly(Stream(Number(ms, from))[..c], from, ms[..Whole(ms, c)])
  {
    StreamLength(ms, from);
    CutStreamOf(ms, from, Stream(Number(ms, from)), c);
  }

  lemma CutFirst(ms: seq<Message>, from: nat, stream: seq<byte>, tail: seq<byte>, c: nat)
    requires ms != [] && Packable(ms[0], from) && stream == Frame(ms[0], from) + tail && c < FrameLength(ms[0])
    ensures c <= |stream| && ReadsExactly(stream[..c], from, ms[..Whole(ms, c)])
  {
    CutEarly(ms[0], from, tail, c);
    WholeStep(ms, c);
  }

  lemma CutRest(ms: seq<Message>, from: nat, stream: seq<byte>, tail: seq<byte>, c: nat)
    requires ms != [] && Packable(ms[0], from) && stream == Frame(ms[0], from) + tail
    requires FrameLength(ms[0]) <= c <= FrameLength(ms[0]) + |tail|
    requires var rest := c - FrameLength(ms[0]);
             ReadsExactly(tail[..rest], from + 1, ms[1..][..Whole(ms[1..], rest)])
    ensures c <= |stream| && ReadsExactly(stream[..c], from, ms[..Whole(ms, c)])
  {
    CutLater(ms[0], from, tail, c, ms[1..][..Whole(ms[1..], c - FrameLength(ms[0]))]);
    WholeStep(ms, c);
  }

  lemma LaterSendable(ms: seq<Message>, from: nat)
    requires Sendable(ms, from) && ms != []
    ensures Packable(ms[0], from) && Sendable(ms[1..], from + 1)
  {
    assert Packable(ms[0], from + 0);
    forall k | 0 <= k < |ms[1..]|
      ensures Packable(ms[1..][k], from + 1 + k)
    {
      assert Packable(ms[k + 1], from + (k + 1));
    }
  }

  lemma SplitsOff(ms: seq<Message>, from: nat)
    requires ms != []
    ensures Stream(Number(ms, from)) == Frame(ms[0], from) + Stream(Number(ms[1..], from + 1))
  {
    assert Number(ms, from)[1..] == Number(ms[1..], from + 1);
  }

  // ---------------------------------------------------------------- nothing else is accepted

  /** Any bytes are the little-endian bytes of the number they unpack to. */
  lemma {:induction false} UnpackRoundTrip(bytes: seq<byte>)
    ensures Unpack(bytes) < Power(|bytes|) && Pack(Unpack(bytes), |bytes|) == bytes
  {
    if bytes != [] {
      UnpackRoundTrip(bytes[1..]);
      var n := Unpack(bytes);
      assert n % 256 == bytes[0] && n / 256 == Unpack(bytes[1..]);
      assert bytes == [bytes[0]] + bytes[1..];
    }
  }

  lemma Widths()
    ensures Power(2) == U16 && Power(4) == U32
  {
    assert Power(1) == 256;
    assert Power(3) == 256 * Power(2);
  }

  lemma Cuts(raw: seq<byte>)
    requires |raw| == HEADER
    ensures raw == raw[..4] + raw[4..6] + raw[6..8] + raw[8..12] + raw[12..]
  {
  }

  /** Sixteen bytes are the header of the fields that they parse to. */
  lemma ParsedHeader(raw: seq<byte>, m: Message)
    requires |raw| == HEADER && Parse(raw).magic == MAGIC
    requires m.kind == Parse(raw).kind && m.flags == Parse(raw).flags && |m.payload| == Parse(raw).length
    ensures Packable(m, Parse(raw).number) && Header(m, Parse(raw).number) == raw
  {
    UnpackRoundTrip(raw[..4]);
    UnpackRoundTrip(raw[4..6]);
    UnpackRoundTrip(raw[6..8]);
    UnpackRoundTrip(raw[8..12]);
    UnpackRoundTrip(raw[12..]);
    Widths();
    Cuts(raw);
  }

  /** A message is received only from its own frame, with the number that was due. */
  lemma ReceivedIsFrame(stream: seq<byte>, due: nat)
    requires ReadMsg(stream, due).outcome.Received?
    ensures var r := ReadMsg(stream, due);
            Packable(r.outcome.m, due) && stream == Frame(r.outcome.m, due) + r.rest && r.due == due + 1
  {
    var m, rest := ReadMsg(stream, due).outcome.m, stream[HEADER..];
    ParsedHeader(stream[..HEADER], m);
    assert stream == stream[..HEADER] + rest;
    assert rest == m.payload + ReadMsg(stream, due).rest;
  }

  /** The stream is the frames of these messages, numbered from `due` on, and a rest of which
      no further message is received. */
  ghost predicate IsFrames(stream: seq<byte>, due: nat, ms: seq<Message>, rest: seq<byte>) {
    && Sendable(ms, due) && stream == Stream(Number(ms, due)) + rest
    && !ReadMsg(rest, due + |ms|).outcome.Received?
  }

  lemma OneMoreSendable(m: Message, due: nat, later: seq<Message>)
    requires Packable(m, due) && Sendable(later, due + 1)
    ensures Sendable([m] + later, due)
  {
    forall k | 0 <= k < |later| + 1 ensures Packable(([m] + later)[k], due + k) {
      if k > 0 { assert Packable(later[k - 1], due + 1 + (k - 1)); }
    }
  }

  lemma Associates(a: seq<byte>, b: seq<byte>, c: seq<byte>)
    ensures a + (b + c) == a + b + c
  {
  }

  lemma OneMoreFrame(stream: seq<byte>, due: nat, m: Message, tail: seq<byte>, later: seq<Message>, rest: seq<byte>)
    requires Packable(m, due) && stream == Frame(m, due) + tail && IsFrames(tail, due + 1, later, rest)
    ensures IsFrames(stream, due, [m] + later, rest)
  {
    OneMoreSendable(m, due, later);
    SplitsOff([m] + later, due);
    assert ([m] + later)[1..] == later;
    Associates(Frame(m, due), Stream(Number(later, due + 1)), rest);
  }

  lemma NoFrames(stream: seq<byte>, due: nat)
    requires !ReadMsg(stream, due).outcome.Received?
    ensures IsFrames(stream, due, [], stream)
  {
    assert Number([], due) == [] && [] + stream == stream;
  }

  lemma ReadsMore(stream: seq<byte>, due: nat)
    ensures var r := ReadMsg(stream, due);
            ReadAll(stream, due).messages
            == if r.outcome.Received? then [r.outcome.m] + ReadAll(r.rest, r.due).messages else []
  {
  }

  /** Whatever bytes arrive, the messages that a reader gets are those of frames that the stream
      starts with, numbered on from its counter, and there is not one more of them. */
  lemma {:induction false} ReadsOnlyFrames(stream: seq<byte>, due: nat) returns (rest: seq<byte>)
    ensures IsFrames(stream, due, ReadAll(stream, due).messages, rest)
    decreases |stream|
  {
    var r := ReadMsg(stream, due);
    ReadsMore(stream, due);
    if r.outcome.Received? {
      ReceivedIsFrame(stream, due);
      rest := ReadsOnlyFrames(r.rest, due + 1);
      OneMoreFrame(stream, due, r.outcome.m, r.rest, ReadAll(r.rest, due + 1).messages, rest);
    } else {
      rest := stream;
      NoFrames(stream, due);
    }
  }

  /** Sixteen bytes that do not start with the magic's letters are refused as such, whatever
      number they hold, with the payload unread and the counter as it was. */
  lemma BadMagicIff(stream: seq<byte>, due: nat)
    requires |stream| >= HEADER
    ensures var r := ReadMsg(stream, due);
            && (r.outcome.BadMagic? <==> stream[..4] != [0x46, 0x4E, 0x42, 0x47])
            && (r.outcome.BadMagic? ==>
                  Pack(r.outcome.magic, 4) == stream[..4] && r.rest == stream[16..] && r.due == due)
  {
    var raw := stream[..HEADER];
    assert raw[..4] == stream[..4];
    UnpackRoundTrip(raw[..4]);
    PackFour(MAGIC);
    assert Pack(MAGIC, 4) == [0x46, 0x4E, 0x42, 0x47];
    if raw[..4] == Pack(MAGIC, 4) { Widths(); PackRoundTrip(MAGIC, 4); }
  }

  /** A stream that ends inside a header or a payload is an EOFError with nothing left; the
      counter has moved on only if the header was read. */
  lemma CutMidway(m: Message, number: nat, c: nat)
    requires Packable(m, number) && c < FrameLength(m)
    ensures |Frame(m, number)| == FrameLength(m)
    ensures ReadMsg(Frame(m, number)[..c], number)
            == Read(EndOfStream, [], if c < HEADER then number else number + 1)
  {
    ParseHeader(m, number);
    var stream := Frame(m, number)[..c];
    if c >= HEADER { assert stream[..HEADER] == Header(m, number); }
  }
}

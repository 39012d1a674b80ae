/**
 The tether's stream codec: frames of MAGIC, a type byte, a length, a checksum and a payload, cut out of a byte
 stream that arrives in arbitrary chunks and may hold garbage. The checksum is any function to 32-bit numbers.
 */
module Framing {
  import opened Wrappers

  type Byte = b: int | 0 <= b < 256 witness 0
  type Word32 = n: int | 0 <= n < 0x1_0000_0000 witness 0
  type Checksum = seq<Byte> -> Word32

  datatype Message = Message(kind: Byte, payload: seq<Byte>)

  const MAGIC: seq<Byte> := [0x52, 0x4F, 0x56, 0x43]
  const HEADER_SIZE := 13

  // ---------------------------------------------------------------- encoding

  /** The "!I" field of struct.pack. */
  function BigEndian(n: Word32): (b: seq<Byte>)
    ensures |b| == 4
  {
    var n1 := n / 256;
    var n2 := n1 / 256;
    [n2 / 256, n2 % 256, n1 % 256, n % 256]
  }

  function FromBigEndian(b: seq<Byte>): Word32
    requires |b| == 4
  {
    var n: int := b[0];
    ((n * 256 + b[1]) * 256 + b[2]) * 256 + b[3]
  }

  lemma BigEndianRoundTrip(n: Word32)
    ensures FromBigEndian(BigEndian(n)) == n
  {
  }

  lemma FromBigEndianRoundTrip(b: seq<Byte>)
    requires |b| == 4
    ensures BigEndian(FromBigEndian(b)) == b
  {
    var n0: int := b[0];
    var n2 := n0 * 256 + b[1];
    var n1 := n2 * 256 + b[2];
    assert FromBigEndian(b) == n1 * 256 + b[3];
  }

  /** The payload's length fits the length field. */
  predicate Packable(m: Message) {
    |m.payload| < 0x1_0000_0000
  }

  /** `pack_message` */
  function Frame(crc: Checksum, m: Message): (b: seq<Byte>)
    requires Packable(m)
    ensures |b| == HEADER_SIZE + |m.payload|
  {
    MAGIC + [m.kind] + BigEndian(|m.payload|) + BigEndian(crc(m.payload)) + m.payload
  }

  /** The frame on the wire: "ROVC", the type, the payload's length and checksum with the high byte first, the payload. */
  lemma FrameLayout(crc: Checksum, m: Message)
    requires Packable(m)
    ensures var b: seq<int> := Ints(Frame(crc, m));
            && b[..4] == ['R' as int, 'O' as int, 'V' as int, 'C' as int] && b[4] == m.kind
            && b[5] * 0x100_0000 + b[6] * 0x1_0000 + b[7] * 0x100 + b[8] == |m.payload|
            && b[9] * 0x100_0000 + b[10] * 0x1_0000 + b[11] * 0x100 + b[12] == crc(m.payload)
    ensures Frame(crc, m)[13..] == m.payload
  {
    var f := Frame(crc, m);
    assert f[5..9] == BigEndian(|m.payload|) && f[9..13] == BigEndian(crc(m.payload));
    HighByteFirst(|m.payload|);
    HighByteFirst(crc(m.payload));
    assert forall i | 5 <= i < 9 :: f[i] == f[5..9][i - 5];
    assert forall i | 9 <= i < 13 :: f[i] == f[9..13][i - 9];
  }

  function Ints(b: seq<Byte>): (r: seq<int>)
    ensures |r| == |b| && forall i | 0 <= i < |b| :: r[i] == b[i]
  {
    seq(|b|, i requires 0 <= i < |b| => b[i])
  }

  lemma HighByteFirst(n: Word32)
    ensures var b := Ints(BigEndian(n)); b[0] * 0x100_0000 + b[1] * 0x1_0000 + b[2] * 0x100 + b[3] == n
  {
  }

  // ---------------------------------------------------------------- decoding

  datatype Parse = Wait | Skip | Emit(message: Message, total: nat)

  /** What the decoder does with the front of its buffer. */
  function ParseFront(crc: Checksum, buffer: seq<Byte>): (p: Parse)
    ensures p.Skip? ==> |buffer| > 0
    ensures p.Emit? ==> 0 < p.total <= |buffer|
  {
    if |buffer| < HEADER_SIZE then Wait
    else if buffer[..4] != MAGIC then Skip
    else
      var total := HEADER_SIZE + FromBigEndian(buffer[5..9]);
      if |buffer| < total then Wait
      else
        var payload := buffer[HEADER_SIZE..total];
        if crc(payload) != FromBigEndian(buffer[9..13]) then Skip
        else Emit(Message(buffer[4], payload), total)
  }

  datatype Drained = Drained(messages: seq<Message>, rest: seq<Byte>)

  /** Everything the decoder gets out of a buffer, and what stays in it. */
  function Drain(crc: Checksum, buffer: seq<Byte>): (d: Drained)
    decreases |buffer|
  {
    match ParseFront(crc, buffer)
    case Wait => Drained([], buffer)
    case Skip => Drain(crc, buffer[1..])
    case Emit(m, total) =>
      var d := Drain(crc, buffer[total..]);
      Drained([m] + d.messages, d.rest)
  }

  function Concat(chunks: seq<seq<Byte>>): seq<Byte> {
    if chunks == [] then [] else Concat(chunks[..|chunks| - 1]) + chunks[|chunks| - 1]
  }

  /** The chunks before the empty one that means the peer has closed the connection. */
  function UntilClosed(chunks: seq<seq<Byte>>): seq<seq<Byte>> {
    if chunks == [] || chunks[0] == [] then [] else [chunks[0]] + UntilClosed(chunks[1..])
  }

  /** The receiver after a sequence of chunks, one at a time. */
  function AfterChunks(crc: Checksum, chunks: seq<seq<Byte>>): Drained {
    if chunks == [] then Drained([], [])
    else
      var before := AfterChunks(crc, chunks[..|chunks| - 1]);
      var d := Drain(crc, before.rest + chunks[|chunks| - 1]);
      Drained(before.messages + d.messages, d.rest)
  }

  /** The receive loop's state: an unfinished buffer and the queue of decoded messages. */
  class Receiver {
    var buffer: seq<Byte>
    var queue: seq<Message>

    constructor ()
      ensures buffer == [] && queue == []
    {
      buffer, queue := [], [];
    }

    /** One chunk from the socket. */
    method Receive(crc: Checksum, chunk: seq<Byte>)
      modifies this
      ensures buffer == Drain(crc, old(buffer) + chunk).rest
      ensures queue == old(queue) + Drain(crc, old(buffer) + chunk).messages
    {
      buffer := buffer + chunk;
      ghost var whole := Drain(crc, buffer);
      while |buffer| >= HEADER_SIZE
        invariant Drain(crc, buffer).rest == whole.rest
        invariant queue + Drain(crc, buffer).messages == old(queue) + whole.messages
        decreases |buffer|
      {
        if buffer[..4] != MAGIC {
          buffer := buffer[1..];
          continue;
        }
        var total := HEADER_SIZE + FromBigEndian(buffer[5..9]);
        if |buffer| < total {
          break;
        }
        var payload := buffer[HEADER_SIZE..total];
        if crc(payload) != FromBigEndian(buffer[9..13]) {
          buffer := buffer[1..];
          continue;
        }
        var m := Message(buffer[4], payload);
        assert queue + ([m] + Drain(crc, buffer[total..]).messages)
            == (queue + [m]) + Drain(crc, buffer[total..]).messages;
        queue := queue + [m];
        buffer := buffer[total..];
      }
      assert Drain(crc, buffer) == Drained([], buffer);
    }

    /** `_recv_loop`: a new session's chunks, until the peer closes. */
    method RecvLoop(crc: Checksum, chunks: seq<seq<Byte>>)
      modifies this
      ensures buffer == Drain(crc, Concat(UntilClosed(chunks))).rest
      ensures queue == old(queue) + Drain(crc, Concat(UntilClosed(chunks))).messages
    {
      hide Drain, UntilClosed;
      buffer := [];
      var i := 0;
      while i < |chunks| && chunks[i] != []
        invariant 0 <= i <= |chunks|
        invariant [] !in chunks[..i]
        invariant AfterChunks(crc, chunks[..i]).rest == buffer
        invariant queue == old(queue) + AfterChunks(crc, chunks[..i]).messages
      {
        assert chunks[..i + 1][..i] == chunks[..i];
        AppendAssoc(old(queue), AfterChunks(crc, chunks[..i]).messages, Drain(crc, buffer + chunks[i]).messages);
        Receive(crc, chunks[i]);
        i := i + 1;
      }
      ClosedAt(chunks, i);
      ChunkingDoesNotMatter(crc, chunks[..i]);
    }
  }

  lemma {:induction false} ClosedAt(chunks: seq<seq<Byte>>, i: nat)
    requires i <= |chunks| && [] !in chunks[..i] && (i < |chunks| ==> chunks[i] == [])
    ensures UntilClosed(chunks) == chunks[..i]
  {
    if i == 0 {
    } else {
      assert chunks[..i][0] == chunks[0] && chunks[1..][..i - 1] == chunks[..i][1..];
      ClosedAt(chunks[1..], i - 1);
    }
  }

  // ------------------------------------------------------ chunking independence

  lemma AppendAssoc<T>(a: seq<T>, b: seq<T>, c: seq<T>)
    ensures a + (b + c) == (a + b) + c
  {
  }

  /** More bytes at the end never change what the decoder does with the front, unless it is waiting. */
  lemma ParseIsStable(crc: Checksum, a: seq<Byte>, b: seq<Byte>)
    ensures !ParseFront(crc, a).Wait? ==> ParseFront(crc, a + b) == ParseFront(crc, a)
  {
    if |a| >= HEADER_SIZE {
      assert (a + b)[..4] == a[..4] && (a + b)[5..9] == a[5..9] && (a + b)[9..13] == a[9..13];
      var total := HEADER_SIZE + FromBigEndian(a[5..9]);
      if |a| >= total {
        assert (a + b)[HEADER_SIZE..total] == a[HEADER_SIZE..total];
      }
    }
  }

  /** Draining a prefix first and the rest later gives the same messages and the same residue. */
  lemma {:induction false} DrainAppend(crc: Checksum, a: seq<Byte>, b: seq<Byte>)
    ensures var first := Drain(crc, a);
            var then_ := Drain(crc, first.rest + b);
            Drain(crc, a + b) == Drained(first.messages + then_.messages, then_.rest)
    decreases |a|
  {
    hide ParseFront;
    ParseIsStable(crc, a, b);
    match ParseFront(crc, a)
    case Wait =>
    case Skip =>
      DrainAppend(crc, a[1..], b);
      assert (a + b)[1..] == a[1..] + b;
    case Emit(m, total) =>
      DrainAppend(crc, a[total..], b);
      assert (a + b)[total..] == a[total..] + b;
      var later := Drain(crc, a[total..]);
      AppendAssoc([m], later.messages, Drain(crc, later.rest + b).messages);
  }

  /** However a stream is cut into chunks, the receiver ends as if the stream had come at once. */
  lemma {:induction false} ChunkingDoesNotMatter(crc: Checksum, chunks: seq<seq<Byte>>)
    ensures AfterChunks(crc, chunks) == Drain(crc, Concat(chunks))
    decreases |chunks|
  {
    if chunks == [] {
    } else {
      ChunkingDoesNotMatter(crc, chunks[..|chunks| - 1]);
      DrainAppend(crc, Concat(chunks[..|chunks| - 1]), chunks[|chunks| - 1]);
    }
  }

  // ----------------------------------------------------------------- soundness

  /** Garbage and frames in turn. */
  ghost function Weave(crc: Checksum, gaps: seq<seq<Byte>>, messages: seq<Message>): seq<Byte>
    requires |gaps| == |messages| && forall m | m in messages :: Packable(m)
  {
    if messages == [] then [] else gaps[0] + (Frame(crc, messages[0]) + Weave(crc, gaps[1..], messages[1..]))
  }

  /** A parsed message is exactly a packed message at the front of the buffer. */
  lemma ParsedIsFramed(crc: Checksum, buffer: seq<Byte>)
    requires ParseFront(crc, buffer).Emit?
    ensures var p := ParseFront(crc, buffer);
            Packable(p.message) && buffer[..p.total] == Frame(crc, p.message)
  {
    var p := ParseFront(crc, buffer);
    FromBigEndianRoundTrip(buffer[5..9]);
    FromBigEndianRoundTrip(buffer[9..13]);
    assert buffer[..p.total] == buffer[..4] + [buffer[4]] + buffer[5..9] + buffer[9..13] + buffer[HEADER_SIZE..p.total];
  }

  /** Garbage in front of a woven stream is garbage in front of its first message, or of the residue. */
  lemma WeaveLater(crc: Checksum, x: Byte, gaps: seq<seq<Byte>>, messages: seq<Message>, skipped: seq<Byte>,
                   rest: seq<Byte>)
    returns (gaps': seq<seq<Byte>>, skipped': seq<Byte>)
    requires |gaps| == |messages| && forall m | m in messages :: Packable(m)
    ensures |gaps'| == |messages|
    ensures [x] + (Weave(crc, gaps, messages) + skipped + rest) == Weave(crc, gaps', messages) + skipped' + rest
  {
    hide Frame;
    gaps', skipped' := gaps, skipped;
    if messages == [] {
      skipped' := [x] + skipped;
      assert [] + skipped' + rest == [x] + ([] + skipped + rest);
    } else {
      gaps' := [[x] + gaps[0]] + gaps[1..];
      assert gaps'[1..] == gaps[1..];
      var w := Frame(crc, messages[0]) + Weave(crc, gaps[1..], messages[1..]);
      assert ([x] + gaps[0]) + w == [x] + (gaps[0] + w);
      assert ([x] + (gaps[0] + w)) + skipped + rest == [x] + ((gaps[0] + w) + skipped + rest);
    }
  }

  lemma WeaveFrame(crc: Checksum, m: Message, gaps: seq<seq<Byte>>, messages: seq<Message>, skipped: seq<Byte>,
                   rest: seq<Byte>)
    requires |gaps| == |messages| && Packable(m) && forall n | n in messages :: Packable(n)
    ensures Frame(crc, m) + (Weave(crc, gaps, messages) + skipped + rest)
         == Weave(crc, [[]] + gaps, [m] + messages) + skipped + rest
  {
    hide Frame;
    var f, w := Frame(crc, m), Weave(crc, gaps, messages);
    assert Weave(crc, [[]] + gaps, [m] + messages) == f + w by {
      assert ([[]] + gaps)[1..] == gaps && ([m] + messages)[1..] == messages;
      assert [] + (f + w) == f + w;
    }
    hide Weave;
    AppendAssoc(f, w, skipped);
    AppendAssoc(f, w + skipped, rest);
  }

  /** Every message comes, in order and without overlap, from a packed message in the stream. */
  lemma {:induction false} DrainIsSound(crc: Checksum, buffer: seq<Byte>)
    returns (gaps: seq<seq<Byte>>, skipped: seq<Byte>)
    ensures var d := Drain(crc, buffer);
            && |gaps| == |d.messages| && (forall m | m in d.messages :: Packable(m))
            && buffer == Weave(crc, gaps, d.messages) + skipped + d.rest
    decreases |buffer|
  {
    hide ParseFront, Frame, Weave;
    match ParseFront(crc, buffer)
    case Wait =>
      gaps, skipped := [], [];
      WeaveNothing(crc);
      assert [] + [] + buffer == buffer;
    case Skip =>
      gaps, skipped := DrainIsSound(crc, buffer[1..]);
      var d := Drain(crc, buffer[1..]);
      gaps, skipped := WeaveLater(crc, buffer[0], gaps, d.messages, skipped, d.rest);
      assert buffer == [buffer[0]] + buffer[1..];
    case Emit(m, total) =>
      ParsedIsFramed(crc, buffer);
      gaps, skipped := DrainIsSound(crc, buffer[total..]);
      var d := Drain(crc, buffer[total..]);
      WeaveFrame(crc, m, gaps, d.messages, skipped, d.rest);
      gaps := [[]] + gaps;
      assert buffer == buffer[..total] + buffer[total..];
  }

  lemma WeaveNothing(crc: Checksum)
    ensures Weave(crc, [], []) == []
  {
  }

  // --------------------------------------------------------------- completeness

  ghost predicate MagicAt(g: seq<Byte>, i: nat) {
    i + 4 <= |g| && g[i..i + 4] == MAGIC
  }

  ghost predicate MagicFree(g: seq<Byte>) {
    forall i: nat :: !MagicAt(g, i)
  }

  lemma MagicFreeTail(g: seq<Byte>)
    requires MagicFree(g) && g != []
    ensures MagicFree(g[1..])
  {
    forall i: nat
      ensures !MagicAt(g[1..], i)
    {
      assert !MagicAt(g, i + 1);
      if i + 4 <= |g[1..]| {
        assert g[1..][i..i + 4] == g[i + 1..i + 1 + 4];
      }
    }
  }

  /** A frame at the front is what the decoder takes, whatever follows. */
  lemma FrameIsParsed(crc: Checksum, m: Message, tail: seq<Byte>)
    requires Packable(m)
    ensures ParseFront(crc, Frame(crc, m) + tail) == Emit(m, HEADER_SIZE + |m.payload|)
  {
    var b := Frame(crc, m) + tail;
    assert b[..4] == MAGIC && b[4] == m.kind;
    assert b[5..9] == BigEndian(|m.payload|) && b[9..13] == BigEndian(crc(m.payload));
    assert b[HEADER_SIZE..HEADER_SIZE + |m.payload|] == m.payload;
    BigEndianRoundTrip(|m.payload|);
    BigEndianRoundTrip(crc(m.payload));
  }

  /** MAGIC does not overlap itself: MAGIC-free garbage in front of MAGIC creates no earlier occurrence. */
  lemma NoEarlierMagic(g: seq<Byte>, b: seq<Byte>)
    requires MagicFree(g) && g != [] && |b| >= 4 && b[..4] == MAGIC
    ensures (g + b)[..4] != MAGIC
  {
    if |g| >= 4 {
      assert !MagicAt(g, 0);
      assert (g + b)[..4] == g[0..4];
    } else {
      assert (g + b)[..4][|g|] == (g + b)[|g|] == b[0] == b[..4][0] == MAGIC[0];
    }
  }

  lemma FrameStartsWithMagic(crc: Checksum, m: Message, tail: seq<Byte>)
    requires Packable(m)
    ensures |Frame(crc, m) + tail| >= HEADER_SIZE && (Frame(crc, m) + tail)[..4] == MAGIC
  {
  }

  lemma {:induction false} GarbageIsSkipped(crc: Checksum, g: seq<Byte>, m: Message, tail: seq<Byte>)
    requires MagicFree(g) && Packable(m)
    ensures Drain(crc, g + (Frame(crc, m) + tail)) == Drain(crc, Frame(crc, m) + tail)
    decreases |g|
  {
    hide Frame;
    var b := Frame(crc, m) + tail;
    if g == [] {
      assert g + b == b;
    } else {
      FrameStartsWithMagic(crc, m, tail);
      NoEarlierMagic(g, b);
      MagicFreeTail(g);
      assert ParseFront(crc, g + b) == Skip;
      GarbageIsSkipped(crc, g[1..], m, tail);
      assert (g + b)[1..] == g[1..] + b;
    }
  }

  lemma FrameIsDrained(crc: Checksum, m: Message, tail: seq<Byte>)
    requires Packable(m)
    ensures var d := Drain(crc, tail);
            Drain(crc, Frame(crc, m) + tail) == Drained([m] + d.messages, d.rest)
  {
    hide ParseFront, Frame;
    FrameIsParsed(crc, m, tail);
    assert (Frame(crc, m) + tail)[|Frame(crc, m)|..] == tail;
  }

  /**
   The decoder inverts the encoder: messages packed one after the other, with any MAGIC-free garbage in front of
   each, come out exactly, and what follows the last of them is decoded as if it stood alone.
   */
  lemma {:induction false} DecodeInvertsEncode(crc: Checksum, gaps: seq<seq<Byte>>, messages: seq<Message>,
                                               tail: seq<Byte>)
    requires |gaps| == |messages| && forall m | m in messages :: Packable(m)
    requires forall g | g in gaps :: MagicFree(g)
    ensures var d := Drain(crc, tail);
            Drain(crc, Weave(crc, gaps, messages) + tail) == Drained(messages + d.messages, d.rest)
    decreases |messages|
  {
    hide ParseFront, Frame, Drain;
    var d := Drain(crc, tail);
    if messages == [] {
      assert [] + tail == tail;
      assert messages + d.messages == d.messages;
    } else {
      var m := messages[0];
      var w := Weave(crc, gaps[1..], messages[1..]);
      var f := Frame(crc, m);
      assert (gaps[0] + (f + w)) + tail == gaps[0] + (f + (w + tail));
      GarbageIsSkipped(crc, gaps[0], m, w + tail);
      FrameIsDrained(crc, m, w + tail);
      DecodeInvertsEncode(crc, gaps[1..], messages[1..], tail);
      assert [m] + (messages[1..] + d.messages) == messages + d.messages;
    }
  }

  /** Messages packed one after the other. */
  ghost function PackAll(crc: Checksum, messages: seq<Message>): seq<Byte>
    requires forall m | m in messages :: Packable(m)
  {
    if messages == [] then [] else Frame(crc, messages[0]) + PackAll(crc, messages[1..])
  }

  lemma {:induction false} PackedAfterGarbage(crc: Checksum, garbage: seq<Byte>, messages: seq<Message>, tail: seq<Byte>)
    requires MagicFree(garbage) && messages != [] && forall m | m in messages :: Packable(m)
    ensures var d := Drain(crc, tail);
            Drain(crc, garbage + (PackAll(crc, messages) + tail)) == Drained(messages + d.messages, d.rest)
    decreases |messages|
  {
    hide ParseFront, Frame, Drain;
    var d := Drain(crc, tail);
    var m, rest := messages[0], PackAll(crc, messages[1..]);
    assert PackAll(crc, messages) + tail == Frame(crc, m) + (rest + tail);
    GarbageIsSkipped(crc, garbage, m, rest + tail);
    FrameIsDrained(crc, m, rest + tail);
    if messages[1..] == [] {
      assert rest + tail == tail && messages == [m];
    } else {
      PackedAfterGarbage(crc, [], messages[1..], tail);
      assert [] + (rest + tail) == rest + tail;
      assert [m] + (messages[1..] + d.messages) == messages + d.messages;
    }
  }

  /** In particular nothing stays in the buffer when the stream ends with a message. */
  lemma {:induction false} StreamOfMessages(crc: Checksum, garbage: seq<Byte>, messages: seq<Message>)
    requires MagicFree(garbage) && messages != [] && forall m | m in messages :: Packable(m)
    ensures Drain(crc, garbage + PackAll(crc, messages)) == Drained(messages, [])
  {
    hide PackAll;
    PackedAfterGarbage(crc, garbage, messages, []);
    EmptyIsSilent(crc);
    assert PackAll(crc, messages) + [] == PackAll(crc, messages) && messages + [] == messages;
  }

  lemma EmptyIsSilent(crc: Checksum)
    ensures Drain(crc, []) == Drained([], [])
  {
  }

  /** Garbage alone yields no message. */
  lemma {:induction false} GarbageIsSilent(crc: Checksum, g: seq<Byte>)
    requires MagicFree(g)
    ensures Drain(crc, g).messages == [] && |Drain(crc, g).rest| < HEADER_SIZE
    decreases |g|
  {
    if |g| >= HEADER_SIZE {
      assert !MagicAt(g, 0) && g[..4] == g[0..4];
      MagicFreeTail(g);
      GarbageIsSilent(crc, g[1..]);
    }
  }

  lemma {:induction false} RestIsShorter(crc: Checksum, buffer: seq<Byte>)
    ensures |Drain(crc, buffer).rest| <= |buffer|
    decreases |buffer|
  {
    hide ParseFront;
    match ParseFront(crc, buffer)
    case Wait =>
    case Skip => RestIsShorter(crc, buffer[1..]);
    case Emit(_, total) => RestIsShorter(crc, buffer[total..]);
  }

  function Header(kind: Byte, claimed: Word32, sum: Word32): (b: seq<Byte>)
    ensures |b| == HEADER_SIZE
  {
    MAGIC + [kind] + BigEndian(claimed) + BigEndian(sum)
  }

  lemma HeaderIsParsed(crc: Checksum, kind: Byte, claimed: Word32, sum: Word32, behind: seq<Byte>)
    ensures ParseFront(crc, Header(kind, claimed, sum) + behind)
         == if |behind| < claimed then Wait
            else if crc(behind[..claimed]) != sum then Skip
            else Emit(Message(kind, behind[..claimed]), HEADER_SIZE + claimed)
  {
    var b := Header(kind, claimed, sum) + behind;
    assert b[..4] == MAGIC && b[4] == kind && b[5..9] == BigEndian(claimed) && b[9..13] == BigEndian(sum);
    BigEndianRoundTrip(claimed);
    BigEndianRoundTrip(sum);
    if |behind| >= claimed {
      assert b[HEADER_SIZE..HEADER_SIZE + claimed] == behind[..claimed];
    }
  }

  /**
   Garbage with MAGIC in it is different. What looks like a header holds everything up exactly until as many bytes have
   come as it claims; then, unless their checksum is right by chance, the decoder goes on from the next byte.
   */
  lemma FalseHeaderStalls(crc: Checksum, kind: Byte, claimed: Word32, sum: Word32, behind: seq<Byte>)
    ensures var b := Header(kind, claimed, sum) + behind;
            && (Drain(crc, b) == Drained([], b) <==> |behind| < claimed)
            && (|behind| >= claimed && crc(behind[..claimed]) != sum ==> Drain(crc, b) == Drain(crc, b[1..]))
  {
    hide ParseFront;
    var b := Header(kind, claimed, sum) + behind;
    HeaderIsParsed(crc, kind, claimed, sum, behind);
    RestIsShorter(crc, b[1..]);
    if |behind| >= claimed {
      RestIsShorter(crc, b[HEADER_SIZE + claimed..]);
    }
  }

  /** Resynchronisation: once it is seen through, the messages behind a false header come out exactly. */
  lemma FalseHeaderIsOvercome(crc: Checksum, kind: Byte, claimed: Word32, sum: Word32, junk: seq<Byte>,
                              messages: seq<Message>, tail: seq<Byte>)
    requires messages != [] && forall m | m in messages :: Packable(m)
    requires MagicFree(Header(kind, claimed, sum)[1..] + junk)
    requires var behind := junk + (PackAll(crc, messages) + tail);
             |behind| >= claimed && crc(behind[..claimed]) != sum
    ensures var d := Drain(crc, tail);
            Drain(crc, Header(kind, claimed, sum) + (junk + (PackAll(crc, messages) + tail)))
            == Drained(messages + d.messages, d.rest)
  {
    hide ParseFront, Frame, Drain, Header;
    var h := Header(kind, claimed, sum);
    var behind := junk + (PackAll(crc, messages) + tail);
    FalseHeaderStalls(crc, kind, claimed, sum, behind);
    assert (h + behind)[1..] == (h[1..] + junk) + (PackAll(crc, messages) + tail);
    PackedAfterGarbage(crc, h[1..] + junk, messages, tail);
  }

  /** No frame is a prefix of another: a stream of frames can be read in one way only. */
  lemma FramesArePrefixFree(crc: Checksum, m: Message, n: Message, x: seq<Byte>, y: seq<Byte>)
    requires Packable(m) && Packable(n) && Frame(crc, m) + x == Frame(crc, n) + y
    ensures m == n && x == y
  {
    FrameIsParsed(crc, m, x);
    FrameIsParsed(crc, n, y);
    assert x == (Frame(crc, m) + x)[|Frame(crc, m)|..];
    assert y == (Frame(crc, n) + y)[|Frame(crc, n)|..];
  }
}

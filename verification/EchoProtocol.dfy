/** The length callback and message layout of example/echo_server.cc, as an instance of framing. */
module EchoProtocol {
  import opened Bytes
  import opened Framing
  import opened Words

  const HEADER_SIZE: nat := 8

  // A little-endian uint32_t.
  function Word(d: seq<byte>): (n: nat)
    requires |d| >= 4
    ensures n < WORD
  {
    d[0] as int + 0x100 * (d[1] as int + 0x100 * (d[2] as int + 0x100 * d[3] as int))
  }

  function WordBytes(n: nat): (d: seq<byte>)
    requires n < WORD
    ensures |d| == 4
  {
    var n1 := n / 0x100;
    var n2 := n1 / 0x100;
    [(n % 0x100) as byte, (n1 % 0x100) as byte, (n2 % 0x100) as byte, (n2 / 0x100) as byte]
  }

  lemma WordRoundTrip(n: nat)
    requires n < WORD
    ensures Word(WordBytes(n)) == n
  {
  }

  // size_t narrowed to a 32-bit int.
  function ToInt(n: nat): int {
    var m := n % WORD;
    if m >= 0x8000_0000 then m - WORD else m
  }

  function EchoCheck(d: seq<byte>): int {
    if |d| < HEADER_SIZE then 0 else ToInt(HEADER_SIZE + Word(d))
  }

  // The two header fields are 32 bits wide.
  datatype Fields = Fields(id: nat, payload: seq<byte>)
  type Message = m: Fields | m.id < WORD && |m.payload| < WORD witness Fields(0, [])

  function Encode(m: Message): (d: seq<byte>)
    ensures |d| == HEADER_SIZE + |m.payload|
  {
    WordBytes(|m.payload|) + WordBytes(m.id) + m.payload
  }

  // What OnMessage reads back out of a package.
  function Decode(d: seq<byte>): Fields
    requires |d| >= HEADER_SIZE
  {
    Fields(Word(d[4..]), d[HEADER_SIZE..])
  }

  lemma DecodeEncode(m: Message)
    ensures Decode(Encode(m)) == m
    ensures forall e :: Word(Encode(m) + e) == |m.payload|
  {
    var d := Encode(m);
    WordRoundTrip(|m.payload|);
    WordRoundTrip(m.id);
    assert d[4..][..4] == WordBytes(m.id) && d[HEADER_SIZE..] == m.payload;
    forall e ensures Word(d + e) == |m.payload| { assert (d + e)[..4] == WordBytes(|m.payload|); }
  }

  /** Only the first eight bytes matter, so appending never changes an answer. */
  lemma EchoStable()
    ensures Stable(EchoCheck)
  {
    forall d: seq<byte>, e
      ensures KeepsAnswer(EchoCheck, d, e)
    {
      if |d| >= 4 {
        assert (d + e)[0] == d[0] && (d + e)[1] == d[1] && (d + e)[2] == d[2] && (d + e)[3] == d[3];
      }
    }
  }

  /** The bytes of a word stand in ascending order of weight. */
  lemma WordWeights(n: nat)
    requires n < WORD
    ensures var d := WordBytes(n);
            && d[0] as int == n % 0x100 && d[1] as int == n / 0x100 % 0x100
            && d[2] as int == n / 0x1_0000 % 0x100 && d[3] as int == n / 0x100_0000
  {
  }

  /** On a full header the answer is the 32-bit signed number that is the header's size plus the
      declared payload size, modulo 2^32; on less it is 0. */
  lemma EchoCheckExact(d: seq<byte>)
    ensures |d| < 8 ==> EchoCheck(d) == 0
    ensures |d| >= 8 ==>
              && -0x8000_0000 <= EchoCheck(d) < 0x8000_0000
              && (EchoCheck(d) - (8 + Word(d))) % 0x1_0000_0000 == 0
  {
  }

  /** The callback asks for more on a complete header exactly when 8 + payload size wraps to
      zero. */
  lemma EchoUndecidedHeader(d: seq<byte>)
    requires |d| >= HEADER_SIZE
    ensures EchoCheck(d) == 0 <==> Word(d) == WORD - HEADER_SIZE
  {
  }

  function Encodings(ms: seq<Message>): seq<Slice>
  {
    if ms == [] then [] else [Encode(ms[0])] + Encodings(ms[1..])
  }

  // The answer of the length callback fits a positive 32-bit int.
  predicate Sendable(m: Message) {
    HEADER_SIZE + |m.payload| < 0x8000_0000
  }

  predicate AllSendable(ms: seq<Message>) {
    forall i :: 0 <= i < |ms| ==> Sendable(ms[i])
  }

  // The callback's answer is the message's length exactly when it fits.
  lemma CheckedLength(m: Message)
    ensures ToInt(HEADER_SIZE + |m.payload|) == HEADER_SIZE + |m.payload| <==> Sendable(m)
    ensures !Sendable(m) ==> ToInt(HEADER_SIZE + |m.payload|) < HEADER_SIZE
  {
  }

  // A message at the front of the stream is seen whole.
  lemma EchoFront(m: Message, tail: seq<byte>)
    requires Sendable(m)
    ensures var d := Encode(m);
            var buf := d + tail;
            && EchoCheck(buf) == |d| && buf[..|d|] == d && buf[|d|..] == tail
            && (|buf| > HEADER ==> EchoCheck(FirstRead(buf)) != 0)
  {
    DecodeEncode(m);
    var buf := Encode(m) + tail;
    assert Word(buf) == |m.payload|;
    if |buf| > HEADER {
      assert Word(FirstRead(buf)) == Word(buf);
    }
  }

  lemma SendableTail(ms: seq<Message>)
    requires ms != []
    ensures AllSendable(ms) <==> Sendable(ms[0]) && AllSendable(ms[1..])
  {
    assert forall i :: 0 < i < |ms| ==> ms[i] == ms[1..][i - 1];
  }

  // A message that does not fit is cut short, if anything is cut off at all.
  lemma EchoFrontCut(m: Message, tail: seq<byte>)
    requires !Sendable(m)
    ensures var p := Frames(EchoCheck, Encode(m) + tail);
            p.packages == [] || p.packages[0] != Encode(m)
  {
    DecodeEncode(m);
    CheckedLength(m);
    var buf := Encode(m) + tail;
    assert Word(buf) == |m.payload|;
    assert EchoCheck(buf) < HEADER_SIZE;
  }

  /** Round trip: messages sent one behind the other are cut back into exactly their
      encodings, with nothing left, whatever their number and sizes, if and only if the
      length of each is a positive 32-bit int. */
  lemma {:induction false} EchoRoundTrip(ms: seq<Message>)
    ensures Frames(EchoCheck, Flat(Encodings(ms))) == Parse(Encodings(ms), [], false) <==> AllSendable(ms)
    decreases |ms|
  {
    if ms != [] {
      var tail := Flat(Encodings(ms[1..]));
      EchoRoundTrip(ms[1..]);
      assert Flat(Encodings(ms)) == Encode(ms[0]) + tail;
      if Sendable(ms[0]) {
        EchoFront(ms[0], tail);
        assert Encodings(ms)[1..] == Encodings(ms[1..]);
        assert AllSendable(ms) <==> AllSendable(ms[1..]) by { SendableTail(ms); }
      } else {
        EchoFrontCut(ms[0], tail);
      }
    }
  }

  // The first message of a stream of which at least a header has arrived.
  lemma PrefixFront(m: Message, tail: seq<byte>, buf: seq<byte>)
    requires Sendable(m) && HEADER_SIZE <= |buf| && buf <= Encode(m) + tail
    ensures EchoCheck(buf) == |Encode(m)| && EchoCheck(FirstRead(buf)) == |Encode(m)|
    ensures |Encode(m)| <= |buf| ==> buf[..|Encode(m)|] == Encode(m) && buf[|Encode(m)|..] <= tail
  {
    DecodeEncode(m);
    var whole := Encode(m) + tail;
    assert Word(whole) == |m.payload|;
    assert Word(buf) == Word(whole) && Word(FirstRead(buf)) == Word(whole);
  }

  /** However much of such a stream has arrived, the receive loop as written ends. */
  lemma {:induction false} EchoPrefixDecides(ms: seq<Message>, buf: seq<byte>)
    requires AllSendable(ms)
    requires buf <= Flat(Encodings(ms))
    ensures !Undecided(EchoCheck, buf)
    decreases |ms|
  {
    if |buf| >= HEADER_SIZE {
      var tail := Flat(Encodings(ms[1..]));
      var d := Encode(ms[0]);
      assert Flat(Encodings(ms)) == d + tail;
      PrefixFront(ms[0], tail, buf);
      if |d| <= |buf| {
        EchoPrefixDecides(ms[1..], buf[|d|..]);
      }
    }
  }

  /** However much of such a stream has arrived, what is framed so far is the first of the
      messages, and nothing is an error. */
  lemma {:induction false} EchoPrefixFrames(ms: seq<Message>, buf: seq<byte>)
    requires AllSendable(ms)
    requires buf <= Flat(Encodings(ms))
    ensures !Frames(EchoCheck, buf).broken
    ensures Frames(EchoCheck, buf).packages <= Encodings(ms)
    decreases |ms|
  {
    if |buf| >= HEADER_SIZE {
      var d, tail := Encode(ms[0]), Flat(Encodings(ms[1..]));
      assert Flat(Encodings(ms)) == d + tail;
      PrefixFront(ms[0], tail, buf);
      if |d| <= |buf| {
        EchoPrefixFrames(ms[1..], buf[|d|..]);
        FramesDeliver(EchoCheck, buf);
        assert Encodings(ms) == [d] + Encodings(ms[1..]);
      }
    }
  }

  /** A header declaring 2^32 - 8 bytes does hang the receive loop as written, once 1025 bytes
      have arrived. */
  lemma EchoCanHang(buf: seq<byte>)
    requires |buf| > 1024 && Word(buf) == 0xffff_fff8
    ensures !WrittenLoopEnds(EchoCheck, buf)
    ensures Frames(EchoCheck, buf) == Parse([], buf, false)
  {
    EchoStable();
    assert Word(FirstRead(buf)) == Word(buf);
    EchoUndecidedHeader(FirstRead(buf));
    EchoUndecidedHeader(buf);
    assert Undecided(EchoCheck, buf);
    WrittenLoopExact(EchoCheck, buf);
  }

  /** So the callback does not decide on every 1024 bytes, and for it the loop does not end on
      every buffer (Framing.AlwaysEndsExact). */
  lemma EchoDoesNotAlwaysDecide()
    ensures !DecidesOnHeader(EchoCheck)
    ensures !forall buf :: WrittenLoopEnds(EchoCheck, buf)
  {
    var d := WordBytes(WORD - HEADER_SIZE) + seq(HEADER - 4, _ => 0 as byte);
    WordRoundTrip(WORD - HEADER_SIZE);
    assert d[..4] == WordBytes(WORD - HEADER_SIZE);
    EchoUndecidedHeader(d);
    assert |d| == HEADER && EchoCheck(d) == 0;
    EchoStable();
    AlwaysEndsExact(EchoCheck);
  }

  /** One message comes back exactly when its package length is a positive 32-bit int. */
  lemma EchoSingle(m: Message)
    ensures Frames(EchoCheck, Encode(m)) == Parse([Encode(m)], [], false) <==> Sendable(m)
  {
    DecodeEncode(m);
    var d := Encode(m);
    assert d + [] == d;
    assert Word(d) == |m.payload|;
    assert d[..|d|] == d && d[|d|..] == [];
    CheckedLength(m);
  }
}

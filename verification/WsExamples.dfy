/** The examples of section 5.7 of RFC 6455, byte for byte. */
module WsExamples {
  import opened Bytes
  import opened WsFrame
  import opened WsStream
  import opened WsReassembly

  const HELLO: seq<Byte> := [0x48, 0x65, 0x6c, 0x6c, 0x6f]

  const KEY: seq<Byte> := [0x37, 0xfa, 0x21, 0x3d]

  const MASKED_HELLO: seq<Byte> := [0x7f, 0x9f, 0x4d, 0x51, 0x58]

  lemma XorNone(a: nat, b: nat)
    ensures XorBits(a, b, 0) == 0
  {
  }

  /** One more bit in front. */
  lemma XorStep(a: nat, b: nat, k: nat, r: nat)
    requires XorBits(a / 2, b / 2, k) == r
    ensures XorBits(a, b, k + 1) == 2 * r + (a + b) % 2
  {
  }

  lemma LetterH()
    ensures Xor(0x48, 0x37) == 0x7f
  {
    hide XorBits;
    XorNone(0, 0);
    XorStep(0, 0, 0, 0);
    XorStep(1, 0, 1, 0);
    XorStep(2, 1, 2, 1);
    XorStep(4, 3, 3, 3);
    XorStep(9, 6, 4, 7);
    XorStep(18, 13, 5, 15);
    XorStep(36, 27, 6, 31);
    XorStep(72, 55, 7, 63);
  }

  lemma LetterE()
    ensures Xor(0x65, 0xfa) == 0x9f
  {
    hide XorBits;
    XorNone(0, 0);
    XorStep(0, 1, 0, 0);
    XorStep(1, 3, 1, 1);
    XorStep(3, 7, 2, 2);
    XorStep(6, 15, 3, 4);
    XorStep(12, 31, 4, 9);
    XorStep(25, 62, 5, 19);
    XorStep(50, 125, 6, 39);
    XorStep(101, 250, 7, 79);
  }

  lemma LetterL()
    ensures Xor(0x6c, 0x21) == 0x4d
  {
    hide XorBits;
    XorNone(0, 0);
    XorStep(0, 0, 0, 0);
    XorStep(1, 0, 1, 0);
    XorStep(3, 1, 2, 1);
    XorStep(6, 2, 3, 2);
    XorStep(13, 4, 4, 4);
    XorStep(27, 8, 5, 9);
    XorStep(54, 16, 6, 19);
    XorStep(108, 33, 7, 38);
  }

  lemma LetterSecondL()
    ensures Xor(0x6c, 0x3d) == 0x51
  {
    hide XorBits;
    XorNone(0, 0);
    XorStep(0, 0, 0, 0);
    XorStep(1, 0, 1, 0);
    XorStep(3, 1, 2, 1);
    XorStep(6, 3, 3, 2);
    XorStep(13, 7, 4, 5);
    XorStep(27, 15, 5, 10);
    XorStep(54, 30, 6, 20);
    XorStep(108, 61, 7, 40);
  }

  lemma LetterO()
    ensures Xor(0x6f, 0x37) == 0x58
  {
    hide XorBits;
    XorNone(0, 0);
    XorStep(0, 0, 0, 0);
    XorStep(1, 0, 1, 0);
    XorStep(3, 1, 2, 1);
    XorStep(6, 3, 3, 2);
    XorStep(13, 6, 4, 5);
    XorStep(27, 13, 5, 11);
    XorStep(55, 27, 6, 22);
    XorStep(111, 55, 7, 44);
  }

  lemma LetterFirstL()
    ensures Xor(0x6c, 0x37) == 0x5b
  {
    hide XorBits;
    XorNone(0, 0);
    XorStep(0, 0, 0, 0);
    XorStep(1, 0, 1, 0);
    XorStep(3, 1, 2, 1);
    XorStep(6, 3, 3, 2);
    XorStep(13, 6, 4, 5);
    XorStep(27, 13, 5, 11);
    XorStep(54, 27, 6, 22);
    XorStep(108, 55, 7, 45);
  }

  lemma LetterSecondO()
    ensures Xor(0x6f, 0xfa) == 0x95
  {
    hide XorBits;
    XorNone(0, 0);
    XorStep(0, 1, 0, 0);
    XorStep(1, 3, 1, 1);
    XorStep(3, 7, 2, 2);
    XorStep(6, 15, 3, 4);
    XorStep(13, 31, 4, 9);
    XorStep(27, 62, 5, 18);
    XorStep(55, 125, 6, 37);
    XorStep(111, 250, 7, 74);
  }

  lemma HelloIsMasked()
    ensures Mask(KEY, HELLO) == MASKED_HELLO
  {
    hide Xor;
    LetterH();
    LetterE();
    LetterL();
    LetterSecondL();
    LetterO();
  }

  lemma PieceIs(fin: bool, opcode: nat, payload: seq<Byte>, masked: seq<Byte>, first: Byte, second: Byte)
    requires opcode < 16 && |payload| <= 125 && Mask(KEY, payload) == masked
    requires first as nat == (if fin then 128 else 0) + opcode && second as nat == 128 + |payload|
    ensures var f := Frame(fin, opcode, Short, KEY, payload);
            Encodable(f) && Wire(f) == [first, second] + KEY + masked
  {
    hide Mask;
    var f := Frame(fin, opcode, Short, KEY, payload);
    assert BaseHeader(f) == [first, second] && ToBigEndian(|payload|, 0) == [];
    assert FrameHeader(f) == [first, second] + KEY;
  }

  /** A masked text message is delivered as such, and closes nothing. */
  lemma TextIsDelivered(accepts: seq<Message> -> bool)
    requires accepts([Message(true, HELLO)])
    ensures Consume(Open(IDLE, []), [0x81, 0x85, 0x37, 0xfa, 0x21, 0x3d, 0x7f, 0x9f, 0x4d, 0x51, 0x58], accepts)
            == Open(IDLE, [Message(true, HELLO)])
  {
    hide Consume, Wire, Mask, Encodable;
    HelloIsMasked();
    PieceIs(true, 1, HELLO, MASKED_HELLO, 0x81, 0x85);
    OneFrame(Frame(true, 1, Short, KEY, HELLO), accepts);
    assert [] + HELLO == HELLO && [] + [Message(true, HELLO)] == [Message(true, HELLO)];
    assert [0x81, 0x85] + KEY + MASKED_HELLO == [0x81, 0x85, 0x37, 0xfa, 0x21, 0x3d, 0x7f, 0x9f, 0x4d, 0x51, 0x58];
  }

  /** A masked pong is taken and delivers nothing. */
  lemma PongIsTaken(accepts: seq<Message> -> bool)
    ensures Consume(Open(IDLE, []), [0x8a, 0x85, 0x37, 0xfa, 0x21, 0x3d, 0x7f, 0x9f, 0x4d, 0x51, 0x58], accepts)
            == Open(IDLE, [])
  {
    hide Consume, Wire, Mask, Encodable;
    HelloIsMasked();
    PieceIs(true, 10, HELLO, MASKED_HELLO, 0x8a, 0x85);
    OneFrame(Frame(true, 10, Short, KEY, HELLO), accepts);
    assert [0x8a, 0x85] + KEY + MASKED_HELLO == [0x8a, 0x85, 0x37, 0xfa, 0x21, 0x3d, 0x7f, 0x9f, 0x4d, 0x51, 0x58];
  }

  const HEL: seq<Byte> := [0x48, 0x65, 0x6c]

  const LO: seq<Byte> := [0x6c, 0x6f]

  lemma PiecesAreMasked()
    ensures Mask(KEY, HEL) == [0x7f, 0x9f, 0x4d] && Mask(KEY, LO) == [0x5b, 0x95]
  {
    hide Xor;
    LetterH();
    LetterE();
    LetterL();
    LetterFirstL();
    LetterSecondO();
  }

  /** The fragments "Hel" and "lo" of the second example, masked as a client has to, make up one message. */
  lemma FragmentsAreJoined(accepts: seq<Message> -> bool)
    requires accepts([Message(true, HELLO)])
    ensures Consume(Open(IDLE, []),
                    [0x01, 0x83, 0x37, 0xfa, 0x21, 0x3d, 0x7f, 0x9f, 0x4d]
                    + [0x80, 0x82, 0x37, 0xfa, 0x21, 0x3d, 0x5b, 0x95], accepts)
            == Open(IDLE, [Message(true, HELLO)])
  {
    hide Consume, Wire, Mask, Encodable;
    PiecesAreMasked();
    PieceIs(false, 1, HEL, [0x7f, 0x9f, 0x4d], 0x01, 0x83);
    PieceIs(true, 0, LO, [0x5b, 0x95], 0x80, 0x82);
    var a, b := Frame(false, 1, Short, KEY, HEL), Frame(true, 0, Short, KEY, LO);
    var peer := Peer(NoMessage, []);
    FrameRefines(peer, a, Wire(b), accepts);
    FrameRefines(Peer(InProgress(true, HEL), []), b, [], accepts);
    assert Wire(b) + [] == Wire(b) && [] + HEL == HEL && HEL + LO == HELLO;
    assert [] + [Message(true, HELLO)] == [Message(true, HELLO)];
    assert ToConn(peer) == Open(IDLE, []);
    assert [0x01, 0x83] + KEY + [0x7f, 0x9f, 0x4d] == [0x01, 0x83, 0x37, 0xfa, 0x21, 0x3d, 0x7f, 0x9f, 0x4d];
    assert [0x80, 0x82] + KEY + [0x5b, 0x95] == [0x80, 0x82, 0x37, 0xfa, 0x21, 0x3d, 0x5b, 0x95];
    ConsumeNothing(Open(IDLE, [Message(true, HELLO)]), accepts);
  }

  lemma ConsumeNothing(c: Conn, accepts: seq<Message> -> bool)
    requires AtRest(c)
    ensures Consume(c, [], accepts) == c
  {
  }

  lemma OneFrame(f: Frame, accepts: seq<Message> -> bool)
    requires Encodable(f)
    ensures Consume(Open(IDLE, []), Wire(f), accepts) == ToConn(Receive(Peer(NoMessage, []), f, accepts))
  {
    FrameRefines(Peer(NoMessage, []), f, [], accepts);
    assert Wire(f) + [] == Wire(f);
    assert ToConn(Peer(NoMessage, [])) == Open(IDLE, []);
  }

  /** The headers of the unmasked examples. */
  lemma HeadersAreWritten()
    ensures HeaderBytes(Text, 5) == [0x81, 0x05]
    ensures HeaderBytes(Ping, 5) == [0x89, 0x05] && HeaderBytes(Pong, 5) == [0x8a, 0x05]
    ensures HeaderBytes(Close, 0) == [0x88, 0x00]
    ensures HeaderBytes(Binary, 256) == [0x82, 0x7e, 0x01, 0x00]
    ensures HeaderBytes(Binary, 65536) == [0x82, 0x7f, 0x00, 0x00, 0x00, 0x00, 0x00, 0x01, 0x00, 0x00]
  {
    assert ToBigEndian(256, 2) == [1, 0];
    assert ToBigEndian(1, 5) == [0, 0, 0, 0, 1];
    assert ToBigEndian(256, 6) == [0, 0, 0, 0, 1, 0];
    assert ToBigEndian(65536, 8) == [0, 0, 0, 0, 0, 1, 0, 0];
  }
}

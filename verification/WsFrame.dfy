/**
 WebSocket frames: the header writer of the server side, and the frame format of
 section 5.2 of RFC 6455, written down independently of both the writer and the parser.
 */
module WsFrame {
  import opened Bytes

  const SIZE_LIMIT: int := 0x1_0000_0000_0000_0000  // of a size_t or uint64_t
  const LEGAL_LENGTH: int := 0x8000_0000_0000_0000  // the most significant bit of a length must be 0

  // ---------- Big-endian numbers ----------

  /** `n >> 8 * k`. */
  function ShiftBytes(n: nat, k: nat): nat {
    if k == 0 then n else ShiftBytes(n / 256, k - 1)
  }

  /** The low `k` bytes of `n`, most significant first. */
  function ToBigEndian(n: nat, k: nat): (b: seq<Byte>)
    ensures |b| == k
  {
    if k == 0 then [] else ToBigEndian(n / 256, k - 1) + [(n % 256) as Byte]
  }

  function FromBigEndian(b: seq<Byte>): nat {
    if b == [] then 0 else 256 * FromBigEndian(b[..|b| - 1]) + b[|b| - 1] as nat
  }

  lemma {:induction false} BigEndianDigit(n: nat, k: nat, i: nat)
    requires i < k
    ensures ToBigEndian(n, k)[i] as nat == ShiftBytes(n, k - 1 - i) % 256
  {
    if i < k - 1 {
      BigEndianDigit(n / 256, k - 1, i);
    }
  }

  lemma {:induction false} BigEndianRoundTrip(n: nat, k: nat)
    requires ShiftBytes(n, k) == 0
    ensures FromBigEndian(ToBigEndian(n, k)) == n
  {
    if k > 0 {
      BigEndianRoundTrip(n / 256, k - 1);
      assert ToBigEndian(n, k)[..k - 1] == ToBigEndian(n / 256, k - 1);
    }
  }

  lemma {:induction false} BigEndianBound(b: seq<Byte>)
    ensures ShiftBytes(FromBigEndian(b), |b|) == 0
  {
    if b != [] {
      BigEndianBound(b[..|b| - 1]);
      assert FromBigEndian(b) / 256 == FromBigEndian(b[..|b| - 1]);
    }
  }

  lemma TwoBytes(n: nat)
    ensures ShiftBytes(n, 2) == 0 <==> n <= 0xFFFF
  {
    assert ShiftBytes(n, 2) == ShiftBytes(n / 256, 1) == ShiftBytes(n / 256 / 256, 0);
  }

  lemma EightBytes(n: nat)
    ensures ShiftBytes(n, 8) == 0 <==> n < SIZE_LIMIT
  {
    var a := n / 256 / 256;
    var b := a / 256 / 256;
    var c := b / 256 / 256;
    assert ShiftBytes(n, 8) == ShiftBytes(n / 256, 7) == ShiftBytes(a, 6);
    assert ShiftBytes(a, 6) == ShiftBytes(a / 256, 5) == ShiftBytes(b, 4);
    assert ShiftBytes(b, 4) == ShiftBytes(b / 256, 3) == ShiftBytes(c, 2);
    TwoBytes(c);
  }

  // ---------- The frame format ----------

  const CONTINUATION: nat := 0x0
  const TEXT: nat := 0x1
  const BINARY: nat := 0x2
  const CLOSE: nat := 0x8
  const PING: nat := 0x9
  const PONG: nat := 0xA

  predicate KnownOpcode(opcode: nat) {
    opcode <= BINARY || CLOSE <= opcode <= PONG
  }

  predicate IsControl(opcode: nat) {
    opcode >= CLOSE
  }

  /** What the header fields of section 5.2 say. */
  datatype Header = Header(fin: bool, rsv: nat, opcode: nat, masked: bool, len: nat, key: seq<Byte>, size: nat)

  function Len7(byte1: Byte): nat {
    byte1 as nat % 128
  }

  /** How many extended length bytes follow the first two. */
  function ExtendedBytes(len7: nat): nat {
    if len7 == 126 then 2 else if len7 == 127 then 8 else 0
  }

  /** Reads a whole header off the front of `b`, or says that `b` is too short. */
  function DecodeHeader(b: seq<Byte>): Option<Header> {
    if |b| < 2 then None else
      var b0, b1 := b[0] as nat, b[1] as nat;
      var ext := ExtendedBytes(Len7(b[1]));
      var keyLen := if b1 >= 128 then 4 else 0;
      var size := 2 + ext + keyLen;
      if |b| < size then None else
        Some(Header(b0 >= 128, b0 / 16 % 8, b0 % 16, b1 >= 128,
                    if ext == 0 then Len7(b[1]) else FromBigEndian(b[2..2 + ext]),
                    b[2 + ext..size], size))
  }

  // ---------- The header writer ----------

  datatype FrameType = Text | Binary | Ping | Pong | Close

  function Opcode(t: FrameType): nat {
    match t
    case Text => TEXT
    case Binary => BINARY
    case Close => CLOSE
    case Ping => PING
    case Pong => PONG
  }

  const HEADER_MAX_LEN: nat := 10

  /** The header bytes of an unfragmented, unmasked frame with the shortest length form. */
  function HeaderBytes(t: FrameType, len: nat): seq<Byte> {
    var b0 := (0x80 + Opcode(t)) as Byte;
    if len < 126 then [b0, len as Byte]
    else if len <= 0xFFFF then [b0, 126] + ToBigEndian(len, 2)
    else [b0, 127] + ToBigEndian(len, 8)
  }

  /** Writes the header in place and returns its length. */
  method WriteHeader(header: array<Byte>, t: FrameType, len: nat) returns (n: nat)
    requires header.Length >= HEADER_MAX_LEN && len < SIZE_LIMIT
    modifies header
    ensures n <= HEADER_MAX_LEN && header[..n] == HeaderBytes(t, len)
    ensures forall i | n <= i < header.Length :: header[i] == old(header[i])
  {
    header[0] := (0x80 + Opcode(t)) as Byte;
    if len < 126 {
      header[1] := len as Byte;
      return 2;
    }
    if len <= 0xFFFF {
      header[1] := 126;
      header[2] := (len / 256 % 256) as Byte;
      header[3] := (len % 256) as Byte;
      assert ToBigEndian(len, 2) == ToBigEndian(len / 256, 1) + [header[3]];
      assert ToBigEndian(len / 256, 1) == ToBigEndian(len / 256 / 256, 0) + [header[2]];
      return 4;
    }
    header[1] := 127;
    for i := 0 to 8
      invariant header[0] == (0x80 + Opcode(t)) as Byte && header[1] == 127
      invariant forall j :: 0 <= j < i ==> header[2 + j] == ToBigEndian(len, 8)[j]
      invariant forall j | 10 <= j < header.Length :: header[j] == old(header[j])
    {
      BigEndianDigit(len, 8, i);
      header[2 + i] := (ShiftBytes(len, 7 - i) % 256) as Byte;
    }
    return 10;
  }

  /** How many extended length bytes the writer uses. */
  function LengthBytes(len: nat): nat {
    if len < 126 then 0 else if len <= 0xFFFF then 2 else 8
  }

  lemma LengthReadsBack(len: nat)
    requires 126 <= len < SIZE_LIMIT
    ensures FromBigEndian(ToBigEndian(len, LengthBytes(len))) == len
  {
    if len <= 0xFFFF {
      TwoBytes(len);
    } else {
      EightBytes(len);
    }
    BigEndianRoundTrip(len, LengthBytes(len));
  }

  /** What is written reads back: final, unmasked, no reserved bit, the opcode and the length. */
  lemma HeaderRoundTrip(t: FrameType, len: nat, rest: seq<Byte>)
    requires len < SIZE_LIMIT
    ensures DecodeHeader(HeaderBytes(t, len) + rest)
         == Some(Header(true, 0, Opcode(t), false, len, [], |HeaderBytes(t, len)|))
  {
    var h := HeaderBytes(t, len);
    var b := h + rest;
    var ext := LengthBytes(len);
    assert b[0] == h[0] && b[1] == h[1] && b[|h|..|h|] == [];
    assert ExtendedBytes(Len7(b[1])) == ext;
    if ext > 0 {
      LengthReadsBack(len);
      assert b[2..2 + ext] == ToBigEndian(len, ext);
    }
  }

  /** No shorter length form could hold `len`. */
  lemma HeaderIsMinimal(t: FrameType, len: nat, b: seq<Byte>)
    requires len < SIZE_LIMIT
    requires DecodeHeader(b).Some? && DecodeHeader(b).value.len == len && !DecodeHeader(b).value.masked
    ensures |HeaderBytes(t, len)| <= DecodeHeader(b).value.size
  {
    var ext := ExtendedBytes(Len7(b[1]));
    if ext != 0 {
      BigEndianBound(b[2..2 + ext]);
      TwoBytes(len);
    }
  }

  // ---------- Whole frames and masking ----------

  function Exp2(k: nat): nat {
    if k == 0 then 1 else 2 * Exp2(k - 1)
  }

  /** Bitwise exclusive or of the low `k` bits. */
  function XorBits(a: nat, b: nat, k: nat): (r: nat)
    ensures r < Exp2(k)
  {
    if k == 0 then 0 else 2 * XorBits(a / 2, b / 2, k - 1) + (a + b) % 2
  }

  lemma Parity(a: nat, b: nat, h: nat)
    ensures (2 * h + (a + b) % 2) / 2 == h
    ensures (2 * h + (a + b) % 2 + b) % 2 == a % 2
  {
    var i, j := a / 2, b / 2;
    assert a == 2 * i + a % 2 && b == 2 * j + b % 2;
  }

  lemma {:induction false} XorBitsTwice(a: nat, b: nat, k: nat)
    requires a < Exp2(k)
    ensures XorBits(XorBits(a, b, k), b, k) == a
  {
    if k > 0 {
      XorBitsTwice(a / 2, b / 2, k - 1);
      Parity(a, b, XorBits(a / 2, b / 2, k - 1));
    }
  }

  lemma ByteRange()
    ensures Exp2(8) == 256
  {
    assert Exp2(3) == 8;
    assert Exp2(6) == 64;
  }

  function Xor(a: Byte, b: Byte): Byte {
    ByteRange();
    XorBits(a as nat, b as nat, 8) as Byte
  }

  lemma XorTwice(a: Byte, b: Byte)
    ensures Xor(Xor(a, b), b) == a
  {
    ByteRange();
    XorBitsTwice(a as nat, b as nat, 8);
  }

  /** Binary digit `i` of a number. */
  function Bit(n: nat, i: nat): nat {
    if i == 0 then n % 2 else Bit(n / 2, i - 1)
  }

  /** Every bit of the combination is the sum of the two bits modulo 2. */
  lemma {:induction false} XorBitsAreSums(a: nat, b: nat, k: nat, i: nat)
    requires i < k
    ensures Bit(XorBits(a, b, k), i) == (Bit(a, i) + Bit(b, i)) % 2
  {
    var h := XorBits(a / 2, b / 2, k - 1);
    Parity(a, b, h);
    if i == 0 {
      assert (2 * h + (a + b) % 2) % 2 == (a + b) % 2 == (a % 2 + b % 2) % 2;
    } else {
      XorBitsAreSums(a / 2, b / 2, k - 1, i - 1);
    }
  }

  /** Its binary digits determine a number. */
  lemma {:induction false} BitsDetermine(a: nat, b: nat, k: nat)
    requires a < Exp2(k) && b < Exp2(k) && forall i: nat :: i < k ==> Bit(a, i) == Bit(b, i)
    ensures a == b
  {
    if k > 0 {
      assert Bit(a, 0) == Bit(b, 0);
      forall i: nat | i < k - 1 ensures Bit(a / 2, i) == Bit(b / 2, i) {
        assert Bit(a, i + 1) == Bit(b, i + 1);
      }
      BitsDetermine(a / 2, b / 2, k - 1);
    }
  }

  lemma XorIsExclusiveOr(a: Byte, b: Byte, i: nat)
    requires i < 8
    ensures Bit(Xor(a, b) as nat, i) == (Bit(a as nat, i) + Bit(b as nat, i)) % 2
  {
    XorBitsAreSums(a as nat, b as nat, 8, i);
  }

  /** Section 5.3: byte `i` of the payload is combined with byte `i` modulo 4 of the key. */
  function Mask(key: seq<Byte>, payload: seq<Byte>): (m: seq<Byte>)
    requires |key| == 4
    ensures |m| == |payload|
  {
    seq(|payload|, i requires 0 <= i < |payload| => Xor(payload[i], key[i % 4]))
  }

  /** Bit by bit: the masked payload is the exclusive or of payload and repeated key. */
  lemma MaskBits(key: seq<Byte>, payload: seq<Byte>, i: nat, j: nat)
    requires |key| == 4 && i < |payload| && j < 8
    ensures Bit(Mask(key, payload)[i] as nat, j) == (Bit(payload[i] as nat, j) + Bit(key[i % 4] as nat, j)) % 2
  {
    XorIsExclusiveOr(payload[i], key[i % 4], j);
  }

  lemma MaskTwice(key: seq<Byte>, payload: seq<Byte>)
    requires |key| == 4
    ensures Mask(key, Mask(key, payload)) == payload
  {
    forall i | 0 <= i < |payload| ensures Mask(key, Mask(key, payload))[i] == payload[i] {
      XorTwice(payload[i], key[i % 4]);
    }
  }
}

/** WebSocket frames as bytes: what `writeFrame` prints and `readFrame` parses (sections 5.2 and 5.3 of
    RFC 6455). */
module WsCodec {
  import opened Bytes
  import opened Wrappers

  const MAX_PAYLOAD := 33_554_432

  datatype Frame = Frame(fin: bool, opcode: byte, payload: bytes)

  datatype Error = EndOfStream | PayloadTooLong(length: nat) | ExpectedContinuation | ClosedByPeer | WriteFailed | UnknownOpcode(opcode: byte)

  /** A parsed frame or an error, and the bytes left to read. */
  datatype Parsed = Got(frame: Frame, rest: bytes) | Failed(error: Error, rest: bytes)

  // ---- bits ----

  /** Exclusive or of the lowest `n` bits. */
  function XorBits(a: nat, b: nat, n: nat): (r: nat)
    ensures r < Pow2(n)
  {
    if n == 0 then 0 else 2 * XorBits(a / 2, b / 2, n - 1) + (if a % 2 == b % 2 then 0 else 1)
  }

  function Pow2(n: nat): nat { if n == 0 then 1 else 2 * Pow2(n - 1) }

  function Xor(a: byte, b: byte): byte {
    assert Pow2(8) == 256;
    XorBits(a, b, 8)
  }

  lemma {:induction false} PowerPositive(n: nat)
    ensures Pow2(n) > 0
  {
    if n > 0 { PowerPositive(n - 1); }
  }

  /** Dropping the lowest bit of both sides of a division. */
  lemma HalfOfBoth(a: nat, m: nat)
    requires m > 0
    ensures a / (2 * m) == a / 2 / m
  {
    var q, r := a / 2 / m, a / 2 % m;
    assert a / 2 == q * m + r;
    assert a == q * (2 * m) + (2 * r + a % 2);
    QuotientIs(a, 2 * m, q, 2 * r + a % 2);
  }

  lemma QuotientIs(a: nat, m: nat, q: nat, r: nat)
    requires 0 <= r < m && a == q * m + r
    ensures a / m == q
  {
    var q', r' := a / m, a % m;
    DividedBack(a, m);
    NotAMultiple(q - q', m, q, q');
    NotAMultiple(q' - q, m, q', q);
  }

  lemma DividedBack(a: nat, m: nat)
    requires m > 0
    ensures a == a / m * m + a % m && 0 <= a % m < m
  {}

  lemma NotAMultiple(d: int, m: nat, x: nat, y: nat)
    requires d == x - y
    ensures d >= 1 ==> x * m >= y * m + m
  {
    assert x * m == y * m + d * m;
    if d >= 1 { assert d * m == m + (d - 1) * m && (d - 1) * m >= 0; }
  }

  /** Bit `k` of a number. */
  predicate Bit(a: nat, k: nat) {
    PowerPositive(k);
    a / Pow2(k) % 2 == 1
  }

  lemma BitAbove(a: nat, k: nat)
    requires k > 0
    ensures Bit(a, k) == Bit(a / 2, k - 1)
  {
    PowerPositive(k - 1);
    HalfOfBoth(a, Pow2(k - 1));
  }

  lemma LowestBit(a: nat)
    ensures Bit(a, 0) <==> a % 2 == 1
  {}

  /** Bit `k` is set exactly when one of the two has it set and the other has not. */
  lemma {:induction false} XorIsExclusive(a: nat, b: nat, n: nat, k: nat)
    requires k < n
    ensures Bit(XorBits(a, b, n), k) <==> Bit(a, k) != Bit(b, k)
  {
    hide Bit, XorBits;
    var r := XorBits(a, b, n);
    XorStep(a, b, n);
    if k > 0 {
      XorIsExclusive(a / 2, b / 2, n - 1, k - 1);
      BitAbove(a, k);
      BitAbove(b, k);
      BitAbove(r, k);
    } else {
      LowestBit(a);
      LowestBit(b);
      LowestBit(r);
    }
  }

  function OneOf(x: nat, y: nat): byte { if x % 2 == y % 2 then 0 else 1 }

  lemma XorStep(a: nat, b: nat, n: nat)
    requires n > 0
    ensures var r := XorBits(a, b, n);
      r == OneOf(a, b) + 2 * XorBits(a / 2, b / 2, n - 1) && r / 2 == XorBits(a / 2, b / 2, n - 1)
  {}

  lemma XorFour(a: nat, b: nat, n: nat)
    requires n >= 4
    ensures XorBits(a, b, n) ==
      OneOf(a, b) + 2 * OneOf(a / 2, b / 2) + 4 * OneOf(a / 4, b / 4) + 8 * OneOf(a / 8, b / 8) + 16 * XorBits(a / 16, b / 16, n - 4)
  {
    hide XorBits, OneOf;
    XorStep(a, b, n);
    XorStep(a / 2, b / 2, n - 1);
    XorStep(a / 4, b / 4, n - 2);
    XorStep(a / 8, b / 8, n - 3);
    Halves(a);
    Halves(b);
  }

  lemma Halves(a: nat)
    ensures a / 2 / 2 == a / 4 && a / 4 / 2 == a / 8 && a / 8 / 2 == a / 16
    ensures a / 16 / 2 == a / 32 && a / 16 / 4 == a / 64 && a / 16 / 8 == a / 128
  {}

  /** The eight bits of an exclusive or, written out. */
  lemma XorWrittenOut(a: byte, b: byte)
    ensures Xor(a, b) ==
      OneOf(a, b) + 2 * OneOf(a / 2, b / 2) + 4 * OneOf(a / 4, b / 4) + 8 * OneOf(a / 8, b / 8)
      + 16 * OneOf(a / 16, b / 16) + 32 * OneOf(a / 32, b / 32) + 64 * OneOf(a / 64, b / 64) + 128 * OneOf(a / 128, b / 128)
  {
    hide XorBits, OneOf;
    XorFour(a, b, 8);
    XorFour(a / 16, b / 16, 4);
    Halves(a);
    Halves(b);
    NoBits(a / 16 / 16, b / 16 / 16);
  }

  lemma NoBits(a: nat, b: nat)
    ensures XorBits(a, b, 0) == 0
  {}

  /** Every byte of the payload is combined with its byte of the key bit by bit. */
  lemma MaskingIsExclusiveOr(payload: bytes, key: bytes, i: nat, k: nat)
    requires |key| == 4 && i < |payload| && k < 8
    ensures Bit(Masked(payload, key)[i], k) <==> Bit(payload[i], k) != Bit(key[i % 4], k)
  {
    XorIsExclusive(payload[i], key[i % 4], 8, k);
  }

  lemma {:induction false} XorTwice(a: nat, b: nat, n: nat)
    requires a < Pow2(n)
    ensures XorBits(XorBits(a, b, n), b, n) == a
  {
    if n > 0 {
      var high := XorBits(a / 2, b / 2, n - 1);
      var r := XorBits(a, b, n);
      assert r / 2 == high && r % 2 == if a % 2 == b % 2 then 0 else 1;
      XorTwice(a / 2, b / 2, n - 1);
    }
  }

  /** The payload with the mask applied: byte `i` is combined with byte `i % 4` of the key. */
  function Masked(payload: bytes, key: bytes): (r: bytes)
    requires |key| == 4
    ensures |r| == |payload|
  {
    seq(|payload|, i requires 0 <= i < |payload| => Xor(payload[i], key[i % 4]))
  }

  lemma UnmaskMasked(payload: bytes, key: bytes)
    requires |key| == 4
    ensures Masked(Masked(payload, key), key) == payload
  {
    forall i | 0 <= i < |payload|
      ensures Masked(Masked(payload, key), key)[i] == payload[i]
    {
      assert Pow2(8) == 256;
      XorTwice(payload[i], key[i % 4], 8);
    }
  }

  // ---- lengths ----

  /** Big-endian bytes. */
  function Big(n: nat, k: nat): (s: bytes)
    ensures |s| == k
  {
    if k == 0 then [] else Big(n / 256, k - 1) + [n % 256]
  }

  function FromBig(s: bytes): nat {
    if s == [] then 0 else FromBig(s[..|s| - 1]) * 256 + s[|s| - 1]
  }

  function Pow256(k: nat): nat { if k == 0 then 1 else 256 * Pow256(k - 1) }

  lemma {:induction false} BigRoundTrip(n: nat, k: nat)
    requires n < Pow256(k)
    ensures FromBig(Big(n, k)) == n
  {
    if k > 0 {
      BigRoundTrip(n / 256, k - 1);
      assert Big(n, k)[..k - 1] == Big(n / 256, k - 1);
    }
  }

  lemma ByteOfBoth(a: nat, m: nat)
    requires m > 0
    ensures a / (256 * m) == a / 256 / m
  {
    var q, r := a / 256 / m, a / 256 % m;
    DividedBack(a / 256, m);
    assert a == q * (256 * m) + (256 * r + a % 256);
    QuotientIs(a, 256 * m, q, 256 * r + a % 256);
  }

  /** The most significant byte comes first. */
  lemma {:induction false} BigEndian(n: nat, k: nat, i: nat)
    requires i < k
    ensures Pow256(k - 1 - i) > 0 && Big(n, k)[i] == n / Pow256(k - 1 - i) % 256
    decreases k
  {
    if i < k - 1 {
      BigEndian(n / 256, k - 1, i);
      ByteOfBoth(n, Pow256(k - 2 - i));
    }
  }

  /** The length field in its shortest form; `mask` is 128 when the mask bit is set. */
  function LengthField(n: nat, mask: byte): bytes
    requires mask == 0 || mask == 128
  {
    if n < 126 then [n + mask]
    else if n < 65536 then [126 + mask] + Big(n, 2)
    else [127 + mask] + Big(n, 8)
  }

  // ---- printing ----

  function WithFin(opcode: byte): byte { if opcode < 128 then 128 + opcode else opcode }

  /** The header `writeFrame` sends. */
  function Header(opcode: byte, n: nat): bytes { [WithFin(opcode)] + LengthField(n, 0) }

  /** The header byte by byte: FIN and the opcode, no mask bit, and the shortest of the three forms of length. */
  lemma HeaderBytes(opcode: byte, n: nat)
    requires opcode < 16
    ensures Header(opcode, n) ==
      if n < 126 then [128 + opcode, n]
      else if n < 65536 then [128 + opcode, 126, n / 256, n % 256]
      else [128 + opcode, 127] + Big(n, 8)
  {
    if 126 <= n < 65536 {
      assert Big(n / 256, 1) == [] + [n / 256] == [n / 256];
      assert Big(n, 2) == [n / 256] + [n % 256];
    }
  }

  /** The bytes of a server frame: final and not masked. */
  function ServerFrame(opcode: byte, payload: bytes): bytes { Header(opcode, |payload|) + payload }

  /** A frame as a peer may send it: any FIN bit, masked with any key or not at all. */
  function PeerFrame(f: Frame, key: Option<bytes>): bytes
    requires f.opcode < 16 && (key.Some? ==> |key.value| == 4)
  {
    var b0: byte := if f.fin then 128 + f.opcode else f.opcode;
    match key
    case None => [b0] + LengthField(|f.payload|, 0) + f.payload
    case Some(k) => [b0] + LengthField(|f.payload|, 128) + k + Masked(f.payload, k)
  }

  // ---- parsing ----

  /** The part of `readFrame` behind the length: mask key and payload. */
  function ParsePayload(fin: bool, opcode: byte, masked: bool, length: nat, s: bytes): Parsed {
    if length > MAX_PAYLOAD then Failed(PayloadTooLong(length), s)
    else
      var k := if masked then 4 else 0;
      if |s| < k || |s| - k < length then Failed(EndOfStream, [])
      else
        var payload := s[k..k + length];
        Got(Frame(fin, opcode, if masked then Masked(payload, s[..4]) else payload), s[k + length..])
  }

  /** `readFrame`. */
  function Parse(s: bytes): (r: Parsed)
    ensures r.Got? ==> |r.rest| < |s| && |r.frame.payload| <= MAX_PAYLOAD
  {
    if |s| < 2 then Failed(EndOfStream, [])
    else
      var fin, opcode, masked, short := s[0] >= 128, s[0] % 16, s[1] >= 128, s[1] % 128;
      var ext := if short == 126 then 2 else if short == 127 then 8 else 0;
      if |s| < 2 + ext then Failed(EndOfStream, [])
      else ParsePayload(fin, opcode, masked, if ext == 0 then short else FromBig(s[2..2 + ext]), s[2 + ext..])
  }

  // ---- round trip ----

  /** A length below 126 stands in the second byte. */
  lemma ParseShort(b0: byte, n: nat, mask: byte, tail: bytes)
    requires (mask == 0 || mask == 128) && n < 126
    ensures Parse([b0] + [n + mask] + tail) == ParsePayload(b0 >= 128, b0 % 16, mask == 128, n, tail)
  {
    hide ParsePayload, FromBig;
    var b1: byte := n + mask;
    var s := [b0] + [b1] + tail;
    assert s[0] == b0 && s[1] == b1 && b1 % 128 == n;
    assert s[2..] == tail;
  }

  /** A longer one stands in two or eight bytes behind it. */
  lemma ParseExtended(b0: byte, n: nat, mask: byte, k: nat, tail: bytes)
    requires (mask == 0 || mask == 128) && (k == 2 || k == 8) && n < Pow256(k)
    ensures Parse([b0] + ([(if k == 2 then 126 else 127) + mask] + Big(n, k)) + tail) ==
      ParsePayload(b0 >= 128, b0 % 16, mask == 128, n, tail)
  {
    hide ParsePayload;
    BigRoundTrip(n, k);
    var b1: byte := (if k == 2 then 126 else 127) + mask;
    var s := [b0] + ([b1] + Big(n, k)) + tail;
    assert s[0] == b0 && s[1] == b1 && b1 % 128 == (if k == 2 then 126 else 127);
    assert s[2..2 + k] == Big(n, k) && s[2 + k..] == tail;
  }

  /** The length field is read back, in all three forms. */
  lemma ParseLength(b0: byte, n: nat, mask: byte, tail: bytes)
    requires (mask == 0 || mask == 128) && n < Pow256(8)
    ensures Parse([b0] + LengthField(n, mask) + tail) == ParsePayload(b0 >= 128, b0 % 16, mask == 128, n, tail)
  {
    hide Parse, ParsePayload, Big;
    if n < 126 {
      ParseShort(b0, n, mask, tail);
    } else if n < 65536 {
      assert Pow256(2) == 65536;
      ParseExtended(b0, n, mask, 2, tail);
    } else {
      ParseExtended(b0, n, mask, 8, tail);
    }
  }

  lemma PowersOf256()
    ensures Pow256(8) == 0x1_0000_0000_0000_0000
  {
    assert Pow256(4) == 0x1_0000_0000;
    assert Pow256(8) == 256 * (256 * (256 * (256 * Pow256(4))));
  }

  /** Any peer frame within the limit is read back exactly, whatever follows it. */
  lemma PeerFrameRoundTrip(f: Frame, key: Option<bytes>, tail: bytes)
    requires f.opcode < 16 && (key.Some? ==> |key.value| == 4) && |f.payload| <= MAX_PAYLOAD
    ensures Parse(PeerFrame(f, key) + tail) == Got(f, tail)
  {
    hide Parse, Masked, LengthField, Pow256;
    PowersOf256();
    var b0: byte := if f.fin then 128 + f.opcode else f.opcode;
    var n := |f.payload|;
    assert b0 % 16 == f.opcode;
    match key
    case None =>
      assert PeerFrame(f, key) + tail == [b0] + LengthField(n, 0) + (f.payload + tail);
      ParseLength(b0, n, 0, f.payload + tail);
      assert (f.payload + tail)[..n] == f.payload && (f.payload + tail)[n..] == tail;
    case Some(k) =>
      var body := k + Masked(f.payload, k) + tail;
      assert PeerFrame(f, key) + tail == [b0] + LengthField(n, 128) + body;
      ParseLength(b0, n, 128, body);
      assert body[..4] == k && body[4..4 + n] == Masked(f.payload, k) && body[4 + n..] == tail;
      UnmaskMasked(f.payload, k);
  }

  /** A longer frame, masked or not, is refused as soon as its length is read. */
  lemma TooLongIsRefused(f: Frame, key: Option<bytes>, tail: bytes)
    requires f.opcode < 16 && (key.Some? ==> |key.value| == 4) && 33_554_432 < |f.payload| < Pow256(8)
    ensures var r := Parse(PeerFrame(f, key) + tail); r.Failed? && r.error == PayloadTooLong(|f.payload|)
  {
    hide Parse, Masked, LengthField, Pow256;
    var b0: byte := if f.fin then 128 + f.opcode else f.opcode;
    var n := |f.payload|;
    match key
    case None =>
      assert PeerFrame(f, key) + tail == [b0] + LengthField(n, 0) + (f.payload + tail);
      ParseLength(b0, n, 0, f.payload + tail);
    case Some(k) =>
      var body := k + Masked(f.payload, k) + tail;
      assert PeerFrame(f, key) + tail == [b0] + LengthField(n, 128) + body;
      ParseLength(b0, n, 128, body);
  }

  /** A frame that breaks off anywhere fails, whatever was announced, and nothing is left to read. */
  lemma TruncatedFails(f: Frame, key: Option<bytes>, k: nat)
    requires f.opcode < 16 && (key.Some? ==> |key.value| == 4) && |f.payload| <= MAX_PAYLOAD
    requires k < |PeerFrame(f, key)|
    ensures Parse(PeerFrame(f, key)[..k]) == Failed(EndOfStream, [])
  {
    hide Parse, ParsePayload, Masked, LengthField, Pow256;
    PowersOf256();
    var b0: byte := if f.fin then 128 + f.opcode else f.opcode;
    var n, mask: byte := |f.payload|, if key.Some? then 128 else 0;
    var body := if key.Some? then key.value + Masked(f.payload, key.value) else f.payload;
    var head, s := [b0] + LengthField(n, mask), PeerFrame(f, key);
    assert s == head + body;
    if k < |head| {
      assert s[..k] == head[..k];
      TruncatedHead(b0, n, mask, k);
    } else {
      assert s[..k] == head + body[..k - |head|];
      ParseLength(b0, n, mask, body[..k - |head|]);
      TruncatedBody(b0 >= 128, b0 % 16, key.Some?, n, body[..k - |head|]);
    }
  }

  lemma TruncatedHead(b0: byte, n: nat, mask: byte, k: nat)
    requires (mask == 0 || mask == 128) && k < 1 + |LengthField(n, mask)|
    ensures Parse(([b0] + LengthField(n, mask))[..k]) == Failed(EndOfStream, [])
  {
    hide FromBig, ParsePayload;
    var s := ([b0] + LengthField(n, mask))[..k];
    if k >= 2 { assert s[1] == LengthField(n, mask)[0]; }
  }

  lemma TruncatedBody(fin: bool, opcode: byte, masked: bool, n: nat, s: bytes)
    requires n <= MAX_PAYLOAD && |s| < (if masked then 4 else 0) + n
    ensures ParsePayload(fin, opcode, masked, n, s) == Failed(EndOfStream, [])
  {}

  /** `readFrame` on what `writeFrame` printed: the same opcode and payload with FIN, and exactly that
      frame consumed; a payload over the limit is printed but never read back. */
  lemma ServerFrameRoundTrip(opcode: byte, payload: bytes, tail: bytes)
    requires opcode < 16 && |payload| < Pow256(8)
    ensures Parse(ServerFrame(opcode, payload) + tail) ==
      if |payload| <= 33_554_432 then Got(Frame(true, opcode, payload), tail)
      else Failed(PayloadTooLong(|payload|), payload + tail)
  {
    var n := |payload|;
    assert ServerFrame(opcode, payload) + tail == [WithFin(opcode)] + LengthField(n, 0) + (payload + tail);
    ParseLength(WithFin(opcode), n, 0, payload + tail);
    assert (payload + tail)[..n] == payload && (payload + tail)[n..] == tail;
  }
}

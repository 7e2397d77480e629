/**
 * WebSocket frames as websocket_conn.cc builds and parses them (sections 5.2 and 5.3 of RFC 6455).
 */
module WebSocket {
  import opened Bytes

  const FIN: nat := 128
  const MASK: nat := 128

  datatype Frame = Frame(fin: bool, opcode: nat, mask: bool, payloadLength: nat, maskingKey: bytes, payload: bytes)

  /** The k bytes of n in network order. */
  function BigEndian(n: nat, k: nat): (s: bytes)
    ensures |s| == k
  {
    if k == 0 then [] else BigEndian(n / 256, k - 1) + [n % 256]
  }

  function FromBigEndian(s: bytes): nat {
    if s == [] then 0 else FromBigEndian(s[..|s| - 1]) * 256 + s[|s| - 1]
  }

  function Pow256(k: nat): nat {
    if k == 0 then 1 else 256 * Pow256(k - 1)
  }

  lemma {:induction false} BigEndianRoundTrip(n: nat, k: nat)
    requires n < Pow256(k)
    ensures FromBigEndian(BigEndian(n, k)) == n
  {
    if k > 0 {
      BigEndianRoundTrip(n / 256, k - 1);
      assert BigEndian(n, k)[..k - 1] == BigEndian(n / 256, k - 1);
    }
  }

  /** n >> (8 * i). */
  function ShiftBytes(n: nat, i: nat): nat {
    if i == 0 then n else ShiftBytes(n / 256, i - 1)
  }

  /** Byte i of a number, counted from the right, is a shift and a mask of it. */
  lemma {:induction false} BigEndianAt(n: nat, k: nat, i: nat)
    requires i < k
    ensures BigEndian(n, k)[k - 1 - i] == ShiftBytes(n, i) % 256
  {
    if i > 0 {
      BigEndianAt(n / 256, k - 1, i - 1);
    }
  }

  /** The length field: the payload length itself, or 126 or 127 and 2 or 8 more bytes. */
  function LengthField(n: nat): bytes {
    if n <= 125 then [n]
    else if n <= 65535 then [126] + BigEndian(n, 2)
    else [127] + BigEndian(n, 8)
  }

  /** The frame for a payload, unmasked and final. */
  function Build(payload: bytes, opcode: byte): bytes {
    [FIN + opcode % 16] + LengthField(|payload|) + payload
  }

  /** buildWebSocketFrame. */
  method BuildFrame(payload: bytes, opcode: byte) returns (frame: bytes)
    requires |payload| < Pow256(8)
    ensures frame == Build(payload, opcode)
  {
    frame := [FIN + opcode % 16];
    var n := |payload|;
    if n <= 125 {
      frame := frame + [n];
    } else if n <= 65535 {
      frame := frame + [126];
      frame := frame + [(n / 256) % 256];
      frame := frame + [n % 256];
      assert BigEndian(n, 2) == BigEndian(n / 256, 1) + [n % 256];
      assert BigEndian(n / 256, 1) == BigEndian(n / 256 / 256, 0) + [n / 256 % 256];
      assert frame == [FIN + opcode % 16] + LengthField(n);
    } else {
      frame := frame + [127];
      ghost var head := frame;
      var i := 7;
      while i >= 0
        invariant -1 <= i <= 7
        invariant frame == head + BigEndian(n, 8)[..7 - i]
      {
        BigEndianAt(n, 8, i);
        frame := frame + [ShiftBytes(n, i) % 256];
        assert BigEndian(n, 8)[..8 - i] == BigEndian(n, 8)[..7 - i] + [BigEndian(n, 8)[7 - i]];
        i := i - 1;
      }
      assert BigEndian(n, 8)[..8] == BigEndian(n, 8);
    }
    frame := frame + payload;
  }

  /** Exclusive or of the low k bits. */
  function XorBits(a: nat, b: nat, k: nat): (r: nat)
    decreases k
  {
    if k == 0 then 0 else 2 * XorBits(a / 2, b / 2, k - 1) + (a % 2 + b % 2) % 2
  }

  lemma {:induction false} XorBitsFit(a: nat, b: nat, k: nat)
    ensures XorBits(a, b, k) < Pow2(k)
  {
    if k > 0 {
      XorBitsFit(a / 2, b / 2, k - 1);
    }
  }

  lemma Halves(x: nat, bit: nat)
    requires bit < 2
    ensures (2 * x + bit) / 2 == x && (2 * x + bit) % 2 == bit
  {
  }

  lemma BitUndone(a: nat, b: nat)
    requires a < 2 && b < 2
    ensures ((a + b) % 2 + b) % 2 == a
  {
  }

  lemma {:induction false} XorBitsUndone(a: nat, b: nat, k: nat)
    requires a < Pow2(k)
    ensures XorBits(XorBits(a, b, k), b, k) == a
  {
    if k > 0 {
      var x, bit := XorBits(a / 2, b / 2, k - 1), (a % 2 + b % 2) % 2;
      var q := XorBits(a, b, k);
      Halves(x, bit);
      calc {
        XorBits(q, b, k);
        2 * XorBits(q / 2, b / 2, k - 1) + (q % 2 + b % 2) % 2;
        { BitUndone(a % 2, b % 2); }
        2 * XorBits(x, b / 2, k - 1) + a % 2;
        { XorBitsUndone(a / 2, b / 2, k - 1); }
        2 * (a / 2) + a % 2;
        a;
      }
    }
  }

  /** Exclusive or of two bytes. */
  function Xor(a: byte, b: byte): byte {
    XorBitsFit(a, b, 8);
    assert Pow2(8) == 256;
    XorBits(a, b, 8)
  }

  lemma XorUndone(a: byte, b: byte)
    ensures Xor(Xor(a, b), b) == a
  {
    assert Pow2(8) == 256;
    XorBitsUndone(a, b, 8);
  }

  /** Masking and unmasking are the same: byte i against byte i mod 4 of the key (section 5.3). */
  function Masked(s: bytes, key: bytes): (r: bytes)
    requires |key| == 4
    ensures |r| == |s| && forall i :: 0 <= i < |s| ==> r[i] == Xor(s[i], key[i % 4])
  {
    seq(|s|, i requires 0 <= i < |s| => Xor(s[i], key[i % 4]))
  }

  lemma MaskedTwice(s: bytes, key: bytes)
    requires |key| == 4
    ensures Masked(Masked(s, key), key) == s
  {
    forall i | 0 <= i < |s| ensures Masked(Masked(s, key), key)[i] == s[i] {
      XorUndone(s[i], key[i % 4]);
    }
  }

  /** Where the extended length ends. */
  function LengthEnd(data: bytes): nat
    requires |data| >= 2
  {
    if data[1] % 128 == 126 then 4 else if data[1] % 128 == 127 then 10 else 2
  }

  /** The bytes a caller must supply: the parser reads the whole header without checking. */
  predicate HasHeader(data: bytes) {
    |data| >= 2 && |data| >= LengthEnd(data) + (if data[1] >= MASK then 4 else 0)
  }

  /** The length a frame announces. */
  function AnnouncedLength(data: bytes): nat
    requires |data| >= 2 && |data| >= LengthEnd(data)
  {
    if LengthEnd(data) == 2 then data[1] % 128 else FromBigEndian(data[2..LengthEnd(data)])
  }

  /** What a frame holds. Everything after the header is taken as payload. */
  function Parse(data: bytes): Frame
    requires HasHeader(data)
  {
    var start := LengthEnd(data);
    if data[1] >= MASK then
      var key := data[start..start + 4];
      Frame(data[0] >= FIN, data[0] % 16, true, AnnouncedLength(data), key, Masked(data[start + 4..], key))
    else
      Frame(data[0] >= FIN, data[0] % 16, false, AnnouncedLength(data), [], data[start..])
  }

  /** The extended length of parseWebSocketFrame, and the offset after it. */
  method ParseLength(data: bytes) returns (length: nat, offset: nat)
    requires |data| >= 2 && |data| >= LengthEnd(data)
    ensures length == AnnouncedLength(data) && offset == LengthEnd(data)
  {
    length, offset := data[1] % 128, 2;
    if length == 126 {
      TwoBytes(data[2..4]);
      length := (data[2] as int) * 256 + data[3];
      offset := offset + 2;
    } else if length == 127 {
      EightBytes(data[2..10]);
      length := (data[2] as int) * 0x100_0000_0000_0000 + (data[3] as int) * 0x1_0000_0000_0000
        + (data[4] as int) * 0x100_0000_0000 + (data[5] as int) * 0x1_0000_0000 + (data[6] as int) * 0x100_0000
        + (data[7] as int) * 0x1_0000 + (data[8] as int) * 0x100 + data[9];
      offset := offset + 8;
    }
  }

  /** parseWebSocketFrame. */
  method ParseFrame(data: bytes) returns (frame: Frame)
    requires HasHeader(data)
    ensures frame == Parse(data)
    ensures |data| >= HeaderSize(data[1]) && Says(data, frame)
  {
    ParseExactly(data);
    hide Says, HeaderSize;
    var fin, opcode, mask := data[0] / 128 != 0, data[0] % 16, data[1] / 128 != 0;
    var length, offset := ParseLength(data);
    var key: bytes := [];
    if mask {
      key := data[offset..offset + 4];
      offset := offset + 4;
    }
    var payload := new byte[|data| - offset](i requires 0 <= i < |data| - offset => data[offset + i]);
    assert payload[..] == data[offset..];
    if mask {
      Unmask(payload, key);
    }
    frame := Frame(fin, opcode, mask, length, key, payload[..]);
  }

  /** The in-place loop that takes the mask off. */
  method Unmask(payload: array<byte>, key: bytes)
    requires |key| == 4
    modifies payload
    ensures payload[..] == Masked(old(payload[..]), key)
  {
    hide Xor;
    for i := 0 to payload.Length
      invariant forall k :: 0 <= k < i ==> payload[k] == Xor(old(payload[k]), key[k % 4])
      invariant forall k :: i <= k < payload.Length ==> payload[k] == old(payload[k])
    {
      payload[i] := Xor(payload[i], key[i % 4]);
    }
  }

  lemma TwoBytes(s: bytes)
    requires |s| == 2
    ensures FromBigEndian(s) == (s[0] as int) * 256 + s[1]
  {
    assert s[..1] == [s[0]] && [s[0]][..0] == [];
    assert FromBigEndian([s[0]]) == s[0];
  }

  lemma EightBytes(s: bytes)
    requires |s| == 8
    ensures FromBigEndian(s) ==
            (s[0] as int) * 0x100_0000_0000_0000 + (s[1] as int) * 0x1_0000_0000_0000 + (s[2] as int) * 0x100_0000_0000 + (s[3] as int) * 0x1_0000_0000
            + (s[4] as int) * 0x100_0000 + (s[5] as int) * 0x1_0000 + (s[6] as int) * 0x100 + s[7]
  {
    TwoBytes(s[..2]);
    forall k | 2 <= k < 8 ensures FromBigEndian(s[..k + 1]) == FromBigEndian(s[..k]) * 256 + s[k] {
      assert s[..k + 1][..k] == s[..k];
    }
    assert s[..8] == s;
  }

  // ---------------------------------------------------------------- bits and bytes

  /** x >> k. */
  function ShiftBits(x: nat, k: nat): nat {
    if k == 0 then x else ShiftBits(x / 2, k - 1)
  }

  lemma {:induction false} XorBitAt(a: nat, b: nat, n: nat, k: nat)
    requires k < n
    ensures ShiftBits(XorBits(a, b, n), k) % 2 == 1 <==> ShiftBits(a, k) % 2 != ShiftBits(b, k) % 2
  {
    var x, bit := XorBits(a / 2, b / 2, n - 1), (a % 2 + b % 2) % 2;
    Halves(x, bit);
    if k > 0 {
      XorBitAt(a / 2, b / 2, n - 1, k - 1);
      assert XorBits(a, b, n) / 2 == x;
    }
  }

  lemma {:induction false} ShiftOnce(x: nat, k: nat)
    ensures ShiftBits(x, k + 1) == ShiftBits(x, k) / 2
  {
    if k > 0 {
      ShiftOnce(x / 2, k - 1);
    }
  }

  lemma ShiftIsDivision(x: nat)
    ensures ShiftBits(x, 0) == x && ShiftBits(x, 1) == x / 2 && ShiftBits(x, 2) == x / 4 && ShiftBits(x, 3) == x / 8
    ensures ShiftBits(x, 4) == x / 16 && ShiftBits(x, 5) == x / 32
    ensures ShiftBits(x, 6) == x / 64 && ShiftBits(x, 7) == x / 128
  {
    assert ShiftBits(x, 0) == x;
    hide ShiftBits;
    forall k: nat | k < 7 ensures ShiftBits(x, k + 1) == ShiftBits(x, k) / 2 {
      ShiftOnce(x, k);
    }
    assert ShiftBits(x, 0 + 1) == x / 2;
    assert ShiftBits(x, 1 + 1) == x / 4;
    assert ShiftBits(x, 2 + 1) == x / 8;
    assert ShiftBits(x, 3 + 1) == x / 16;
    assert ShiftBits(x, 4 + 1) == x / 32;
    assert ShiftBits(x, 5 + 1) == x / 64;
    assert ShiftBits(x, 6 + 1) == x / 128;
  }

  /** A bit of r is set exactly if that bit differs in a and b, for each of the eight bits of a byte. */
  predicate Differ(a: byte, b: byte, r: byte) {
    && (r % 2 == 1 <==> a % 2 != b % 2)
    && (r / 2 % 2 == 1 <==> a / 2 % 2 != b / 2 % 2)
    && (r / 4 % 2 == 1 <==> a / 4 % 2 != b / 4 % 2)
    && (r / 8 % 2 == 1 <==> a / 8 % 2 != b / 8 % 2)
    && (r / 16 % 2 == 1 <==> a / 16 % 2 != b / 16 % 2)
    && (r / 32 % 2 == 1 <==> a / 32 % 2 != b / 32 % 2)
    && (r / 64 % 2 == 1 <==> a / 64 % 2 != b / 64 % 2)
    && (r / 128 % 2 == 1 <==> a / 128 % 2 != b / 128 % 2)
  }

  /** Exclusive or, bit by bit. */
  lemma XorExactly(a: byte, b: byte)
    ensures Differ(a, b, Xor(a, b))
  {
    var r := Xor(a, b);
    forall k: nat | k < 8 ensures ShiftBits(r, k) % 2 == 1 <==> ShiftBits(a, k) % 2 != ShiftBits(b, k) % 2 {
      XorBitAt(a, b, 8, k);
    }
    ShiftIsDivision(a);
    ShiftIsDivision(b);
    ShiftIsDivision(r);
    hide ShiftBits, Xor;
  }

  /** Where the header of a frame ends, by its second byte. */
  function HeaderSize(second: byte): nat {
    2 + (if second % 128 == 126 then 2 else if second % 128 == 127 then 8 else 0) + if second >= 128 then 4 else 0
  }

  /** The number eight bytes denote, the most significant first. */
  function EightByteNumber(s: bytes): nat
    requires |s| == 8
  {
    (s[0] as int) * 72057594037927936 + (s[1] as int) * 281474976710656 + (s[2] as int) * 1099511627776
    + (s[3] as int) * 4294967296 + (s[4] as int) * 16777216 + (s[5] as int) * 65536 + (s[6] as int) * 256 + s[7]
  }

  /** What the bytes of a frame say, bit by bit (section 5.2 of RFC 6455). */
  predicate Says(data: bytes, frame: Frame)
    requires |data| >= 2 && |data| >= HeaderSize(data[1])
  {
    var n, size := data[1] % 128, HeaderSize(data[1]);
    && frame.fin == (data[0] / 128 % 2 == 1) && frame.opcode == data[0] % 16 && frame.mask == (data[1] / 128 % 2 == 1)
    && frame.payloadLength == (if n == 126 then (data[2] as int) * 256 + data[3]
                               else if n == 127 then EightByteNumber(data[2..10]) else n)
    && frame.maskingKey == (if frame.mask then data[size - 4..size] else [])
    && |frame.payload| == |data| - size
    && forall i :: 0 <= i < |frame.payload| ==>
         if frame.mask then Differ(data[size + i], data[size - 4 + i % 4], frame.payload[i])
         else frame.payload[i] == data[size + i]
  }

  lemma HeaderExactly(data: bytes)
    ensures HasHeader(data) <==> |data| >= 2 && |data| >= HeaderSize(data[1])
  {
  }

  /** The payload is the masked bytes, as they are given, exclusive or the key. */
  lemma ParseExactly(data: bytes)
    requires HasHeader(data)
    ensures |data| >= HeaderSize(data[1]) && Says(data, Parse(data))
  {
    var frame, start := Parse(data), LengthEnd(data);
    LengthExactly(data);
    if data[1] >= 128 {
      var key := data[start..start + 4];
      hide Xor, FromBigEndian, Differ;
      forall i | 0 <= i < |frame.payload| ensures Differ(data[start + 4 + i], data[start + i % 4], frame.payload[i]) {
        XorExactly(data[start + 4 + i], key[i % 4]);
      }
    }
  }

  lemma LengthExactly(data: bytes)
    requires |data| >= 2 && |data| >= LengthEnd(data)
    ensures var n := data[1] % 128;
            AnnouncedLength(data) == if n == 126 then (data[2] as int) * 256 + data[3]
                                     else if n == 127 then EightByteNumber(data[2..10]) else n
  {
    if data[1] % 128 == 126 {
      TwoBytes(data[2..4]);
    } else if data[1] % 128 == 127 {
      EightBytes(data[2..10]);
    }
  }

  /** The frame that is sent for a payload, byte by byte. */
  lemma BuildExactly(payload: bytes, opcode: byte)
    requires |payload| < 18446744073709551616
    ensures var f, n := Build(payload, opcode), |payload|;
            && |f| >= 2 && f[0] == 128 + opcode % 16
            && (n <= 125 ==> f[1] == n && f[2..] == payload)
            && (125 < n <= 65535 ==> |f| >= 4 && f[1] == 126 && (f[2] as int) * 256 + f[3] == n && f[4..] == payload)
            && (n > 65535 ==> |f| >= 10 && f[1] == 127 && EightByteNumber(f[2..10]) == n && f[10..] == payload)
  {
    var n, f := |payload|, Build(payload, opcode);
    assert Pow256(2) == 65536;
    PowerEight();
    if 125 < n <= 65535 {
      BigEndianRoundTrip(n, 2);
      TwoBytes(BigEndian(n, 2));
    } else if n > 65535 {
      BigEndianRoundTrip(n, 8);
      EightBytes(BigEndian(n, 8));
      hide BigEndian, FromBigEndian;
      assert f[2..10] == BigEndian(n, 8);
    }
  }

  lemma PowerEight()
    ensures Pow256(8) == 18446744073709551616
  {
    assert Pow256(4) == 4294967296;
    assert Pow256(6) == 281474976710656;
  }

  // ---------------------------------------------------------------- laws

  /** The frame a client sends: as Build, with the mask bit, the key, and the payload masked. */
  function BuildMasked(payload: bytes, opcode: byte, key: bytes): bytes
    requires |key| == 4
  {
    var f := LengthField(|payload|);
    [FIN + opcode % 16, MASK + f[0] % 128] + f[1..] + (key + Masked(payload, key))
  }

  /** Reading the header of a frame gives back the length it was built for, and the field is the shortest. */
  lemma LengthFieldRoundTrip(n: nat)
    requires n < Pow256(8)
    ensures var f := LengthField(n);
            && f[0] < 128
            && |f| == (if f[0] == 126 then 3 else if f[0] == 127 then 9 else 1)
            && n == (if |f| == 1 then f[0] else FromBigEndian(f[1..]))
            && (|f| == 3 ==> n > 125) && (|f| == 9 ==> n >= Pow256(2))
  {
    assert Pow256(2) == 65536;
    if n > 65535 {
      BigEndianRoundTrip(n, 8);
      assert LengthField(n)[1..] == BigEndian(n, 8);
    } else if n > 125 {
      BigEndianRoundTrip(n, 2);
      assert LengthField(n)[1..] == BigEndian(n, 2);
    }
  }

  lemma Layout(head: bytes, field: bytes, rest: bytes)
    requires |head| == 2
    ensures var data := head + field + rest;
            && data[0] == head[0] && data[1] == head[1]
            && data[2..2 + |field|] == field && data[2 + |field|..] == rest
  {
  }

  /** A header that holds the length field for n announces n. */
  lemma HeaderAnnounces(data: bytes, n: nat)
    requires n < Pow256(8)
    requires var f := LengthField(n);
             |data| >= 1 + |f| && data[1] % 128 == f[0] && data[2..1 + |f|] == f[1..]
    ensures LengthEnd(data) == 1 + |LengthField(n)| && AnnouncedLength(data) == n
  {
    LengthFieldRoundTrip(n);
  }

  /** Parsing a built frame: FIN, the low four bits of the opcode, the length and the payload come back. */
  lemma ServerRoundTrip(payload: bytes, opcode: byte)
    requires |payload| < Pow256(8)
    ensures HasHeader(Build(payload, opcode))
    ensures Parse(Build(payload, opcode)) == Frame(true, opcode % 16, false, |payload|, [], payload)
  {
    hide LengthField, FromBigEndian;
    LengthFieldRoundTrip(|payload|);
    var f := LengthField(|payload|);
    assert Build(payload, opcode) == [FIN + opcode % 16, f[0]] + f[1..] + payload;
    Layout([FIN + opcode % 16, f[0]], f[1..], payload);
    HeaderAnnounces(Build(payload, opcode), |payload|);
  }

  /** Parsing a single masked frame recovers the payload from under the mask. */
  lemma ClientRoundTrip(payload: bytes, opcode: byte, key: bytes)
    requires |payload| < Pow256(8) && |key| == 4
    ensures HasHeader(BuildMasked(payload, opcode, key))
    ensures Parse(BuildMasked(payload, opcode, key)) == Frame(true, opcode % 16, true, |payload|, key, payload)
  {
    hide LengthField, Masked, FromBigEndian, Parse, LengthEnd, AnnouncedLength;
    LengthFieldRoundTrip(|payload|);
    var f, masked := LengthField(|payload|), Masked(payload, key);
    var data := BuildMasked(payload, opcode, key);
    Layout([FIN + opcode % 16, MASK + f[0] % 128], f[1..], key + masked);
    HeaderAnnounces(data, |payload|);
    KeyAndPayload(data, 1 + |f|, key, masked);
    ParseMasked(data, |payload|, key, masked);
    MaskedTwice(payload, key);
  }

  lemma ParseMasked(data: bytes, n: nat, key: bytes, masked: bytes)
    requires |data| >= 2 && |data| >= LengthEnd(data) + 4 && data[1] >= MASK && |key| == 4
    requires AnnouncedLength(data) == n
    requires data[LengthEnd(data)..LengthEnd(data) + 4] == key && data[LengthEnd(data) + 4..] == masked
    ensures Parse(data) == Frame(data[0] >= FIN, data[0] % 16, true, n, key, Masked(masked, key))
  {
    hide AnnouncedLength, LengthEnd, Masked;
  }

  lemma KeyAndPayload(data: bytes, start: nat, key: bytes, masked: bytes)
    requires |key| == 4 && start <= |data| && data[start..] == key + masked
    ensures start + 4 <= |data| && data[start..start + 4] == key && data[start + 4..] == masked
  {
    assert data[start..start + 4] == data[start..][..4];
    assert data[start + 4..] == data[start..][4..];
  }
}

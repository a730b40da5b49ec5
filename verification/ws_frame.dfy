/** The frame codec of the WebSocket endpoint (lib/ws.js): `packMsg`, which
    frames an outgoing message, `unpackMsg`, which reads one incoming frame
    against the list of pending fragments, and the `data` listener that emits
    what `unpackMsg` returns.  The frame layout is the one of section 5.2 of
    RFC 6455; where the code departs from it, the model follows the code and
    the lemmas at the end of this module state the departure. */
module WsFrame {
  import opened Base
  import Utf8

  /** What `packMsg` accepts: a string, sent as its UTF-8 bytes, or a Buffer. */
  datatype Outgoing = TextOut(text: string) | BinaryOut(bytes: seq<byte>)

  /** What `unpackMsg` returns for a complete message. */
  datatype Message =
    | Text(text: string)
    | Close(statusCode: int, payload: seq<byte>)
    | Ping(payload: seq<byte>)
    | Pong(payload: seq<byte>)
    | Binary(payload: seq<byte>)

  /** The value the code dispatches on: the frame's own opcode nibble when it
      is non-zero; for a continuation frame, the first pending fragment, a
      Buffer, which equals no opcode. */
  datatype Opcode = Code(n: int) | Inherited

  /** The result of one `unpackMsg` call: the pending fragments afterwards and
      the returned message (`None` for `undefined`) or the thrown error. */
  datatype Outcome = Outcome(pending: seq<seq<byte>>, result: Result<Option<Message>>)

  /** FIN set, opcode 1 (text): the first byte of every frame `packMsg` writes. */
  const WsToken: byte := 0x81

  /** `chunk[k]` as an operand of `&`: `undefined` past the end reads as 0. */
  function At(chunk: seq<byte>, k: nat): (v: int)
    ensures 0 <= v < 256
    ensures k < |chunk| ==> v == chunk[k] as int
  {
    if k < |chunk| then chunk[k] as int else 0
  }

  /** The RangeError Node's Buffer readers and writers throw when `width`
      bytes at `offset` do not fit in a buffer of `length` bytes. */
  function BoundsError(offset: nat, length: nat, width: nat): Error
  {
    if length < width then Error(RangeError, "Attempt to access memory outside buffer bounds")
    else Error(RangeError, "The value of \"offset\" is out of range. It must be >= 0 and <= "
                           + DecimalString(length - width) + ". Received " + DecimalString(offset))
  }

  /** `buf.readUInt16BE(offset)`. */
  function ReadUInt16BE(buf: seq<byte>, offset: nat): (r: Result<nat>)
    ensures r.Success? <==> offset + 2 <= |buf|
    ensures r.Success? ==> r.value == (buf[offset] as int) * 256 + buf[offset + 1] as int
  {
    if offset + 2 <= |buf| then Success((buf[offset] as int) * 256 + buf[offset + 1] as int)
    else Failure(BoundsError(offset, |buf|, 2))
  }

  /** An unsigned 32-bit integer, as `DataView.getUint32` returns it. */
  type uint32 = x: int | 0 <= x < 0x1_0000_0000

  /** Four octets read as one big-endian 32-bit word. */
  function Word(a: byte, b: byte, c: byte, d: byte): uint32
  {
    (((a as int) * 0x100 + b as int) * 0x100 + c as int) * 0x100 + d as int
  }

  /** The octets of a word, most significant first: `(w >>> 24) & 0xFF`,
      `(w >>> 16) & 0xFF`, `(w >>> 8) & 0xFF`, `w & 0xFF`. */
  function Byte0(w: uint32): byte { (w / 0x100 / 0x100 / 0x100) as byte }
  function Byte1(w: uint32): byte { (w / 0x100 / 0x100 % 0x100) as byte }
  function Byte2(w: uint32): byte { (w / 0x100 % 0x100) as byte }
  function Byte3(w: uint32): byte { (w % 0x100) as byte }

  /** The masking key of a mask word, in the order the key octets appear on the wire. */
  function KeyOf(mask: uint32): (key: seq<byte>)
    ensures |key| == 4
  {
    [Byte0(mask), Byte1(mask), Byte2(mask), Byte3(mask)]
  }

  /** `buf.readUInt32BE(offset)`. */
  function ReadUInt32BE(buf: seq<byte>, offset: nat): (r: Result<uint32>)
    ensures r.Success? <==> offset + 4 <= |buf|
    ensures r.Success? ==> KeyOf(r.value) == buf[offset..offset + 4]
  {
    if offset + 4 <= |buf| then
      var w := Word(buf[offset], buf[offset + 1], buf[offset + 2], buf[offset + 3]);
      WordBytes(buf[offset], buf[offset + 1], buf[offset + 2], buf[offset + 3]);
      Success(w)
    else Failure(BoundsError(offset, |buf|, 4))
  }

  lemma WordBytes(a: byte, b: byte, c: byte, d: byte)
    ensures KeyOf(Word(a, b, c, d)) == [a, b, c, d]
  {
    var ab := (a as int) * 0x100 + b as int;
    var abc := ab * 0x100 + c as int;
    ShiftOctet(abc, d as int);
    ShiftOctet(ab, c as int);
    ShiftOctet(a as int, b as int);
  }

  lemma ShiftOctet(x: int, lo: int)
    requires 0 <= lo < 0x100
    ensures (x * 0x100 + lo) / 0x100 == x && (x * 0x100 + lo) % 0x100 == lo
  {
  }

  /** Every word is the word of its own octets. */
  lemma BytesWord(w: uint32)
    ensures Word(Byte0(w), Byte1(w), Byte2(w), Byte3(w)) == w
  {
  }

  function Pow2(n: nat): nat
  {
    if n == 0 then 1 else 2 * Pow2(n - 1)
  }

  lemma Pow2Values()
    ensures Pow2(8) == 0x100 && Pow2(16) == 0x1_0000 && Pow2(24) == 0x100_0000 && Pow2(32) == 0x1_0000_0000
  {
  }

  /** Bitwise exclusive or of the low `n` bits of `a` and `b`. */
  function XorBits(a: nat, b: nat, n: nat): nat
  {
    if n == 0 then 0 else 2 * XorBits(a / 2, b / 2, n - 1) + (if a % 2 == b % 2 then 0 else 1)
  }

  lemma {:induction false} XorBitsBound(a: nat, b: nat, n: nat)
    ensures XorBits(a, b, n) < Pow2(n)
  {
    if n > 0 {
      XorBitsBound(a / 2, b / 2, n - 1);
    }
  }

  /** `a ^ b` on two octets. */
  function Xor(a: byte, b: byte): byte
  {
    XorBitsBound(a as int, b as int, 8);
    Pow2Values();
    XorBits(a as int, b as int, 8) as byte
  }

  /** `v ^ w` on two 32-bit words, read as unsigned. */
  function Xor32(v: uint32, w: uint32): uint32
  {
    XorBitsBound(v, w, 32);
    Pow2Values();
    XorBits(v, w, 32)
  }

  /** Exclusive or with the same operand twice is the identity. */
  lemma {:induction false} XorBitsTwice(a: nat, b: nat, n: nat)
    requires a < Pow2(n)
    ensures XorBits(XorBits(a, b, n), b, n) == a
  {
    if n > 0 {
      var x := XorBits(a, b, n);
      var h := XorBits(a / 2, b / 2, n - 1);
      assert x / 2 == h && x % 2 == (if a % 2 == b % 2 then 0 else 1);
      XorBitsTwice(a / 2, b / 2, n - 1);
    }
  }

  lemma XorTwice(a: byte, m: byte)
    ensures Xor(Xor(a, m), m) == a
  {
    Pow2Values();
    XorBitsTwice(a as int, m as int, 8);
  }

  /** Exclusive or on `m + k` bits is exclusive or on the low `m` bits and on
      the `k` bits above them. */
  lemma {:induction false} XorBitsSplit(hi: nat, lo: nat, hi': nat, lo': nat, m: nat, k: nat)
    requires lo < Pow2(m) && lo' < Pow2(m)
    ensures XorBits(hi * Pow2(m) + lo, hi' * Pow2(m) + lo', m + k)
         == XorBits(lo, lo', m) + Pow2(m) * XorBits(hi, hi', k)
  {
    if m > 0 {
      var p: int := Pow2(m - 1);
      var x, x' := hi * Pow2(m) + lo, hi' * Pow2(m) + lo';
      HalfOf(hi, lo, p, x);
      HalfOf(hi', lo', p, x');
      var t: int := XorBits(hi, hi', k);
      var low: int := XorBits(lo / 2, lo' / 2, m - 1);
      var bit := if lo % 2 == lo' % 2 then 0 else 1;
      XorBitsSplit(hi, lo / 2, hi', lo' / 2, m - 1, k);
      var pt: int := p * t;
      assert XorBits(x / 2, x' / 2, m - 1 + k) == low + pt;
      assert XorBits(x, x', m + k) == 2 * (low + pt) + bit;
      assert XorBits(lo, lo', m) == 2 * low + bit;
      Double(p, t, Pow2(m));
    }
  }

  lemma Double(p: int, t: int, q: int)
    requires q == 2 * p
    ensures q * t == 2 * (p * t)
  {
  }

  lemma HalfOf(hi: nat, lo: nat, p: nat, x: nat)
    requires x == hi * (2 * p) + lo && lo < 2 * p
    ensures x / 2 == hi * p + lo / 2 && x % 2 == lo % 2 && lo / 2 < p
  {
    var q := hi * p;
    assert hi * (2 * p) == 2 * q;
  }

  /** Exclusive or on the octet below `k` further bits. */
  lemma ByteSplit(hi: nat, lo: nat, hi': nat, lo': nat, k: nat)
    requires lo < 0x100 && lo' < 0x100
    ensures XorBits(hi * 0x100 + lo, hi' * 0x100 + lo', 8 + k) == XorBits(lo, lo', 8) + 0x100 * XorBits(hi, hi', k)
  {
    Pow2Values();
    XorBitsSplit(hi, lo, hi', lo', 8, k);
  }

  /** XOR of whole words acts octet by octet. */
  lemma WordXor(a: byte, b: byte, c: byte, d: byte, e: byte, f: byte, g: byte, h: byte)
    ensures Xor32(Word(a, b, c, d), Word(e, f, g, h)) == Word(Xor(a, e), Xor(b, f), Xor(c, g), Xor(d, h))
  {
    var ab, ef := (a as int) * 0x100 + b as int, (e as int) * 0x100 + f as int;
    var abc, efg := ab * 0x100 + c as int, ef * 0x100 + g as int;
    ByteSplit(a as int, b as int, e as int, f as int, 8);
    ByteSplit(ab, c as int, ef, g as int, 16);
    ByteSplit(abc, d as int, efg, h as int, 24);
  }

  /** Masking as section 5.3 of RFC 6455 defines it: octet `k` is XORed with
      key octet `k mod 4`. */
  function MaskBytes(data: seq<byte>, key: seq<byte>): (r: seq<byte>)
    requires |key| == 4
    ensures |r| == |data|
  {
    if |data| == 0 then []
    else MaskBytes(data[..|data| - 1], key) + [Xor(data[|data| - 1], key[(|data| - 1) % 4])]
  }

  lemma {:induction false} MaskBytesAt(data: seq<byte>, key: seq<byte>, k: nat)
    requires |key| == 4 && k < |data|
    ensures MaskBytes(data, key)[k] == Xor(data[k], key[k % 4])
  {
    if k < |data| - 1 {
      MaskBytesAt(data[..|data| - 1], key, k);
    }
  }

  /** Masking twice with the same key restores the data, so unmasking a
      masked payload yields the payload. */
  lemma MaskInvolution(data: seq<byte>, key: seq<byte>)
    requires |key| == 4
    ensures MaskBytes(MaskBytes(data, key), key) == data
  {
    var once := MaskBytes(data, key);
    var twice := MaskBytes(once, key);
    forall k | 0 <= k < |data|
      ensures twice[k] == data[k]
    {
      MaskBytesAt(data, key, k);
      MaskBytesAt(once, key, k);
      XorTwice(data[k], key[k % 4]);
    }
  }

  /** `view.setUint32(j, w)` on a buffer: the word's octets, most significant first. */
  function SetUint32(view: seq<byte>, j: nat, w: uint32): (r: seq<byte>)
    requires j + 4 <= |view|
    ensures |r| == |view|
  {
    SetOctets(view, j, Byte0(w), Byte1(w), Byte2(w), Byte3(w))
  }

  function SetOctets<T>(view: seq<T>, j: nat, x0: T, x1: T, x2: T, x3: T): (r: seq<T>)
    requires j + 4 <= |view|
    ensures |r| == |view|
  {
    view[j := x0][j + 1 := x1][j + 2 := x2][j + 3 := x3]
  }

  /** The first `j` octets of `view` are those of `body` unmasked, the rest are
      still as received. */
  ghost predicate UnmaskedUpTo(view: seq<byte>, body: seq<byte>, key: seq<byte>, j: nat)
    requires |key| == 4
  {
    j <= |body| && view == MaskBytes(body[..j], key) + body[j..]
  }

  /** Masking one more octet extends the masked prefix. */
  lemma MaskSnoc(body: seq<byte>, key: seq<byte>, j: nat)
    requires |key| == 4 && j < |body|
    ensures MaskBytes(body[..j + 1], key) == MaskBytes(body[..j], key) + [Xor(body[j], key[j % 4])]
  {
    assert body[..j + 1][..j] == body[..j];
  }

  lemma UpdateSplit<T>(view: seq<T>, done: seq<T>, body: seq<T>, j: nat, x: T)
    requires j < |body| && |done| == j && view == done + body[j..]
    ensures view[j := x] == (done + [x]) + body[j + 1..]
  {
  }

  /** Unmasking octet `j`, the `i`-th of its group of four. */
  lemma OctetStep(view: seq<byte>, body: seq<byte>, key: seq<byte>, j: nat, i: nat)
    requires |key| == 4 && j < |body| && UnmaskedUpTo(view, body, key, j) && i < 4 && j % 4 == i
    ensures UnmaskedUpTo(view[j := Xor(view[j], key[i])], body, key, j + 1)
  {
    MaskSnoc(body, key, j);
    UpdateSplit(view, MaskBytes(body[..j], key), body, j, Xor(view[j], key[i]));
  }

  /** Four octets written over the head of the unprocessed part. */
  lemma UpdateSplit4<T>(view: seq<T>, done: seq<T>, body: seq<T>, j: nat, x0: T, x1: T, x2: T, x3: T)
    requires j + 4 <= |body| && |done| == j && view == done + body[j..]
    ensures SetOctets(view, j, x0, x1, x2, x3) == (done + [x0, x1, x2, x3]) + body[j + 4..]
    ensures view[j] == body[j] && view[j + 1] == body[j + 1] && view[j + 2] == body[j + 2] && view[j + 3] == body[j + 3]
  {
  }

  /** Masking four more octets, starting at a multiple of four. */
  lemma MaskSnoc4(body: seq<byte>, key: seq<byte>, j: nat)
    requires |key| == 4 && j % 4 == 0 && j + 4 <= |body|
    ensures MaskBytes(body[..j + 4], key)
         == MaskBytes(body[..j], key) + [Xor(body[j], key[0]), Xor(body[j + 1], key[1]), Xor(body[j + 2], key[2]), Xor(body[j + 3], key[3])]
  {
    ModFour(j);
    MaskSnocAt(body, key, j, 0);
    MaskSnocAt(body, key, j + 1, 1);
    MaskSnocAt(body, key, j + 2, 2);
    MaskSnocAt(body, key, j + 3, 3);
    Snoc4(MaskBytes(body[..j], key), Xor(body[j], key[0]), Xor(body[j + 1], key[1]), Xor(body[j + 2], key[2]), Xor(body[j + 3], key[3]));
  }

  lemma ModFour(j: int)
    requires j % 4 == 0
    ensures (j + 1) % 4 == 1 && (j + 2) % 4 == 2 && (j + 3) % 4 == 3
  {
  }

  lemma MaskSnocAt(body: seq<byte>, key: seq<byte>, j: nat, i: nat)
    requires |key| == 4 && j < |body| && i < 4 && j % 4 == i
    ensures MaskBytes(body[..j + 1], key) == MaskBytes(body[..j], key) + [Xor(body[j], key[i])]
  {
    MaskSnoc(body, key, j);
  }

  lemma Snoc4<T>(p: seq<T>, x0: T, x1: T, x2: T, x3: T)
    ensures ((p + [x0]) + [x1]) + [x2] + [x3] == p + [x0, x1, x2, x3]
  {
  }

  /** `view.setUint32(j, view.getUint32(j) ^ mask)` XORs the four octets at `j`
      with the key octets in order. */
  lemma SetWordXor(view: seq<byte>, j: nat, mask: uint32)
    requires j + 4 <= |view|
    ensures SetUint32(view, j, Xor32(Word(view[j], view[j + 1], view[j + 2], view[j + 3]), mask))
         == SetOctets(view, j, Xor(view[j], Byte0(mask)), Xor(view[j + 1], Byte1(mask)),
                      Xor(view[j + 2], Byte2(mask)), Xor(view[j + 3], Byte3(mask)))
  {
    var w := Xor32(Word(view[j], view[j + 1], view[j + 2], view[j + 3]), mask);
    BytesWord(mask);
    WordXor(view[j], view[j + 1], view[j + 2], view[j + 3], Byte0(mask), Byte1(mask), Byte2(mask), Byte3(mask));
    WordBytes(Xor(view[j], Byte0(mask)), Xor(view[j + 1], Byte1(mask)), Xor(view[j + 2], Byte2(mask)), Xor(view[j + 3], Byte3(mask)));
  }

  /** One pass of the word loop unmasks the next four octets. */
  lemma WordStep(view: seq<byte>, body: seq<byte>, mask: uint32, j: nat)
    requires j % 4 == 0 && j + 4 <= |body| && UnmaskedUpTo(view, body, KeyOf(mask), j)
    ensures UnmaskedUpTo(SetUint32(view, j, Xor32(Word(view[j], view[j + 1], view[j + 2], view[j + 3]), mask)),
                         body, KeyOf(mask), j + 4)
  {
    var key := KeyOf(mask);
    var x0, x1, x2, x3 := Xor(body[j], key[0]), Xor(body[j + 1], key[1]), Xor(body[j + 2], key[2]), Xor(body[j + 3], key[3]);
    UpdateSplit4(view, MaskBytes(body[..j], key), body, j, x0, x1, x2, x3);
    SetWordXor(view, j, mask);
    MaskSnoc4(body, key, j);
  }

  lemma Finished<T>(view: seq<T>, done: seq<T>, body: seq<T>, j: nat)
    requires j == |body| && view == done + body[j..]
    ensures view == done && body[..j] == body
  {
  }

  lemma RoomForWord(j: int, n: int, len: int)
    requires j % 4 == 0 && n == len / 4 * 4 && j < n
    ensures j + 4 <= n <= len
  {
  }

  lemma AddFour(j: int)
    requires j % 4 == 0
    ensures (j + 4) % 4 == 0
  {
  }

  lemma FourSplit(len: nat, n: int, r: int)
    requires n == len / 4 * 4 && r == len % 4
    ensures n + r == len && n % 4 == 0 && 0 <= r < 4
    ensures (n + 1) % 4 == 1 && (n + 2) % 4 == 2
  {
  }

  /** The word loop of `unpackMsg`'s unmasking: `view.setUint32(j,
      view.getUint32(j) ^ mask)` for every whole word of the body. */
  method UnmaskWords(body: seq<byte>, mask: uint32) returns (view: seq<byte>, j: nat)
    ensures j == |body| / 4 * 4
    ensures UnmaskedUpTo(view, body, KeyOf(mask), j)
  {
    var key := KeyOf(mask);
    view := body;
    // `(len >>> 2) << 2`; a buffer is shorter than 2^31 bytes
    var n := |body| / 4 * 4;
    j := 0;
    while j < n
      invariant 0 <= j <= n && j % 4 == 0 && |view| == |body|
      invariant UnmaskedUpTo(view, body, key, j)
    {
      RoomForWord(j, n, |body|);
      var w := Xor32(Word(view[j], view[j + 1], view[j + 2], view[j + 3]), mask);
      WordStep(view, body, mask, j);
      view := SetUint32(view, j, w);
      AddFour(j);
      j := j + 4;
    }
  }

  /** The unmasking in `unpackMsg`: the body is copied into a fresh buffer,
      XORed with the mask word four bytes at a time, and the remaining
      `len & 3` bytes are XORed with the mask's leading octets. */
  method Unmask(body: seq<byte>, mask: uint32) returns (message: seq<byte>)
    ensures message == MaskBytes(body, KeyOf(mask))
  {
    var key := KeyOf(mask);
    // `(mask >>> 24) & 0xFF`, `(mask >>> 16) & 0xFF`, `(mask >>> 8) & 0xFF`
    var m0, m1, m2 := key[0], key[1], key[2];
    var view, n := UnmaskWords(body, mask);
    var j := n;
    // `len & 3`
    var r := |body| % 4;
    FourSplit(|body|, n, r);
    if r >= 1 {
      OctetStep(view, body, key, n, 0);
      view := view[j := Xor(view[j], m0)];
      j := j + 1;
    }
    if r >= 2 {
      OctetStep(view, body, key, n + 1, 1);
      view := view[j := Xor(view[j], m1)];
      j := j + 1;
    }
    if r >= 3 {
      OctetStep(view, body, key, n + 2, 2);
      view := view[j := Xor(view[j], m2)];
      j := j + 1;
    }
    Finished(view, MaskBytes(body[..j], key), body, j);
    message := view;
  }

  /** The octets `packMsg` sends for a message. */
  function PayloadOf(m: Outgoing): seq<byte>
  {
    match m
    case TextOut(s) => Utf8.Encode(s)
    case BinaryOut(bytes) => bytes
  }

  /** A big-endian unsigned integer. */
  function BigEndian(bs: seq<byte>): nat
  {
    if |bs| == 0 then 0 else BigEndian(bs[..|bs| - 1]) * 256 + bs[|bs| - 1] as int
  }

  /** Payload length and header size of an unmasked frame, with the header laid
      out as section 5.2 of RFC 6455 prescribes: a 7-bit length, or 126
      followed by a 16-bit length, or 127 followed by a 64-bit length. */
  function RfcLength(frame: seq<byte>): Option<(nat, nat)>
  {
    if |frame| < 2 then None
    else
      var code := (frame[1] as int) % 128;
      if code < 126 then Some((code, 2))
      else if code == 126 then
        if |frame| < 4 then None else Some((BigEndian(frame[2..4]), 4))
      else if |frame| < 10 then None else Some((BigEndian(frame[2..10]), 10))
  }

  /** `packMsg`: one final text frame carrying the whole message.  A payload
      longer than 65535 octets makes the 32-bit length write overrun the
      4-byte header buffer, which Node reports as a RangeError. */
  function PackMsg(m: Outgoing): (r: Result<seq<byte>>)
    ensures r.Success? <==> |PayloadOf(m)| <= 0xFFFF
    ensures r.Success? ==> |r.value| >= 2 && r.value[0] == WsToken
    ensures r.Success? ==> EndsWith(r.value, PayloadOf(m))
    ensures r.Success? ==> RfcLength(r.value) == Some((|PayloadOf(m)|, |r.value| - |PayloadOf(m)|))
    ensures r.Failure? ==> r.error.kind == RangeError
  {
    var p := PayloadOf(m);
    var n := |p|;
    if n < 126 then
      var head := [WsToken, Utf8.B(n)];
      HeaderThenPayload(head, p);
      Success(head + p)
    else if n <= 0xFFFF then
      var head := [WsToken, Utf8.B(126), Utf8.B(n / 256), Utf8.B(n % 256)];
      HeaderThenPayload(head, p);
      assert BigEndian((head + p)[2..4]) == n by {
        assert (head + p)[2..4] == [head[2], head[3]];
        BigEndian2(head[2], head[3]);
      }
      Success(head + p)
    else Failure(BoundsError(4, 4, 4))
  }

  lemma HeaderThenPayload<T>(head: seq<T>, p: seq<T>)
    ensures (head + p)[..|head|] == head && (head + p)[|head|..] == p
    ensures forall k :: 0 <= k < |head| ==> (head + p)[k] == head[k]
  {
  }

  lemma BigEndian2(hi: byte, lo: byte)
    ensures BigEndian([hi, lo]) == (hi as int) * 256 + lo as int
  {
    assert [hi, lo][..1] == [hi];
    assert [hi][..0] == [];
    assert BigEndian([hi]) == hi as int;
  }

  /** The error for a masked frame whose body is not as long as its header says. */
  function LengthMismatch(expected: nat, actual: nat): Error
  {
    Error(PlainError, "Websocket - Received frame length mismatch! Expected=" + DecimalString(expected)
                      + ", actual=" + DecimalString(actual))
  }

  /** The declared payload length of a frame and the offset at which the
      code reads on: 127 (a 64-bit length) is refused; 126 reads a 16-bit
      length and then skips eight octets where the header has two. */
  function DeclaredLength(chunk: seq<byte>): (r: Result<(nat, nat)>)
    ensures r.Success? ==> r.value.1 == 2 || r.value.1 == 10
  {
    var code: nat := At(chunk, 1) % 128;
    if code == 127 then Failure(Error(RangeError, "TODO: Big websocket frame not supported yet!"))
    else if code == 126 then
      var len :- ReadUInt16BE(chunk, 2);
      Success((len, 10))
    else Success((code, 2))
  }

  /** The payload after the length field: a masked body must be exactly as long
      as declared and is unmasked; an unmasked frame takes everything from
      offset `i` on, whatever its declared length. */
  function FrameBody(chunk: seq<byte>, len: nat, i: nat, hasMask: bool): Result<seq<byte>>
  {
    if hasMask then
      var mask :- ReadUInt32BE(chunk, i);
      var body := chunk[i + 4..];
      if len != |body| then Failure(LengthMismatch(len, |body|))
      else Success(MaskBytes(body, KeyOf(mask)))
    else Success(if i <= |chunk| then chunk[i..] else [])
  }

  /** The payload of one frame as `unpackMsg` extracts it. */
  function FramePayload(chunk: seq<byte>): Result<seq<byte>>
  {
    var (len, i) :- DeclaredLength(chunk);
    FrameBody(chunk, len, i, At(chunk, 1) >= 0x80)
  }

  /** What a complete message becomes, by the opcode the code dispatches on. */
  function Classify(op: Opcode, message: seq<byte>): (r: Result<Option<Message>>)
    ensures r.Success? ==> r.value.Some?
    ensures op == Code(1) ==> r == Success(Some(Text(Utf8.DecodeLossy(message))))
    ensures op == Code(8) ==> (r.Success? <==> |message| >= 2)
    ensures op == Code(8) && |message| >= 2 ==>
      r.value.value == Close(message[0] as int * 256 + message[1] as int, message[2..])
    ensures op == Code(8) && |message| < 2 ==> r.error.kind == RangeError
    ensures op == Code(9) ==> r == Success(Some(Ping(message)))
    ensures op == Code(10) ==> r == Success(Some(Pong(message)))
    ensures op !in {Code(1), Code(8), Code(9), Code(10)} ==> r == Success(Some(Binary(message)))
  {
    if op == Code(1) then Success(Some(Text(Utf8.DecodeLossy(message))))
    else if op == Code(8) then
      var status :- ReadUInt16BE(message, 0);
      Success(Some(Close(status, message[2..])))
    else if op == Code(9) then Success(Some(Ping(message)))
    else if op == Code(10) then Success(Some(Pong(message)))
    else Success(Some(Binary(message)))
  }

  /** `chunk[0] & 0xF || prev[0]`: the opcode nibble, or the first pending
      fragment when the nibble is zero. */
  function OpcodeOf(b0: int): Opcode
  {
    if b0 % 16 != 0 then Code(b0 % 16) else Inherited
  }

  /** `unpackMsg(chunk, prev)`: a non-final frame is appended to the pending
      fragments; a final one is joined to them, the pending list is emptied,
      and the whole is classified by the opcode. */
  function UnpackMsg(chunk: seq<byte>, prev: seq<seq<byte>>): (o: Outcome)
    ensures o.result.Success? && o.result.value.None? ==> |o.pending| == |prev| + 1 && o.pending[..|prev|] == prev
    ensures o.result.Success? && o.result.value.Some? ==> o.pending == []
    ensures o.result.Failure? ==> o.pending == prev || o.pending == []
    ensures |prev| == 0 && At(chunk, 0) % 16 == 0 ==> o.result.Failure?
  {
    var b0 := At(chunk, 0);
    if b0 % 16 == 0 && |prev| == 0 then Outcome(prev, Failure(Error(RangeError, "opcode not defined!")))
    else
      var op := OpcodeOf(b0);
      match FramePayload(chunk)
      case Failure(e) => Outcome(prev, Failure(e))
      case Success(message) =>
        if b0 < 0x80 then
          assert (prev + [message])[..|prev|] == prev;
          Outcome(prev + [message], Success(None))
        else Outcome([], Classify(op, Concat(prev + [message])))
  }

  /** `if (msg)`: every returned value is truthy except the empty string. */
  predicate Truthy(m: Message)
  {
    !(m.Text? && m.text == "")
  }

  /** The socket's `data` listener: unpack the chunk into the connection's
      pending fragments and emit `data` with the message when it is truthy.
      The result is the pending fragments afterwards and the emitted message
      (`None` when nothing is emitted) or the error the listener throws. */
  function OnData(pending: seq<seq<byte>>, chunk: seq<byte>): (r: (seq<seq<byte>>, Result<Option<Message>>))
    ensures r.0 == UnpackMsg(chunk, pending).pending
    ensures r.1.Success? && r.1.value.Some? ==> Truthy(r.1.value.value) && UnpackMsg(chunk, pending).result == r.1
    ensures r.1.Failure? <==> UnpackMsg(chunk, pending).result.Failure?
    ensures var u := UnpackMsg(chunk, pending).result;
      u.Success? && u.value.Some? && Truthy(u.value.value) ==> r.1 == u
  {
    var o := UnpackMsg(chunk, pending);
    match o.result
    case Failure(e) => (o.pending, Failure(e))
    case Success(m) => (o.pending, Success(if m.Some? && Truthy(m.value) then m else None))
  }

  /** A frame as a client sends it under section 5.2 of RFC 6455: FIN bit and
      opcode, the mask bit with the shortest length form that fits, the masking
      key and the masked payload. */
  function ClientFrame(fin: bool, opcode: nat, key: seq<byte>, payload: seq<byte>): (f: seq<byte>)
    requires opcode < 16 && |key| == 4 && |payload| <= 0xFFFF
    ensures |f| == (if |payload| < 126 then 6 else 8) + |payload|
  {
    var b0 := Utf8.B((if fin then 0x80 else 0) + opcode);
    var n := |payload|;
    var head := if n < 126 then [b0, Utf8.B(0x80 + n)]
                else [b0, Utf8.B(0x80 + 126), Utf8.B(n / 256), Utf8.B(n % 256)];
    head + key + MaskBytes(payload, key)
  }

  lemma FrameParts<T>(head: seq<T>, key: seq<T>, body: seq<T>)
    ensures (head + key + body)[|head|..|head| + |key|] == key
    ensures (head + key + body)[|head| + |key|..] == body
    ensures forall k :: 0 <= k < |head| ==> (head + key + body)[k] == head[k]
  {
  }

  /** The header fields of a client frame with the 7-bit length form. */
  lemma ShortFrameShape(fin: bool, opcode: nat, key: seq<byte>, payload: seq<byte>)
    requires opcode < 16 && |key| == 4 && |payload| < 126
    ensures var f := ClientFrame(fin, opcode, key, payload);
      && At(f, 0) == (if fin then 0x80 else 0) + opcode && At(f, 1) == 0x80 + |payload|
      && f[2..6] == key && f[6..] == MaskBytes(payload, key)
  {
    var head := [Utf8.B((if fin then 0x80 else 0) + opcode), Utf8.B(0x80 + |payload|)];
    FrameParts(head, key, MaskBytes(payload, key));
  }

  /** The header fields of a client frame with the 16-bit length form. */
  lemma MediumFrameShape(fin: bool, opcode: nat, key: seq<byte>, payload: seq<byte>)
    requires opcode < 16 && |key| == 4 && 126 <= |payload| <= 0xFFFF
    ensures var f := ClientFrame(fin, opcode, key, payload);
      && At(f, 0) == (if fin then 0x80 else 0) + opcode && At(f, 1) == 0x80 + 126
      && ReadUInt16BE(f, 2) == Success(|payload|) && |f| == 8 + |payload|
  {
    var n := |payload|;
    var head := [Utf8.B((if fin then 0x80 else 0) + opcode), Utf8.B(0x80 + 126), Utf8.B(n / 256), Utf8.B(n % 256)];
    FrameParts(head, key, MaskBytes(payload, key));
  }

  /** `FramePayload` of a masked frame with the 7-bit length form. */
  lemma MaskedShortPayload(chunk: seq<byte>, n: nat, key: seq<byte>, body: seq<byte>)
    requires n < 126 && |chunk| >= 6 && At(chunk, 1) == 0x80 + n
    requires chunk[2..6] == key && chunk[6..] == body && |body| == n
    ensures FramePayload(chunk) == Success(MaskBytes(body, key))
  {
    assert DeclaredLength(chunk) == Success((n, 2));
    MaskedBody(chunk, n, 2, key);
  }

  lemma MaskedBody(chunk: seq<byte>, n: nat, i: nat, key: seq<byte>)
    requires i + 4 <= |chunk| && chunk[i..i + 4] == key && |chunk| - i - 4 == n
    ensures FrameBody(chunk, n, i, true) == Success(MaskBytes(chunk[i + 4..], key))
  {
    var mask := ReadUInt32BE(chunk, i).value;
    assert KeyOf(mask) == key;
  }

  /** `FramePayload` of a masked frame with the 16-bit length form. */
  lemma MaskedMediumPayload(chunk: seq<byte>, n: nat)
    requires 126 <= n && |chunk| == 8 + n && At(chunk, 1) == 0x80 + 126
    requires ReadUInt16BE(chunk, 2) == Success(n)
    ensures FramePayload(chunk) == Failure(LengthMismatch(n, n - 6))
  {
    assert DeclaredLength(chunk) == Success((n, 10));
    ShortBody(chunk, n);
  }

  lemma ShortBody(chunk: seq<byte>, n: nat)
    requires 126 <= n && |chunk| == 8 + n
    ensures FrameBody(chunk, n, 10, true) == Failure(LengthMismatch(n, n - 6))
  {
    assert |chunk[14..]| == n - 6;
  }

  /** A short masked frame yields exactly the payload that was masked. */
  lemma FramePayloadShort(fin: bool, opcode: nat, key: seq<byte>, payload: seq<byte>)
    requires opcode < 16 && |key| == 4 && |payload| < 126
    ensures FramePayload(ClientFrame(fin, opcode, key, payload)) == Success(payload)
  {
    var f := ClientFrame(fin, opcode, key, payload);
    ShortFrameShape(fin, opcode, key, payload);
    MaskedShortPayload(f, |payload|, key, MaskBytes(payload, key));
    MaskInvolution(payload, key);
  }

  /** A masked frame with the 16-bit length form is always refused: the code
      reads the mask eight octets too late, so the body it measures is six
      octets shorter than the declared length. */
  lemma FramePayloadMediumMasked(fin: bool, opcode: nat, key: seq<byte>, payload: seq<byte>)
    requires opcode < 16 && |key| == 4 && 126 <= |payload| <= 0xFFFF
    ensures FramePayload(ClientFrame(fin, opcode, key, payload)) == Failure(LengthMismatch(|payload|, |payload| - 6))
  {
    var f := ClientFrame(fin, opcode, key, payload);
    MediumFrameShape(fin, opcode, key, payload);
    MaskedMediumPayload(f, |payload|);
  }

  /** A frame announcing a 64-bit length is refused whatever follows. */
  lemma LongFramesRefused(chunk: seq<byte>, prev: seq<seq<byte>>)
    requires At(chunk, 0) % 16 != 0 || |prev| > 0
    requires At(chunk, 1) % 128 == 127
    ensures UnpackMsg(chunk, prev)
         == Outcome(prev, Failure(Error(RangeError, "TODO: Big websocket frame not supported yet!")))
  {
  }

  /** `unpackMsg` on any frame whose payload reads without error. */
  lemma UnpackFrame(chunk: seq<byte>, prev: seq<seq<byte>>, payload: seq<byte>)
    requires At(chunk, 0) % 16 != 0 || |prev| > 0
    requires FramePayload(chunk) == Success(payload)
    ensures UnpackMsg(chunk, prev)
         == if At(chunk, 0) < 0x80 then Outcome(prev + [payload], Success(None))
            else Outcome([], Classify(OpcodeOf(At(chunk, 0)), Concat(prev + [payload])))
  {
  }

  /** The payload of an unmasked frame with the 7-bit length form is all that
      follows the two header octets. */
  lemma UnmaskedShortPayload(chunk: seq<byte>)
    requires |chunk| >= 2 && At(chunk, 1) < 126
    ensures FramePayload(chunk) == Success(chunk[2..])
  {
    assert DeclaredLength(chunk) == Success((At(chunk, 1), 2));
  }

  /** The payload of an unmasked frame with the 16-bit length form is read
      from offset 10 on. */
  lemma UnmaskedMediumPayload(chunk: seq<byte>, n: nat)
    requires At(chunk, 1) == 126 && ReadUInt16BE(chunk, 2) == Success(n) && |chunk| >= 10
    ensures FramePayload(chunk) == Success(chunk[10..])
  {
    assert DeclaredLength(chunk) == Success((n, 10));
  }

  /** `unpackMsg` on a short client frame: a non-final frame is queued, a final
      one completes the message with the queued fragments, dispatched on its
      own opcode or, for a continuation frame, on none. */
  lemma UnpackShortFrame(fin: bool, opcode: nat, key: seq<byte>, payload: seq<byte>, prev: seq<seq<byte>>)
    requires opcode < 16 && |key| == 4 && |payload| < 126
    requires opcode != 0 || |prev| > 0
    ensures UnpackMsg(ClientFrame(fin, opcode, key, payload), prev)
         == if !fin then Outcome(prev + [payload], Success(None))
            else Outcome([], Classify(if opcode != 0 then Code(opcode) else Inherited, Concat(prev + [payload])))
  {
    var f := ClientFrame(fin, opcode, key, payload);
    ShortFrameShape(fin, opcode, key, payload);
    FramePayloadShort(fin, opcode, key, payload);
    FirstOctet(fin, opcode);
    UnpackFrame(f, prev, payload);
  }

  /** The first octet of a client frame carries the FIN bit and the opcode. */
  lemma FirstOctet(fin: bool, opcode: nat)
    requires opcode < 16
    ensures var b0 := (if fin then 0x80 else 0) + opcode;
      && b0 % 16 == opcode && (b0 < 0x80 <==> !fin)
      && OpcodeOf(b0) == if opcode != 0 then Code(opcode) else Inherited
  {
  }

  /** A single final text frame from a client arrives as the text it carries. */
  lemma UnpackClientText(s: string, key: seq<byte>)
    requires |key| == 4 && |Utf8.Encode(s)| < 126
    ensures UnpackMsg(ClientFrame(true, 1, key, Utf8.Encode(s)), []) == Outcome([], Success(Some(Text(s))))
  {
    UnpackShortFrame(true, 1, key, Utf8.Encode(s), []);
    SingleConcat(Utf8.Encode(s));
    Utf8.DecodeLossyEncode(s);
  }

  lemma SingleConcat(p: seq<byte>)
    ensures Concat([] + [p]) == p
  {
    ConcatAppend([], p);
  }

  /** The listener emits a client's text message unless it is empty. */
  lemma OnDataText(s: string, key: seq<byte>)
    requires |key| == 4 && |Utf8.Encode(s)| < 126
    ensures OnData([], ClientFrame(true, 1, key, Utf8.Encode(s)))
         == ([], Success(if s == "" then None else Some(Text(s))))
  {
    UnpackClientText(s, key);
  }

  /** A text message split in two frames is delivered as binary: the
      continuation frame's opcode is taken from the pending fragment, which
      matches no opcode. */
  lemma FragmentedTextIsBinary(k1: seq<byte>, p1: seq<byte>, k2: seq<byte>, p2: seq<byte>)
    requires |k1| == 4 && |k2| == 4 && |p1| < 126 && |p2| < 126
    ensures UnpackMsg(ClientFrame(false, 1, k1, p1), []) == Outcome([p1], Success(None))
    ensures UnpackMsg(ClientFrame(true, 0, k2, p2), [p1]) == Outcome([], Success(Some(Binary(p1 + p2))))
  {
    UnpackShortFrame(false, 1, k1, p1, []);
    UnpackShortFrame(true, 0, k2, p2, [p1]);
    ContinuationIsBinary(p1, p2);
  }

  lemma ContinuationIsBinary(p1: seq<byte>, p2: seq<byte>)
    ensures Classify(Inherited, Concat([p1] + [p2])) == Success(Some(Binary(p1 + p2)))
  {
    ConcatAppend([p1], p2);
    SingleConcat(p1);
    assert [] + [p1] == [p1];
  }

  /** A short message packed by `packMsg` unpacks to its own text. */
  lemma PackUnpackText(s: string)
    requires |Utf8.Encode(s)| < 126
    ensures PackMsg(TextOut(s)).Success?
    ensures UnpackMsg(PackMsg(TextOut(s)).value, []) == Outcome([], Success(Some(Text(s))))
  {
    var p := Utf8.Encode(s);
    var f := PackMsg(TextOut(s)).value;
    HeaderThenPayload([WsToken, Utf8.B(|p|)], p);
    assert f == [WsToken, Utf8.B(|p|)] + p;
    UnmaskedShortPayload(f);
    UnpackTextFrame(f, p);
    Utf8.DecodeLossyEncode(s);
  }

  /** A message of 126 to 65535 octets packed by `packMsg` loses its first six
      octets when read back by `unpackMsg`, which skips ten header octets where
      `packMsg` wrote four; every packed message also reads back as text. */
  lemma PackUnpackMedium(m: Outgoing)
    requires 126 <= |PayloadOf(m)| <= 0xFFFF
    ensures PackMsg(m).Success?
    ensures UnpackMsg(PackMsg(m).value, []) == Outcome([], Success(Some(Text(Utf8.DecodeLossy(PayloadOf(m)[6..])))))
  {
    var p := PayloadOf(m);
    var n := |p|;
    var head := [WsToken, Utf8.B(126), Utf8.B(n / 256), Utf8.B(n % 256)];
    var f := PackMsg(m).value;
    HeaderThenPayload(head, p);
    assert f == head + p;
    assert f[10..] == p[6..];
    assert ReadUInt16BE(f, 2) == Success(n);
    UnmaskedMediumPayload(f, n);
    UnpackTextFrame(f, p[6..]);
  }

  /** A lone frame with FIN set and opcode 1 is read as text. */
  lemma UnpackTextFrame(f: seq<byte>, q: seq<byte>)
    requires At(f, 0) == WsToken as int && FramePayload(f) == Success(q)
    ensures UnpackMsg(f, []) == Outcome([], Success(Some(Text(Utf8.DecodeLossy(q)))))
  {
    assert OpcodeOf(At(f, 0)) == Code(1);
    UnpackFrame(f, [], q);
    SingleConcat(q);
  }
}

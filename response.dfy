/** The NSQ frame decoder: a frame is a 4-byte big-endian size, a 4-byte
    big-endian type (0 response, 1 error, 2 message) and `size - 4` bytes of
    data. The byte source is a sequence read from a cursor position; every
    reader below takes the bytes and a position and yields a value together
    with the position after it. */
module Response {
  import opened Wrappers

  type byte = b: int | 0 <= b < 256

  const FrameTypeResponse: nat := 0
  const FrameTypeError: nat := 1
  const FrameTypeMessage: nat := 2

  /** The text of a heartbeat response, "_heartbeat_". */
  const Heartbeat: seq<byte> := [0x5F, 0x68, 0x65, 0x61, 0x72, 0x74, 0x62, 0x65, 0x61, 0x74, 0x5F]
  /** The text of a successful response, "OK". */
  const Ok: seq<byte> := [0x4F, 0x4B]

  const Two16: nat := 0x1_0000
  const Two32: nat := 0x1_0000_0000
  const Two64: nat := 0x1_0000_0000_0000_0000

  // ---------------------------------------------------------------------------
  // Big-endian unsigned integers

  function Pow256(k: nat): (p: nat)
    ensures p >= 1
  {
    if k == 0 then 1 else 256 * Pow256(k - 1)
  }

  lemma Pow256Widths()
    ensures Pow256(2) == Two16 && Pow256(4) == Two32 && Pow256(8) == Two64
  {
    assert Pow256(1) == 256;
    assert Pow256(2) == Two16;
    assert Pow256(3) == 0x100_0000;
    assert Pow256(4) == Two32;
    assert Pow256(5) == 0x100_0000_0000;
    assert Pow256(6) == 0x1_0000_0000_0000;
    assert Pow256(7) == 0x100_0000_0000_0000;
  }

  /** The unsigned value of `bs` read most significant byte first. */
  function BeUint(bs: seq<byte>): (v: nat)
    ensures v < Pow256(|bs|)
  {
    if bs == [] then 0
    else
      var init := BeUint(bs[..|bs| - 1]);
      assert init * 256 <= (Pow256(|bs| - 1) - 1) * 256;
      init * 256 + bs[|bs| - 1]
  }

  /** The `k`-byte big-endian representation of `v` (the encoder side). */
  function BeBytes(v: nat, k: nat): (bs: seq<byte>)
    requires v < Pow256(k)
    ensures |bs| == k
  {
    if k == 0 then []
    else BeBytes(v / 256, k - 1) + [v % 256]
  }

  lemma {:induction false} BeUintOfBeBytes(v: nat, k: nat)
    requires v < Pow256(k)
    ensures BeUint(BeBytes(v, k)) == v
  {
    if k > 0 {
      var bs := BeBytes(v, k);
      assert bs[..k - 1] == BeBytes(v / 256, k - 1);
      BeUintOfBeBytes(v / 256, k - 1);
    }
  }

  lemma {:induction false} BeBytesOfBeUint(bs: seq<byte>)
    ensures BeBytes(BeUint(bs), |bs|) == bs
  {
    if bs != [] {
      var init := bs[..|bs| - 1];
      BeBytesOfBeUint(init);
      var v := BeUint(bs);
      assert v / 256 == BeUint(init);
      assert v % 256 == bs[|bs| - 1];
      assert bs == init + [bs[|bs| - 1]];
    }
  }

  /** Reading a longer big-endian number is reading its high part, shifting,
      and adding its low part. */
  lemma {:induction false} BeUintAppend(a: seq<byte>, b: seq<byte>)
    ensures BeUint(a + b) == BeUint(a) * Pow256(|b|) + BeUint(b)
  {
    if b == [] {
      assert a + b == a;
    } else {
      var b' := b[..|b| - 1];
      assert (a + b)[..|a + b| - 1] == a + b';
      BeUintAppend(a, b');
      var x, p, y, last := BeUint(a), Pow256(|b'|), BeUint(b'), b[|b| - 1];
      assert BeUint(a + b) == BeUint(a + b') * 256 + last;
      assert BeUint(b) == y * 256 + last;
      assert Pow256(|b|) == p * 256;
      MulDistrib(x, p, y, last);
    }
  }

  lemma MulDistrib(x: int, p: int, y: int, last: int)
    ensures (x * p + y) * 256 + last == x * (p * 256) + (y * 256 + last)
  {
  }

  // ---------------------------------------------------------------------------
  // Text: bytes are unpacked as signed chars and only those above zero are kept

  /** The value PHP's unpack format `c` (signed char) gives a byte. */
  function Signed(b: byte): (v: int)
    ensures -128 <= v < 128
    ensures v > 0 <==> 0 < b < 128
  {
    if b < 128 then b else b - 256
  }

  /** All bytes are ASCII characters other than NUL. */
  predicate IsText(bs: seq<byte>) {
    forall i :: 0 <= i < |bs| ==> 0 < bs[i] < 128
  }

  /** The bytes of `bs` whose signed value is positive, in their order: what
      readString builds. Bytes 0x00 and 0x80..0xFF are dropped. */
  function Positive(bs: seq<byte>): (out: seq<byte>)
    ensures |out| <= |bs|
    ensures IsText(out)
    ensures forall b: byte {:trigger multiset(bs)[b]} :: multiset(out)[b] == if 0 < b < 128 then multiset(bs)[b] else 0
  {
    if bs == [] then []
    else
      var init, last := bs[..|bs| - 1], bs[|bs| - 1];
      assert bs == init + [last];
      Positive(init) + (if Signed(last) > 0 then [last] else [])
  }

  lemma {:induction false} PositiveAppend(a: seq<byte>, b: seq<byte>)
    ensures Positive(a + b) == Positive(a) + Positive(b)
  {
    if b == [] {
      assert a + b == a;
    } else {
      var b' := b[..|b| - 1];
      assert (a + b)[..|a + b| - 1] == a + b';
      PositiveAppend(a, b');
    }
  }

  /** Text passes through unchanged, and only text does. */
  lemma {:induction false} PositiveKeepsOnlyText(bs: seq<byte>)
    ensures Positive(bs) == bs <==> IsText(bs)
  {
    if bs != [] && IsText(bs) {
      PositiveKeepsOnlyText(bs[..|bs| - 1]);
    }
  }

  // ---------------------------------------------------------------------------
  // Frames

  /** A decoded frame. `size` is the declared size, counting the type field. */
  datatype Frame =
    | ResponseFrame(size: nat, response: seq<byte>)
    | ErrorFrame(size: nat, error: seq<byte>)
    | MessageFrame(size: nat, ts: nat, attempts: nat, id: seq<byte>, payload: seq<byte>)
  {
    function TypeCode(): nat {
      match this
      case ResponseFrame(_, _) => FrameTypeResponse
      case ErrorFrame(_, _) => FrameTypeError
      case MessageFrame(_, _, _, _, _) => FrameTypeMessage
    }
  }

  /** A type-0 frame whose text is exactly the heartbeat token. */
  predicate IsHeartbeat(f: Frame): (b: bool)
    ensures b ==> f.TypeCode() == FrameTypeResponse
  {
    f.ResponseFrame? && f.response == Heartbeat
  }

  /** A type-0 frame whose text is exactly "OK"; never a heartbeat. */
  predicate IsOk(f: Frame): (b: bool)
    ensures b ==> f.TypeCode() == FrameTypeResponse
    ensures b ==> !IsHeartbeat(f)
  {
    f.ResponseFrame? && f.response == Ok
  }

  /** A type-2 frame (readFrame always sets its payload); never OK nor a heartbeat. */
  predicate IsMessage(f: Frame): (b: bool)
    ensures b <==> f.TypeCode() == FrameTypeMessage
    ensures b ==> !IsOk(f) && !IsHeartbeat(f)
  {
    f.MessageFrame?
  }

  /** A value read from the byte source and the cursor position after it. */
  datatype Decoded<+T> = Decoded(value: T, next: nat)

  datatype FrameError =
    | Truncated(wanted: int, available: nat)   // fewer bytes than a read asks for
    | NegativeLength(length: int)              // a declared size too small for its frame type
    | UnknownType(frameType: nat, text: seq<byte>)  // FrameException, carrying the trailing text

  /** Exactly `n` bytes from position `pos`, or an error when they are not there. */
  function BytesAt(s: seq<byte>, pos: nat, n: int): (r: Result<Decoded<seq<byte>>, FrameError>)
    ensures r.Success? <==> 0 <= n && pos + n <= |s|
    ensures r.Success? ==> r.value.next == pos + n && r.value.value == s[pos..pos + n]
  {
    if n < 0 then Failure(NegativeLength(n))
    else if pos + n > |s| then Failure(Truncated(n, if pos <= |s| then |s| - pos else 0))
    else Success(Decoded(s[pos..pos + n], pos + n))
  }

  /** readInt: 4 bytes, big-endian, unsigned. */
  function IntAt(s: seq<byte>, pos: nat): (r: Result<Decoded<nat>, FrameError>)
    ensures r.Success? <==> pos + 4 <= |s|
    ensures r.Success? ==> r.value.next == pos + 4 && r.value.value < Two32
    ensures r.Success? ==> r.value.value == BeUint(s[pos..pos + 4])
  {
    Pow256Widths();
    var chunk :- BytesAt(s, pos, 4);
    Success(Decoded(BeUint(chunk.value), chunk.next))
  }

  /** readShort: 2 bytes, big-endian, unsigned. */
  function ShortAt(s: seq<byte>, pos: nat): (r: Result<Decoded<nat>, FrameError>)
    ensures r.Success? <==> pos + 2 <= |s|
    ensures r.Success? ==> r.value.next == pos + 2 && r.value.value < Two16
    ensures r.Success? ==> r.value.value == BeUint(s[pos..pos + 2])
  {
    Pow256Widths();
    var chunk :- BytesAt(s, pos, 2);
    Success(Decoded(BeUint(chunk.value), chunk.next))
  }

  /** readLong: two unsigned 32-bit halves combined as hi * 2^32 + lo, which is
      the 8-byte big-endian value. */
  function LongAt(s: seq<byte>, pos: nat): (r: Result<Decoded<nat>, FrameError>)
    ensures r.Success? <==> pos + 8 <= |s|
    ensures r.Success? ==> r.value.next == pos + 8 && r.value.value < Two64
    ensures r.Success? ==> r.value.value == BeUint(s[pos..pos + 8])
  {
    var hi :- IntAt(s, pos);
    var lo :- IntAt(s, hi.next);
    Pow256Widths();
    assert s[pos..pos + 8] == s[pos..pos + 4] + s[pos + 4..pos + 8];
    BeUintAppend(s[pos..pos + 4], s[pos + 4..pos + 8]);
    var v: nat := hi.value * Two32 + lo.value;
    Success(Decoded(v, lo.next))
  }

  /** The 4 big-endian bytes of a 32-bit word. */
  function Word(v: nat): (bs: seq<byte>)
    requires v < Two32
    ensures |bs| == 4 && BeUint(bs) == v
  {
    Pow256Widths();
    BeUintOfBeBytes(v, 4);
    BeBytes(v, 4)
  }

  /** readLong undoes the split of a 64-bit value into its high and low
      32-bit words, whatever follows them. */
  lemma LongOfWords(v: nat, rest: seq<byte>)
    requires v < Two64
    ensures LongAt(Word(v / Two32) + Word(v % Two32) + rest, 0) == Success(Decoded(v, 8))
  {
    var hi, lo := Word(v / Two32), Word(v % Two32);
    var s := hi + lo + rest;
    assert s[0..4] == hi;
    assert s[4..8] == lo;
    assert IntAt(s, 0) == Success(Decoded(v / Two32, 4));
    assert IntAt(s, 4) == Success(Decoded(v % Two32, 8));
  }

  /** readString: consumes exactly `size` bytes and keeps the positive ones. */
  function StringAt(s: seq<byte>, pos: nat, size: int): (r: Result<Decoded<seq<byte>>, FrameError>)
    ensures r.Success? <==> 0 <= size && pos + size <= |s|
    ensures r.Success? ==> r.value.next == pos + size
    ensures r.Success? ==> r.value.value == Positive(s[pos..pos + size])
    ensures r.Success? ==> |r.value.value| <= size && IsText(r.value.value)
  {
    var chunk :- BytesAt(s, pos, size);
    Success(Decoded(Positive(chunk.value), chunk.next))
  }

  /** readFrame: the size, the type, then the data the type calls for. */
  function FrameAt(s: seq<byte>, pos: nat): (r: Result<Decoded<Frame>, FrameError>)
    ensures r.Success? ==> r.value.next == pos + 4 + r.value.value.size <= |s|
    ensures r.Success? ==> pos + 8 <= |s| && r.value.value.size == BeUint(s[pos..pos + 4])
    ensures r.Success? ==> r.value.value.TypeCode() == BeUint(s[pos + 4..pos + 8])
    ensures r.Failure? && r.error.UnknownType? ==> r.error.frameType > FrameTypeMessage
  {
    var size :- IntAt(s, pos);
    var kind :- IntAt(s, size.next);
    BodyAt(s, kind.next, size.value, kind.value)
  }

  /** What follows the header of a frame of `size` bytes and type `kind`,
      read from `pos`. */
  function BodyAt(s: seq<byte>, pos: nat, size: nat, kind: nat): (r: Result<Decoded<Frame>, FrameError>)
    ensures r.Success? ==> 4 <= size && r.value.next + 4 == pos + size <= |s| + 4
    ensures r.Success? ==> r.value.value.size == size && r.value.value.TypeCode() == kind
    ensures r.Failure? && r.error.UnknownType? ==> kind > FrameTypeMessage
  {
    if kind == FrameTypeResponse then
      var text :- StringAt(s, pos, size - 4);
      Success(Decoded(ResponseFrame(size, text.value), text.next))
    else if kind == FrameTypeError then
      var text :- StringAt(s, pos, size - 4);
      Success(Decoded(ErrorFrame(size, text.value), text.next))
    else if kind == FrameTypeMessage then
      MessageAt(s, pos, size)
    else
      var text :- StringAt(s, pos, size - 4);
      Failure(UnknownType(kind, text.value))
  }

  /** The fields of a message frame of `size` bytes, read from `pos`: the
      timestamp, the attempts, a 16-byte id and the rest as the body. */
  function MessageAt(s: seq<byte>, pos: nat, size: nat): (r: Result<Decoded<Frame>, FrameError>)
    ensures r.Success? ==> 30 <= size && r.value.next + 4 == pos + size <= |s| + 4
    ensures r.Success? ==> r.value.value.MessageFrame? && r.value.value.size == size
  {
    var ts :- LongAt(s, pos);
    var attempts :- ShortAt(s, ts.next);
    var id :- StringAt(s, attempts.next, 16);
    var payload :- StringAt(s, id.next, size - 30);
    Success(Decoded(MessageFrame(size, ts.value, attempts.value, id.value, payload.value), payload.next))
  }

  /** How readFrame dispatches on the type once the 8 header bytes are there. */
  lemma FrameDispatch(s: seq<byte>, pos: nat)
    requires pos + 8 <= |s|
    ensures var size, kind, r := BeUint(s[pos..pos + 4]), BeUint(s[pos + 4..pos + 8]), FrameAt(s, pos);
      && (kind != FrameTypeMessage && size < 4 ==> r == Failure(NegativeLength(size - 4)))
      && (kind != FrameTypeMessage && 4 <= size && pos + 4 + size <= |s| ==>
            var text := Positive(s[pos + 8..pos + 4 + size]);
            r == if kind == FrameTypeResponse then Success(Decoded(ResponseFrame(size, text), pos + 4 + size))
                 else if kind == FrameTypeError then Success(Decoded(ErrorFrame(size, text), pos + 4 + size))
                 else Failure(UnknownType(kind, text)))
      && (kind == FrameTypeMessage && 30 <= size && pos + 4 + size <= |s| ==>
            r == Success(Decoded(MessageFrame(size, BeUint(s[pos + 8..pos + 16]), BeUint(s[pos + 16..pos + 18]),
                                              Positive(s[pos + 18..pos + 34]), Positive(s[pos + 34..pos + 4 + size])),
                                 pos + 4 + size)))
  {
    var size, kind := BeUint(s[pos..pos + 4]), BeUint(s[pos + 4..pos + 8]);
    if kind == FrameTypeMessage {
      if 30 <= size && pos + 4 + size <= |s| {
        MessageFrameAt(s, pos, size);
      }
    } else if size < 4 {
      ShortFrameAt(s, pos, size, kind);
    } else if pos + 4 + size <= |s| {
      TextFrameAt(s, pos, size, kind);
    }
  }

  lemma ShortFrameAt(s: seq<byte>, pos: nat, size: nat, kind: nat)
    requires pos + 8 <= |s| && size == BeUint(s[pos..pos + 4]) && kind == BeUint(s[pos + 4..pos + 8])
    requires kind != FrameTypeMessage && size < 4
    ensures FrameAt(s, pos) == Failure(NegativeLength(size - 4))
  {
    assert IntAt(s, pos) == Success(Decoded(size, pos + 4));
    assert IntAt(s, pos + 4) == Success(Decoded(kind, pos + 8));
  }

  lemma TextFrameAt(s: seq<byte>, pos: nat, size: nat, kind: nat)
    requires pos + 8 <= |s| && size == BeUint(s[pos..pos + 4]) && kind == BeUint(s[pos + 4..pos + 8])
    requires kind != FrameTypeMessage && 4 <= size && pos + 4 + size <= |s|
    ensures var text := Positive(s[pos + 8..pos + 4 + size]);
      FrameAt(s, pos) ==
        if kind == FrameTypeResponse then Success(Decoded(ResponseFrame(size, text), pos + 4 + size))
        else if kind == FrameTypeError then Success(Decoded(ErrorFrame(size, text), pos + 4 + size))
        else Failure(UnknownType(kind, text))
  {
    assert IntAt(s, pos) == Success(Decoded(size, pos + 4));
    assert IntAt(s, pos + 4) == Success(Decoded(kind, pos + 8));
    assert StringAt(s, pos + 8, size - 4) == Success(Decoded(Positive(s[pos + 8..pos + 4 + size]), pos + 4 + size));
  }

  lemma MessageFrameAt(s: seq<byte>, pos: nat, size: nat)
    requires pos + 8 <= |s| && size == BeUint(s[pos..pos + 4]) && BeUint(s[pos + 4..pos + 8]) == FrameTypeMessage
    requires 30 <= size && pos + 4 + size <= |s|
    ensures FrameAt(s, pos) ==
      Success(Decoded(MessageFrame(size, BeUint(s[pos + 8..pos + 16]), BeUint(s[pos + 16..pos + 18]),
                                   Positive(s[pos + 18..pos + 34]), Positive(s[pos + 34..pos + 4 + size])),
                      pos + 4 + size))
  {
    assert IntAt(s, pos) == Success(Decoded(size, pos + 4));
    assert IntAt(s, pos + 4) == Success(Decoded(FrameTypeMessage, pos + 8));
    MessageFieldsAt(s, pos + 8, size);
  }

  /** A message body with all its bytes present decodes field by field. */
  lemma MessageFieldsAt(s: seq<byte>, pos: nat, size: nat)
    requires 30 <= size && pos + size - 4 <= |s|
    ensures MessageAt(s, pos, size) ==
      Success(Decoded(MessageFrame(size, BeUint(s[pos..pos + 8]), BeUint(s[pos + 8..pos + 10]),
                                   Positive(s[pos + 10..pos + 26]), Positive(s[pos + 26..pos + size - 4])),
                      pos + size - 4))
  {
  }

  // ---------------------------------------------------------------------------
  // The encoder side of a frame, the partner of the decoder

  /** A frame the broker can put on the wire: the declared size counts exactly
      the bytes after the size field, every number fits its field, and the id
      has 16 bytes. */
  predicate Encodable(f: Frame) {
    match f
    case ResponseFrame(size, text) => size == |text| + 4 && size < Two32
    case ErrorFrame(size, text) => size == |text| + 4 && size < Two32
    case MessageFrame(size, ts, attempts, id, payload) =>
      size == |payload| + 30 && size < Two32 && ts < Two64 && attempts < Two16 && |id| == 16
  }

  /** An encodable frame whose texts are ASCII without NUL: readFrame gives it
      back unchanged. */
  predicate WellFormed(f: Frame) {
    && Encodable(f)
    && match f
       case ResponseFrame(_, text) => IsText(text)
       case ErrorFrame(_, text) => IsText(text)
       case MessageFrame(_, _, _, id, payload) => IsText(id) && IsText(payload)
  }

  /** The frame readFrame makes of `f`: every text field keeps only its
      positive bytes. */
  function Filtered(f: Frame): (g: Frame)
    ensures g.TypeCode() == f.TypeCode() && g.size == f.size
  {
    match f
    case ResponseFrame(size, text) => ResponseFrame(size, Positive(text))
    case ErrorFrame(size, text) => ErrorFrame(size, Positive(text))
    case MessageFrame(size, ts, attempts, id, payload) => MessageFrame(size, ts, attempts, Positive(id), Positive(payload))
  }

  /** The bytes after the type field. */
  function FrameData(f: Frame): (bs: seq<byte>)
    requires Encodable(f)
    ensures |bs| == f.size - 4
  {
    Pow256Widths();
    match f
    case ResponseFrame(_, text) => text
    case ErrorFrame(_, text) => text
    case MessageFrame(_, ts, attempts, id, payload) => BeBytes(ts, 8) + BeBytes(attempts, 2) + id + payload
  }

  /** The bytes of a frame on the wire. */
  function Encode(f: Frame): (bs: seq<byte>)
    requires Encodable(f)
    ensures |bs| == f.size + 4
  {
    Pow256Widths();
    BeBytes(f.size, 4) + BeBytes(f.TypeCode(), 4) + FrameData(f)
  }

  /** Decoding an encoded frame, whatever follows it, gives the frame back
      with its texts filtered, and leaves the cursor just after it. */
  lemma DecodeEncodeFiltered(f: Frame, rest: seq<byte>)
    requires Encodable(f)
    ensures FrameAt(Encode(f) + rest, 0) == Success(Decoded(Filtered(f), f.size + 4))
  {
    if f.MessageFrame? {
      DecodeEncodedMessage(f, rest);
    } else {
      DecodeEncodedText(f, rest);
    }
  }

  /** The size and the type of an encoded frame, read back. */
  lemma EncodedHeader(f: Frame, rest: seq<byte>)
    requires Encodable(f)
    ensures var s := Encode(f) + rest;
      && f.size + 4 <= |s| && BeUint(s[0..4]) == f.size && BeUint(s[4..8]) == f.TypeCode()
      && s[8..f.size + 4] == FrameData(f)
  {
    Pow256Widths();
    var s := Encode(f) + rest;
    assert s[0..4] == BeBytes(f.size, 4);
    assert s[4..8] == BeBytes(f.TypeCode(), 4);
    assert s[8..f.size + 4] == FrameData(f);
    BeUintOfBeBytes(f.size, 4);
    BeUintOfBeBytes(f.TypeCode(), 4);
  }

  lemma DecodeEncodedText(f: Frame, rest: seq<byte>)
    requires Encodable(f) && !f.MessageFrame?
    ensures FrameAt(Encode(f) + rest, 0) == Success(Decoded(Filtered(f), f.size + 4))
  {
    EncodedHeader(f, rest);
    TextFrameAt(Encode(f) + rest, 0, f.size, f.TypeCode());
  }

  lemma DecodeEncodedMessage(f: Frame, rest: seq<byte>)
    requires Encodable(f) && f.MessageFrame?
    ensures FrameAt(Encode(f) + rest, 0) == Success(Decoded(Filtered(f), f.size + 4))
  {
    EncodedHeader(f, rest);
    MessageFields(f, rest);
    MessageFrameAt(Encode(f) + rest, 0, f.size);
  }

  /** Decoding an encoded well-formed frame, whatever follows it, gives the
      frame back and leaves the cursor just after it. */
  lemma DecodeEncode(f: Frame, rest: seq<byte>)
    requires WellFormed(f)
    ensures FrameAt(Encode(f) + rest, 0) == Success(Decoded(f, f.size + 4))
  {
    DecodeEncodeFiltered(f, rest);
    match f
    case ResponseFrame(_, text) => PositiveKeepsOnlyText(text);
    case ErrorFrame(_, text) => PositiveKeepsOnlyText(text);
    case MessageFrame(_, _, _, id, payload) =>
      PositiveKeepsOnlyText(id);
      PositiveKeepsOnlyText(payload);
  }

  /** Where each field of an encoded message sits, read back. */
  lemma MessageFields(f: Frame, rest: seq<byte>)
    requires Encodable(f) && f.MessageFrame?
    ensures var s := Encode(f) + rest;
      && BeUint(s[8..16]) == f.ts && BeUint(s[16..18]) == f.attempts
      && s[18..34] == f.id && s[34..f.size + 4] == f.payload
  {
    var s := Encode(f) + rest;
    EncodedHeader(f, rest);
    DataFields(f);
    Shifted(s, 8, f.size + 4, 0, 8);
    Shifted(s, 8, f.size + 4, 8, 10);
    Shifted(s, 8, f.size + 4, 10, 26);
    Shifted(s, 8, f.size + 4, 26, f.size - 4);
  }

  /** A slice of a slice is a slice. */
  lemma Shifted(s: seq<byte>, lo: nat, hi: nat, i: nat, j: nat)
    requires lo <= hi <= |s| && i <= j <= hi - lo
    ensures s[lo..hi][i..j] == s[lo + i..lo + j]
  {
    forall k | 0 <= k < j - i
      ensures s[lo..hi][i..j][k] == s[lo + i..lo + j][k]
    {
      assert s[lo..hi][i..j][k] == s[lo..hi][i + k] == s[lo + i + k];
    }
  }

  /** Where each field sits in the data of a message frame. */
  lemma DataFields(f: Frame)
    requires Encodable(f) && f.MessageFrame?
    ensures var data := FrameData(f);
      && BeUint(data[0..8]) == f.ts && BeUint(data[8..10]) == f.attempts
      && data[10..26] == f.id && data[26..] == f.payload
  {
    Pow256Widths();
    var ts, att := BeBytes(f.ts, 8), BeBytes(f.attempts, 2);
    var data := FrameData(f);
    assert data == ts + att + f.id + f.payload;
    assert data[0..8] == ts;
    assert data[8..10] == att;
    assert data[10..26] == f.id;
    assert data[26..] == f.payload;
    BeUintOfBeBytes(f.ts, 8);
    BeUintOfBeBytes(f.attempts, 2);
  }

  /** The quirk of readString: a message body byte 0x80 is dropped, so a
      31-byte message frame whose body is that one byte decodes with an empty
      payload. */
  lemma BinaryPayloadIsLost(id: seq<byte>)
    requires |id| == 16 && IsText(id)
    ensures FrameAt(Encode(MessageFrame(31, 0, 1, id, [0x80])), 0) == Success(Decoded(MessageFrame(31, 0, 1, id, []), 35))
  {
    var f := MessageFrame(31, 0, 1, id, [0x80]);
    DecodeEncodeFiltered(f, []);
    assert Encode(f) + [] == Encode(f);
    PositiveKeepsOnlyText(id);
    assert Positive([0x80]) == [];
  }

  // ---------------------------------------------------------------------------
  // The stateful reader: the monitor's read side, advanced step by step

  /** The value of a decoding step without its position. */
  function Value<T>(d: Result<Decoded<T>, FrameError>): Result<T, FrameError> {
    match d
    case Success(v) => Success(v.value)
    case Failure(e) => Failure(e)
  }

  /** The bytes a connection delivers and how many of them have been read.
      readFrame and its helpers consume them from `pos` on. */
  class FrameReader {
    const data: seq<byte>
    var pos: nat

    ghost predicate Valid()
      reads this
    {
      pos <= |data|
    }

    constructor (bytes: seq<byte>)
      ensures Valid() && data == bytes && pos == 0
    {
      data := bytes;
      pos := 0;
    }

    /** Hands over exactly `n` bytes; when fewer are left, they are all consumed
        and the read fails. */
    method Take(n: int) returns (r: Result<seq<byte>, FrameError>)
      requires Valid()
      modifies this
      ensures Valid()
      ensures r == Value(BytesAt(data, old(pos), n))
      ensures pos == if r.Success? then old(pos) + n else if n < 0 then old(pos) else |data|
    {
      if n < 0 {
        r := Failure(NegativeLength(n));
      } else if pos + n > |data| {
        r := Failure(Truncated(n, |data| - pos));
        pos := |data|;
      } else {
        r := Success(data[pos..pos + n]);
        pos := pos + n;
      }
    }

    method ReadInt() returns (r: Result<nat, FrameError>)
      requires Valid()
      modifies this
      ensures Valid() && old(pos) <= pos
      ensures r == Value(IntAt(data, old(pos)))
      ensures r.Success? ==> pos == old(pos) + 4
    {
      var chunk :- Take(4);
      r := Success(BeUint(chunk));
    }

    method ReadShort() returns (r: Result<nat, FrameError>)
      requires Valid()
      modifies this
      ensures Valid() && old(pos) <= pos
      ensures r == Value(ShortAt(data, old(pos)))
      ensures r.Success? ==> pos == old(pos) + 2
    {
      var chunk :- Take(2);
      r := Success(BeUint(chunk));
    }

    method ReadLong() returns (r: Result<nat, FrameError>)
      requires Valid()
      modifies this
      ensures Valid() && old(pos) <= pos
      ensures r == Value(LongAt(data, old(pos)))
      ensures r.Success? ==> pos == old(pos) + 8
    {
      var hi :- ReadInt();
      var lo :- ReadInt();
      r := Success(hi * Two32 + lo);
    }

    /** Reads `size` bytes and keeps, in order, those whose signed value is positive. */
    method ReadString(size: int) returns (r: Result<seq<byte>, FrameError>)
      requires Valid()
      modifies this
      ensures Valid() && old(pos) <= pos
      ensures r == Value(StringAt(data, old(pos), size))
      ensures r.Success? ==> pos == old(pos) + size
    {
      var chunk :- Take(size);
      var out: seq<byte> := [];
      var i := 0;
      while i < |chunk|
        invariant i <= |chunk|
        invariant out == Positive(chunk[..i])
      {
        assert chunk[..i + 1][..i] == chunk[..i];
        if Signed(chunk[i]) > 0 {
          out := out + [chunk[i]];
        }
        i := i + 1;
      }
      assert chunk[..i] == chunk;
      r := Success(out);
    }

    /** Reads the fields of a message frame of `size` bytes. */
    method ReadMessage(size: nat) returns (r: Result<Frame, FrameError>)
      requires Valid()
      modifies this
      ensures Valid() && old(pos) <= pos
      ensures r == Value(MessageAt(data, old(pos), size))
      ensures r.Success? ==> pos + 4 == old(pos) + size
    {
      var ts :- ReadLong();
      var attempts :- ReadShort();
      var id :- ReadString(16);
      var payload :- ReadString(size as int - 30);
      r := Success(MessageFrame(size, ts, attempts, id, payload));
    }

    /** Reads what follows the header of a frame of `size` bytes and type
        `kind`. */
    method ReadBody(size: nat, kind: nat) returns (r: Result<Frame, FrameError>)
      requires Valid()
      modifies this
      ensures Valid() && old(pos) <= pos
      ensures r == Value(BodyAt(data, old(pos), size, kind))
      ensures r.Success? ==> pos + 4 == old(pos) + size
    {
      if kind == FrameTypeResponse {
        var text :- ReadString(size as int - 4);
        r := Success(ResponseFrame(size, text));
      } else if kind == FrameTypeError {
        var text :- ReadString(size as int - 4);
        r := Success(ErrorFrame(size, text));
      } else if kind == FrameTypeMessage {
        r := ReadMessage(size);
      } else {
        var text :- ReadString(size as int - 4);
        r := Failure(UnknownType(kind, text));
      }
    }

    /** Reads one frame; on success the cursor is just past it. */
    method ReadFrame() returns (r: Result<Frame, FrameError>)
      requires Valid()
      modifies this
      ensures Valid() && old(pos) <= pos
      ensures r == Value(FrameAt(data, old(pos)))
      ensures r.Success? ==> pos == old(pos) + 4 + r.value.size
    {
      var size :- ReadInt();
      var kind :- ReadInt();
      r := ReadBody(size, kind);
    }
  }
}

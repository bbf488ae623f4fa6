/**
 * The response parser of mcstatusc.c (lines 52-83): one `recv` into a static
 * buffer, then the packet-length VarInt, the packet-ID check, the skip over the
 * string-length VarInt, the string length derived from the frame length, and
 * the bounds check before the string is printed.
 *
 * Where the C code would step into undefined behaviour the model stops with an
 * `Undefined` error instead of guessing what a compiler would do.
 */
module Response {
  import opened Wrappers
  import opened VarInt

  /** Size of the static `response` array (MAX_RESP_SIZE). */
  const MaxRespSize: nat := 131072
  /** INT_MAX of the 32-bit `int` that holds `packet_length`. */
  const IntMax: nat := 0x7fff_ffff
  /** `uint32_t` arithmetic is taken modulo this. */
  const UInt32Modulus: nat := 0x1_0000_0000

  /** The operations the C code leaves undefined. */
  datatype UndefinedBehaviour =
    | LengthShift     // `<< (7 * i)` with i >= 5, or a shifted group above INT_MAX at i == 4
    | SignedOverflow  // `packet_length + packet_length_i` above INT_MAX
    | ReadPastBuffer  // the skip loop indexes `response` past its last element

  /** The ways the parse ends without printing. */
  datatype ParseError =
    | RecvFailed        // `recv` returned a negative count
    | InvalidPacketId   // the byte after the length prefix is not 0x00
    | InvalidPacketSize // the string would end past the received bytes
    | Undefined(ub: UndefinedBehaviour)

  /**
   * What the two loops leave behind: the declared packet length, the number
   * of bytes its VarInt took (`packet_length_i`) and the index `i` just past
   * the string-length VarInt.
   */
  datatype Header = Header(packetLength: nat, prefixSize: nat, stringStart: nat)

  /** The printed byte range `[start, start + len)` of `response`. */
  datatype Slice = Slice(start: nat, len: nat)

  /**
   * The length loop stays within defined C: the VarInt ends within five bytes
   * and its value fits in a 32-bit `int`.
   */
  predicate LengthDefined(response: seq<Byte>)
    requires |response| == MaxRespSize
  {
    match Size(response)
    case None => false
    case Some(n) => n < 5 || (n == 5 && Group(response[4]) < 8)
  }

  /** Lines 59-73, as a function of the buffer. */
  function Scan(response: seq<Byte>): Result<Header, ParseError>
    requires |response| == MaxRespSize
  {
    if !LengthDefined(response) then Failure(Undefined(LengthShift))
    else
      var n := Size(response).value;
      if response[n] != 0 then Failure(InvalidPacketId)
      else match Size(response[n + 1..])
        case None => Failure(Undefined(ReadPastBuffer))
        case Some(m) => Success(Header(Value(response[..n]), n, n + 1 + m))
  }

  /** End of the frame: the length prefix plus the declared packet length. */
  function FrameEnd(h: Header): nat {
    h.prefixSize + h.packetLength
  }

  /**
   * Lines 76-80 as written: `resp_str_len` is the frame end minus `i` taken
   * modulo 2^32, and the sum `resp_str_len + i` is again taken modulo 2^32.
   */
  function CheckSizeAsWritten(h: Header, respSize: nat): Result<Slice, ParseError>
  {
    if FrameEnd(h) > IntMax then Failure(Undefined(SignedOverflow))
    else
      var len := (FrameEnd(h) - h.stringStart) % UInt32Modulus;
      if (len + h.stringStart) % UInt32Modulus > respSize then Failure(InvalidPacketSize)
      else Success(Slice(h.stringStart, len))
  }

  /**
   * Lines 76-80 with the missing guard: a packet too short to hold its own
   * ID byte and string-length prefix is rejected before the subtraction.
   */
  function CheckSize(h: Header, respSize: nat): Result<Slice, ParseError>
  {
    if h.stringStart > FrameEnd(h) then Failure(InvalidPacketSize)
    else CheckSizeAsWritten(h, respSize)
  }

  /** Lines 53-83 as written. */
  function ParseAsWritten(response: seq<Byte>, respSize: int): Result<Slice, ParseError>
    requires |response| == MaxRespSize
  {
    if respSize < 0 then Failure(RecvFailed)
    else match Scan(response)
      case Failure(e) => Failure(e)
      case Success(h) => CheckSizeAsWritten(h, respSize)
  }

  /** Lines 53-83 with the corrected size check. */
  function Parse(response: seq<Byte>, respSize: int): Result<Slice, ParseError>
    requires |response| == MaxRespSize
  {
    if respSize < 0 then Failure(RecvFailed)
    else match Scan(response)
      case Failure(e) => Failure(e)
      case Success(h) => CheckSize(h, respSize)
  }

  /**
   * Lines 60-64: decodes the packet-length VarInt and returns its value with
   * the number of bytes it took, or None where C would shift out of range.
   */
  method DecodeLength(response: seq<Byte>) returns (r: Option<(nat, nat)>)
    requires |response| == MaxRespSize
    ensures r.None? <==> !LengthDefined(response)
    ensures r.Some? ==> Size(response) == Some(r.value.1) && r.value.0 == Value(response[..r.value.1])
  {
    var i: nat, packetLength: nat := 0, 0;
    var more := true;
    while more
      invariant i <= 5
      invariant forall k | 0 <= k < i - 1 :: Continues(response[k])
      invariant more ==> forall k | 0 <= k < i :: Continues(response[k])
      invariant !more ==> 1 <= i && !Continues(response[i - 1])
      invariant i == 5 ==> Group(response[4]) < 8
      invariant packetLength == Value(response[..i])
      decreases 5 - i
    {
      if i == 5 {
        return None;
      }
      var g := Group(response[i]);
      if i == 4 && g >= 8 {
        return None;
      }
      assert response[..i + 1] == response[..i] + [response[i]];
      ValueSnoc(response[..i], response[i]);
      packetLength := packetLength + g * Pow128(i);
      more := Continues(response[i]);
      i := i + 1;
    }
    SizeSome(response, i);
    return Some((packetLength, i));
  }

  /**
   * Line 73: steps `i` past one VarInt starting at `from`, without decoding
   * it; None where the loop would index past the end of `response`.
   */
  method SkipVarInt(response: seq<Byte>, from: nat) returns (r: Option<nat>)
    requires from <= |response|
    ensures r.None? <==> Size(response[from..]).None?
    ensures r.Some? ==> r.value == from + Size(response[from..]).value
  {
    var i := from;
    var more := true;
    while more
      invariant from <= i <= |response|
      invariant forall k | from <= k < i - 1 :: Continues(response[k])
      invariant more ==> forall k | from <= k < i :: Continues(response[k])
      invariant !more ==> from < i && !Continues(response[i - 1])
      decreases |response| - i
    {
      if i == |response| {
        SizeNone(response[from..]);
        return None;
      }
      more := Continues(response[i]);
      i := i + 1;
    }
    SizeSome(response[from..], i - from);
    return Some(i);
  }

  /** Lines 59-73: the two loops and the packet-ID check between them. */
  method ScanHeader(response: seq<Byte>) returns (r: Result<Header, ParseError>)
    requires |response| == MaxRespSize
    ensures r == Scan(response)
  {
    var length := DecodeLength(response);
    if length.None? {
      return Failure(Undefined(LengthShift));
    }
    var (packetLength, prefixSize) := length.value;
    if response[prefixSize] != 0 {
      return Failure(InvalidPacketId);
    }
    var stringStart := SkipVarInt(response, prefixSize + 1);
    if stringStart.None? {
      return Failure(Undefined(ReadPastBuffer));
    }
    return Success(Header(packetLength, prefixSize, stringStart.value));
  }

  /** Line 53-83: the parse `main` performs, with the corrected size check. */
  method ParseResponse(response: seq<Byte>, respSize: int) returns (r: Result<Slice, ParseError>)
    requires |response| == MaxRespSize
    ensures r == Parse(response, respSize)
    ensures r.Success? ==> 0 <= r.value.start <= r.value.start + r.value.len <= respSize
  {
    if respSize < 0 {
      return Failure(RecvFailed);
    }
    var header := ScanHeader(response);
    if header.Failure? {
      return Failure(header.error);
    }
    var h := header.value;
    var frameEnd := h.packetLength + h.prefixSize;
    if h.stringStart > frameEnd {
      return Failure(InvalidPacketSize);
    }
    if frameEnd > IntMax {
      return Failure(Undefined(SignedOverflow));
    }
    var respStrLen := (frameEnd - h.stringStart) % UInt32Modulus;
    if (respStrLen + h.stringStart) % UInt32Modulus > respSize {
      return Failure(InvalidPacketSize);
    }
    r := Success(Slice(h.stringStart, respStrLen));
    ParseInBounds(response, respSize);
  }

  /** A sequence of continuation bytes holds no complete VarInt. */
  lemma SizeNone(s: seq<Byte>)
    requires forall k | 0 <= k < |s| :: Continues(s[k])
    ensures Size(s) == None
  {
  }

  /** The first byte with its flag clear ends the VarInt. */
  lemma SizeSome(s: seq<Byte>, n: nat)
    requires 1 <= n <= |s| && !Continues(s[n - 1])
    requires forall k | 0 <= k < n - 1 :: Continues(s[k])
    ensures Size(s) == Some(n)
  {
  }

  /**
   * Corrected parse: the printed slice starts right after the string-length
   * VarInt, ends exactly at the end of the frame, and lies within the
   * received bytes; its length is the declared packet length minus the ID
   * byte and the string-length prefix.
   */
  lemma ParseInBounds(response: seq<Byte>, respSize: int)
    requires |response| == MaxRespSize
    requires Parse(response, respSize).Success?
    ensures var sl := Parse(response, respSize).value;
      var h := Scan(response).value;
      && sl.start == h.stringStart
      && sl.len == h.packetLength - (h.stringStart - h.prefixSize)
      && sl.start + sl.len == FrameEnd(h) <= respSize
  {
  }

  /** Corrected parse: when a slice is printed, exactly. */
  lemma ParseSucceedsIff(response: seq<Byte>, respSize: int)
    requires |response| == MaxRespSize
    ensures Parse(response, respSize).Success? <==>
      && 0 <= respSize
      && Scan(response).Success?
      && Scan(response).value.stringStart <= FrameEnd(Scan(response).value) <= respSize
      && FrameEnd(Scan(response).value) <= IntMax
  {
    if 0 <= respSize && Scan(response).Success? {
      var h := Scan(response).value;
      if h.stringStart <= FrameEnd(h) <= IntMax {
        SumWrapsToFrameEnd(h);
      }
    }
  }

  /**
   * Lines 76-77 as written: whatever `i` is, `resp_str_len + i` wraps back to
   * the frame end, so the check compares only the frame end with `resp_size`.
   */
  lemma AsWrittenComparesFrameEnd(h: Header, respSize: nat)
    requires FrameEnd(h) <= IntMax
    ensures CheckSizeAsWritten(h, respSize) == Failure(InvalidPacketSize) <==> FrameEnd(h) > respSize
    ensures CheckSizeAsWritten(h, respSize).Success? <==> FrameEnd(h) <= respSize
  {
    SumWrapsToFrameEnd(h);
  }

  /** `((e - i) mod 2^32 + i) mod 2^32 == e` for a frame end e below 2^31. */
  lemma SumWrapsToFrameEnd(h: Header)
    requires FrameEnd(h) <= IntMax
    ensures ((FrameEnd(h) - h.stringStart) % UInt32Modulus + h.stringStart) % UInt32Modulus == FrameEnd(h)
  {
    var e, i := FrameEnd(h), h.stringStart;
    var d := e - i;
    var q := d / UInt32Modulus;
    assert d == q * UInt32Modulus + d % UInt32Modulus;
    assert d % UInt32Modulus + i == e - q * UInt32Modulus;
    ModShift(e, -q);
  }

  lemma ModShift(e: nat, q: int)
    requires e < UInt32Modulus
    ensures (e + q * UInt32Modulus) % UInt32Modulus == e
  {
  }

  /**
   * Lines 76-83 as written, when the subtraction does not wrap: the printed
   * range `[i, i + resp_str_len)` lies within the `resp_size` received bytes.
   */
  lemma AsWrittenInBoundsWithoutWrap(response: seq<Byte>, respSize: int)
    requires |response| == MaxRespSize
    requires ParseAsWritten(response, respSize).Success?
    requires Scan(response).value.stringStart <= FrameEnd(Scan(response).value)
    ensures var sl := ParseAsWritten(response, respSize).value;
      sl.start + sl.len <= respSize
  {
    SumWrapsToFrameEnd(Scan(response).value);
  }

  /**
   * The correction changes the verdict only where the as-written check lets
   * through a slice that runs past the received bytes, and it rejects those.
   */
  lemma CorrectionOnlyRejectsWrap(response: seq<Byte>, respSize: int)
    requires |response| == MaxRespSize && respSize <= MaxRespSize
    ensures Parse(response, respSize) != ParseAsWritten(response, respSize) ==>
      && Parse(response, respSize) == Failure(InvalidPacketSize)
      && ParseAsWritten(response, respSize).Success?
      && var sl := ParseAsWritten(response, respSize).value;
         sl.start + sl.len > respSize
  {
    if respSize >= 0 && Scan(response).Success? {
      var h := Scan(response).value;
      if FrameEnd(h) <= IntMax {
        SumWrapsToFrameEnd(h);
        var d := FrameEnd(h) - h.stringStart;
        if d < 0 {
          assert d % UInt32Modulus == d + UInt32Modulus;
        }
      }
    }
  }

  /** Lines 60-64: the length prefix is at least one byte and at most five, and its value fits an `int`. */
  lemma LengthPrefix(response: seq<Byte>)
    requires |response| == MaxRespSize
    requires LengthDefined(response)
    ensures var n := Size(response).value;
      && 1 <= n <= 5
      && !Continues(response[n - 1])
      && (forall k | 0 <= k < n - 1 :: Continues(response[k]))
      && Value(response[..n]) <= IntMax
  {
    var n := Size(response).value;
    PrefixValueFits(response[..n]);
  }

  /** Four groups, or four and a fifth below 8, stay below 2^31. */
  lemma PrefixValueFits(s: seq<Byte>)
    requires 1 <= |s| <= 5
    requires |s| == 5 ==> Group(s[4]) < 8
    ensures Value(s) <= IntMax
  {
    assert Pow128(4) == 268435456;
    if |s| == 5 {
      assert s == s[..4] + [s[4]];
      ValueSnoc(s[..4], s[4]);
      assert Value(s[..4]) < 268435456;
      assert Group(s[4]) * 268435456 <= 7 * 268435456;
    } else {
      PowMono(|s|, 4);
    }
  }

  lemma {:induction false} PowMono(j: nat, k: nat)
    requires j <= k
    ensures Pow128(j) <= Pow128(k)
  {
    if j < k {
      PowMono(j, k - 1);
    }
  }

  /** Lines 60-63: a first byte below 0x80 is the whole length prefix, and is the packet length. */
  lemma SingleByteLength(response: seq<Byte>)
    requires |response| == MaxRespSize
    requires response[0] < 0x80
    ensures LengthDefined(response)
    ensures Scan(response).Success? ==>
      Scan(response).value.prefixSize == 1 && Scan(response).value.packetLength == response[0]
  {
    SingleByte(response[0], response[1..]);
    assert response == [response[0]] + response[1..];
    assert response[..1] == [response[0]];
  }

  /**
   * Lines 67-70: after a defined length prefix, the parse fails with
   * InvalidPacketId, and prints nothing, exactly when the next byte is not 0x00.
   */
  lemma PacketIdChecked(response: seq<Byte>, respSize: int)
    requires |response| == MaxRespSize
    requires 0 <= respSize && LengthDefined(response)
    ensures Parse(response, respSize) == Failure(InvalidPacketId) <==> response[Size(response).value] != 0
    ensures ParseAsWritten(response, respSize) == Failure(InvalidPacketId) <==> response[Size(response).value] != 0
  {
  }

  /**
   * Line 73: the string-length VarInt is skipped, never decoded. Two buffers
   * that differ only in the data bits of that VarInt parse alike.
   */
  lemma StringLengthUnused(r1: seq<Byte>, r2: seq<Byte>, respSize: int)
    requires |r1| == |r2| == MaxRespSize
    requires Scan(r1).Success?
    requires var h := Scan(r1).value;
      && (forall k | 0 <= k < MaxRespSize && (k <= h.prefixSize || h.stringStart <= k) :: r1[k] == r2[k])
      && (forall k | h.prefixSize < k < h.stringStart :: Continues(r1[k]) == Continues(r2[k]))
    ensures Scan(r2) == Scan(r1)
    ensures Parse(r2, respSize) == Parse(r1, respSize)
    ensures ParseAsWritten(r2, respSize) == ParseAsWritten(r1, respSize)
  {
    var h := Scan(r1).value;
    var n := h.prefixSize;
    forall k | 0 <= k < MaxRespSize
      ensures Continues(r1[k]) == Continues(r2[k])
    {
      if k <= n || h.stringStart <= k {
        assert r1[k] == r2[k];
      }
    }
    SizeOnlyReadsFlags(r1, r2);
    assert r1[..n] == r2[..n];
    assert r1[n] == r2[n] && (n == 5 ==> r1[4] == r2[4]);
    assert LengthDefined(r1) == LengthDefined(r2);
    SizeOnlyReadsFlags(r1[n + 1..], r2[n + 1..]);
    assert Scan(r2) == Success(h);
  }

  /**
   * What a single `recv` into the zero-initialised static buffer leaves: a
   * count no larger than the buffer and zeros after the received bytes.
   */
  predicate Received(response: seq<Byte>, respSize: int) {
    && |response| == MaxRespSize
    && respSize <= MaxRespSize
    && forall k | 0 <= k < MaxRespSize && respSize <= k :: response[k] == 0
  }

  /**
   * Line 73: the skip loop can only run off the end of `response` when `recv`
   * filled the whole buffer; otherwise a zero byte stops it.
   */
  lemma ReadPastBufferNeedsFullBuffer(response: seq<Byte>, respSize: int)
    requires Received(response, respSize) && respSize < MaxRespSize
    ensures Scan(response) != Failure(Undefined(ReadPastBuffer))
  {
    if LengthDefined(response) {
      var n := Size(response).value;
      LengthPrefix(response);
      var stop := if respSize <= n + 1 then n + 1 else respSize;
      assert response[stop] == 0 && !Continues(response[n + 1..][stop - n - 1]);
    }
  }

  /** The static buffer after `recv` delivered exactly `received`. */
  function Buffer(received: seq<Byte>): (response: seq<Byte>)
    requires |received| <= MaxRespSize
    ensures Received(response, |received|) && response[..|received|] == received
  {
    received + seq(MaxRespSize - |received|, _ => 0)
  }

  /**
   * The wrap-around of lines 76-77: packet length 1, ID 0x00, string length 0.
   * The declared packet ends before the string-length byte, `resp_str_len`
   * becomes 2^32 - 1, the sum wraps to 2, and the check passes although the
   * slice runs far past the three received bytes. The corrected check rejects it.
   */
  lemma WrapPassesCheck()
    ensures ParseAsWritten(Buffer([0x01, 0x00, 0x00]), 3) == Success(Slice(3, 0xffff_ffff))
    ensures 3 + 0xffff_ffff > 3
    ensures Parse(Buffer([0x01, 0x00, 0x00]), 3) == Failure(InvalidPacketSize)
  {
    var response := Buffer([0x01, 0x00, 0x00]);
    assert response[..3] == [0x01, 0x00, 0x00];
    OneByteHeader(response);
    var h := Header(1, 1, 3);
    assert (FrameEnd(h) - h.stringStart) % UInt32Modulus == 0xffff_ffff;
    assert (0xffff_ffff + h.stringStart) % UInt32Modulus == 2;
  }

  /**
   * A well-formed status response: packet length 14, ID 0x00, string length
   * 12, then the twelve bytes of `{"desc":"A"}`. The slice is those twelve bytes.
   */
  lemma StatusResponseExample()
    ensures var received: seq<Byte> := [0x0e, 0x00, 0x0c] + Json;
      && Parse(Buffer(received), |received|) == Success(Slice(3, 12))
      && Buffer(received)[3..15] == Json
  {
    var received: seq<Byte> := [0x0e, 0x00, 0x0c] + Json;
    var response := Buffer(received);
    assert response[..15] == received;
    assert response[0] == 0x0e && response[1] == 0x00 && response[2] == 0x0c;
    OneByteHeader(response);
    assert response[3..15] == received[3..15];
  }

  /** A one-byte length, ID 0x00 and a one-byte string length scan to their three bytes. */
  lemma OneByteHeader(response: seq<Byte>)
    requires |response| == MaxRespSize
    requires response[0] < 0x80 && response[1] == 0x00 && response[2] < 0x80
    ensures Scan(response) == Success(Header(response[0], 1, 3))
  {
    SingleByte(response[0], response[1..]);
    assert response == [response[0]] + response[1..];
    assert response[..1] == [response[0]];
    SingleByte(response[2], response[3..]);
    assert response[2..] == [response[2]] + response[3..];
  }

  /** The JSON text `{"desc":"A"}` as bytes. */
  const Json: seq<Byte> := [0x7b, 0x22, 0x64, 0x65, 0x73, 0x63, 0x22, 0x3a, 0x22, 0x41, 0x22, 0x7d]
}

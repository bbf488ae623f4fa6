# mcstatusc response parser, modelled in Dafny

mcstatusc is a minimal Minecraft "Server List Ping" client written in C. It
sends a fixed Handshake packet and a fixed Status Request packet, makes one
`recv` into a static 131072-byte buffer, and picks the JSON status string out
of the Status Response packet it receives. This project models the part of
`main` that works on bytes:

- the nine request bytes (`Request.RequestBytes`) and what they mean as two
  length-prefixed packets;
- the response parser: the packet-length VarInt loop, the packet-ID check,
  the loop that skips the string-length VarInt, the string length derived
  from the frame length, and the bounds check before printing.

Modules:

- `Wrappers`: `Option` and `Result`.
- `VarInt`: the VarInt byte format. `Size` gives how many bytes a VarInt
  occupies. `Value` gives the number its 7-bit groups spell. `Encode` is the
  shortest encoding, used to describe the request constant.
- `Response`: the parser. `Scan`, `CheckSizeAsWritten`, `CheckSize`,
  `ParseAsWritten` and `Parse` are the reference definitions. The methods
  `DecodeLength`, `SkipVarInt`, `ScanHeader` and `ParseResponse` are the
  loops and steps of `main`, each proved equal to its reference definition.
- `Request`: packets on the wire (`Frame`, `Frames`, `SplitFrames`) and the
  request constant.

How the C is represented:

- `response` is a `seq<bv8>` of exactly 131072 bytes (the static array) and
  `resp_size` is an `int` (what `recv` returned). The parser itself assumes
  nothing about bytes past `resp_size`. The predicate `Received` states what
  one `recv` into a zero-initialised static buffer leaves: zeros after the
  received bytes. Only `ReadPastBufferNeedsFullBuffer` uses it.
- `response` is a `char` array. `& 0x7f`, `& 0x80` and `!= 0x00` give the
  same answers whether `char` is signed or unsigned. A byte is therefore its
  unsigned value, `Byte` (0 to 255). `Group(b)` is `b % 128` and
  `Continues(b)` is `b >= 128`. `VarInt.MasksAreArithmetic` shows these equal
  the masks on an 8-bit value.
- `packet_length |= g << 7*i` is modelled as `+ g * 128^i`. The groups occupy
  disjoint bits, because the value so far is below `128^i` (`Value`'s bound).
- `resp_str_len` is a `uint32_t`, so lines 76-77 are written with explicit
  `% 2^32`.
- Each undefined operation of the C ends the parse with an `Undefined` error:
  - a shift by `7*i >= 32`, or a shifted group above INT_MAX at `i == 4`
    (`LengthShift`). Together these mean the length VarInt must end within
    five bytes and fit in a 32-bit `int` (`LengthDefined`);
  - `packet_length + packet_length_i` above INT_MAX (`SignedOverflow`);
  - the skip loop on line 73 indexing past the end of the array
    (`ReadPastBuffer`).
- The error messages become `ParseError` values: `RecvFailed` (line 55),
  `InvalidPacketId` (line 68) and `InvalidPacketSize` (line 78). A successful
  parse returns `Slice(start, len)`, the byte range line 83 prints.

This is the single-`recv` revision of the program, and the model follows
its code. Later revisions have features this one lacks, so they are not
modelled: incremental reassembly across several reads, an error for VarInts
over five bytes, a `packetLength >= 2` check, and a bound taken from the
decoded string-length VarInt. Here the string length is derived from the
frame length, and the string-length VarInt is never decoded.

## Model

| member | source | states |
|---|---|---|
| `VarInt.Size` | mcstatusc.c:61-63 | A VarInt occupies every byte up to and including the first byte whose `0x80` bit is clear, so at least one byte. Size is None exactly when every byte has the flag set. |
| `VarInt.Value` | mcstatusc.c:62 | The groups `b & 0x7f` summed with weights `1 << 7k` give a value below `128^n` for n bytes. |
| `VarInt.MasksAreArithmetic` | mcstatusc.c:62-63 | On an 8-bit value, `b & 0x7f` is `b % 128`, and `b & 0x80` is non-zero exactly when `b >= 128`. |
| `VarInt.ValueSnoc` | mcstatusc.c:62 | One more loop step adds that byte's group shifted by `7*i` to the accumulated length. |
| `VarInt.SingleByte` | mcstatusc.c:60-63 | A byte below `0x80` is a complete one-byte VarInt whose value is the byte itself. |
| `VarInt.SizeOnlyReadsFlags` | mcstatusc.c:73 | Where a VarInt ends depends only on the `0x80` flags, not on the data bits. |
| `VarInt.DecodeEncode` | mcstatusc.c:49 | Decoding the shortest encoding of v, whatever bytes follow it, returns v and the encoding's length. |
| `Response.DecodeLength` | mcstatusc.c:60-64 | The length loop returns the VarInt's value and `packet_length_i`, its byte count. It fails exactly when C would shift out of range. |
| `Response.SkipVarInt` | mcstatusc.c:73 | The skip loop moves `i` past every continuation byte and one terminating byte. It fails exactly when no terminating byte exists before the array ends. |
| `Response.ScanHeader` | mcstatusc.c:59-73 | The length loop, the packet-ID check and the skip loop together compute `Scan`: the packet length, its prefix size and the index after the string-length VarInt, or the first error. |
| `Response.ParseResponse` | mcstatusc.c:53-83 | The whole parse computes `Parse`. A negative `recv` count fails first. Any printed slice lies within the `resp_size` received bytes. |
| `Response.LengthPrefix` | mcstatusc.c:60-64 | A defined length prefix takes 1 to 5 bytes and ends at its first byte with the flag clear. Its value fits a 32-bit `int`. |
| `Response.SingleByteLength` | mcstatusc.c:60-64 | A first byte below `0x80` is the whole length prefix, and the packet length equals that byte. |
| `Response.PacketIdChecked` | mcstatusc.c:67-70 | After a defined length prefix, the parse fails with InvalidPacketId, printing nothing, exactly when the next byte is not `0x00`. This holds for both size checks. |
| `Response.StringLengthUnused` | mcstatusc.c:73 | Buffers that differ only in the data bits of the string-length VarInt give the same scan and the same parse result. The VarInt's value is never used. |
| `Response.SumWrapsToFrameEnd` | mcstatusc.c:76-77 | `(resp_str_len + i) mod 2^32` equals the frame end `packet_length + packet_length_i`, whatever `i` is. |
| `Response.AsWrittenComparesFrameEnd` | mcstatusc.c:76-80 | As written, the check fails with InvalidPacketSize exactly when the frame end exceeds `resp_size`. Otherwise it passes. |
| `Response.AsWrittenInBoundsWithoutWrap` | mcstatusc.c:76-83 | As written, if the check passes and the subtraction on line 76 does not wrap, the printed range `[i, i + resp_str_len)` lies within the received bytes. |
| `Response.WrapPassesCheck` | mcstatusc.c:76-83 | Received bytes `01 00 00`: the as-written check passes with a slice of length `2^32 - 1` starting at 3. The corrected check rejects the same input. |
| `Response.ParseInBounds` | mcstatusc.c:76-83 | With the corrected check, the slice starts after the string-length VarInt and ends at the frame end, which is at most `resp_size`. Its length is the packet length minus the ID byte and the string-length prefix. |
| `Response.ParseSucceedsIff` | mcstatusc.c:53-83 | With the corrected check, a slice is printed exactly when all of these hold: `recv` succeeded, the scan succeeded, the frame holds the ID and string-length prefix, the frame fits in the received bytes, and the frame end fits an `int`. |
| `Response.CorrectionOnlyRejectsWrap` | mcstatusc.c:76-80 | The two checks disagree only where the as-written one passes a slice running past the received bytes. The corrected one rejects that with InvalidPacketSize. |
| `Response.ReadPastBufferNeedsFullBuffer` | mcstatusc.c:52-73 | After one `recv` into the zero-initialised buffer, the skip loop can run off the array only if `recv` filled all 131072 bytes. |
| `Response.OneByteHeader` | mcstatusc.c:59-73 | A length byte below `0x80`, ID `0x00` and a string-length byte below `0x80` scan to packet length = the first byte, prefix size 1, string start 3. |
| `Response.Buffer` | mcstatusc.c:52-53 | The static buffer after `recv` delivered the given bytes: those bytes first, then zeros. |
| `Response.StatusResponseExample` | mcstatusc.c:59-83 | Packet length 14, ID 0, string length 12, then `{"desc":"A"}`: the printed slice is exactly those 12 bytes. |
| `Request.SplitFrames_Frames` | mcstatusc.c:49 | Cutting framed packets back at their length prefixes returns the original payloads. |
| `Request.RequestIsHandshakeThenStatusRequest` | mcstatusc.c:49 | The nine request bytes are two frames. The first has length 6 and payload `00 00 00 00 00 01`: ID 0, protocol 0, empty address, port 0, next state 1. The second has length 1 and payload `00`, the Status Request. |

## Findings

| source | as written | input that shows it | evidently intended | confidence | as-written member | corrected member |
|---|---|---|---|---|---|---|
| mcstatusc.c:76-77 | If the declared packet is too short to hold its ID byte and string-length prefix, `resp_str_len` underflows. `resp_str_len + i` then wraps back to the frame end, and the bounds check passes. | received bytes `01 00 00`, `resp_size` 3: `resp_str_len` is `2^32 - 1` and the sum wraps to 2, which is at most 3 | reject with "Invalid response packet size" | high that the check passes; not executed | `Response.WrapPassesCheck` | `Response.ParseInBounds` |

`Response.ParseAsWritten` uses `CheckSizeAsWritten`, which is lines 76-80 as
written. `Response.Parse` uses `CheckSize`, which first rejects
`i > packet_length + packet_length_i`. `ParseResponse` implements `Parse`.
Line 83 passes the huge length as the `int` precision of `%.*s`, where it
becomes negative. `printf` then prints up to the next NUL byte, which can be
past the packet or past the array.

## Left out

- Socket creation, `gethostbyname`, `connect`, `send` and `close` (lines
  20-46, 49, 85) are operating-system I/O. The model takes the received buffer
  and the `recv` count as inputs. `send`'s result is ignored by the source and
  is not modelled.
- Argument checks, `atoi` and the port range check (lines 15-18, 32-36) are
  command-line handling around a library call.
- `printf` and `fprintf` output (line 83 and the error messages): the model
  returns the slice and an error value. It does not model that `%.*s` stops
  at the first NUL byte inside the slice.
- Undefined behaviour is not reproduced. Each case ends the parse with an
  `Undefined` error, as described above.
- A request built from a real hostname and port is not part of this
  revision. `Request.HandshakePayload` only spells out what the constant
  means.

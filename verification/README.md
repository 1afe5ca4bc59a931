# Codecs, generators and the way of an H.264 frame

A model, in Dafny, of the code in this repository that decides something by itself, with proofs of what that code
promises. It has three parts.

**Bits and words.** libavutil's macros and inline functions: reading and writing UTF-8 and UTF-16, lagged Fibonacci
generators, the population count, clips, saturating additions and rounding, byte order. `Bits.dfy` defines C's operators
on the numbers that words stand for; wherever C cuts a result to the width of its word, the model says so with `%`. A
form with masks, shifts or a ring of 64 words is a method or function as in the C code; what it has to mean is defined
apart from it, and the two are proved equal on all inputs. On top of that come the laws: round trips, canonical form,
order, whole streams, whole runs.

**The way of a frame.** `H264EncoderImpl::Encode` packs the NAL units of an encoder into one buffer and fills a table
(`Fragments.dfy`, `H264Encoder.dfy`, `OpenH264.dfy`). `RtpPacketizerH264` turns buffer and table into RTP payloads, and
`RtpDepacketizerH264` reads one (`RtpH264.dfy`); `WireFormat.dfy` says what that comes to, bit by bit, and `Fewest.dfy`
that no split into payloads does with fewer. `VCMSessionInfo` keeps the packets of a frame in order and their bytes end
to end in a frame buffer (`SessionInfo.dfy`), in whatever order they arrive (`Reassembly.dfy`); `VCMFrameBuffer` makes
the room (`FrameBuffer.dfy`). `Transport.dfy` follows a frame from the packetizer to the session, `EndToEnd.dfy` from
the encoders to the bytes in the receiver's buffer: what comes out is what went in.

**Shared state.** The start/stop handshake of three threads over one critical section (`WindowHandshake.dfy`), as steps
of which a schedule picks any that is enabled; and `Config`, the owning map of options (`Config.dfy`).

Objects whose methods change their fields are classes here, buffers are arrays changed in place, and loops are loops with
invariants. Each such method is tied to a function of the state before it; the laws are lemmas about those functions.

Where the code does not do what its documentation or its use suggests, the model follows the code, gives an input that
shows it, and proves for which inputs the code does what is wanted:

- The comment on GET_UTF8 (common.h:294-299) speaks of characters of up to four bytes and of up to seven evaluations of
  GET_BYTE. The code takes sequences of up to six bytes and never asks for a seventh (`Utf8.GetUtf8`,
  `Utf8Laws.RejectsExactly`).
- av_clip_uint8, av_clip_uint16 and av_clip_uintp2 negate their argument, so INT_MIN comes out as the upper bound.
- The rounding macros add before they divide; where the sum overflows, they are off, and the two branches of
  FF_CEIL_RSHIFT differ (`Clips.RoundedDivExactly`, `Clips.RshiftExactly`, `Clips.CeilRshiftAgreeExactly`,
  `Clips.FloorDivisionExactly`).
- `_length` is reset only for frames of positive size (h264_impl.cc:365-372): while x264 holds frames back, an earlier
  frame is delivered again with an empty table (`H264Encoder.DeliversOnceExactly`).
- `nal_begin` moves on by the running total (h264_impl.cc:336): from the third NAL unit of a layer on, the wrong bytes
  are packed (`OpenH264.ReadsAtStartsExactly`).
- Rows for NAL units of type 14 stay empty, which the packetizer asserts against (`EndToEnd.AcceptedExactly`).
- Every packet that starts a NAL unit is taken for the first of its frame (packet.cc:115-117, session_info.cc:468-472),
  so a frame can count as complete without its front (`Transport.CompleteReliableExactly`), and the packet that arrives
  last decides the frame type (`Reassembly.TypeIsExactly`). A fragment of a parameter set counts as one of a delta frame,
  and an aggregate is judged by its first NAL unit alone (`WireFormat.UnitFlags`).
- Whether a session is full is asked before whether a packet is a duplicate (session_info.cc:449-464), so in a frame of
  800 packets one that is repeated is reported as an error of size (`FrameBuffer.OutcomeExactly`).
- The room reserved for a packet (frame_buffer.cc:108-110) counts one start code, although an aggregation packet is given
  one for each of its NAL units (`FrameBuffer.RoomExactly`, `FrameBuffer.FourUnitsLackRoom`).
- `Config::Set` deletes the pointer it is given when it already holds it (`Config.SettingTwiceDangles`,
  `Config.ReferencesAreAlive`), and setting null brings the default back (`Config.NullResets`).

## Model

| member | source | states |
|---|---|---|
| Utf8.PutUtf8 | webrtc_videoengine_demo/ffmpeg/libavutil/common.h:362-380 | The bytes put are the scheme of section 2 of RFC 2279: the lead byte carries the marker of the row the value falls in, the others its base-64 digits; for every value below 2^31. |
| Utf8.GetUtf8 | webrtc_videoengine_demo/ffmpeg/libavutil/common.h:309-323 | On any bytes: the value of the first sequence and how many bytes it took, or a run of ERROR after so many bytes, or a read past the end, as the scheme defines them, although `val` and `top` wrap at 32 bits. |
| Utf8.LengthFormula | webrtc_videoengine_demo/ffmpeg/libavutil/common.h:372 | `(av_log2(in)+4)/5` is the row of the table, the number of bytes, for every value from 0x80. |
| Utf8.InLoop | webrtc_videoengine_demo/ffmpeg/libavutil/common.h:311-320 | In the loop, `val` is the unbounded base-64 number of the bytes so far cut to 32 bits, and `top` is bit 5i+6 (or 0 for a single byte). |
| Utf8.LoopGuard | webrtc_videoengine_demo/ffmpeg/libavutil/common.h:314 | `val & top` is non-zero exactly while the lead byte promises another byte. |
| Utf8.LoopEnd | webrtc_videoengine_demo/ffmpeg/libavutil/common.h:321 | The last mask leaves exactly the value, also where `top << 1` wraps to 0. |
| Utf8Laws.RoundTrip | webrtc_videoengine_demo/ffmpeg/libavutil/common.h:309-380 | Reading what was put gives the value back and takes exactly those bytes, whatever follows, for every value below 2^31. |
| Utf8Laws.RejectsExactly | webrtc_videoengine_demo/ffmpeg/libavutil/common.h:309-318 | ERROR runs exactly on a lead byte 80..BF, FE or FF or on a missing continuation byte; a value is returned exactly on a well-formed sequence. |
| Utf8Laws.StopsExactly | webrtc_videoengine_demo/ffmpeg/libavutil/common.h:309-319 | The error is found with the very byte that cannot lead or does not continue, after exactly so many calls of GET_BYTE; the input is used up exactly within a sequence that is to go on. |
| Utf8Laws.CanonicalForm | webrtc_videoengine_demo/ffmpeg/libavutil/common.h:309-380 | Whatever is accepted is below 2^31, is put again in no more bytes, and in the same bytes exactly when its first two bytes do not mark it overlong. |
| Utf8Laws.OrderPreserved | webrtc_videoengine_demo/ffmpeg/libavutil/common.h:362-380 | a < b exactly when the bytes of a come before those of b in lexicographic order (section 1 of RFC 3629), across all row boundaries. |
| Utf8Laws.PrefixFree | webrtc_videoengine_demo/ffmpeg/libavutil/common.h:362-380 | No encoding is a prefix of another. |
| Utf8Laws.StreamRoundTrip | webrtc_videoengine_demo/ffmpeg/libavutil/common.h:309-380 | Reading repeatedly from the concatenated encodings of any values gives the values. |
| Utf8Laws.StreamCanonical | webrtc_videoengine_demo/ffmpeg/libavutil/common.h:309-380 | Any byte string that can be read to its end is, read and put again, no longer, and as long only if it is the same. |
| Utf8Laws.StreamOrder | webrtc_videoengine_demo/ffmpeg/libavutil/common.h:362-380 | Texts compare byte by byte exactly as they compare value by value. |
| Utf8Laws.Resynchronises | webrtc_videoengine_demo/ffmpeg/libavutil/common.h:309-380 | At any position of an encoded text the byte there tells whether a character starts; if not, the reader rejects at once, and if so it reads the rest of the text. |
| Utf8Laws.BrokenExactly | webrtc_videoengine_demo/ffmpeg/libavutil/common.h:309-323 | Repeated reading breaks off at a position exactly when what lies before it can be read to its end and no character can be read there. |
| Utf16.PutUtf16 | webrtc_videoengine_demo/ffmpeg/libavutil/common.h:396-408 | The units put are those of section 2.1 of RFC 2781, for every value up to 0x10FFFF. |
| Utf16.GetUtf16 | webrtc_videoengine_demo/ffmpeg/libavutil/common.h:334-344 | On any units: the value and how many units it took, ERROR, or a read past the end, as section 2.2 of RFC 2781 defines them, although `val` and `hi` wrap below 0. |
| Utf16.RoundTrip | webrtc_videoengine_demo/ffmpeg/libavutil/common.h:334-408 | Reading undoes putting, whatever follows, exactly for the values that are not surrogates. |
| Utf16.RejectsExactly | webrtc_videoengine_demo/ffmpeg/libavutil/common.h:334-343 | ERROR runs exactly on a low surrogate that comes first or a high one not followed by a low one. |
| Utf16.Canonical | webrtc_videoengine_demo/ffmpeg/libavutil/common.h:334-408 | What is accepted is the encoding of what is returned. |
| Utf16.StreamRoundTrip | webrtc_videoengine_demo/ffmpeg/libavutil/common.h:334-408 | Sequences of scalar values survive putting and reading. |
| Utf16.StreamConverse | webrtc_videoengine_demo/ffmpeg/libavutil/common.h:334-408 | Any units that can be read to their end are given back by putting what was read. |
| Utf16.ThroughUtf8 | webrtc_videoengine_demo/ffmpeg/libavutil/common.h:309-408 | Any text UTF-16 can carry survives the way through UTF-8 and back. |
| Utf16.OrderAgreesExactly | webrtc_videoengine_demo/ffmpeg/libavutil/common.h:396-408 | UTF-16 units order two values as their numbers do except exactly when one needs a pair and the other lies above the surrogates in one unit. |
| Lfg.AVLFG.Get | webrtc_videoengine_demo/ffmpeg/libavutil/lfg.h:38-41 | One call drops the oldest of the 64 terms the ring holds, adds the sum of those with lags 24 and 55 as the newest, and returns it, from any index. |
| Lfg.AVLFG.MGet | webrtc_videoengine_demo/ffmpeg/libavutil/lfg.h:48-52 | The same for the multiplicative generator. |
| Lfg.Draw | webrtc_videoengine_demo/ffmpeg/libavutil/lfg.h:38-52 | n calls return terms 0 to n-1 of the unbounded recurrence, from any state, for any n, and the index has moved on by n modulo 2^32. |
| Lfg.RingHolds | webrtc_videoengine_demo/ffmpeg/libavutil/lfg.h:25-41 | After n steps the ring holds terms n-64 to n-1. |
| Lfg.OddProduct | webrtc_videoengine_demo/ffmpeg/libavutil/lfg.h:51 | The words stand for the odd residues modulo 2^33, and `2*a*b+a+b` multiplies them. |
| Lfg.MultiplicativeLaw | webrtc_videoengine_demo/ffmpeg/libavutil/lfg.h:48-52 | Along every run y_n = 2 x_n + 1 equals y_{n-24} y_{n-55} modulo 2^33. |
| Lfg.RunsCombine | webrtc_videoengine_demo/ffmpeg/libavutil/lfg.h:38-52 | The run from two start states combined is the two runs combined: for the additive generator linearity modulo 2^32, for the multiplicative one the same for products. |
| Lfg.LowBits | webrtc_videoengine_demo/ffmpeg/libavutil/lfg.h:38-52 | The k low bits of every output depend only on the k low bits of the last 55 words. |
| Lfg.Undo | webrtc_videoengine_demo/ffmpeg/libavutil/lfg.h:38-41 | From the tenth call on, the word a call overwrites is x_{n-9} - x_{n-33} modulo 2^32. |
| Lfg.Cancel | webrtc_videoengine_demo/ffmpeg/libavutil/lfg.h:38-52 | A result and one operand determine the other operand, in both generators. |
| Lfg.RingRemembers | webrtc_videoengine_demo/ffmpeg/libavutil/lfg.h:38-52 | Two rings agree after n >= 9 calls exactly when they agreed on their last 55 words at the start. |
| Popcount.PopcountC | webrtc_videoengine_demo/ffmpeg/libavutil/common.h:271-278 | The result is the number of ones of any 32-bit word. |
| Popcount.Popcount64C | webrtc_videoengine_demo/ffmpeg/libavutil/common.h:285-288 | And of any 64-bit word. |
| Popcount.PairsStep | webrtc_videoengine_demo/ffmpeg/libavutil/common.h:273 | The first line turns each pair of bits into its own sum. |
| Popcount.NibblesStep | webrtc_videoengine_demo/ffmpeg/libavutil/common.h:274 | The second adds neighbouring pairs, at most four to a nibble. |
| Popcount.BytesStep | webrtc_videoengine_demo/ffmpeg/libavutil/common.h:275 | The third adds neighbouring nibbles with no carry out of a byte. |
| Popcount.TotalStep | webrtc_videoengine_demo/ffmpeg/libavutil/common.h:276-277 | The last two lines add up the four bytes. |
| Clips.ClipUint8Exactly | webrtc_videoengine_demo/ffmpeg/libavutil/common.h:137-141 | Clips to 0..255 exactly for every int but INT_MIN, whose negation overflows. |
| Clips.ClipUint16Exactly | webrtc_videoengine_demo/ffmpeg/libavutil/common.h:159-163 | Clips to 0..65535 with the same exception. |
| Clips.ClipUintp2Exactly | webrtc_videoengine_demo/ffmpeg/libavutil/common.h:193-197 | Clips to 0..2^p-1 for 0 <= p <= 30, exactly unless a is INT_MIN and p > 0. |
| Clips.ClipsOfLowest | webrtc_videoengine_demo/ffmpeg/libavutil/common.h:137-163 | For INT_MIN av_clip_uint8 gives 255 and av_clip_uint16 65535. |
| Clips.ClipInt8Correct | webrtc_videoengine_demo/ffmpeg/libavutil/common.h:148-152 | Clips every int to -128..127, also where the addition wraps. |
| Clips.ClipInt16Correct | webrtc_videoengine_demo/ffmpeg/libavutil/common.h:170-174 | Clips every int to -32768..32767. |
| Clips.CliplInt32Correct | webrtc_videoengine_demo/ffmpeg/libavutil/common.h:181-185 | Clips every 64-bit number to the range of int. |
| Clips.SatAdd32Correct | webrtc_videoengine_demo/ffmpeg/libavutil/common.h:206-209 | The sum of any two ints, clipped. |
| Clips.SatDadd32Correct | webrtc_videoengine_demo/ffmpeg/libavutil/common.h:218-221 | a plus 2b clipped first; equal to a + 2b clipped once exactly when 2b fits or the signs agree. |
| Clips.RoundedDivExactly | webrtc_videoengine_demo/ffmpeg/libavutil/common.h:55 | ROUNDED_DIV, computed in a type of any width from int on, is the nearest division, ties away from zero, exactly when adding or subtracting the half does not overflow. |
| Clips.RshiftExactly | webrtc_videoengine_demo/ffmpeg/libavutil/common.h:53 | RSHIFT is the nearest division by 2^b exactly when, for a positive number, adding the half does not overflow and, for any other, b >= 1. |
| Clips.RshiftIsDivisionExactly | webrtc_videoengine_demo/ffmpeg/libavutil/common.h:53-55 | RSHIFT and ROUNDED_DIV by 2^b agree exactly where neither overflows and, unless the number is positive, b >= 1, or where both overflow and nothing is left over. |
| Clips.CeilVariableExactly | webrtc_videoengine_demo/ffmpeg/libavutil/common.h:57 | The branch for a variable b is the division by 2^b rounded up exactly unless a is the lowest number and b > 0. |
| Clips.CeilConstantExactly | webrtc_videoengine_demo/ffmpeg/libavutil/common.h:58 | The branch for a constant b is, exactly when a + 2^b - 1 does not overflow. |
| Clips.CeilRshiftAgreeExactly | webrtc_videoengine_demo/ffmpeg/libavutil/common.h:57-58 | The two branches agree exactly when both are. |
| Clips.FloorDivisionExactly | webrtc_videoengine_demo/ffmpeg/libavutil/common.h:59-60 | FFUDIV and FFUMOD are the division with a remainder from 0 to b-1 exactly when a is positive or a - b + 1 does not overflow. |
| Clips.AlignsUpExactly | webrtc_videoengine_demo/ffmpeg/libavutil/common.h:71 | For any 32-bit word x and k < 32, FFALIGN gives the least multiple of 2^k that is not below x exactly when x + 2^k is at most 2^32; otherwise it gives 0. |
| Clips.CeilLog2Correct | webrtc_videoengine_demo/ffmpeg/libavutil/common.h:261-264 | The least r with x <= 2^r, for 1 <= x <= 2^30. |
| ByteOrder.BswapReverses | webrtc_videoengine_demo/ffmpeg/libavutil/bswap.h:60-79 | Each swap reverses the bytes of any word of its width. |
| ByteOrder.BswapInvolution | webrtc_videoengine_demo/ffmpeg/libavutil/bswap.h:60-79 | Swapping twice changes nothing. |
| ByteOrder.ConstantForms | webrtc_videoengine_demo/ffmpeg/libavutil/bswap.h:53-79 | The macro forms for constants are the same functions as the inline ones. |
| ByteOrder.NativeOrder | webrtc_videoengine_demo/ffmpeg/libavutil/bswap.h:84-102 | On either host, av_be2ne and av_le2ne followed by a native store write the bytes in the order named. |
| ByteOrder.ExplicitReads | webrtc_videoengine_demo/ffmpeg/libavutil/intreadwrite.h:231-326 | The explicit shift forms of 16, 24, 32, 48 and 64 bits read the number the bytes denote in the order of their name. |
| ByteOrder.HostIndependentReads | webrtc_videoengine_demo/ffmpeg/libavutil/intreadwrite.h:375-385 | On either host, a native load, swapped where the orders differ, reads what the explicit shifts read. |
| ByteOrder.NativeFromExplicit | webrtc_videoengine_demo/ffmpeg/libavutil/intreadwrite.h:341-347 | The native load built from the explicit form is the native load. |
| ByteOrder.WriteThenRead | webrtc_videoengine_demo/ffmpeg/libavutil/intreadwrite.h:231-503 | Reading what was written gives the value modulo 2^bits, in both orders and at every width. |
| ByteOrder.ReadThenWrite | webrtc_videoengine_demo/ffmpeg/libavutil/intreadwrite.h:231-503 | Writing what was read gives the bytes back. |
| ByteOrder.WB | webrtc_videoengine_demo/ffmpeg/libavutil/intreadwrite.h:375-382 | On either host the big-endian write by native access, of any argument, changes exactly the n bytes addressed, to the low n bytes of the value. |
| ByteOrder.WL | webrtc_videoengine_demo/ffmpeg/libavutil/intreadwrite.h:375-384 | The same for little-endian writes. |
| ByteOrder.WB16 | webrtc_videoengine_demo/ffmpeg/libavutil/intreadwrite.h:236-242 | The explicit big-endian write, for any argument: the low bytes in order, and no others changed. |
| ByteOrder.WB24 | webrtc_videoengine_demo/ffmpeg/libavutil/intreadwrite.h:441-447 | The same at 24 bits. |
| ByteOrder.WB32 | webrtc_videoengine_demo/ffmpeg/libavutil/intreadwrite.h:264-272 | The same at 32 bits. |
| ByteOrder.WB48 | webrtc_videoengine_demo/ffmpeg/libavutil/intreadwrite.h:472-482 | The same at 48 bits. |
| ByteOrder.WB64 | webrtc_videoengine_demo/ffmpeg/libavutil/intreadwrite.h:302-314 | The same at 64 bits. |
| ByteOrder.WL16 | webrtc_videoengine_demo/ffmpeg/libavutil/intreadwrite.h:249-255 | The explicit little-endian write at 16 bits. |
| ByteOrder.WL24 | webrtc_videoengine_demo/ffmpeg/libavutil/intreadwrite.h:455-461 | The same at 24 bits. |
| ByteOrder.WL32 | webrtc_videoengine_demo/ffmpeg/libavutil/intreadwrite.h:281-289 | The same at 32 bits. |
| ByteOrder.WL48 | webrtc_videoengine_demo/ffmpeg/libavutil/intreadwrite.h:493-503 | The same at 48 bits. |
| ByteOrder.WL64 | webrtc_videoengine_demo/ffmpeg/libavutil/intreadwrite.h:327-339 | The same at 64 bits. |
| Fragments.RTPFragmentationHeader.VerifyAndAllocate | webrtc_videoengine_demo/webrtc/modules/interface/module_common_types.h:176-222 | Growing the table keeps its rows and adds empty ones; it never shrinks. |
| Fragments.Pack | webrtc_videoengine_demo/h264_impl.cc:377-390 | A NAL unit copied to the end of the image and one row: the image is the pieces laid end to end and the rows are theirs. |
| Fragments.TableInverts | webrtc_videoengine_demo/h264_impl.cc:386-389 | Cutting the image along row k gives back piece k, with its type; the time difference is 0. |
| Fragments.TablePartitions | webrtc_videoengine_demo/h264_impl.cc:386-389 | The rows start at 0, each begins where the one before ends, and the last ends with the image. |
| H264Encoder.H264EncoderImpl.EncodeX264 | webrtc_videoengine_demo/h264_impl.cc:268-278 | One call, for every outcome of the encoder: the image, the status, the frame count and the callbacks made. |
| H264Encoder.PackX264 | webrtc_videoengine_demo/h264_impl.cc:370-391 | Afterwards the image is the NAL units without their prefixes of four bytes, end to end, and the table is theirs. |
| H264Encoder.PackingInverts | webrtc_videoengine_demo/h264_impl.cc:365-392 | Cutting the image along the table gives every NAL unit without its prefix, in order and with its i_type, and the image has the sum of i_payload minus 4 i_nal bytes. |
| H264Encoder.DeliveriesCounted | webrtc_videoengine_demo/h264_impl.cc:365-403 | Over any run of calls the callbacks are one for each frame with bytes, and one for each repetition. |
| H264Encoder.CallbacksExactly | webrtc_videoengine_demo/h264_impl.cc:365-403 | Over any run, every callback in order: the own NAL units of a frame that came with bytes, the image as it is and an empty table for one held back; and the image the run leaves. |
| H264Encoder.FramesCounted | webrtc_videoengine_demo/h264_impl.cc:365-393 | `i_frame` moves on by the number of calls that were held back or came with NAL units. |
| H264Encoder.DeliversOnceExactly | webrtc_videoengine_demo/h264_impl.cc:365-403 | From an empty image a run delivers each frame once exactly when no call returns size 0 while the last frame packed before it had bytes, since `_length` is reset only for frames of positive size. |
| H264Encoder.OpenExactly | webrtc_videoengine_demo/h264_impl.cc:268-278 | x264 is still open after a run, so that Encode may be called again, exactly when it was at the start and no call has failed. |
| H264Encoder.HeldBackFrameRepeats | webrtc_videoengine_demo/h264_impl.cc:365-403 | An input for which the same bytes are delivered twice, the second time with an empty table. |
| OpenH264.H264EncoderImpl.Encode | webrtc_videoengine_demo/h264_impl.cc:305-404 | One call: one callback with the pieces kept and a table with an empty row for each NAL unit left out, or none. |
| OpenH264.FillPass | webrtc_videoengine_demo/h264_impl.cc:321-361 | The two nested loops pack what each round keeps, in order, within the rows counted. |
| OpenH264.FillsAllRowsExactly | webrtc_videoengine_demo/h264_impl.cc:307-361 | The fill pass fills all rows the count pass allocated exactly when no NAL unit is taken for type 14. |
| OpenH264.FrameCounts | webrtc_videoengine_demo/h264_impl.cc:321-361 | The rows filled number the NAL units not taken for type 14, and `_length` is the sum of their lengths less four each. |
| OpenH264.CallsBackExactly | webrtc_videoengine_demo/h264_impl.cc:305-402 | There is a callback exactly when any bytes are kept; the rows of its table that no piece fills are all zero. |
| OpenH264.Drift | webrtc_videoengine_demo/h264_impl.cc:330-336 | Round k reads behind the start of NAL unit k by the sum of the running totals after each of the first k-1. |
| OpenH264.ReadsAtStartsExactly | webrtc_videoengine_demo/h264_impl.cc:330-336 | Every NAL unit of a layer is read at its own start exactly when the layer has at most two. |
| OpenH264.SmallFramesArePacked | webrtc_videoengine_demo/h264_impl.cc:305-361 | A frame of layers of at most two NAL units is packed as its own NAL units, in order, without those of type 14. |
| OpenH264.ThirdNalMisread | webrtc_videoengine_demo/h264_impl.cc:336 | A layer of three NAL units whose third piece is not the third NAL unit. |
| OpenH264.DeliveryInverts | webrtc_videoengine_demo/h264_impl.cc:348-357 | The filled rows cut the image into the pieces kept, start at 0, are adjacent and end with the image. |
| RtpH264.RtpPacketizerH264.GeneratePackets | webrtc_videoengine_demo/webrtc/modules/rtp_rtcp/source/rtp_format_h264.cc:116-127 | The queue holds the packets of exactly the planned units: groups of rows, and parts of rows that are too long. |
| RtpH264.RtpPacketizerH264.PacketizeFuA | webrtc_videoengine_demo/webrtc/modules/rtp_rtcp/source/rtp_format_h264.cc:129-153 | A row too long is queued as its parts. |
| RtpH264.RtpPacketizerH264.PacketizeStapA | webrtc_videoengine_demo/webrtc/modules/rtp_rtcp/source/rtp_format_h264.cc:155-192 | A group is queued and the index moves to the first row that does not fit. |
| RtpH264.RtpPacketizerH264.NextPacket | webrtc_videoengine_demo/webrtc/modules/rtp_rtcp/source/rtp_format_h264.cc:194-221 | The next payload is that of the next unit in the format of RFC 6184 that fits it, told from the first packet alone; the flag is set exactly on the last. |
| RtpH264.RtpPacketizerH264.NextAggregatePacket | webrtc_videoengine_demo/webrtc/modules/rtp_rtcp/source/rtp_format_h264.cc:223-246 | A STAP-A of all NAL units of the group (section 5.7.1 of RFC 6184). |
| RtpH264.RtpPacketizerH264.NextFragmentPacket | webrtc_videoengine_demo/webrtc/modules/rtp_rtcp/source/rtp_format_h264.cc:248-273 | An FU-A with the indicator and header of its packet (section 5.8 of RFC 6184). |
| RtpH264.GroupFits | webrtc_videoengine_demo/webrtc/modules/rtp_rtcp/source/rtp_format_h264.cc:155-192 | A group fits the payload and would not with one row more. |
| RtpH264.FewestParts | webrtc_videoengine_demo/webrtc/modules/rtp_rtcp/source/rtp_format_h264.cc:129-138 | A NAL unit that is too long is sent in the fewest payloads that can hold it. |
| WireFormat.LongRowSent | webrtc_videoengine_demo/webrtc/modules/rtp_rtcp/source/rtp_format_h264.cc:129-153 | A row too long is sent in the fewest parts that can hold it, one behind the other from its second byte to its last, all of the least size with which so many can hold it, but for the last, which has the rest. |
| WireFormat.LargestIsLeast | webrtc_videoengine_demo/webrtc/modules/rtp_rtcp/source/rtp_format_h264.cc:136-138 | No other way to share it out among as many parts has a smaller largest part. |
| WireFormat.ShortRowSent | webrtc_videoengine_demo/webrtc/modules/rtp_rtcp/source/rtp_format_h264.cc:155-192 | A row that fits is sent together with as many of those behind it as fit. |
| WireFormat.FragmentBits | webrtc_videoengine_demo/webrtc/modules/rtp_rtcp/source/rtp_format_h264.cc:248-273 | Every bit of a fragment: the type 28 and the F and NRI bits of the NAL unit, its type, S exactly on the part that begins it, E exactly on the part that ends it, R never, and the bytes of the part. |
| WireFormat.GroupBits | webrtc_videoengine_demo/webrtc/modules/rtp_rtcp/source/rtp_format_h264.cc:223-246 | The first byte of an aggregate: the type 24 and the F and NRI bits of its first NAL unit. |
| Fewest.PlanIsFewest | webrtc_videoengine_demo/webrtc/modules/rtp_rtcp/source/rtp_format_h264.cc:116-192 | However a frame's NAL units are split, in order, into payloads that fit, with any of them fragmented in any way, there are at least as many payloads as the packetizer makes. |
| Fewest.PlanCovers | webrtc_videoengine_demo/webrtc/modules/rtp_rtcp/source/rtp_format_h264.cc:116-192 | What the packetizer makes is such a split. |
| RtpH264.PlanGood | webrtc_videoengine_demo/webrtc/modules/rtp_rtcp/source/rtp_format_h264.cc:116-192 | Every unit planned fits; no part is at once first and last, so that none is taken for a single NAL unit. |
| RtpH264.WireFits | webrtc_videoengine_demo/webrtc/modules/rtp_rtcp/source/rtp_format_h264.cc:207-217 | No payload is empty or larger than max_payload_len_. |
| WireFormat.GroupSizeIs | webrtc_videoengine_demo/webrtc/modules/rtp_rtcp/source/rtp_format_h264.cc:155-192 | The size the packetizer reckons with for a group is that of its payload. |
| RtpH264.SendH264 | webrtc_videoengine_demo/webrtc/modules/rtp_rtcp/source/rtp_sender_video.cc:492-525 | The payloads of a frame, all of them, in order, with the marker on the last. |
| RtpH264.Parse | webrtc_videoengine_demo/webrtc/modules/rtp_rtcp/source/rtp_format_h264.cc:279-298 | On any payload long enough: the bytes passed on, with the NAL header put back in front of a first fragment, and the flags. |
| WireFormat.AnyFlags | webrtc_videoengine_demo/webrtc/modules/rtp_rtcp/source/rtp_format_h264.cc:40-95 | For any payload long enough, in terms of its bits: which bytes are passed on, and whether it is taken for the first of a NAL unit, a single NAL unit, an aggregate, and one of a key frame. |
| WireFormat.UnitFlags | webrtc_videoengine_demo/webrtc/modules/rtp_rtcp/source/rtp_format_h264.cc:40-95 | For the payloads of a frame: a fragment counts as one of a key frame exactly for type 5, any other exactly when the type of its only or first NAL unit is 5, 7 or 8. |
| WireFormat.ReadInPlace | webrtc_videoengine_demo/webrtc/modules/rtp_rtcp/source/rtp_format_h264.cc:75-80 | The payload is changed in its second byte only, and only for a first fragment. |
| SessionInfo.VCMSessionInfo.InsertPacket | webrtc_videoengine_demo/webrtc/modules/video_coding/main/source/session_info.cc:438-521 | The session is stepped as specified (refused when full or a duplicate, else put in sequence order), the return code says which, and the frame buffer, given room for what is inserted, again holds the contents of the packets end to end. |
| SessionInfo.VCMSessionInfo.InsertBuffer | webrtc_videoengine_demo/webrtc/modules/video_coding/main/source/session_info.cc:124-178 | The bytes of the packet are put between those of its neighbours, in place, and every data pointer and size is right again. |
| SessionInfo.VCMSessionInfo.ShiftSubsequentPackets | webrtc_videoengine_demo/webrtc/modules/video_coding/main/source/session_info.cc:196-210 | The bytes and the data pointers behind a packet move up together; what lies before stays. |
| SessionInfo.InsertEntries | webrtc_videoengine_demo/webrtc/modules/video_coding/main/source/session_info.cc:154-164 | The NAL units of an aggregation packet go into the buffer with start codes in place of their sizes. |
| SessionInfo.VCMSessionInfo.FindPosition | webrtc_videoengine_demo/webrtc/modules/video_coding/main/source/session_info.cc:454-459 | Behind the last packet that is not newer. |
| SessionInfo.VCMSessionInfo.UpdateCompleteSession | webrtc_videoengine_demo/webrtc/modules/video_coding/main/source/session_info.cc:212-228 | `complete_` says whether the numbers are consecutive once both ends have been seen. |
| SessionInfo.NewerExactly | webrtc_videoengine_demo/webrtc/modules/interface/module_common_types.h:888-904 | A number is newer exactly when it is 1 to 32767 ahead, across the wrap. |
| SessionInfo.PositionExactly | webrtc_videoengine_demo/webrtc/modules/video_coding/main/source/session_info.cc:454-459 | A place is the one found exactly when nothing behind it is the same or older and what lies before it is. |
| SessionInfo.AgainExactly | webrtc_videoengine_demo/webrtc/modules/video_coding/main/source/session_info.cc:461-464 | A packet that comes again is refused exactly when it put bytes into the frame, or the session has become full with it. |
| SessionInfo.NeverMore | webrtc_videoengine_demo/webrtc/modules/video_coding/main/source/session_info.cc:449-452 | Whatever packets arrive, a session never holds more than 800, and stays as it is once it does. |
| Reassembly.HoldsArrived | webrtc_videoengine_demo/webrtc/modules/video_coding/main/source/session_info.cc:454-514 | For any order of arrival, with repetitions, the session holds the packets that have arrived in the order sent, also where the numbers wrap at 2^16. |
| Reassembly.WholeFrame | webrtc_videoengine_demo/webrtc/modules/video_coding/main/source/session_info.cc:438-521 | Once all have arrived, in any order, the frame is their contents one after the other. |
| Reassembly.CompleteExactly | webrtc_videoengine_demo/webrtc/modules/video_coding/main/source/session_info.cc:212-228 | A session counts as complete exactly when a packet that starts a NAL unit and the last packet are there and no packet is missing behind one that is there. |
| Reassembly.EndsExactly | webrtc_videoengine_demo/webrtc/modules/video_coding/main/source/session_info.cc:466-477 | In any order of arrival and however packets are flagged, the first number is that of the first in sequence that starts a NAL unit, the last that of the last in sequence that is marked. |
| Reassembly.CompleteMeansWholeExactly | webrtc_videoengine_demo/webrtc/modules/video_coding/main/source/session_info.cc:466-477 | That `complete_` means all packets are there holds exactly for frames in which no later packet starts a NAL unit. |
| Reassembly.TypeIsExactly | webrtc_videoengine_demo/webrtc/modules/video_coding/main/source/session_info.cc:467 | The frame type is the same for every order of arrival exactly when all packets have it. |
| Reassembly.TypeIsLastNew | webrtc_videoengine_demo/webrtc/modules/video_coding/main/source/session_info.cc:466-467 | The frame type is that of the packet that was the last to arrive for the first time; repetitions do not change it. |
| WireFormat.TypeExactly | webrtc_videoengine_demo/webrtc/modules/video_coding/main/source/session_info.cc:466-467 | In terms of the NAL units sent: that payload counts as one of a key frame. |
| WireFormat.TypeReliableExactly | webrtc_videoengine_demo/webrtc/modules/video_coding/main/source/session_info.cc:466-467 | The type is the same for every order exactly when all payloads of the frame count alike. |
| WireFormat.TypeOfPureFrames | webrtc_videoengine_demo/webrtc/modules/video_coding/main/source/session_info.cc:466-467 | So it is for frames of IDR slices alone, and for frames without any and without parameter sets. |
| Transport.UnitSurvives | webrtc_videoengine_demo/webrtc/modules/video_coding/main/source/packet.cc:114-129 | Read, made a packet and inserted, a payload puts into the frame exactly its unit's share. |
| Transport.PlanTotal | webrtc_videoengine_demo/webrtc/modules/rtp_rtcp/source/rtp_format_h264.cc:116-192 | The shares of all units are the frame's byte stream: every NAL unit of the table behind a start code. |
| FrameBuffer.VCMFrameBuffer.InsertPacket | webrtc_videoengine_demo/webrtc/modules/video_coding/main/source/frame_buffer.cc:86-157 | One call, for every packet that has room: the buffer is grown or the packet refused as too large, the session stepped, the length kept, and the outcome returned; the buffer holds the session's packets end to end. |
| FrameBuffer.VCMFrameBuffer.Reserve | webrtc_videoengine_demo/webrtc/modules/video_coding/main/source/frame_buffer.cc:108-128 | Growth in whole steps of 30000 bytes up to 4000000, with every byte kept. |
| FrameBuffer.VCMFrameBuffer.VerifyAndAllocate | webrtc_videoengine_demo/webrtc/modules/video_coding/main/source/encoded_frame.cc:148-163 | A larger buffer with the bytes of the old one. |
| FrameBuffer.GrowthExactly | webrtc_videoengine_demo/webrtc/modules/video_coding/main/source/frame_buffer.cc:108-128 | A buffer not larger than what the packet needs grows by the least number of steps that holds all of that, or the packet is refused, exactly when 4000000 bytes would be exceeded, and nothing changes. |
| FrameBuffer.OutcomeExactly | webrtc_videoengine_demo/webrtc/modules/video_coding/main/source/frame_buffer.cc:135-156 | Which outcome each packet of a frame has in any order of arrival; a repeated one is a size error, not a duplicate, when the frame has 800 and all are there. |
| FrameBuffer.VCMFrameBuffer.Reset | webrtc_videoengine_demo/webrtc/modules/video_coding/main/source/frame_buffer.cc:189-199 | The object holds no packet any more, and keeps its buffer. |
| FrameBuffer.RoomExactly | webrtc_videoengine_demo/webrtc/modules/video_coding/main/source/frame_buffer.cc:108-128 | What is reserved suffices for a packet wherever it is inserted, in a buffer of any size, exactly when the packet is not an aggregation, or one of at most two NAL units, or of three if its size and four are not a multiple of the step. |
| FrameBuffer.FourUnitsLackRoom | webrtc_videoengine_demo/webrtc/modules/video_coding/main/source/frame_buffer.cc:108-128 | A run for which it does not: behind a packet that nearly fills a new buffer, one of four NAL units needs two bytes more than there are. |
| FrameBuffer.Receive | webrtc_videoengine_demo/webrtc/modules/video_coding/main/source/frame_buffer.cc:86-157 | Over any order of arrival in which each packet has room, the buffer holds at the end the frame of the session that the packets lead to. |
| FrameBuffer.RoomForAll | webrtc_videoengine_demo/webrtc/modules/video_coding/main/source/frame_buffer.cc:108-128 | Packets that always have room have it in any order of arrival, in an object that is new or has been reset, whatever size its buffer has. |
| FrameBuffer.RoomInLarge | webrtc_videoengine_demo/webrtc/modules/video_coding/main/source/frame_buffer.cc:108-128 | All packets of a frame, whatever their payloads, have room in any order of arrival if the buffer is as large as the frame, or is new and the frame has at most 30000 bytes. |
| FrameBuffer.SmallFramesFit | webrtc_videoengine_demo/webrtc/modules/video_coding/main/source/frame_buffer.cc:118-124 | No packet of a frame of up to 1.9 million bytes is refused as too large, in any order of arrival, whatever size the buffer has to begin with. |
| Transport.FrameArrives | webrtc_videoengine_demo/webrtc/modules/video_coding/main/source/session_info.cc:124-178 | Of a frame sent in packets that all arrive, in any order and any number of times, the session's packets make up the byte stream, and it counts as complete. |
| Transport.CompleteReliableExactly | webrtc_videoengine_demo/webrtc/modules/video_coding/main/source/session_info.cc:212-228 | A frame taken for complete is whole, whatever was lost, exactly for frames of one NAL unit, or of NAL units that fit into one payload together. |
| EndToEnd.PacketRoomExactly | webrtc_videoengine_demo/webrtc/modules/video_coding/main/source/frame_buffer.cc:108-128 | A packet of a frame has room wherever it is inserted exactly when its payload is a fragment or at most two NAL units, or three that do not fill the buffer to its last byte. |
| EndToEnd.FrameHasRoom | webrtc_videoengine_demo/webrtc/modules/video_coding/main/source/frame_buffer.cc:108-128 | A frame has room in any order of arrival if all its payloads are of that kind, or the buffer is large enough for it; a new one is for 30000 bytes. |
| EndToEnd.ReceiveFrame | webrtc_videoengine_demo/webrtc/modules/video_coding/main/source/frame_buffer.cc:86-199 | An object is reset, whatever it held, and the packets of a frame that have room are inserted, in whatever order and with repetitions: the bytes of its buffer are the frame as a byte stream, the session is complete, and its type is known from the payloads and the order. |
| EndToEnd.ReceiveX264 | webrtc_videoengine_demo/h264_impl.cc:365-402 | From x264 to the receiver: the frame buffer holds the NAL units x264 handed over, each behind 00 00 00 01. |
| EndToEnd.ReceiveOpenH264 | webrtc_videoengine_demo/h264_impl.cc:305-404 | From OpenH264 to the receiver, for layers of at most two NAL units, none of type 14: the frame buffer holds byte for byte what the encoder wrote. |
| EndToEnd.MakePacket | webrtc_videoengine_demo/webrtc/modules/video_coding/main/source/packet.cc:38-129 | The packet made of a payload that the depacketizer has read puts into the frame what the payload was written for. |
| EndToEnd.Transmit | webrtc_videoengine_demo/webrtc/modules/rtp_rtcp/source/rtp_sender_video.cc:492-525 | A delivery sent by SendH264 and read payload by payload gives the packets of the frame. |
| EndToEnd.CarryX264 | webrtc_videoengine_demo/h264_impl.cc:268-403 | The same with the objects: after Encode, SendH264, Parse and InsertPacket in the order of arrival, the buffer of the receiver, new or used before, holds the NAL units of the frame. |
| EndToEnd.CarryOpenH264 | webrtc_videoengine_demo/h264_impl.cc:305-404 | The same for the OpenH264 branch. |
| EndToEnd.AcceptedExactly | webrtc_videoengine_demo/webrtc/modules/rtp_rtcp/source/rtp_format_h264.cc:164 | The table of the OpenH264 branch meets the packetizer's assertion that no row is empty exactly when no NAL unit is taken for type 14 and all are longer than four bytes. |
| EndToEnd.PrefixNalRefused | webrtc_videoengine_demo/webrtc/modules/rtp_rtcp/source/rtp_format_h264.cc:164 | A frame with a NAL unit of type 14 whose table does not. |
| WindowHandshake.NextInv | webrtc_videoengine_demo/vie_autotest_win.cc:76-142 | Every step of every thread keeps the invariant of lock, windows and stopping. |
| WindowHandshake.CreateReturnsPublished | webrtc_videoengine_demo/vie_autotest_win.cc:88-97 | In every run, when CreateWindows returns both handles have been published and the first is not null. |
| WindowHandshake.LockDiscipline | webrtc_videoengine_demo/vie_autotest_win.cc:88-139 | In every run no thread leaves a section it is not in, at most one is inside, and with none inside the lock is free. |
| WindowHandshake.DeletedOnlyWhenDone | webrtc_videoengine_demo/vie_autotest_win.cc:104-108 | The thread is deleted only after it has ended and both windows are gone. |
| WindowHandshake.RoundsInOrder | webrtc_videoengine_demo/vie_autotest_win.cc:88-139 | In every run each round of the event thread pumps messages, leaves, sleeps and enters once each, in this order, and each round of CreateWindows enters, tests, leaves and sleeps. |
| WindowHandshake.LeaveUndoesEnter | webrtc_videoengine_demo/vie_autotest_win.cc:88-139 | Entering and leaving give the section back as it was, also for a thread that is inside already. |
| WindowHandshake.AtMostOneMoreRound | webrtc_videoengine_demo/vie_autotest_win.cc:128-139 | Once the flag is set the event thread takes at most nine more steps and pumps messages at most once more. |
| WindowHandshake.StopCanFinish | webrtc_videoengine_demo/vie_autotest_win.cc:100-111 | Every run in which Stop has not timed out can be continued to where TerminateWindows has returned. |
| WindowHandshake.SixSteps | webrtc_videoengine_demo/vie_autotest_win.cc:100-111 | Until Stop times out TerminateWindows makes exactly six steps. |
| WindowHandshake.GivenUp | webrtc_videoengine_demo/vie_autotest_win.cc:100-111 | Once Stop has timed out TerminateWindows has returned, and the thread is never deleted. |
| WindowHandshake.CreateCanReturnExactly | webrtc_videoengine_demo/vie_autotest_win.cc:88-97 | CreateWindows can still be brought to return exactly when the system creates a first window. |
| Config.Config.Get | webrtc_videoengine_demo/webrtc/common.h:101-110 | The value held for the type, or the default if there is none or it is null. |
| Config.Config.Put | webrtc_videoengine_demo/webrtc/common.h:113-118 | The new value is held, the one held before is deleted, no other type is touched. |
| Config.Config.Destroy | webrtc_videoengine_demo/webrtc/common.h:52-59 | Every value still held is deleted once for each type that holds it. |
| Config.Conservation | webrtc_videoengine_demo/webrtc/common.h:52-118 | In every run each pointer has been deleted or is held as often as it was given. |
| Config.DeletedOnceExactly | webrtc_videoengine_demo/webrtc/common.h:52-118 | Nothing leaks, and nothing is deleted twice exactly when no pointer is given twice. |
| Config.DeletedExactly | webrtc_videoengine_demo/webrtc/common.h:101-118 | A pointer has been deleted exactly when some `Set` of it has been followed by a `Set` of the same type. |
| Config.NullNeverDeleted | webrtc_videoengine_demo/webrtc/common.h:69-71 | Nothing happens to the null pointer. |
| Config.ReferencesAreAlive | webrtc_videoengine_demo/webrtc/common.h:101-110 | The value Get returns is alive exactly when no `Set` of that pointer has been followed by a `Set` of the same type. |
| Config.AliveWhenGivenOnce | webrtc_videoengine_demo/webrtc/common.h:101-110 | In particular, while no pointer is given twice. |
| Config.SettingTwiceDangles | webrtc_videoengine_demo/webrtc/common.h:113-118 | Setting the pointer that is already held deletes it and then hands it out. |
| Config.GetFindsLast | webrtc_videoengine_demo/webrtc/common.h:101-118 | Get finds the value last set for its own type, whatever was set for others. |
| Config.FindsLastValueExactly | webrtc_videoengine_demo/webrtc/common.h:101-118 | It finds the last value that was not null exactly when no null was set after it. |
| Config.NullResets | webrtc_videoengine_demo/webrtc/common.h:101-118 | An input for which it does not. |

## Left out

- av_log2 is only declared in common.h; it is taken as the floor of the binary logarithm, and 0 for 0.
- Signed overflow, which C leaves open (`-a` in the clips, `index++` in the generators), wraps in the model.
- Utf8.PutUtf8: values from 2^31 on, where the shift by 256 >> bytes and the row formula leave their range.
- Utf16.PutUtf16: values above 0x10FFFF, which the macro does not exclude and for which it puts units that mean nothing.
- GET_BYTE, GET_16BIT, PUT_BYTE and PUT_16BIT are expressions of the caller; here the input is a sequence, its end an outcome of its own, and the output a sequence.
- Clips.ClipUintp2Exactly: p = 31, where the mask fills the sign bit.
- Clips.RshiftExactly: shifts by 31 and more, for which `1 << b` is not an int, whatever the operand; and divisors that are not positive, which the comments exclude. The same holds for the other rounding macros.
- Clips.CeilLog2Correct: x above 2^30, where the doubling overflows, and x below 1, where av_log2 has no meaning.
- Float and double clips, MKTAG, FFABS, FFMAX and the like: nothing to prove beyond their bodies.
- The reads and writes of intreadwrite.h of 8 bits, and the copies, swaps and zeroing of aligned blocks at its end.
- ByteOrder.WB16: the explicit writes store their bytes through one step for all of them, so the order of the stores, and a target that overlaps the argument's own memory, are not captured; the same holds for the other widths.
- av_lfg_init and av_bmg_get: their bodies are not part of the repository; every start state is covered.
- x264, OpenH264, libavcodec, libswscale: foreign code; what they return is any input that meets their headers.
- H264Encoder.H264EncoderImpl.EncodeX264: NAL units shorter than their prefix, images that do not fit the buffer, 2^16 NAL units and more (the table's size is a uint16_t), and a call after the encoder has been closed, which the source does not guard against, are excluded.
- OpenH264.H264EncoderImpl.Encode: layers for which a round would read outside the layer's memory are excluded, as are frames to be skipped, which return at once.
- RtpH264.SendH264: payload limits below 3, for which the size of a fragment is 0 or wraps, and rows that are empty or lie outside the data, which the source asserts against; the payload is returned instead of written into the caller's buffer; RTP headers, FEC and sending itself.
- RtpH264.Parse: payloads shorter than the reader takes for granted; the callback.
- SessionInfo.VCMSessionInfo.InsertPacket: VP8, empty packets and decodable_; packets for which there is no room, on which the source writes past the buffer (FrameBuffer.RoomExactly says which these are); an aggregation packet whose sizes do not add up, for which the source reads outside the packet.
- FrameBuffer.VCMFrameBuffer.InsertPacket: time stamps, picture sizes and states, copies of whole frame buffers, the decoding of incomplete frames, and the 32-bit width of the sizes, which only packets of gigabytes would leave.
- EndToEnd.ReceiveOpenH264: layers of three NAL units and more, of which the wrong bytes are packed (OpenH264.ReadsAtStartsExactly), and tables with empty rows, which the packetizer asserts against (EndToEnd.AcceptedExactly).
- EndToEnd.FrameHasRoom: frames with four NAL units or more in one payload that come into a buffer smaller than themselves; whether there is room then depends on the order, and ReceiveFrame asks for it.
- Removing packets from a session (MakeDecodable, DeletePacketData), NACK lists and the jitter buffer above it.
- Transport.FrameArrives: frames of more than 800 packets, which a session refuses; NAL units of the types 24 and 28, which RFC 6184 reserves for payloads; payload limits from 2^16 on, for which a size field would be cut.
- H264DecoderImpl, the set-up and release of encoder and decoder, and tracing.
- WindowHandshake: a thread that cannot be started, exceptions, and the windows' own messages; TerminateWindows is called once, after CreateWindows has begun.
- Config: exceptions in constructors, and the destructors of the values themselves; Config cannot be copied.
- json/*.h and the other headers of ffmpeg: declarations without bodies.

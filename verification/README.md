# Verified models of a system emulator's core

This project models the parts of the emulator in which the most can go wrong,
and proves what they are for.

* **Floating point** (`Powers`, `Ieee`, `IeeeProperties`, `Words`, `Rounding`,
  `Addition`, `Multiplication`, `Division`, `WordArithmetic`, `SquareRoot`,
  `FusedMultiplyAdd`, `Comparison`, `Conversion`, `SpecialValues`): the
  soft-float template, for
  every format with the layout of the 32, 64 and 128 bit ones. `Ieee` says what
  a correct rounding is, by comparing an exact real number (or square root) with
  the numbers of the format and the points half way between them;
  `IeeeProperties` shows that this is rounding to nearest, or to the next number
  in a direction. Each operation is proved to return that rounding of the exact
  result, with exactly the flags of that rounding. `SpecialValues` covers the
  operands that are not finite by the arithmetic of the reals with two
  infinities, and NaN.
* **User-mode networking** (`SocketBuffer`, `TcpReassembly`, `StreamGaps`,
  `TcpReceiver`, `TcpSender`, `TcpEndToEnd`, `IpFragments`, `IfQueue`,
  `InternetChecksum`): the
  ring buffer of a socket, both directions of a TCP connection and the two put
  together, IP fragmentation and reassembly, the output scheduler and the
  checksum. Sequence numbers are 32 bit and wrap; ghost state places them in an
  unbounded stream. Every step of either end keeps the two connected. While no
  FIN is cut at the window, the receiving host has a prefix of what the sending
  host wrote and the sender's buffer still has what it lacks; after one is cut,
  exactly when this goes wrong is stated below.
* **Machine description** (`RangeAllocation`, `ResourceTree`, `DeviceAccess`,
  `FlatTree`, `DeviceTree`, `FdtBuilder`): the allocator of address ranges and
  interrupt lines and its use over a device tree, the fitting of accesses to the
  widths a device takes, and the flattened devicetree, with a decoder written
  from section 5 of the Devicetree Specification.

`Common` holds bytes and options.

Objects whose methods update them are classes here, loops are loops, and each
such method is proved against a specification of its new state; the code that
only computes is functions and lemmas. `dafny verify dfyconfig.toml` checks the
whole project.

How the source is read:

* Shifts, masks and products of words are written with `Shl`, `Shr`, `Low` and
  `Times` of unbounded numbers; wrap-around is written out where words can wrap.
  An OR of disjoint bit fields is a sum. The 32 bit exponents of the template
  never come near their limits and are unbounded here.
* In `tcp_reass` the loop that hands on queued segments compares the next
  segment with `tp` itself (lib/slirp/tcp_input.c:207); the model stops at the
  end of the queue, as the other loops over it do.
* Whether the link or the host takes data, how much it takes, when timers run
  out and what the congestion window is are arbitrary choices in the model, so
  what is proved holds for all of them.

Nine places where the code does less than its neighbours suggest are stated
exactly:

* A FIN whose segment is cut at the right edge of the receive window stays in
  the header that goes on to `tcp_reass`. It marks the end of the stream if and
  only if the segment did not reach beyond the window
  (`TcpReceiver.FinAfterTrim`, `TcpReceiver.FinCutShort`). In sequence with
  nothing queued it is then acted on early (the last promise of
  `TcpReceiver.Connection.Input`).
* A FIN acted on takes the sequence number at rcv_nxt, and of the states after
  one only TIME_WAIT ignores the text of segments (`TCPS_HAVERCVDFIN`). So after
  a FIN acted on early the byte in its place is passed over and later ones are
  handed on (`TcpReceiver.ByteSkipped`). What the host and the buffer have are
  always the stream's bytes without the places of FINs (`StreamGaps.Passed`).
  They are a prefix of it, whatever its bytes, if and only if no byte was taken
  after a place passed over (`StreamGaps.PrefixExactly`). A segment breaks that
  if and only if a FIN has been acted on before the end, the host still takes
  data, and the segment goes on to `tcp_reass` with the byte at rcv_nxt in it or
  queued (`TcpReceiver.Connection.Receive`). Without a cut FIN it never happens:
  past the whole FIN every segment is old (`TcpReceiver.Connection.WholeFinEnds`,
  `TcpReceiver.AfterTheEnd`).
* A FIN can be lost in the queue: with a queued segment that the new one covers,
  or with a new segment that a queued one covers. `TcpReassembly.FinKept` says
  when one is left (`TcpReassembly.Enqueue`, `TcpReassembly.FinSuperseded`).
* The receive window is the free space if and only if rcv_nxt is at most 2^31
  bytes past the edge promised before, counted around the number space, or so
  nearly around it that the free space reaches it. Otherwise the signed
  difference of the two is a window larger than the space
  (`TcpReceiver.WindowIsSpace`, `TcpReceiver.WindowTurns`).
* The window that `tcp_output` advertises follows the free space only while
  rcv_nxt has not passed the edge promised before. After that the unsigned
  difference of the two is close to 2^32: the edge stays where it is, and the
  window field is cut from that difference (`TcpReceiver.EdgeMoves`,
  `TcpReceiver.EdgeStuck`, `TcpReceiver.Connection.Advertise`). This is where a
  `long` has 64 bits; where it has 32, as on Windows, the cast at
  lib/slirp/tcp_output.c:365 makes the difference negative and the edge moves.
* `sqrtrem_u` can start below the root when both words of its argument are
  nonzero; the root is right if and only if it does not (`SquareRoot.SqrtRemU`,
  `SquareRoot.StartTooLow`). The only caller passes a zero low word, for which
  it never does (`SquareRoot.StartAbove`).
* The half-word `sqrtrem_u` fails at one argument, 2^(4h-2) - 1 for half words
  of h bits: it reaches the root, its next sum leaves the word, and it goes on
  with an estimate of zero (`SquareRoot.FallbackFails`). It fails at no other
  (`SquareRoot.SqrtRemWords`), and the only caller never passes that one.
* The narrowing conversion throws away the mantissa it has just normalized when
  the argument is subnormal; the result is still correctly rounded, because any
  such number is far below the narrow format's smallest
  (`Conversion.NarrowCorrect`).
* `FDTBuilder::Output` asserts that as many nodes were closed as opened. That is
  not enough for a tree: closing a node and then opening one passes
  (`DeviceTree.BalancedIsNotEnough`). The blob is a tree's if and only if the
  first call opens a node that only the last one closes
  (`DeviceTree.WellFormedIsTree`, `FdtBuilder.Builder.Output`).

## Model

| member | source | states |
|---|---|---|
| Ieee.FormatsFit | lib/softfp/softfp_template.h:24-51 | the three formats fill 32, 64 and 128 bits and leave 7, 10 and 14 rounding bits |
| IeeeProperties.NearestIsNearest | lib/softfp/softfp.h:30-36 | for a real number or a square root, the reference rounding to nearest gives a number of the format nearest to the exact one; ties go to the even mantissa in RNE and to the larger magnitude in RMM |
| IeeeProperties.CloserIsDistance | lib/softfp/softfp.h:30-36 | nearer there means at the smaller distance, and a tie is an equal distance |
| IeeeProperties.RootIsReal | lib/softfp/softfp_template.h:720-767 | a square root compares as the real number whose square is given, where there is one |
| IeeeProperties.DirectedBounds | lib/softfp/softfp.h:30-36 | for a real number or a square root, the reference directed roundings give the largest number not above, or the smallest not below, in the mode's direction |
| IeeeProperties.RoundMonotone | lib/softfp/softfp.h:30-36 | the reference rounding keeps order in every mode |
| IeeeProperties.TinyIsTiny | lib/softfp/softfp_template.h:132-148 | the reference's tininess is being below the smallest normal number after rounding to the format's precision with an exponent of any size |
| Words.WordFields | lib/softfp/softfp_template.h:78-91 | unpacking splits a word into sign, exponent and mantissa that pack to the same word |
| Words.PackFields | lib/softfp/softfp_template.h:78-91 | packing a sign and a magnitude gives a word with that sign and magnitude |
| Words.UnitsOfWord | lib/softfp/softfp_template.h:85-91 | the number a word denotes is its significand, hidden bit included, scaled by its effective exponent |
| Rounding.AgreesSticky | lib/softfp/softfp_template.h:93-105 | the right shift with a sticky bit compares with every even multiple as the exact number does |
| Rounding.RoundPackCorrect | lib/softfp/softfp_template.h:108-175 | a normalized mantissa, exact or sticky, packs to the correct rounding and flags across normal, subnormal, carry-out and overflow, underflow being tiny after rounding and inexact |
| Rounding.NormalizeExact | lib/softfp/softfp_template.h:178-187 | an exact mantissa of any size is normalized and rounded correctly |
| Rounding.NormalizeSticky | lib/softfp/softfp_template.h:178-187 | a sticky mantissa with two bits to spare is normalized and rounded correctly |
| Addition.AddCorrect | lib/softfp/softfp_template.h:234-290 | for all finite operands and every mode, the exact sum correctly rounded, its flags and the sign of zero |
| Addition.SubCorrect | lib/softfp/softfp_template.h:292-296 | the exact difference correctly rounded, with the sign of a zero difference |
| Multiplication.NormalizedWord | lib/softfp/softfp_template.h:298-304 | normalizing a subnormal keeps its value and puts its leading bit in place |
| Multiplication.MulCorrect | lib/softfp/softfp_template.h:349-399 | for all finite operands and every mode, the exact product correctly rounded |
| WordArithmetic.MulHalves | lib/softfp/softfp_template.h:320-345 | the half-word product equals the high and low word of the full product |
| WordArithmetic.DivRemU | lib/softfp/softfp_template.h:567-585 | the bit-serial division gives the quotient and remainder of the double word, for a high word below the divisor |
| Division.DivCorrect | lib/softfp/softfp_template.h:589-653 | for all finite operands with a nonzero divisor and every mode, the exact quotient correctly rounded |
| SquareRoot.SqrtRemU | lib/softfp/softfp_template.h:659-685 | Newton's iteration ends at the integer square root if and only if its start is not below it, and reports exactness truly |
| SquareRoot.StartAbove | lib/softfp/softfp_template.h:664-675 | the start is not below the root when one of the two words is zero |
| SquareRoot.StartTooLow | lib/softfp/softfp_template.h:664-675 | an argument in range for which the start is below the root |
| SquareRoot.SqrtRemWords | lib/softfp/softfp_template.h:689-716 | for every argument in range but one, the half-word iteration ends at the root if and only if its start is not below it, and reports exactness truly |
| SquareRoot.FallbackFails | lib/softfp/softfp_template.h:705-712 | at the one argument left, the largest in range, the iteration reaches the root and then the estimate zero |
| SquareRoot.SqrtSf | lib/softfp/softfp_template.h:720-767 | over either form of sqrtrem_u, for every non-negative finite argument and every mode, the exact square root correctly rounded; zeros, infinities, negatives and NaN as the format defines |
| FusedMultiplyAdd.AlignKeeps | lib/softfp/softfp_template.h:501-516 | where the two-word alignment keeps all sticky bits it is a sticky shift of the double word |
| FusedMultiplyAdd.Normalize2Sticky | lib/softfp/softfp_template.h:191-213 | a sticky double word with headroom is normalized and rounded correctly |
| FusedMultiplyAdd.Normalize2Exact | lib/softfp/softfp_template.h:191-213 | an exact double word is normalized and rounded correctly however far it cancelled |
| FusedMultiplyAdd.FmaCorrect | lib/softfp/softfp_template.h:402-552 | for all finite operands and every mode, a * b + c rounded once, with its flags and the sign of zero, through cancellation, swapped operands and the low word the alignment drops |
| Comparison.CompareCorrect | lib/softfp/softfp_template.h:840-896 | on words that are not NaN, equal, less-or-equal and less are those of the numbers, infinities included |
| Conversion.ToIntCorrect | lib/softfp/softfp_template_icvt.h:38-108 | every finite number converts to a word that reads, unsigned or in two's complement, as its rounded integer if that is in range, inexact exactly if changed, else as the nearer end of the range with the invalid flag |
| Conversion.ToIntSpecial | lib/softfp/softfp_template_icvt.h:38-108 | infinities and NaN give a word that reads as the end of the range, with the invalid flag |
| Conversion.FromIntCorrect | lib/softfp/softfp_template_icvt.h:125-153 | every integer converts to its value correctly rounded |
| Conversion.IntRoundTrip | lib/softfp/softfp_template_icvt.h:38-153 | integers below 2^(mantissa size + 1) in magnitude convert there and back to a word that reads as the same integer, in every mode, without flags |
| Conversion.WidenCorrect | lib/softfp/softfp_template.h:945-976 | widening keeps every finite value and sign and raises nothing |
| Conversion.NarrowCorrect | lib/softfp/softfp_template.h:978-1010 | narrowing gives the value correctly rounded, also from subnormals whose normalized mantissa is discarded |
| Conversion.WidenNarrow | lib/softfp/softfp_template.h:945-1010 | widening then narrowing is the identity on all but NaN, in every mode, without flags |
| Conversion.FormatsWiden | lib/softfp/softfp_template.h:943-1082 | each pair of formats with a conversion meets what those lemmas ask of a pair |
| SpecialValues.SigNanIs | lib/softfp/softfp_template.h:215-224 | a NaN is signalling exactly if the top bit of its mantissa is clear |
| SpecialValues.QNanIsQuiet | lib/softfp/softfp_template.h:76 | the NaN that operations return is a quiet one |
| SpecialValues.AddSpecial | lib/softfp/softfp_template.h:248-263 | with an infinite operand, the sum over the extended reals with no flags, or the quiet NaN with the invalid flag where there is none; NaN operands give the quiet NaN, invalid exactly if one is signalling |
| SpecialValues.SubSpecial | lib/softfp/softfp_template.h:292-296 | so for differences from an infinity |
| SpecialValues.MulSpecial | lib/softfp/softfp_template.h:363-380 | so for products, zero times an infinity being invalid |
| SpecialValues.DivSpecial | lib/softfp/softfp_template.h:603-635 | quotients of and by infinities and zeros: invalid exactly for two infinities and two zeros, divide-by-zero exactly for a finite nonzero number by zero |
| SpecialValues.FmaSpecial | lib/softfp/softfp_template.h:418-440 | so for a * b + c: the infinity of the exact result with no flags, invalid exactly for zero times an infinity or opposite infinities |
| SpecialValues.CompareNan | lib/softfp/softfp_template.h:840-896 | a NaN compares false; equality is invalid exactly if it is signalling, the ordered comparisons always |
| SpecialValues.WidenSpecial | lib/softfp/softfp_template.h:953-962 | infinities widen to themselves, NaN to the quiet NaN |
| SpecialValues.NarrowSpecial | lib/softfp/softfp_template.h:986-995 | infinities narrow to themselves, NaN to the quiet NaN |
| SocketBuffer.SBuf.Reserve | lib/slirp/sbuf.c:34-55 | a new buffer is an empty queue with all its space free |
| SocketBuffer.SBuf.Drop | lib/slirp/sbuf.c:18-32 | removes at most what is queued from the front |
| SocketBuffer.SBuf.Append | lib/slirp/sbuf.c:123-153 | data that fit join the end of the queue, across the wrap |
| SocketBuffer.SBuf.Copy | lib/slirp/sbuf.c:160-181 | copies any run of the queue without changing it |
| SocketBuffer.SBuf.PrepareRead | lib/slirp/socket.c:79-136 | offers only free space behind the write pointer: all of it up to one segment, else the largest multiple of the segment size |
| SocketBuffer.SBuf.Read | lib/slirp/socket.c:143-202 | what the host delivers joins the end of the queue |
| SocketBuffer.SBuf.Write | lib/slirp/socket.c:338-425 | what the host takes leaves the front, and is what was oldest |
| TcpReassembly.DiffOfPositions | lib/slirp/tcp.h:146-149 | comparing wrapped sequence numbers compares places less than half the number space apart |
| TcpReassembly.FindAfter | lib/slirp/tcp_input.c:119-125 | finds the first queued segment that begins after the new one |
| TcpReassembly.TrimFollowing | lib/slirp/tcp_input.c:156-174 | later segments lose exactly what the new one covers, the queue staying in order |
| TcpReassembly.Enqueue | lib/slirp/tcp_input.c:119-179 | the queue stays sorted and disjoint and holds exactly its old bytes and the new segment's; FINs stay at the end of the stream, and one is left exactly if a queued one was not covered or the new one not redundant; what is queued without data is there for its FIN |
| TcpReassembly.FinSuperseded | lib/slirp/tcp_input.c:156-174 | a queued FIN that is lost when its bytes come again without it |
| StreamGaps.UnbrokenIsPrefix | lib/slirp/tcp_input.c:1175-1193 | if no byte was taken after a place passed over, the bytes taken are a prefix of the stream |
| StreamGaps.PrefixExactly | lib/slirp/tcp_input.c:1175-1193 | for streams of all bytes, that is so if and only if none was |
| StreamGaps.UnbrokenStep | lib/slirp/tcp_input.c:1166-1193 | more bytes and a FIN break the run exactly if there are some and a place before the end was passed over |
| TcpReceiver.TrimSound | lib/slirp/tcp_input.c:719-805 | trimming keeps exactly the segment's bytes inside the window, and acts on a FIN only if its segment ends there and is not old |
| TcpReceiver.WhenDropped | lib/slirp/tcp_input.c:773-805 | a segment that is not old is dropped exactly if it lies beyond the window, unless it begins at a closed one |
| TcpReceiver.FinAfterTrim | lib/slirp/tcp_input.c:773-805 | the FIN kept in the header still marks the end of the stream if and only if the segment did not reach beyond the window |
| TcpReceiver.FinCutShort | lib/slirp/tcp_input.c:798-804 | a segment cut to its first byte that still carries its FIN |
| TcpReceiver.WindowIsSpace | lib/slirp/tcp_input.c:516-521 | when the signed distance to the promised edge does not exceed the free space, both ways |
| TcpReceiver.WindowTurns | lib/slirp/tcp_input.c:516-521 | a state in which it does, and a segment kept whole that the free space does not hold |
| TcpReceiver.EdgeMoves | lib/slirp/tcp_output.c:357-470 | the promised edge moves exactly if the usable space reaches past the unsigned distance to it |
| TcpReceiver.EdgeStuck | lib/slirp/tcp_output.c:357-470 | a state with all of the buffer free in which it does not move |
| TcpReceiver.AfterTheEnd | lib/slirp/tcp_input.c:719-748 | once rcv_nxt is past the end of the stream nothing of any segment is kept |
| TcpReceiver.ByteSkipped | lib/slirp/tcp_input.c:798-804 | abc with its FIN into one free byte, then c with the FIN: the host is given a and c |
| TcpReceiver.Transitions | lib/slirp/tcp_input.c:1196-1233 | each state transition moves one side of the connection only: a FIN the peer's, closing and its acknowledgement our own; none goes back |
| TcpReceiver.FirstMissing | lib/slirp/tcp_input.c:186-207 | with nothing queued at rcv_nxt, that is the first byte not received |
| TcpReceiver.Connection.constructor | lib/slirp/tcp.h:156-157 | a new receiver has taken and promised nothing |
| TcpReceiver.Connection.HostAppend | lib/slirp/sbuf.c:63-117 | data go to the host and the buffer in order, none lost |
| TcpReceiver.Connection.HandOn | lib/slirp/tcp_input.c:199-206 | bytes from rcv_nxt on extend what the host and the buffer have, or are dropped once the host is closed |
| TcpReceiver.Connection.TakeFront | lib/slirp/tcp_input.c:193-207 | in every state from ESTABLISHED on, handing on the first queued segment keeps what has been received and advances rcv_nxt over it |
| TcpReceiver.Connection.Present | lib/slirp/tcp_input.c:181-209 | everything queued from rcv_nxt on is handed on, and rcv_nxt becomes the first place missing; while no FIN was cut, one is reported exactly if one was queued and the end of the stream is reached |
| TcpReceiver.Connection.Reass | lib/slirp/tcp_input.c:104-209 | the bytes received are the old ones and the segment's; while no FIN was cut, one is reported exactly if it was kept and the end of the stream is reached |
| TcpReceiver.Connection.TakeInSequence | lib/slirp/tcp_input.c:83-98 | an in-sequence segment with an empty queue is delivered whole |
| TcpReceiver.Connection.Window | lib/slirp/tcp_input.c:516-521 | the receive window is never less than the free space, and is it exactly as long as the promised edge is in sight |
| TcpReceiver.Connection.Merge | lib/slirp/tcp_input.c:83-98 | either path of TCP_REASS adds exactly the segment's bytes, moves rcv_nxt exactly if its byte is there, and reports a FIN as tcp_reass does |
| TcpReceiver.Connection.TakeFin | lib/slirp/tcp_input.c:1179-1233 | a FIN passes over the place at rcv_nxt, in every state from ESTABLISHED on but TIME_WAIT; the host is closed at once if nothing waits for it |
| TcpReceiver.Connection.Accept | lib/slirp/tcp_input.c:1166-1233 | in every state but TIME_WAIT exactly the kept bytes and the place of a FIN have been added; nothing changes if there is no text and no FIN |
| TcpReceiver.Connection.Input | lib/slirp/tcp_input.c:719-805 | for any arrival order, overlap, duplication and wrap, in every state but TIME_WAIT, exactly the segment's bytes inside the free space and the place of a FIN acted on are added; what the host got and the buffer together are the stream up to rcv_nxt but for the places of FINs; past the end of the stream nothing changes; more is kept than fits exactly if the window is wrong and the segment reaches there; while no FIN was cut, one is reported exactly if one is kept and the end is reached; a cut FIN in sequence with nothing queued is taken early |
| TcpReceiver.Connection.Predicted | lib/slirp/tcp_input.c:436-508 | header prediction takes exactly the in-sequence segments that fit, when the sending side is quiet, and changes nothing otherwise |
| TcpReceiver.Connection.Receive | lib/slirp/tcp_input.c:436-805 | predicted or not, the same places have been received; what the host and the buffer have stays a prefix of the stream unless a FIN has been acted on early, the host takes data and the byte at rcv_nxt is reached, and then it does not |
| TcpReceiver.Connection.WholeFinEnds | lib/slirp/tcp_input.c:1175-1193 | if no FIN was cut, the one acted on took the place after the last byte |
| TcpReceiver.Connection.HostGone | lib/slirp/socket.c:392-399 | when the host is gone what it was given stays right, and our side closes |
| TcpReceiver.Connection.Close | lib/slirp/tcp_subr.c:282-308 | the state after our side closes, with all of this kept |
| TcpReceiver.Connection.FinAcked | lib/slirp/tcp_input.c:1034-1081 | the state after our FIN is acknowledged, with all of this kept |
| TcpReceiver.Connection.Establish | lib/slirp/tcp_input.c:889 | data queued before the connection is established are handed on then |
| TcpReceiver.Connection.Drain | lib/slirp/socket.c:338-425 | what the host takes later continues what it had, and after a FIN the last of it closes the host |
| TcpReceiver.Connection.Advertise | lib/slirp/tcp_output.c:357-470 | every segment acknowledges rcv_nxt; the advertised edge never moves back and never promises more than the buffer can take. If rcv_nxt has not passed it, it becomes the larger of itself and rcv_nxt plus the free space, up to 65535, if the space is a quarter of the buffer or a segment, else stays; the window field is its distance. If rcv_nxt has, it stays for nearly a turn of the number space |
| TcpSender.AckRange | lib/slirp/tcp_input.c:911-982 | any 32-bit number that passes both tests is the number of a place after snd_una and up to snd_max |
| TcpSender.AckBeyond | lib/slirp/tcp_input.c:979-981 | one that fails the second test lies beyond snd_max |
| TcpSender.DueLargest | lib/slirp/tcp_output.c:122-149 | what is due is as much as the data, the window and the segment size allow |
| TcpSender.Sender.constructor | lib/slirp/tcp.h:159-160 | once the SYN is acknowledged the sender has nothing to send and its three numbers are equal |
| TcpSender.Sender.Read | lib/slirp/socket.c:143-202 | host bytes extend the stream and the buffer |
| TcpSender.Sender.Close | lib/slirp/tcp_subr.c:282-308 | from now on a FIN is due after the last byte |
| TcpSender.Sender.Choose | lib/slirp/tcp_output.c:84-149 | the length is exactly the unsent bytes inside the window, up to one segment, one byte for a probe into a closed window |
| TcpSender.Sender.Plan | lib/slirp/tcp_output.c:84-151 | that many bytes lie in the buffer from snd_nxt on; a FIN is due exactly after the last byte, and not with a probe; snd_nxt falls back to snd_una exactly if the window has closed |
| TcpSender.Sender.Build | lib/slirp/tcp_output.c:301-350 | the segment carries the stream's bytes for its number, and a FIN sent again keeps its number |
| TcpSender.Sender.Advance | lib/slirp/tcp_output.c:394-439 | snd_nxt moves over the segment, or stays for a persist probe, snd_max is the larger of itself and the end, and a FIN is noted unless it was a probe |
| TcpSender.Sender.Emit | lib/slirp/tcp_output.c:301-439 | the bytes planned are logged under the number they were planned for, with the FIN exactly if it was planned; then the FIN has the last place of all, unless it was a probe |
| TcpSender.Sender.Pass | lib/slirp/tcp_output.c:84-475 | exactly what is sent in a pass, and that nothing is unless it is owed, data must not wait or the FIN must not |
| TcpSender.Sender.SendOnce | lib/slirp/tcp_output.c:84-475 | a full segment, the last of the data, half a window, a probe and anything sent before do not wait, nor does a FIN that has not been sent or goes again with data or from snd_una; if no more is due, less than a segment is left in the window |
| TcpSender.Sender.Output | lib/slirp/tcp_output.c:54-477 | the passes end, with no full segment left unsent in the window; every segment ever sent is true to the stream, with a FIN only at its end; when closing, if the window takes all that is buffered and the FIN or data before it is to be sent, the FIN is sent |
| TcpSender.Sender.DropAcked | lib/slirp/tcp_input.c:1020-1081 | acknowledged bytes leave the buffer, snd_nxt is pulled up, and the FIN is acknowledged exactly when its place is |
| TcpSender.Sender.PredictedAck | lib/slirp/tcp_input.c:436-479 | header prediction takes exactly the acknowledgements in range with nothing to resend, the peer's window nonzero, unchanged and within the congestion window |
| TcpSender.Sender.Ack | lib/slirp/tcp_input.c:970-1031 | an acknowledgement is taken exactly if it is in range, and takes what it covers off the window; every other number changes nothing |
| TcpSender.Sender.FastRetransmit | lib/slirp/tcp_input.c:939-960 | the oldest unacknowledged byte is sent again, snd_nxt is behind it and does not lose ground |
| TcpSender.Sender.RetransmitTimeout | lib/slirp/tcp_timer.c:205-243 | the oldest unacknowledged byte is sent again |
| TcpSender.Sender.HalveSegments | lib/slirp/tcp_timer.c:156-188 | a segment size halved by repeated timeouts keeps all of this; the connection is given up exactly if it falls below 32 |
| TcpSender.Sender.PersistTimeout | lib/slirp/tcp_timer.c:245-253 | a probe into a closed window is sent from snd_nxt, which does not move on, and keeps all of this |
| TcpEndToEnd.SentIsGenuine | lib/slirp/tcp_output.c:301-350 | every segment the sender ever logged meets what the receiver asks of a segment, though more was read since |
| TcpEndToEnd.Connect | lib/slirp/tcp.h:156-160 | two ends set up with the same first sequence number are connected |
| TcpEndToEnd.PrefixReceived | lib/slirp/tcp_input.c:181-209 | in every connected state the receiving host and its buffer have exactly the bytes the sending host wrote, up to when the host closed, but for the places of FINs; a prefix of them if no byte was taken after such a place, and just the first ones while no FIN was cut |
| TcpEndToEnd.NothingLost | lib/slirp/tcp_input.c:1020-1031 | while no FIN was cut and the host takes data, what was written is what has been received up to snd_una followed by the sender's buffer |
| TcpEndToEnd.AckedIsReceived | lib/slirp/tcp_input.c:970-1029 | an acknowledgement the receiver sent, taken by the sender, never goes beyond what was received |
| TcpEndToEnd.Deliver | lib/slirp/tcp_input.c:436-805 | whichever sent segments arrive, in any order and any number of times, the receiver adds exactly their bytes that fit and the places of FINs; the receiving host keeps a prefix of what the sending host has written, except exactly when a FIN had been acted on early, the host takes data and the segment brings some; it has all when told of the end, unless a FIN was cut |
| TcpEndToEnd.SenderMoves | lib/slirp/tcp_output.c:54-477 | every step of the sender, with its timers and the receiver's acknowledgements, keeps the ends connected, nothing being acknowledged that was not received |
| TcpEndToEnd.ReceiverMoves | lib/slirp/tcp_output.c:357-470 | so does every step of the receiver, which keeps a prefix of what was written a prefix |
| IpFragments.Fragment | lib/slirp/ip_output.c:75-155 | refused exactly if too long with DF set; otherwise pieces in order, each small enough and none empty, that together are the payload |
| IpFragments.Enqueue | lib/slirp/ip_input.c:285-333 | the chain stays sorted and disjoint and holds exactly its old bytes and the fragment's |
| IpFragments.GaplessIffComplete | lib/slirp/ip_input.c:334-342 | the test for a complete chain succeeds if and only if every byte has arrived |
| IpFragments.TryJoin | lib/slirp/ip_input.c:334-355 | the joined chain is the payload that was sent, if complete, else nothing; the header's length is its length modulo 2^16, right exactly up to 65535 bytes |
| IpFragments.Reass | lib/slirp/ip_input.c:243-392 | the datagram comes out exactly when the new fragment leaves nothing missing, for any overlapping pieces in any order |
| IpFragments.Reassembler.Input | lib/slirp/ip_input.c:164-211 | the same over all datagrams being reassembled at once, none disturbing another; a datagram that arrives whole leaves a queue of its own to time out, unless the reserved bit is set |
| IpFragments.Reassembler.Deliver | lib/slirp/ip_input.c:164-211 | the fragments ip_output cut, arriving in any order with repeats and losses, give back the payload if and only if each of them arrived |
| IpFragments.Reassembler.SlowTimo | lib/slirp/ip_input.c:442-461 | exactly the queues whose time is up are given up |
| IfQueue.Interface.constructor | lib/slirp/if.c:28-34 | the queues begin empty |
| IfQueue.Interface.Put | lib/slirp/if.c:70-106 | the packet becomes its socket's last, whichever queue it goes to: the batch session if there is one, else by the type of service; one batch session at most for each socket |
| IfQueue.DowngradeFast | lib/slirp/if.c:123-131 | moving the last fast session to the front of the batch queue keeps every socket's order |
| IfQueue.DowngradeBatch | lib/slirp/if.c:123-131 | so does moving a batch session there |
| IfQueue.Interface.Downgrade | lib/slirp/if.c:123-131 | next_m still names a batch session or the head |
| IfQueue.Interface.Queue | lib/slirp/if.c:70-131 | counts are exact; a session is moved exactly if six packets were queued without pause and three have left, and then is first on the batch queue |
| IfQueue.Interface.Output | lib/slirp/if.c:49-139 | counts are exact, each socket's packets leave in the order they were queued, each once, and as many as the link takes |
| IfQueue.Interface.SendOne | lib/slirp/if.c:168-200 | the first fast session's oldest packet goes first; else the oldest of the batch session next_m names, next_m moving to the one after; so_queued falls by one, and so_nqueued to zero exactly if nothing is left |
| IfQueue.Interface.Start | lib/slirp/if.c:153-209 | as many packets leave as the link takes or are queued, whichever is less, keeping all of this |
| IfQueue.BatchSendTurns | lib/slirp/if.c:173-193 | the batch queue with next_m is a ring that each send turns by one session |
| IfQueue.RingIsFair | lib/slirp/if.c:141-152 | after any number of turns two sessions still in the ring have had as many turns, or one more or fewer |
| IfQueue.Interface.DrainBatch | lib/slirp/if.c:153-209 | while no fast session has packets, any number of sends: of two sockets that still have packets on the batch queue, neither has had more than one packet more sent than the other |
| InternetChecksum.ReduceIsFold | lib/slirp/cksum.c:44-46 | REDUCE gives the one's complement representative of any 32-bit sum |
| InternetChecksum.SumUnrolled | lib/slirp/cksum.c:86-102 | the unrolled loops sum whole words and leave fewer than eight bytes |
| InternetChecksum.SwappedWhole | lib/slirp/cksum.c:75-121 | the byte-swapped sum from an odd address stands for the same total |
| InternetChecksum.Cksum | lib/slirp/cksum.c:48-139 | for every length up to 65535 and either alignment, the complement of the one's complement sum of the words; no overflow of the int |
| InternetChecksum.AgreesWithRfc1071 | lib/slirp/cksum.c:48-139 | that is the checksum of section 2 of RFC 1071, in network byte order |
| InternetChecksum.StoredChecksumVerifies | lib/slirp/ip_output.c:81-82 | stored in a zeroed field at an even place it makes the recomputed value zero |
| RangeAllocation.MaskIsRemainder | src/core/resource.cpp:124 | masking with a power of two less one takes off the remainder |
| RangeAllocation.AlignedUp | src/core/resource.cpp:124 | rounding up gives the least aligned address not below |
| RangeAllocation.RangeAllocator.InsertIndex | src/core/resource.cpp:47-54 | the place that keeps the table sorted |
| RangeAllocation.RangeAllocator.FindOverlap | src/core/resource.cpp:57-69 | finds an overlap exactly if there is one |
| RangeAllocation.RangeAllocator.Insert | src/core/resource.cpp:72-87 | a free interval joins the sorted, disjoint table unless it is full |
| RangeAllocation.RangeAllocator.Claim | src/core/resource.cpp:90-105 | refused exactly if the interval overlaps one in the table, or the table is full |
| RangeAllocation.RangeAllocator.FindGap | src/core/resource.cpp:122-150 | the single pass finds the lowest aligned free place in the window, or there is none |
| RangeAllocation.RangeAllocator.Alloc | src/core/resource.cpp:108-156 | places at that lowest address; fails only if nothing fits or the table is full |
| ResourceTree.Machine.Place | src/core/resource.cpp:159-175 | a fixed range keeps its base, another takes the lowest fit, and neither overlaps what was there; it fails only if the table is full, the fixed range is taken or no place in the window is left |
| ResourceTree.WhatComesUp | src/bus/mdio/mdio.cpp:64-87 | which records the buses pass up, refuse and ignore |
| ResourceTree.Machine.AssignOne | src/core/device.cpp:336-347 | after each assignment no two placed ranges of a space overlap, and nothing placed has moved; it fails only if the record cannot be placed as things are |
| ResourceTree.Machine.ClaimFixed | src/core/device.cpp:350-368 | every fixed range in the tree is placed where it said; this fails only if some cannot be had in any order: they overlap each other or what was there first, or are more than the table holds |
| ResourceTree.Machine.ClaimBlocked | src/core/device.cpp:350-368 | a refused claim overlaps another fixed range or what was there first, or there are too many of them for the table |
| ResourceTree.Machine.AssignLowest | src/core/device.cpp:336-347 | with the fixed ranges claimed, a record that is not fixed goes to the lowest aligned place of its window that is free, and the others stay at theirs; it fails only if there is none |
| ResourceTree.Machine.AssignResources | src/core/device.cpp:371-387 | the first call claims all that is fixed; every record the bus passes up is placed and none is refused; it fails only if one is refused, one that is not fixed has no place left, or the fixed ones are impossible |
| ResourceTree.Machine.AllocateAll | src/core/device.cpp:230-243 | after success over the whole tree, in any declaration order, all ranges of each space are pairwise disjoint and every fixed one is at its base; each other one is at the lowest place left by a table that holds every fixed range and only what is there at the end. It fails only if a bus refuses a declared record, one that is not fixed has no place left, or the fixed ones are impossible in any order |
| DeviceAccess.GetOfSet | src/core/bits.h:59-80 | a field set is read back, and no other bits change |
| DeviceAccess.SameBytes | src/core/bits.h:59-64 | a value is determined by its bytes |
| DeviceAccess.Flags.Narrowest | src/core/iomem.cpp:93-100 | the narrowest width taken, no narrower one being taken |
| DeviceAccess.RegisterHolds | src/core/iomem.cpp:84-100 | an access neither passed on nor split lies in one register of the narrowest width |
| DeviceAccess.DeviceRead | src/core/iomem.cpp:103-124 | for storage and any nonempty set of widths, the little-endian value of the bytes addressed, at any offset and size; the device sees only widths it takes, at multiples of the width unless it allows others |
| DeviceAccess.SplitIsWritable | src/core/iomem.cpp:140-145 | a split write reaches every byte exactly if both halves do |
| DeviceAccess.DeviceWrite | src/core/iomem.cpp:127-153 | the bytes addressed become those of the value and no others change; true exactly if every byte was reached, which merging guarantees |
| FlatTree.StringStays | src/core/fdt.cpp:139-160 | offsets of earlier names stay valid as the strings block grows |
| DeviceTree.NodeReadBack | src/core/fdt.cpp:116-136 | reading the steps of a tree gives back the tree |
| DeviceTree.WellFormedIsTree | src/core/fdt.cpp:116-136 | a list of steps is some tree's if and only if its first step opens a node that only its last one closes |
| DeviceTree.TreesRead | src/core/fdt.cpp:116-136 | each tree is read from its own steps and no others |
| DeviceTree.BalancedIsNotEnough | src/core/fdt.cpp:267 | steps that close as many nodes as they open and are no tree's |
| FdtBuilder.ReadOne | src/core/fdt.cpp:83-169 | what each call writes is read back as that call |
| FdtBuilder.ReadComplete | src/core/fdt.cpp:267-307 | a finished structure block is read back as all the calls, in order |
| FdtBuilder.ReservationsReadBack | src/core/fdt.cpp:292-303 | the reservation block is read back whole and ends at its zero entry |
| FdtBuilder.HeaderLayout | src/core/fdt.cpp:280-318 | the ten words of the header, in the order of the specification |
| FdtBuilder.CallBytes | src/core/fdt.cpp:83-169 | what the calls write, byte by byte |
| FdtBuilder.RootBlob | src/core/fdt.cpp:259-320 | the 72 bytes of a tree of one node |
| FdtBuilder.Builder.constructor | src/core/fdt.h:42-66 | a new builder has recorded nothing |
| FdtBuilder.Builder.AddReservation | src/core/fdt.cpp:102-113 | empty reservations and those past the eighth are dropped, others kept in order |
| FdtBuilder.Builder.BeginNode | src/core/fdt.cpp:116-121 | the call is added to those the blocks describe |
| FdtBuilder.Builder.EndNode | src/core/fdt.cpp:132-136 | the call is added to those the blocks describe |
| FdtBuilder.Builder.StringOffset | src/core/fdt.cpp:139-160 | the offset returned is the name's, which is added exactly if it is not listed, and all earlier calls can still be read |
| FdtBuilder.Builder.PutProp | src/core/fdt.cpp:163-169 | the property is added, with its name and value |
| FdtBuilder.Builder.PropCells | src/core/fdt.cpp:205-209 | the assembled value becomes the property's and the assembly is emptied |
| FdtBuilder.Builder.Output | src/core/fdt.cpp:259-320 | the blob is header, reservations, structure and strings, filled up to a multiple of eight; decoding it gives back every call and every reservation; decoded as a tree it gives a tree if and only if the calls were well formed, and then the one they describe |

## Left out

- TcpReceiver.Connection.Input: segments that begin or end more than 2^30 bytes from rcv_nxt are not covered, and buffers are at most 2^28 bytes; beyond half the number space the 32-bit comparisons mean nothing. Where the window is wrong and more is kept than fits, the model stops; the source goes on and the buffer drops the rest.
- TcpReceiver.Connection.Predicted: the tests on the acknowledgement, the flags and the windows are one arbitrary choice here; they are the sender's in PredictedAck.
- TcpEndToEnd.Deliver: as Input, for segments within 2^30 bytes of rcv_nxt.
- TcpEndToEnd.SenderMoves: asks that the host writes the stream the receiver's bytes are compared with, which may be any, and closes after its last byte, and that an acknowledgement is one the receiver sent, within 2^30 of snd_una.
- TcpReceiver.Connection.HostGone: a socket with neither direction left, for which more data reset the connection, is not modelled.
- TcpReceiver.Connection.HostAppend: urgent data and the protocols rewritten on the way to the host are not modelled.
- SocketBuffer.SBuf.Append: asks that the data fit, as its callers ensure; the receiver is proved to.
- SocketBuffer.SBuf.Reserve: resizing a buffer in use, which an MSS option can cause, and a failed allocation are not modelled.
- TcpSender.Sender.SendOnce: the reasons to send that do not concern data (an owed ACK, a window update, urgent data) are one arbitrary choice, and running out of mbufs is not modelled.
- ResourceTree.Machine.AllocateAll: alignments are powers of two and addresses end below 2^60, so that nothing wraps; of the buses below the machine's own, the PCI, I2C and MDIO rules are modelled.
- RangeAllocation.RangeAllocator.Insert: the table is a sequence of at most 128 entries, not an array moved in place.
- DeviceAccess.DeviceRead: the range is a whole number of the narrowest registers taken, and the access lies inside it.
- FdtBuilder.Builder.Output: asks, as the source asserts, that as many nodes were closed as opened; that properties come before child nodes is not asked of the calls.
- IfQueue.Interface.SendOne: the linked lists are sequences of sessions, and next_m names a session by its socket.
- IpFragments.Fragment: IP options in the header and failure to get an mbuf are not modelled.
- fclass and the minimum and maximum operations of the soft-float template: single cases.
- TCP connection setup, option parsing, keep-alive, resets and the TIME_WAIT timer.
- UDP, ICMP, ARP, DHCP and the host socket layer: packet formatting and host calls.
- AES, SHA-256, JSON, ACPI tables and the device models: mostly constant tables and small case analyses.
- Dirty-page bitmaps and the sleep protocol of the machine loop, which depend on processor code outside these files.

# epcap capture daemon, modelled in Dafny

`epcap` is the C port program behind an Erlang packet-capture library. It
opens a live interface or a saved capture file with libpcap and installs a
BPF filter. Then it reads packets one by one. Each packet, and the end of a
saved file, becomes an Erlang term in the External Term Format:

- a packet is `{packet, DatalinkType, {MegaSec, Sec, MicroSec}, ActualLength, Packet}`;
- the end of a file is `{epcap, eof}`.

Each message goes to standard output as one frame: a 2-byte big-endian
length, then the message bytes. SIGALRM is blocked while a frame is written,
so the statistics timer's handler cannot run in the middle of one.

This project models the sequential core of `c_src/epcap.c` and proves what
it does:

- **Term encoding** (`Etf`, `EiBuffer`, `Messages`). A `Term` datatype with an
  encoder that gives the bytes `ei` appends. An independent decoder, with
  round-trip lemmas for every message. The `ei_x_buff` is a class whose
  `index` advances with each encode call. The byte layout of both messages
  is proved call by call.
- **Timestamp arithmetic** (`Timestamp`). C's truncating `/` and `%`, the
  narrowing of the `long` quotient to the `int` that `abs` takes, and
  `abs(INT_MIN)`. Lemmas cover the exact split for non-negative times and the
  sign loss for negative ones.
- **Framing** (`Channel`, `Worker.Worker.SendFree`). The result of each
  `write` comes from an oracle `reply: nat -> int`. A short write ends the
  process, and the bytes the system already took stay on the stream. A
  consumer reads a frame back exactly when the message is shorter than 2^16
  bytes.
- **The read loop** (`ReadLoop`, `Worker`). The driver is a sequence of
  `pcap_next_ex` results. A class holds standard output, the write count, the
  signal mask, the timer and the exit flag.
  - The loop writes exactly the frames of the packets before the first
    stopping code, then one `eof` frame if that code is -2, up to the first
    failed write.
  - A ghost counter of frames written while SIGALRM was deliverable stays
    unchanged.
- **Setup** (`Setup`). Each libpcap result is a field of a `Driver` record.
  `epcap_open`, `epcap_open_live` and `epcap_init` are a class that records
  the calls made, in order, and whether the process ended. Pure run
  functions specify these methods, and lemmas state the branch properties.

Four behaviours of the code differ from what a reader of the protocol might
expect; the model follows the code:

- The statistics timer is armed only when the verbosity is exactly 2
  (`c_src/epcap.c:257`), not at any higher level.
- The seconds are split with truncating `/` and `%` on `tv_sec`, so
  1_700_000_000 s gives the triple `(1700, 0, 500)` for 500 microseconds,
  and 1_700_700_000 s is the case that leaves 700000 (`Timestamp.Examples`).
- The length prefix is `msg->index` narrowed to 16 bits without a check, so
  it is not always the payload length. `ReadLoop.PacketFrameMislabelled`
  shows that a capture of 65508 bytes or more gets a wrong prefix;
  `ReadLoop.PacketFrameIntact` shows that one of at most 65479 bytes is
  always framed correctly.
- Monitor mode is requested after the handle is activated, not before:
  `pcap_can_set_rfmon` and `pcap_set_rfmon` (`c_src/epcap.c:186-188`) run
  after `epcap_open_live` has called `pcap_activate` (line 210).
  `Setup.DeviceRun` and `Setup.OpenRfmon` follow that order.

## Model

| member | source | states |
|---|---|---|
| Timestamp.CMod | c_src/epcap.c:324 | C's `%` by a positive divisor: `CDiv(a, b) * b + r == a`, with `0 <= r < b` for `a >= 0` and `-b < r <= 0` for `a < 0` |
| Timestamp.ToCInt | c_src/epcap.c:323 | the `long` quotient narrowed to `int`: always in the `int` range, congruent to the quotient modulo 2^32, and unchanged when it already fits |
| Timestamp.Triple | c_src/epcap.c:323-325 | the triple sent for a `struct timeval`; its properties are stated by `NonNegativeSplit`, `NegativeSignLoss`, `TripleNotInjective`, `NarrowingWraps` and `Examples` |
| Timestamp.CAbs | c_src/epcap.c:323 | `abs` on an `int`: `x` or `-x`, never negative, except that `abs(INT_MIN)` is `INT_MIN` |
| Timestamp.NonNegativeSplit | c_src/epcap.c:323-325 | for `tv_sec >= 0` whose quotient fits an `int`: `MegaSec >= 0`, `0 <= Sec < 1000000`, `MegaSec * 1000000 + Sec == tv_sec`, and `MicroSec == tv_usec` |
| Timestamp.NegativeSignLoss | c_src/epcap.c:323-324 | for `tv_sec < 0`: `MegaSec >= 0` and `-1000000 < Sec <= 0`; `-MegaSec * 1000000 + Sec == tv_sec`; the naive reconstruction is right exactly when `tv_sec > -1000000` |
| Timestamp.TripleNotInjective | c_src/epcap.c:323-324 | `k` million seconds after the epoch and `k` million before give the same triple |
| Timestamp.NarrowingWraps | c_src/epcap.c:323 | at 2^31 million seconds the quotient wraps and `MegaSec` is `INT_MIN` |
| Timestamp.Examples | c_src/epcap.c:323-325 | 1700000000 s gives `(1700, 0, 500)`, and 1700700000 s gives `(1700, 700000, 500)` |
| Bytes.BE16 | c_src/epcap.c:342 | `htons` then a 2-byte write: two bytes that read back as the value, most significant first |
| Bytes.ToUnsigned32 | c_src/epcap.c:273 | the `int` datalink passed as `unsigned int`: a value below 2^32 whose two's complement reading is the original |
| Etf.Encode | c_src/epcap.c:315-331 | the bytes the `ei` encode calls append for a term; its inverse is stated by `DecodeEncode` and `DecodeEncodeSeq` |
| Etf.EncodeMessage | c_src/epcap.c:312 | the version byte then the term; its inverse is stated by `MessageRoundTrip` |
| Etf.DecodeEncodeLong | c_src/epcap.c:319-328 | every `long` the encoder writes reads back as that integer, followed by the untouched rest |
| Etf.DecodeEncodeAtom | c_src/epcap.c:316 | an atom written with either tag reads back as that atom |
| Etf.DecodeEncodeBinary | c_src/epcap.c:331 | a binary reads back as exactly the bytes given |
| Etf.DecodeTupleHeader | c_src/epcap.c:315 | a tuple header is read as a tuple of exactly that many following terms |
| Etf.DecodeEncode | c_src/epcap.c:312-331 | every well-formed term reads back from its encoding, leaving the rest of the input |
| Etf.DecodeEncodeSeq | c_src/epcap.c:315-331 | a run of encoded terms reads back as those terms, in order |
| Etf.MessageRoundTrip | c_src/epcap.c:312 | a version-prefixed message reads back as its term with either atom tag |
| EiBuffer.XBuff.NewWithVersion | c_src/epcap.c:312 | `ei_x_new_with_version`: the buffer holds only the version byte 131 |
| EiBuffer.XBuff.Contents | c_src/epcap.c:346 | the bytes a send writes are exactly the `index` bytes in use |
| EiBuffer.XBuff.EncodeTupleHeader | c_src/epcap.c:315 | appends the tuple header at `index`; earlier bytes unchanged |
| EiBuffer.XBuff.EncodeAtom | c_src/epcap.c:316 | appends the atom's encoding at `index`; earlier bytes unchanged |
| EiBuffer.XBuff.EncodeLong | c_src/epcap.c:319 | appends the integer's encoding at `index`; earlier bytes unchanged |
| EiBuffer.XBuff.EncodeBinary | c_src/epcap.c:331 | appends BINARY_EXT, the 4-byte length and the bytes unchanged |
| Messages.PacketMessage | c_src/epcap.c:312-331 | the packet message's bytes; stated by `PacketRoundTrip`, `PacketMessageLayout` and `PacketMessageSize` |
| Messages.ControlMessage | c_src/epcap.c:298-301 | the control message's bytes; stated by `ControlRoundTrip`, `ControlMessageLayout` and `ControlMessageSize` |
| Messages.PacketTerm | c_src/epcap.c:314-331 | the packet term is well formed (every field fits its C type) whenever the capture header is valid |
| Messages.ControlTerm | c_src/epcap.c:298-301 | `{epcap, Event}` is well formed for every valid event name |
| Messages.PacketRoundTrip | c_src/epcap.c:312-331 | a packet message decodes to a 5-tuple carrying the datalink, the timestamp triple, `len`, and exactly the first `caplen` bytes of the packet; it is never read as a control message |
| Messages.ControlRoundTrip | c_src/epcap.c:298-301 | a control message decodes to `{epcap, evt}` and is never read as a packet |
| Messages.TimeLayout | c_src/epcap.c:322-325 | the time triple's bytes are a 3-tuple header followed by the three integers in order |
| Messages.PacketFieldsLayout | c_src/epcap.c:316-331 | the five fields' bytes follow one another in the order the encoder writes them |
| Messages.PacketMessageLayout | c_src/epcap.c:312-331 | the packet message is the version byte, a 5-tuple header, the `packet` atom, the datalink, the time tuple, `len` and the binary, in the order of the encode calls |
| Messages.ControlMessageLayout | c_src/epcap.c:298-301 | the control message is the version byte, a 2-tuple header, then the two atoms |
| Messages.PacketMessageSize | c_src/epcap.c:312-331 | a packet message is between `caplen + 28` and `caplen + 56` bytes long |
| Messages.ControlMessageSize | c_src/epcap.c:298-301 | a control message is the event name plus 12 (UTF-8 atoms) or 14 (Latin-1 atoms) bytes |
| Channel.Header | c_src/epcap.c:340-342 | the prefix is 2 bytes worth `index mod 65536`, and worth `index` exactly when `index < 65536` |
| Channel.Taken | c_src/epcap.c:343-346 | a write returning a count `r` up to the request leaves exactly `r` bytes, one returning an error leaves none, and none leaves more than the request |
| Channel.Send | c_src/epcap.c:338-350 | a send survives iff the header write returns 2 and the payload write returns `index`; then the stream gains exactly the frame in 2 writes; otherwise only a prefix of the frame, and a failed header write makes just 1 call and leaves at most 2 bytes |
| Channel.Transmit | c_src/epcap.c:338-350 | successive sends up to the first fatal one; stated by `TransmitFrames` and, for the read loop, by `ReadLoop.TransmitStep` |
| Channel.TransmitFrames | c_src/epcap.c:338-350 | when every write completes, the stream holds exactly the frames in order, 2 writes each; otherwise it holds a prefix of them and the process has stopped |
| Channel.ReadFrameIff | c_src/epcap.c:340-346 | a consumer reads a message back from its frame if and only if the message is shorter than 2^16 bytes |
| Channel.ReadFramesOfFrames | c_src/epcap.c:340-346 | when every message is shorter than 2^16 bytes, a consumer splits the stream back into exactly those messages |
| ReadLoop.Events | c_src/epcap.c:263-291 | the messages the loop sends for a run of `pcap_next_ex` results; every one is valid, and its shape is stated by `EventsShape`, `EofOnlyLast` and `EventsIgnoreAfterStop` |
| ReadLoop.StopIndex | c_src/epcap.c:263-291 | the position of the first result the loop stops on (or the end): it stops there, and on none before |
| ReadLoop.EventsShape | c_src/epcap.c:263-291 | the loop sends one packet message for each code-1 result before the first stopping code, in order, then one `eof` message if and only if that code is -2 |
| ReadLoop.EofOnlyLast | c_src/epcap.c:276-283 | an `eof` message appears at most once and only last; the last message is a control message exactly when the loop stopped on -2 |
| ReadLoop.EventsIgnoreAfterStop | c_src/epcap.c:263-291 | results after the one that stops the loop change nothing |
| ReadLoop.TransmitStep | c_src/epcap.c:263-291 | the stream for a run of results is the first result's contribution, followed by the rest's unless the first stops the loop or its write fails |
| ReadLoop.PacketFrameIntact | c_src/epcap.c:331-346 | a capture of at most 65479 bytes is always framed so a consumer reads its message back |
| ReadLoop.PacketFrameMislabelled | c_src/epcap.c:331-346 | a capture of 65508 bytes or more gets a prefix not equal to the message length, and a consumer cannot read it back |
| Worker.StepAccount | c_src/epcap.c:263-291 | after one pass of the loop, the bytes written plus those still due for the remaining results are all the bytes due; once the loop stops, all of them are written |
| Worker.Worker.Write | c_src/epcap.c:343-346 | one `write` call: returns the oracle's answer, and the stream gains exactly the bytes it took |
| Worker.Worker.BlockSigAlarm | c_src/epcap.c:402-409 | SIGALRM is blocked afterwards |
| Worker.Worker.UnblockSigAlarm | c_src/epcap.c:411-418 | SIGALRM is deliverable afterwards |
| Worker.Worker.SetStatsTimer | c_src/epcap.c:368-376 | a negative `setitimer` result ends the process; otherwise the timer is armed |
| Worker.Worker.SendFree | c_src/epcap.c:338-350 | the stream and write count advance exactly as `Send` of the buffer's contents says; the process ends iff the send failed; a send while SIGALRM is deliverable is counted |
| Worker.Worker.Response | c_src/epcap.c:307-336 | the bytes sent are exactly the packet message for the header, the datalink and the first `caplen` bytes |
| Worker.Worker.Ctrl | c_src/epcap.c:294-304 | the bytes sent are exactly the `{epcap, evt}` message |
| Worker.Worker.Step | c_src/epcap.c:264-290 | one pass of the switch sends what that code calls for, with SIGALRM blocked; the mask is restored unless the process ended; the loop stops on codes other than 0 and 1, or when a write fails |
| Worker.Worker.Handle | c_src/epcap.c:263-291 | one pass keeps the account of the bytes due for the remaining results, and leaves SIGALRM deliverable whenever the loop goes on |
| Worker.Worker.ReadPackets | c_src/epcap.c:263-291 | the whole loop writes exactly the frames of the loop's messages up to the first failed write; the process ends iff a write failed; no frame is written while SIGALRM is deliverable |
| Worker.Worker.Loop | c_src/epcap.c:247-292 | the timer is armed only at verbosity exactly 2 and a failed `setitimer` ends the process before any read; otherwise it behaves as the read loop, on the datalink converted to `unsigned int` |
| Setup.AttemptsFatal | c_src/epcap.c:201-210 | a fixed sequence of checked calls ends the process exactly when one of them fails |
| Setup.AttemptsOnlyReached | c_src/epcap.c:201-210 | every call made comes after successful calls only |
| Setup.AttemptsAllReached | c_src/epcap.c:201-210 | every call whose predecessors all succeed is made |
| Setup.AttemptsInOrder | c_src/epcap.c:201-210 | the trace holds the calls in the order given, every one before the last succeeded, and the run is fatal exactly when the last call made failed |
| Setup.LiveSteps | c_src/epcap.c:201-210 | the checked calls of `epcap_open_live`: create, snaplen, promisc, timeout, the buffer size only when it is set, then activate (`LiveStepsElems`); by `AttemptsInOrder` the live run records them in that order, up to and including the first that fails |
| Setup.LiveRun | c_src/epcap.c:199-211 | `epcap_open_live` as a run of attempts; its trace is a prefix of the calls in source order ending at the first failure (`AttemptsInOrder`), and `LiveRunSetupCalls`, `LiveRunFatal` and `LiveRunBufferSize` state which calls it makes and when it is fatal |
| Setup.LiveRunSetupCalls | c_src/epcap.c:199-211 | `epcap_open_live` makes only handle-creation and setting calls |
| Setup.LiveRunFatal | c_src/epcap.c:201-210 | `epcap_open_live` ends the process exactly when the capture does not activate |
| Setup.LiveRunBufferSize | c_src/epcap.c:205-206 | `pcap_set_buffer_size` is called exactly when a size is requested and the earlier settings succeed |
| Setup.DeviceRun | c_src/epcap.c:180-188 | the live branch of `epcap_open`: device lookup when none is set, `epcap_open_live`, then monitor mode; stated by `DeviceRunRfmon` and `OpenOutcome` |
| Setup.OpenRun | c_src/epcap.c:174-196 | `epcap_open` as a run; stated by `OpenFileSkipsLive`, `OpenOutcome`, `OpenBufferSize`, `OpenRfmon` and `OpenDirection` |
| Setup.OpenFileSkipsLive | c_src/epcap.c:178-179 | a file source opens the file first, makes no device lookup or live call, and ends the process exactly when the file does not open |
| Setup.OpenOutcome | c_src/epcap.c:178-189 | `epcap_open` ends the process exactly when the file does not open, or when the live capture does not activate |
| Setup.OpenBufferSize | c_src/epcap.c:205-206 | `pcap_set_buffer_size` appears in the trace iff a size was requested and a live capture got that far |
| Setup.OpenRfmon | c_src/epcap.c:186-188 | `pcap_can_set_rfmon` is called iff the live capture activated; `pcap_set_rfmon` iff additionally it returned 1 |
| Setup.DeviceRunRfmon | c_src/epcap.c:180-188 | the live branch reaches the monitor-mode calls only after activation, and ends the process exactly when activation does not happen |
| Setup.OpenDirection | c_src/epcap.c:191-193 | the direction is restricted iff `filter_in` is set and the source opened, and then as the last call |
| Setup.InitRun | c_src/epcap.c:214-243 | returns 0 or -1; without `-N`, `pcap_lookupnet` on the device is the first call and is never repeated, while with `-N` it is never made; the only calls are `pcap_lookupnet`, `pcap_compile` and `pcap_setfilter`, and `pcap_setfilter` is always the last; a failed lookup returns -1 before compiling; once the lookup succeeds or is skipped, `pcap_compile` is called, with mask 0 when skipped and the looked-up mask otherwise; `pcap_setfilter` is called exactly after a successful compile; 0 exactly when compile and setfilter succeed |
| Setup.Capture.OpenLive | c_src/epcap.c:199-211 | the calls made and the exit are those of the live run on `ep->dev` |
| Setup.Capture.OpenDevice | c_src/epcap.c:180-188 | `ep->dev` becomes the configured or looked-up device; a failed lookup ends the process; otherwise the live run and, if it activates, the monitor-mode calls |
| Setup.Capture.MonitorMode | c_src/epcap.c:186-188 | asks `pcap_can_set_rfmon`, and calls `pcap_set_rfmon` only when it returns 1 |
| Setup.Capture.Open | c_src/epcap.c:174-196 | the calls and the exit are those of `OpenRun`; when the process survives it returns 0 with a handle open; `ep->dev` is the live device, and is left as it was for a file source |
| Setup.Capture.Init | c_src/epcap.c:215-243 | the calls and the result are those of `InitRun` on `ep->dev` |

## Left out

- `main` (option parsing, defaults, `fork`, the privilege drop, `chroot`, `kill`): process-level OS calls around the core; not modelled.
- `epcap_watch`: a blocking `select` on standard input; not modelled.
- The statistics handler (`init_stats_state`, `register_stats_signal_handler`, `log_stats`) is asynchronous signal delivery. Only the mask flag, the armed flag and the result of `setitimer` are modelled.
- All `VERBOSE` logging, `fill_buffer_with_current_time` and `usage`: diagnostics on standard error.
- `ei` internals: the atom tag is a parameter (`Etf.AtomTag`), and the integer layout follows `ei_encode_longlong`. No encoder call fails, because the buffer grows as needed. Reallocation and `ei_x_free` are not modelled.
- `epcap.h` is not part of this model. `IS_LTZERO` is read as "a negative result ends the process", `PCAP_ERRBUF` as "a NULL result ends it" and `IS_FALSE` as "a non-zero result ends it". The value of `DO_NOT_SET_BUFFER_SIZE` is a field of `Setup.Config`; `SNAPLEN` is not used.
- libpcap is foreign code: filter compilation, packet acquisition and device handling are results in `Setup.Driver` or `ReadLoop.NextEx`. The results of `pcap_set_rfmon` and `pcap_setdirection` are ignored, as in the source.
- `pcap_datalink` is the `Worker.Worker.Loop` parameter `datalink`, and the `setitimer` result is its parameter `timer`.
- Worker.Worker.Loop: the statistics timer is a flag. Its interval and its firing are not modelled.
- Worker.Worker.ReadPackets: `rs` is a finite prefix of the `pcap_next_ex` results. When it runs out without a stopping code, the model returns with the process alive, while the source would call `pcap_next_ex` again. `ReadLoop.Events` has the same limit.
- The model assumes an LP64 platform, where `long` and `time_t` are 64 bits. `Timestamp.ToCInt`'s wrap of the quotient to a C `int`, `Timestamp.NarrowingWraps` and the `ei_encode_longlong` big-integer layout of `Etf` depend on this. With a 32-bit `long`, the arithmetic and the integer layout would differ.
- Setup.Capture.Open: `ep->p` is a flag for "a handle is open". The handle itself is opaque.

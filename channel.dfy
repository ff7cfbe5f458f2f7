/**
 The frame protocol on the daemon's standard output (c_src/epcap.c lines
 338-350): a 2-byte big-endian length, then the message. The length is the
 buffer's `index` narrowed to `u_int16_t` by `htons`; nothing checks that it
 fits.

 Each `write` is an oracle: `reply(k)` is what the k-th `write` call on the
 stream returns. A call that returns anything but the requested count is
 fatal (`errx`), so nothing is written after it; the bytes the operating
 system did take before that stay on the stream.
 */
module Channel {
  import opened Bytes
  import opened Wrappers

  /** `htons(msg->index)` written as two bytes: the length modulo 2^16. */
  function Header(n: nat): (h: seq<byte>)
    ensures |h| == 2 && Uint16(h) == n % TwoTo16
    ensures n < TwoTo16 ==> Uint16(h) == n
  {
    BE16(n % TwoTo16)
  }

  /** What a frame of `payload` looks like when both writes complete. */
  function Frame(payload: seq<byte>): seq<byte>
  {
    Header(|payload|) + payload
  }

  function Frames(payloads: seq<seq<byte>>): seq<byte>
  {
    if payloads == [] then [] else Frame(payloads[0]) + Frames(payloads[1..])
  }

  /**
   How many of `n` requested bytes a `write` returning `r` leaves on the
   stream: exactly `r` for a count up to `n`, none for an error; a count above
   `n`, which `write` never returns, is read as `n`.
   */
  function Taken(r: int, n: nat): (k: nat)
    ensures k <= n
    ensures k == n <== r == n
    ensures 0 <= r <= n ==> k == r
    ensures r < 0 ==> k == 0
  {
    if r < 0 then 0 else if r > n then n else r
  }

  /** The effect of one or more sends: bytes appended, `write` calls made, whether the process survives. */
  datatype Sent = Sent(bytes: seq<byte>, writes: nat, ok: bool)

  /** `epcap_send_free` on a message, starting at the `w`-th write of the stream. */
  function Send(payload: seq<byte>, reply: nat -> int, w: nat): (s: Sent)
    ensures s.ok <==> reply(w) == 2 && reply(w + 1) == |payload|
    ensures s.ok ==> s.bytes == Frame(payload) && s.writes == 2
    ensures !s.ok ==> s.bytes <= Frame(payload)
    ensures reply(w) != 2 ==> s.writes == 1 && |s.bytes| <= 2
  {
    var header := Header(|payload|);
    var r1 := reply(w);
    if r1 != 2 then Sent(header[..Taken(r1, 2)], 1, false)
    else
      var r2 := reply(w + 1);
      assert Frame(payload)[..2 + Taken(r2, |payload|)] == header + payload[..Taken(r2, |payload|)];
      Sent(header + payload[..Taken(r2, |payload|)], 2, r2 == |payload|)
  }

  /** Successive sends until the first fatal one. */
  function Transmit(payloads: seq<seq<byte>>, reply: nat -> int, w: nat): Sent
  {
    if payloads == [] then Sent([], 0, true)
    else
      var s := Send(payloads[0], reply, w);
      if !s.ok then s
      else
        var t := Transmit(payloads[1..], reply, w + s.writes);
        Sent(s.bytes + t.bytes, s.writes + t.writes, t.ok)
  }

  lemma TransmitCons(p: seq<byte>, ps: seq<seq<byte>>, reply: nat -> int, w: nat)
    ensures var s := Send(p, reply, w);
      Transmit([p] + ps, reply, w) ==
        if !s.ok then s
        else var t := Transmit(ps, reply, w + s.writes); Sent(s.bytes + t.bytes, s.writes + t.writes, t.ok)
  {
    assert ([p] + ps)[0] == p && ([p] + ps)[1..] == ps;
  }

  /**
   If every write completes, the stream holds exactly the frames in order;
   otherwise it holds a prefix of them and the process has stopped. Exactly
   two `write` calls are made per completed frame.
   */
  lemma {:induction false} TransmitFrames(payloads: seq<seq<byte>>, reply: nat -> int, w: nat)
    ensures var t := Transmit(payloads, reply, w);
      && (t.ok ==> t.bytes == Frames(payloads) && t.writes == 2 * |payloads|)
      && (!t.ok ==> t.bytes <= Frames(payloads) && payloads != [])
  {
    if payloads != [] {
      var s := Send(payloads[0], reply, w);
      if s.ok {
        TransmitFrames(payloads[1..], reply, w + 2);
      }
    }
  }

  /** A consumer reading one frame: two length bytes, then that many bytes. */
  function ReadFrame(s: seq<byte>): (r: Option<(seq<byte>, seq<byte>)>)
    ensures r.Some? ==> |r.value.1| < |s|
  {
    if |s| < 2 || |s| < 2 + Uint16(s) then None
    else Some((s[2..2 + Uint16(s)], s[2 + Uint16(s)..]))
  }

  /** A consumer splitting the whole stream into frames. */
  function ReadFrames(s: seq<byte>): Option<seq<seq<byte>>>
    decreases |s|
  {
    if s == [] then Some([])
    else
      match ReadFrame(s)
      case None => None
      case Some((p, rest)) =>
        match ReadFrames(rest)
        case None => None
        case Some(ps) => Some([p] + ps)
  }

  /** A consumer gets the message back from its frame if and only if the message is shorter than 2^16 bytes. */
  lemma ReadFrameIff(payload: seq<byte>, rest: seq<byte>)
    ensures ReadFrame(Frame(payload) + rest) == Some((payload, rest)) <==> |payload| < TwoTo16
  {
    var s := Frame(payload) + rest;
    assert Uint16(s) == Uint16(Header(|payload|));
    if |payload| < TwoTo16 {
      assert s[2..2 + |payload|] == payload;
      assert s[2 + |payload|..] == rest;
    } else {
      assert |s[2..2 + Uint16(s)]| != |payload|;
    }
  }

  predicate AllShort(payloads: seq<seq<byte>>)
  {
    forall i :: 0 <= i < |payloads| ==> |payloads[i]| < TwoTo16
  }

  /** When every message is shorter than 2^16 bytes, the consumer splits the stream back into exactly those messages. */
  lemma {:induction false} ReadFramesOfFrames(payloads: seq<seq<byte>>)
    requires AllShort(payloads)
    ensures ReadFrames(Frames(payloads)) == Some(payloads)
  {
    if payloads != [] {
      var tail := Frames(payloads[1..]);
      ReadFrameIff(payloads[0], tail);
      assert AllShort(payloads[1..]);
      ReadFramesOfFrames(payloads[1..]);
      assert Frames(payloads) != [];
      assert [payloads[0]] + payloads[1..] == payloads;
    }
  }
}

/**
 The capture process as the Erlang side sees it (c_src/epcap.c lines
 248-350 and 402-418): it reads results from the capture library, encodes
 each packet or end-of-file event as a message, and writes each message to
 standard output as one length-prefixed frame, with SIGALRM blocked so the
 statistics handler cannot run in the middle of a frame. A write that does
 not complete ends the process.

 The result of each `write` call comes from the oracle `reply`: the n-th
 call on standard output returns `reply(n)`.
 */
module Worker {
  import opened Bytes
  import opened Etf
  import opened Timestamp
  import opened Messages
  import opened Channel
  import opened ReadLoop
  import opened EiBuffer

  lemma Regroup(head: seq<byte>, h: seq<byte>, a: seq<byte>, b: seq<byte>, c: seq<byte>)
    ensures head + h + a + b + c == head + (h + a + b + c)
  {
  }

  /**
   The account of one pass on abstract values: `s` is what the pass wrote,
   `t` what was due for all results, `u` what is still due for the rest.
   */
  lemma Account(before: seq<byte>, wBefore: nat, out: seq<byte>, w: nat, ok: bool, stop: bool, s: Sent, t: Sent, u: Sent)
    requires out == before + s.bytes && w == wBefore + s.writes && ok == s.ok
    requires stop ==> t == s
    requires !stop ==> ok && t == Sent(s.bytes + u.bytes, s.writes + u.writes, u.ok)
    ensures if !stop then ok && out + u.bytes == before + t.bytes && w + u.writes == wBefore + t.writes && u.ok == t.ok
      else out == before + t.bytes && w == wBefore + t.writes && ok == t.ok
  {
  }

  /**
   The account of one pass of the loop: given what the pass on the first
   result `rs[0]` wrote (`before` grew to `out`, `wBefore` calls to `w`), the
   frames due for `rs` are those written plus those still due for `rs[1..]`,
   unless the pass stopped the loop, in which case all of them were written.
   */
  lemma StepAccount(atoms: AtomTag, datalink: int, rs: seq<NextEx>, reply: nat -> int,
                    before: seq<byte>, wBefore: nat, out: seq<byte>, w: nat, ok: bool, stop: bool)
    requires IsUint32(datalink) && rs != [] && ResultsValid(rs)
    requires var s := StepSent(atoms, datalink, rs[0], reply, wBefore);
      out == before + s.bytes && w == wBefore + s.writes && ok == s.ok && stop == (Stops(rs[0].code) || !s.ok)
    ensures ResultsValid(rs[1..])
    ensures var due := Transmit(Payloads(atoms, datalink, Events(rs)), reply, wBefore);
      if !stop then
        var u := Transmit(Payloads(atoms, datalink, Events(rs[1..])), reply, w);
        ok && out + u.bytes == before + due.bytes && w + u.writes == wBefore + due.writes && u.ok == due.ok
      else
        out == before + due.bytes && w == wBefore + due.writes && ok == due.ok
  {
    var s := StepSent(atoms, datalink, rs[0], reply, wBefore);
    var t := Transmit(Payloads(atoms, datalink, Events(rs)), reply, wBefore);
    var u := Transmit(Payloads(atoms, datalink, Events(rs[1..])), reply, wBefore + s.writes);
    TransmitStep(atoms, datalink, rs, reply, wBefore);
    Account(before, wBefore, out, w, ok, stop, s, t, u);
  }

  class Worker {
    /** Everything written to standard output so far. */
    var out: seq<byte>
    /** The number of `write` calls made on standard output. */
    var writes: nat
    /** What each `write` call returns. */
    const reply: nat -> int
    /** The atom tag of the linked ei release. */
    const atoms: AtomTag
    /** Whether SIGALRM is in the process signal mask. */
    var alarmBlocked: bool
    /** Whether the periodic statistics timer is running. */
    var timerArmed: bool
    /** Whether the process has ended through `errx`. */
    var exited: bool
    /** The number of frames whose writing began while SIGALRM could be delivered. */
    ghost var unmaskedSends: nat

    constructor (reply: nat -> int, atoms: AtomTag)
      ensures this.reply == reply && this.atoms == atoms
      ensures out == [] && writes == 0 && unmaskedSends == 0
      ensures !alarmBlocked && !timerArmed && !exited
    {
      this.reply := reply;
      this.atoms := atoms;
      out := [];
      writes := 0;
      unmaskedSends := 0;
      alarmBlocked := false;
      timerArmed := false;
      exited := false;
    }

    /** `write(fileno(stdout), data, |data|)`: the first `Taken` bytes reach the stream. */
    method Write(data: seq<byte>) returns (r: int)
      modifies this`out, this`writes
      ensures r == reply(old(writes)) && writes == old(writes) + 1
      ensures out == old(out) + data[..Taken(r, |data|)]
    {
      r := reply(writes);
      out := out + data[..Taken(r, |data|)];
      writes := writes + 1;
    }

    method BlockSigAlarm()
      modifies this`alarmBlocked
      ensures alarmBlocked
    {
      alarmBlocked := true;
    }

    method UnblockSigAlarm()
      modifies this`alarmBlocked
      ensures !alarmBlocked
    {
      alarmBlocked := false;
    }

    /**
     `set_stats_timer`: arms the interval timer; `result` is what `setitimer`
     returns, and a negative one ends the process.
     */
    method SetStatsTimer(result: int)
      requires !exited
      modifies this`timerArmed, this`exited
      ensures exited == (result < 0)
      ensures timerArmed == (old(timerArmed) || result >= 0)
    {
      if result < 0 {
        exited := true;
        return;
      }
      timerArmed := true;
    }

    /**
     `epcap_send_free`: the 16-bit big-endian length of the message, then the
     message; either write coming up short ends the process.
     */
    method SendFree(msg: XBuff) returns (ok: bool)
      requires !exited && msg.Valid()
      modifies this`out, this`writes, this`exited, this`unmaskedSends
      ensures var s := Send(msg.Contents(), reply, old(writes));
        && out == old(out) + s.bytes && writes == old(writes) + s.writes
        && ok == s.ok && exited == !ok
      ensures unmaskedSends == old(unmaskedSends) + (if alarmBlocked then 0 else 1)
    {
      if !alarmBlocked {
        unmaskedSends := unmaskedSends + 1;
      }
      var r := Write(Header(msg.index));
      if r != 2 {
        exited := true;
        return false;
      }
      r := Write(msg.Contents());
      if r != msg.index {
        exited := true;
        return false;
      }
      return true;
    }

    /**
     `epcap_response`: encodes `{packet, DataLinkType, {MegaSec, Sec,
     MicroSec}, ActualLength, Packet}` call by call and sends it.
     */
    method Response(hdr: PktHdr, pkt: seq<byte>, datalink: int) returns (ok: bool)
      requires !exited && ValidCapture(hdr, pkt) && IsUint32(datalink)
      modifies this`out, this`writes, this`exited, this`unmaskedSends
      ensures var s := Send(PacketMessage(atoms, datalink, hdr, pkt), reply, old(writes));
        && out == old(out) + s.bytes && writes == old(writes) + s.writes
        && ok == s.ok && exited == !ok
      ensures unmaskedSends == old(unmaskedSends) + (if alarmBlocked then 0 else 1)
    {
      var msg := new XBuff.NewWithVersion(atoms);
      msg.EncodeTupleHeader(5);
      msg.EncodeAtom(PacketAtom);
      msg.EncodeLong(datalink);
      ghost var head := msg.Contents();
      var megaSec := CAbs(ToCInt(CDiv(hdr.tvSec, MicrosPerSecond)));
      var sec := CMod(hdr.tvSec, MicrosPerSecond);
      ghost var t := Triple(hdr.tvSec, hdr.tvUsec);
      assert megaSec == t.megaSec && sec == t.sec && IsInt64(sec);
      msg.EncodeTupleHeader(3);
      msg.EncodeLong(megaSec);
      msg.EncodeLong(sec);
      msg.EncodeLong(hdr.tvUsec);
      ghost var time := msg.Contents();
      msg.EncodeLong(hdr.len);
      msg.EncodeBinary(pkt[..hdr.caplen]);
      assert msg.Contents() == PacketMessage(atoms, datalink, hdr, pkt) by {
        PacketMessageLayout(atoms, datalink, hdr, pkt);
        Regroup(head, EncodeTupleHeader(3), EncodeLong(megaSec), EncodeLong(sec), EncodeLong(hdr.tvUsec));
      }
      ok := SendFree(msg);
    }

    /** `epcap_ctrl`: encodes `{epcap, evt}` and sends it. */
    method Ctrl(evt: string) returns (ok: bool)
      requires !exited && ValidAtomName(evt)
      modifies this`out, this`writes, this`exited, this`unmaskedSends
      ensures var s := Send(ControlMessage(atoms, evt), reply, old(writes));
        && out == old(out) + s.bytes && writes == old(writes) + s.writes
        && ok == s.ok && exited == !ok
      ensures unmaskedSends == old(unmaskedSends) + (if alarmBlocked then 0 else 1)
    {
      var msg := new XBuff.NewWithVersion(atoms);
      msg.EncodeTupleHeader(2);
      msg.EncodeAtom(EpcapAtom);
      msg.EncodeAtom(evt);
      ControlMessageLayout(atoms, evt);
      ok := SendFree(msg);
    }

    /**
     One pass of the `switch` in `epcap_loop` (lines 267-290) on the result
     `r`: a packet or end of file is sent with SIGALRM blocked. `stop` is
     whether the loop ends here, either because of the code or because the
     process has ended.
     */
    method Step(r: NextEx, datalink: int) returns (stop: bool)
      requires !exited && !alarmBlocked && IsUint32(datalink)
      requires r.code == 1 ==> ValidCapture(r.hdr, r.pkt)
      modifies this`out, this`writes, this`exited, this`alarmBlocked, this`unmaskedSends
      ensures var s := StepSent(atoms, datalink, r, reply, old(writes));
        && out == old(out) + s.bytes && writes == old(writes) + s.writes
        && exited == !s.ok && alarmBlocked == exited
        && stop == (Stops(r.code) || !s.ok)
      ensures unmaskedSends == old(unmaskedSends)
    {
      if r.code == 0 {
        stop := false;
      } else if r.code == 1 {
        BlockSigAlarm();
        var ok := Response(r.hdr, r.pkt, datalink);
        if !ok {
          return true;
        }
        UnblockSigAlarm();
        stop := false;
      } else if r.code == -2 {
        BlockSigAlarm();
        var ok := Ctrl(EofEvent);
        if ok {
          UnblockSigAlarm();
        }
        stop := true;
      } else {
        stop := true;
      }
    }

    /**
     `epcap_loop` over the results `rs` of successive `pcap_next_ex` calls.
     `datalink` is what `pcap_datalink` returned and `timer` what `setitimer`
     returns when the statistics timer is armed (at verbosity 2 only). The
     stream receives exactly the frames of `Events(rs)` up to the first write
     that fails; every frame is written with SIGALRM blocked, and the mask is
     restored after each frame unless the process has ended.
     */
    method Loop(verbose: int, datalink: int, timer: int, rs: seq<NextEx>)
      requires !exited && !alarmBlocked && ResultsValid(rs) && IsInt32(datalink)
      modifies this`out, this`writes, this`exited, this`alarmBlocked, this`timerArmed, this`unmaskedSends
      ensures var timerFailed := verbose == 2 && timer < 0;
        var t := Transmit(Payloads(atoms, ToUnsigned32(datalink), Events(rs)), reply, old(writes));
        && timerArmed == (old(timerArmed) || (verbose == 2 && timer >= 0))
        && (timerFailed ==> exited && out == old(out) && writes == old(writes) && !alarmBlocked)
        && (!timerFailed ==> out == old(out) + t.bytes && writes == old(writes) + t.writes
                             && exited == !t.ok && alarmBlocked == exited)
      ensures unmaskedSends == old(unmaskedSends)
    {
      if verbose == 2 {
        SetStatsTimer(timer);
        if exited {
          return;
        }
      }
      ReadPackets(ToUnsigned32(datalink), rs);
    }

    /**
     `Step` on the first of the results `rs` still to be read, stated against
     the frames still due for them: the ones after the first remain due
     unless the loop stops here.
     */
    method Handle(datalink: int, rs: seq<NextEx>) returns (stop: bool)
      requires !exited && !alarmBlocked && IsUint32(datalink) && rs != [] && ResultsValid(rs)
      modifies this`out, this`writes, this`exited, this`alarmBlocked, this`unmaskedSends
      ensures ResultsValid(rs[1..])
      ensures var due := Transmit(Payloads(atoms, datalink, Events(rs)), reply, old(writes));
        if !stop then
          var u := Transmit(Payloads(atoms, datalink, Events(rs[1..])), reply, writes);
          && !exited && !alarmBlocked
          && out + u.bytes == old(out) + due.bytes && writes + u.writes == old(writes) + due.writes && u.ok == due.ok
        else
          && out == old(out) + due.bytes && writes == old(writes) + due.writes
          && exited == !due.ok && alarmBlocked == exited
      ensures unmaskedSends == old(unmaskedSends)
    {
      ghost var outBefore, wBefore := out, writes;
      stop := Step(rs[0], datalink);
      StepAccount(atoms, datalink, rs, reply, outBefore, wBefore, out, writes, !exited, stop);
    }

    /** The `while (read_packet)` loop of `epcap_loop`. */
    method ReadPackets(datalink: int, rs: seq<NextEx>)
      requires !exited && !alarmBlocked && ResultsValid(rs) && IsUint32(datalink)
      modifies this`out, this`writes, this`exited, this`alarmBlocked, this`unmaskedSends
      ensures var t := Transmit(Payloads(atoms, datalink, Events(rs)), reply, old(writes));
        && out == old(out) + t.bytes && writes == old(writes) + t.writes
        && exited == !t.ok && alarmBlocked == exited
      ensures unmaskedSends == old(unmaskedSends)
    {
      ghost var total := Transmit(Payloads(atoms, datalink, Events(rs)), reply, writes);
      var rest := rs;
      var reading := true;
      while reading && rest != []
        invariant ResultsValid(rest)
        invariant unmaskedSends == old(unmaskedSends)
        invariant reading ==> (
          var t := Transmit(Payloads(atoms, datalink, Events(rest)), reply, writes);
          && !exited && !alarmBlocked
          && out + t.bytes == old(out) + total.bytes && writes + t.writes == old(writes) + total.writes
          && t.ok == total.ok)
        invariant !reading ==> (
          && out == old(out) + total.bytes && writes == old(writes) + total.writes
          && exited == !total.ok && alarmBlocked == exited)
        decreases |rest|
      {
        var stop := Handle(datalink, rest);
        reading := !stop;
        rest := rest[1..];
      }
    }
  }
}

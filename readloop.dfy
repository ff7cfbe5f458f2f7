/**
 What `epcap_loop` (c_src/epcap.c lines 263-291) does with the results of
 `pcap_next_ex`, as a function of the sequence of results the capture
 library hands it:
   0   timeout: nothing is sent, the loop goes on;
   1   a packet: one packet message is sent, the loop goes on;
   -2  end of file: one `{epcap, eof}` message is sent, the loop stops;
   -1  a read error, or any other value: the loop stops, nothing is sent.
 */
module ReadLoop {
  import opened Bytes
  import opened Etf
  import opened Messages
  import opened Channel
  import opened Wrappers

  /** One return of `pcap_next_ex`, with the header and data it yields (used only when `code` is 1). */
  datatype NextEx = NextEx(code: int, hdr: PktHdr, pkt: seq<byte>)

  /** Something the loop sends. */
  datatype Event = PacketEvent(hdr: PktHdr, pkt: seq<byte>) | ControlEvent(name: string)

  const EofEvent: string := "eof"

  /** A code on which the loop stops. */
  predicate Stops(code: int)
  {
    code != 0 && code != 1
  }

  /** The capture library's promise for every packet it hands out. */
  predicate ResultsValid(rs: seq<NextEx>)
  {
    forall i :: 0 <= i < |rs| ==> rs[i].code == 1 ==> ValidCapture(rs[i].hdr, rs[i].pkt)
  }

  predicate ValidEvent(e: Event)
  {
    match e
    case PacketEvent(hdr, pkt) => ValidCapture(hdr, pkt)
    case ControlEvent(name) => ValidAtomName(name)
  }

  /** The events sent for a run of results, up to the result that stops the loop. */
  function Events(rs: seq<NextEx>): (evs: seq<Event>)
    requires ResultsValid(rs)
    ensures forall i :: 0 <= i < |evs| ==> ValidEvent(evs[i])
  {
    if rs == [] then []
    else
      assert ResultsValid(rs[1..]) by {
        forall i | 0 <= i < |rs[1..]| ensures rs[1..][i] == rs[i + 1] { }
      }
      var r := rs[0];
      if r.code == 0 then Events(rs[1..])
      else if r.code == 1 then [PacketEvent(r.hdr, r.pkt)] + Events(rs[1..])
      else if r.code == -2 then [ControlEvent(EofEvent)]
      else []
  }

  /** The index of the first result the loop stops on, or `|rs|` if it never stops. */
  function StopIndex(rs: seq<NextEx>): (k: nat)
    ensures k <= |rs|
    ensures k < |rs| ==> Stops(rs[k].code)
    ensures forall i :: 0 <= i < k ==> !Stops(rs[i].code)
  {
    if rs == [] then 0
    else if Stops(rs[0].code) then 0
    else 1 + StopIndex(rs[1..])
  }

  /** The packets among a run of results. */
  function Packets(rs: seq<NextEx>): seq<Event>
  {
    if rs == [] then []
    else (if rs[0].code == 1 then [PacketEvent(rs[0].hdr, rs[0].pkt)] else []) + Packets(rs[1..])
  }

  lemma {:induction false} PacketsArePackets(rs: seq<NextEx>)
    ensures forall i :: 0 <= i < |Packets(rs)| ==> Packets(rs)[i].PacketEvent?
  {
    if rs != [] {
      PacketsArePackets(rs[1..]);
    }
  }

  lemma PacketsAppend(rs: seq<NextEx>, r: NextEx)
    ensures Packets([r] + rs) == (if r.code == 1 then [PacketEvent(r.hdr, r.pkt)] else []) + Packets(rs)
  {
    assert ([r] + rs)[1..] == rs;
  }

  /**
   The loop sends one packet message for every packet returned before the
   first stopping code, in order, and then one `eof` message if and only if
   that code is -2.
   */
  lemma {:induction false} EventsShape(rs: seq<NextEx>)
    requires ResultsValid(rs)
    ensures var k := StopIndex(rs);
      Events(rs) == Packets(rs[..k]) + (if k < |rs| && rs[k].code == -2 then [ControlEvent(EofEvent)] else [])
  {
    if rs != [] && !Stops(rs[0].code) {
      assert ResultsValid(rs[1..]) by {
        forall i | 0 <= i < |rs[1..]| ensures rs[1..][i] == rs[i + 1] { }
      }
      EventsShape(rs[1..]);
      var k := StopIndex(rs);
      assert rs[..k] == [rs[0]] + rs[1..][..k - 1];
      PacketsAppend(rs[1..][..k - 1], rs[0]);
    } else if rs != [] {
      assert rs[..0] == [];
    }
  }

  /** An `eof` message is sent at most once, only as the last message, and exactly when the loop stops on -2. */
  lemma EofOnlyLast(rs: seq<NextEx>)
    requires ResultsValid(rs)
    ensures var evs := Events(rs);
      && (forall i :: 0 <= i < |evs| && evs[i].ControlEvent? ==> i == |evs| - 1 && evs[i].name == EofEvent)
      && ((|evs| > 0 && evs[|evs| - 1].ControlEvent?) <==>
          (StopIndex(rs) < |rs| && rs[StopIndex(rs)].code == -2))
  {
    EventsShape(rs);
    PacketsArePackets(rs[..StopIndex(rs)]);
  }

  /** Results after the one that stops the loop have no effect. */
  lemma {:induction false} EventsIgnoreAfterStop(rs: seq<NextEx>, more: seq<NextEx>)
    requires ResultsValid(rs) && ResultsValid(rs + more) && StopIndex(rs) < |rs|
    ensures Events(rs + more) == Events(rs)
  {
    assert (rs + more)[0] == rs[0];
    if !Stops(rs[0].code) {
      assert (rs + more)[1..] == rs[1..] + more;
      assert ResultsValid(rs[1..]) by {
        forall i | 0 <= i < |rs[1..]| ensures rs[1..][i] == rs[i + 1] { }
      }
      assert ResultsValid(rs[1..] + more) by {
        forall i | 0 <= i < |rs[1..] + more| ensures (rs[1..] + more)[i] == (rs + more)[i + 1] { }
      }
      EventsIgnoreAfterStop(rs[1..], more);
    }
  }

  /** The bytes of the message for an event. */
  function Payload(atoms: AtomTag, datalink: int, e: Event): seq<byte>
    requires ValidEvent(e) && IsUint32(datalink)
  {
    match e
    case PacketEvent(hdr, pkt) => PacketMessage(atoms, datalink, hdr, pkt)
    case ControlEvent(name) => ControlMessage(atoms, name)
  }

  function Payloads(atoms: AtomTag, datalink: int, evs: seq<Event>): (ps: seq<seq<byte>>)
    requires IsUint32(datalink) && forall i :: 0 <= i < |evs| ==> ValidEvent(evs[i])
    ensures |ps| == |evs|
  {
    if evs == [] then [] else [Payload(atoms, datalink, evs[0])] + Payloads(atoms, datalink, evs[1..])
  }

  lemma ResultsValidTail(rs: seq<NextEx>)
    requires ResultsValid(rs) && rs != []
    ensures ResultsValid(rs[1..])
  {
    forall i | 0 <= i < |rs[1..]| ensures rs[1..][i] == rs[i + 1] { }
  }

  lemma PayloadsCons(atoms: AtomTag, datalink: int, e: Event, evs: seq<Event>)
    requires IsUint32(datalink) && ValidEvent(e) && forall i :: 0 <= i < |evs| ==> ValidEvent(evs[i])
    ensures forall i :: 0 <= i < |[e] + evs| ==> ValidEvent(([e] + evs)[i])
    ensures Payloads(atoms, datalink, [e] + evs) == [Payload(atoms, datalink, e)] + Payloads(atoms, datalink, evs)
  {
    assert forall i :: 0 <= i < |[e] + evs| ==> ([e] + evs)[i] == if i == 0 then e else evs[i - 1];
    assert ([e] + evs)[1..] == evs;
  }

  /** What handling one result adds to the stream: a frame for a packet or end of file, nothing otherwise. */
  function StepSent(atoms: AtomTag, datalink: int, r: NextEx, reply: nat -> int, w: nat): Sent
    requires IsUint32(datalink) && (r.code == 1 ==> ValidCapture(r.hdr, r.pkt))
  {
    if r.code == 1 then Send(PacketMessage(atoms, datalink, r.hdr, r.pkt), reply, w)
    else if r.code == -2 then Send(ControlMessage(atoms, EofEvent), reply, w)
    else Sent([], 0, true)
  }

  /** The stream for a run of results is the first result's contribution followed by the rest's, unless that one stops the loop. */
  lemma TransmitStep(atoms: AtomTag, datalink: int, rs: seq<NextEx>, reply: nat -> int, w: nat)
    requires IsUint32(datalink) && ResultsValid(rs) && rs != []
    ensures ResultsValid(rs[1..])
    ensures var t := Transmit(Payloads(atoms, datalink, Events(rs)), reply, w);
      var s := StepSent(atoms, datalink, rs[0], reply, w);
      if !s.ok || Stops(rs[0].code) then t == s
      else var u := Transmit(Payloads(atoms, datalink, Events(rs[1..])), reply, w + s.writes);
        t == Sent(s.bytes + u.bytes, s.writes + u.writes, u.ok)
  {
    ResultsValidTail(rs);
    var r := rs[0];
    if r.code == 1 {
      PayloadsCons(atoms, datalink, PacketEvent(r.hdr, r.pkt), Events(rs[1..]));
      TransmitCons(PacketMessage(atoms, datalink, r.hdr, r.pkt), Payloads(atoms, datalink, Events(rs[1..])), reply, w);
    } else if r.code == -2 {
      PayloadsCons(atoms, datalink, ControlEvent(EofEvent), []);
      TransmitCons(ControlMessage(atoms, EofEvent), [], reply, w);
    }
  }

  /** Captures of up to 65479 bytes always frame correctly: a consumer reads the message back. */
  lemma PacketFrameIntact(atoms: AtomTag, datalink: int, hdr: PktHdr, pkt: seq<byte>, rest: seq<byte>)
    requires ValidCapture(hdr, pkt) && IsUint32(datalink) && hdr.caplen <= TwoTo16 - 1 - 56
    ensures var m := PacketMessage(atoms, datalink, hdr, pkt);
      ReadFrame(Frame(m) + rest) == Some((m, rest))
  {
    PacketMessageSize(atoms, datalink, hdr, pkt);
    ReadFrameIff(PacketMessage(atoms, datalink, hdr, pkt), rest);
  }

  /**
   Captures of 65508 bytes or more (a full 65535-byte snapshot, say) give a
   message of at least 2^16 bytes, whose 16-bit length prefix is wrong.
   */
  lemma PacketFrameMislabelled(atoms: AtomTag, datalink: int, hdr: PktHdr, pkt: seq<byte>, rest: seq<byte>)
    requires ValidCapture(hdr, pkt) && IsUint32(datalink) && hdr.caplen >= TwoTo16 - 28
    ensures var m := PacketMessage(atoms, datalink, hdr, pkt);
      Uint16(Frame(m)) != |m| && ReadFrame(Frame(m) + rest) != Some((m, rest))
  {
    var m := PacketMessage(atoms, datalink, hdr, pkt);
    PacketMessageSize(atoms, datalink, hdr, pkt);
    ReadFrameIff(m, rest);
  }
}

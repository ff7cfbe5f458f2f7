/**
 The two messages the daemon sends (c_src/epcap.c lines 294-336):
   {packet, DatalinkType, {MegaSec, Sec, MicroSec}, ActualLength, Packet}
   {epcap, Event}
 as terms, as the bytes the encoder calls leave in the buffer, and as a
 consumer reads them back.
 */
module Messages {
  import opened Bytes
  import opened Wrappers
  import opened Etf
  import opened Timestamp

  /** `struct pcap_pkthdr`: capture time, bytes captured (`caplen`), length on the wire (`len`). */
  datatype PktHdr = PktHdr(tvSec: int, tvUsec: int, caplen: int, len: int)

  /** What the capture library guarantees of a header and the data it points to. */
  predicate ValidCapture(hdr: PktHdr, pkt: seq<byte>)
  {
    IsInt64(hdr.tvSec) && IsInt64(hdr.tvUsec) && IsUint32(hdr.caplen) && IsUint32(hdr.len)
    && hdr.caplen <= |pkt|
  }

  const PacketAtom: string := "packet"
  const EpcapAtom: string := "epcap"

  function TimeTerm(t: TimeTriple): Term
  {
    Tuple([Int(t.megaSec), Int(t.sec), Int(t.microSec)])
  }

  /** The packet message; the datalink type is the `unsigned int` from `pcap_datalink`. */
  function PacketTerm(datalink: int, hdr: PktHdr, pkt: seq<byte>): (t: Term)
    requires ValidCapture(hdr, pkt) && IsUint32(datalink)
    ensures WellFormed(t)
  {
    var t := Tuple([Atom(PacketAtom), Int(datalink), TimeTerm(Triple(hdr.tvSec, hdr.tvUsec)),
                    Int(hdr.len), Binary(pkt[..hdr.caplen])]);
    assert WellFormed(TimeTerm(Triple(hdr.tvSec, hdr.tvUsec)));
    t
  }

  /** The control message for a lifecycle event. */
  function ControlTerm(evt: string): (t: Term)
    requires ValidAtomName(evt)
    ensures WellFormed(t)
  {
    Tuple([Atom(EpcapAtom), Atom(evt)])
  }

  function PacketMessage(atoms: AtomTag, datalink: int, hdr: PktHdr, pkt: seq<byte>): seq<byte>
    requires ValidCapture(hdr, pkt) && IsUint32(datalink)
  {
    EncodeMessage(atoms, PacketTerm(datalink, hdr, pkt))
  }

  function ControlMessage(atoms: AtomTag, evt: string): seq<byte>
    requires ValidAtomName(evt)
  {
    EncodeMessage(atoms, ControlTerm(evt))
  }

  /** What a consumer extracts from a packet message. */
  datatype PacketView = PacketView(datalink: int, time: TimeTriple, len: int, data: seq<byte>)

  function AsPacket(t: Term): Option<PacketView>
  {
    match t
    case Tuple(es) =>
      if |es| == 5 && es[0] == Atom(PacketAtom) && es[1].Int? && es[3].Int? && es[4].Binary?
         && es[2].Tuple? && |es[2].elems| == 3
         && es[2].elems[0].Int? && es[2].elems[1].Int? && es[2].elems[2].Int?
      then
        var ts := es[2].elems;
        Some(PacketView(es[1].value, TimeTriple(ts[0].value, ts[1].value, ts[2].value),
                        es[3].value, es[4].data))
      else None
    case _ => None
  }

  function AsControl(t: Term): Option<string>
  {
    match t
    case Tuple(es) =>
      if |es| == 2 && es[0] == Atom(EpcapAtom) && es[1].Atom? then Some(es[1].name) else None
    case _ => None
  }

  /**
   A packet message decodes to a five-tuple whose fields are, in order, the
   datalink type, the timestamp triple, the wire length and exactly the
   first `caplen` bytes of the packet; it is not mistaken for a control message.
   */
  lemma PacketRoundTrip(atoms: AtomTag, datalink: int, hdr: PktHdr, pkt: seq<byte>)
    requires ValidCapture(hdr, pkt) && IsUint32(datalink)
    ensures var m := DecodeMessage(PacketMessage(atoms, datalink, hdr, pkt));
      && m.Some?
      && AsPacket(m.value) == Some(PacketView(datalink, Triple(hdr.tvSec, hdr.tvUsec), hdr.len, pkt[..hdr.caplen]))
      && AsControl(m.value) == None
      && |AsPacket(m.value).value.data| == hdr.caplen
  {
    MessageRoundTrip(atoms, PacketTerm(datalink, hdr, pkt));
  }

  /** A control message decodes to `{epcap, evt}` and is not mistaken for a packet. */
  lemma ControlRoundTrip(atoms: AtomTag, evt: string)
    requires ValidAtomName(evt)
    ensures var m := DecodeMessage(ControlMessage(atoms, evt));
      m.Some? && AsControl(m.value) == Some(evt) && AsPacket(m.value) == None
  {
    MessageRoundTrip(atoms, ControlTerm(evt));
  }

  lemma EncodeSeqCons(atoms: AtomTag, t: Term, ts: seq<Term>)
    requires WellFormed(t) && forall i :: 0 <= i < |ts| ==> WellFormed(ts[i])
    ensures EncodeSeq(atoms, [t] + ts) == Encode(atoms, t) + EncodeSeq(atoms, ts)
  {
    assert ([t] + ts)[1..] == ts;
  }

  lemma EncodeSeq3(atoms: AtomTag, a: Term, b: Term, c: Term)
    requires WellFormed(a) && WellFormed(b) && WellFormed(c)
    ensures EncodeSeq(atoms, [a, b, c]) == Encode(atoms, a) + (Encode(atoms, b) + (Encode(atoms, c) + []))
  {
    EncodeSeqCons(atoms, c, []);
    assert [c] + [] == [c];
    EncodeSeqCons(atoms, b, [c]);
    assert [b] + [c] == [b, c];
    EncodeSeqCons(atoms, a, [b, c]);
    assert [a] + [b, c] == [a, b, c];
  }

  lemma EncodeSeq5(atoms: AtomTag, a: Term, b: Term, c: Term, d: Term, e: Term)
    requires WellFormed(a) && WellFormed(b) && WellFormed(c) && WellFormed(d) && WellFormed(e)
    ensures EncodeSeq(atoms, [a, b, c, d, e]) ==
      Encode(atoms, a) + (Encode(atoms, b) + EncodeSeq(atoms, [c, d, e]))
  {
    assert EncodeSeq(atoms, [b, c, d, e]) == Encode(atoms, b) + EncodeSeq(atoms, [c, d, e]) by {
      EncodeSeqCons(atoms, b, [c, d, e]);
      assert [b] + [c, d, e] == [b, c, d, e];
    }
    assert EncodeSeq(atoms, [a, b, c, d, e]) == Encode(atoms, a) + EncodeSeq(atoms, [b, c, d, e]) by {
      EncodeSeqCons(atoms, a, [b, c, d, e]);
      assert [a] + [b, c, d, e] == [a, b, c, d, e];
    }
  }

  lemma Flatten3(h: seq<byte>, a: seq<byte>, b: seq<byte>, c: seq<byte>)
    ensures h + (a + (b + (c + []))) == h + a + b + c
  {
  }

  lemma Flatten5(v: seq<byte>, h: seq<byte>, a: seq<byte>, b: seq<byte>, t: seq<byte>, d: seq<byte>, e: seq<byte>)
    ensures v + (h + (a + (b + (t + (d + (e + [])))))) == v + h + a + b + t + d + e
  {
  }

  /** The bytes of the time triple: a 3-tuple header and three integers. */
  lemma TimeLayout(atoms: AtomTag, t: TimeTriple)
    requires IsInt64(t.megaSec) && IsInt64(t.sec) && IsInt64(t.microSec)
    ensures Encode(atoms, TimeTerm(t)) ==
      EncodeTupleHeader(3) + EncodeLong(t.megaSec) + EncodeLong(t.sec) + EncodeLong(t.microSec)
  {
    EncodeSeq3(atoms, Int(t.megaSec), Int(t.sec), Int(t.microSec));
    Flatten3(EncodeTupleHeader(3), EncodeLong(t.megaSec), EncodeLong(t.sec), EncodeLong(t.microSec));
  }

  /** The bytes of the five fields of a packet message, one after the other. */
  lemma PacketFieldsLayout(atoms: AtomTag, datalink: int, hdr: PktHdr, pkt: seq<byte>)
    requires ValidCapture(hdr, pkt) && IsUint32(datalink)
    ensures var time := TimeTerm(Triple(hdr.tvSec, hdr.tvUsec));
      var data := pkt[..hdr.caplen];
      WellFormed(time) &&
      EncodeSeq(atoms, [Atom(PacketAtom), Int(datalink), time, Int(hdr.len), Binary(data)]) ==
        EncodeAtom(atoms, PacketAtom) + (EncodeLong(datalink) + (Encode(atoms, time) + (EncodeLong(hdr.len) + (EncodeBinary(data) + []))))
  {
    var time := TimeTerm(Triple(hdr.tvSec, hdr.tvUsec));
    var data := pkt[..hdr.caplen];
    assert WellFormed(time);
    EncodeSeq3(atoms, time, Int(hdr.len), Binary(data));
    EncodeSeq5(atoms, Atom(PacketAtom), Int(datalink), time, Int(hdr.len), Binary(data));
  }

  /** The bytes of a packet message in the order the encoder calls append them. */
  lemma PacketMessageLayout(atoms: AtomTag, datalink: int, hdr: PktHdr, pkt: seq<byte>)
    requires ValidCapture(hdr, pkt) && IsUint32(datalink)
    ensures var t := Triple(hdr.tvSec, hdr.tvUsec);
      PacketMessage(atoms, datalink, hdr, pkt) ==
        [VersionMagic] + EncodeTupleHeader(5) + EncodeAtom(atoms, PacketAtom) + EncodeLong(datalink)
        + (EncodeTupleHeader(3) + EncodeLong(t.megaSec) + EncodeLong(t.sec) + EncodeLong(t.microSec))
        + EncodeLong(hdr.len) + EncodeBinary(pkt[..hdr.caplen])
  {
    var t := Triple(hdr.tvSec, hdr.tvUsec);
    var time := TimeTerm(t);
    var fields := [Atom(PacketAtom), Int(datalink), time, Int(hdr.len), Binary(pkt[..hdr.caplen])];
    PacketFieldsLayout(atoms, datalink, hdr, pkt);
    TimeLayout(atoms, t);
    assert PacketMessage(atoms, datalink, hdr, pkt) == [VersionMagic] + (EncodeTupleHeader(5) + EncodeSeq(atoms, fields));
    Flatten5([VersionMagic], EncodeTupleHeader(5), EncodeAtom(atoms, PacketAtom), EncodeLong(datalink),
      Encode(atoms, time), EncodeLong(hdr.len), EncodeBinary(pkt[..hdr.caplen]));
  }

  /** The bytes of a control message in the order the encoder calls append them. */
  lemma ControlMessageLayout(atoms: AtomTag, evt: string)
    requires ValidAtomName(evt)
    ensures ControlMessage(atoms, evt) ==
      [VersionMagic] + EncodeTupleHeader(2) + EncodeAtom(atoms, EpcapAtom) + EncodeAtom(atoms, evt)
  {
    var fs := [Atom(EpcapAtom), Atom(evt)];
    EncodeSeqCons(atoms, Atom(evt), []);
    assert [Atom(evt)] + [] == fs[1..];
    EncodeSeqCons(atoms, Atom(EpcapAtom), fs[1..]);
    assert [Atom(EpcapAtom)] + fs[1..] == fs;
    assert EncodeSeq(atoms, fs) == EncodeAtom(atoms, EpcapAtom) + EncodeAtom(atoms, evt);
  }

  function AtomOverhead(atoms: AtomTag): nat
  {
    match atoms
    case Latin1Atoms => 3
    case Utf8Atoms => 2
  }

  lemma AtomLength(atoms: AtomTag, name: string)
    requires ValidAtomName(name)
    ensures |EncodeAtom(atoms, name)| == AtomOverhead(atoms) + |name|
  {
  }

  /** An encoded `long` takes 2 to 11 bytes; a 32-bit value at most 7; a small one at most 5. */
  lemma LongLength(n: int)
    requires IsInt64(n)
    ensures 2 <= |EncodeLong(n)| <= 11
    ensures -(TwoTo32 as int) < n < TwoTo32 ==> |EncodeLong(n)| <= 7
    ensures EiMin <= n <= EiMax ==> |EncodeLong(n)| <= 5
  {
    LeDigitsWidth(Abs(n));
  }

  /**
   A packet message is the captured bytes plus 28 to 56 bytes of framing
   inside the term, whichever atom tag is used.
   */
  lemma PacketMessageSize(atoms: AtomTag, datalink: int, hdr: PktHdr, pkt: seq<byte>)
    requires ValidCapture(hdr, pkt) && IsUint32(datalink)
    ensures hdr.caplen + 28 <= |PacketMessage(atoms, datalink, hdr, pkt)| <= hdr.caplen + 56
  {
    var t := Triple(hdr.tvSec, hdr.tvUsec);
    PacketMessageLayout(atoms, datalink, hdr, pkt);
    AtomLength(atoms, PacketAtom);
    LongLength(datalink);
    LongLength(t.megaSec);
    LongLength(t.sec);
    LongLength(t.microSec);
    LongLength(hdr.len);
  }

  /** A control message is the event name plus a fixed 12 bytes (SMALL_ATOM_UTF8_EXT atoms) or 14 (ATOM_EXT). */
  lemma ControlMessageSize(atoms: AtomTag, evt: string)
    requires ValidAtomName(evt)
    ensures |ControlMessage(atoms, evt)| == 3 + 2 * AtomOverhead(atoms) + |EpcapAtom| + |evt|
  {
    ControlMessageLayout(atoms, evt);
    AtomLength(atoms, EpcapAtom);
    AtomLength(atoms, evt);
  }
}

/**
 The subset of the Erlang External Term Format (ERTS documentation, chapter
 "External Term Format") that the daemon's messages use: atoms, integers,
 tuples and binaries. `Encode` gives the bytes the `ei` library appends for a
 term; `Decode` is an independent reader of those tags, and the round-trip
 lemmas tie the two together.

 The `ei` library is not part of this model. Two of its choices are stated
 here explicitly: the atom tag (ATOM_EXT in older releases,
 SMALL_ATOM_UTF8_EXT in newer ones) is a parameter, and the integer layout
 follows `ei_encode_longlong`: SMALL_INTEGER_EXT for 0..255, INTEGER_EXT for
 -2^27..2^27-1, otherwise SMALL_BIG_EXT with the fewest digits.
 */
module Etf {
  import opened Bytes
  import opened Wrappers

  const VersionMagic: byte := 131
  const SmallIntegerExt: byte := 97
  const IntegerExt: byte := 98
  const AtomExt: byte := 100
  const SmallTupleExt: byte := 104
  const LargeTupleExt: byte := 105
  const BinaryExt: byte := 109
  const SmallBigExt: byte := 110
  const SmallAtomUtf8Ext: byte := 119

  /** ei's bounds for INTEGER_EXT (its ERL_MIN and ERL_MAX). */
  const EiMin: int := -0x800_0000
  const EiMax: int := 0x7ff_ffff

  /** ei's MAXATOMLEN. */
  const MaxAtomLen: nat := 255

  datatype Term = Atom(name: string) | Int(value: int) | Tuple(elems: seq<Term>) | Binary(data: seq<byte>)

  /** The tag the linked `ei` release writes for an atom. */
  datatype AtomTag = Latin1Atoms | Utf8Atoms

  /** Atom names the encoder handles: short, and ASCII, where Latin-1 and UTF-8 agree. */
  predicate ValidAtomName(name: string)
  {
    |name| <= MaxAtomLen && forall i :: 0 <= i < |name| ==> name[i] as int < 128
  }

  /** Terms whose every part fits its C type: `long` integers, 32-bit arities and sizes. */
  predicate WellFormed(t: Term)
  {
    match t
    case Atom(name) => ValidAtomName(name)
    case Int(v) => IsInt64(v)
    case Binary(data) => |data| < TwoTo32
    case Tuple(es) => |es| < TwoTo32 && forall i :: 0 <= i < |es| ==> WellFormed(es[i])
  }

  function AtomBytes(name: string): (r: seq<byte>)
    requires ValidAtomName(name)
    ensures |r| == |name|
  {
    seq(|name|, i requires 0 <= i < |name| => name[i] as int as byte)
  }

  /** The characters of an atom's text, one per byte. */
  function AtomChars(s: seq<byte>): (r: string)
    ensures |r| == |s|
  {
    seq(|s|, i requires 0 <= i < |s| => s[i] as int as char)
  }

  /** Bytes that, read as characters, are ASCII. */
  predicate IsAscii(s: seq<byte>)
  {
    forall i :: 0 <= i < |s| ==> s[i] < 128
  }

  function EncodeAtom(tag: AtomTag, name: string): (r: seq<byte>)
    requires ValidAtomName(name)
  {
    match tag
    case Latin1Atoms => [AtomExt] + BE16(|name|) + AtomBytes(name)
    case Utf8Atoms => [SmallAtomUtf8Ext, |name| as byte] + AtomBytes(name)
  }

  function Abs(n: int): nat
  {
    if n < 0 then -n else n
  }

  function EncodeLong(n: int): (r: seq<byte>)
    requires IsInt64(n)
  {
    if 0 <= n < 256 then [SmallIntegerExt, n as byte]
    else if EiMin <= n <= EiMax then [IntegerExt] + BE32(ToUnsigned32(n))
    else EncodeBig(n)
  }

  /** SMALL_BIG_EXT: digit count, sign byte, then the magnitude's digits, least significant first. */
  function EncodeBig(n: int): (r: seq<byte>)
    requires IsInt64(n)
  {
    LeDigitsWidth(Abs(n));
    var digits := LeDigits(Abs(n));
    [SmallBigExt, |digits| as byte, if n < 0 then 1 else 0] + digits
  }

  function EncodeTupleHeader(arity: nat): (r: seq<byte>)
    requires arity < TwoTo32
  {
    if arity <= 255 then [SmallTupleExt, arity as byte] else [LargeTupleExt] + BE32(arity)
  }

  function EncodeBinary(data: seq<byte>): (r: seq<byte>)
    requires |data| < TwoTo32
  {
    [BinaryExt] + BE32(|data|) + data
  }

  function Encode(tag: AtomTag, t: Term): (r: seq<byte>)
    requires WellFormed(t)
    decreases t, 1
  {
    match t
    case Atom(name) => EncodeAtom(tag, name)
    case Int(v) => EncodeLong(v)
    case Binary(data) => EncodeBinary(data)
    case Tuple(es) => EncodeTupleHeader(|es|) + EncodeSeq(tag, es)
  }

  function EncodeSeq(tag: AtomTag, ts: seq<Term>): (r: seq<byte>)
    requires forall i :: 0 <= i < |ts| ==> WellFormed(ts[i])
    decreases ts, 0
  {
    if ts == [] then [] else Encode(tag, ts[0]) + EncodeSeq(tag, ts[1..])
  }

  /** One term as `ei_x_new_with_version` followed by the term's encoders leave it. */
  function EncodeMessage(tag: AtomTag, t: Term): (r: seq<byte>)
    requires WellFormed(t)
  {
    [VersionMagic] + Encode(tag, t)
  }

  /** `rest` is what remains of `s` after some prefix of it was read. */
  predicate IsSuffix(rest: seq<byte>, s: seq<byte>)
  {
    |rest| <= |s| && rest == s[|s| - |rest|..]
  }

  /** The body of an integer tagged `tag`, or None if the tag is not an integer tag. */
  function DecodeInteger(tag: byte, b: seq<byte>): (r: Option<(Term, seq<byte>)>)
    ensures r.Some? ==> IsSuffix(r.value.1, b)
  {
    if tag == SmallIntegerExt then
      if |b| < 1 then None else Some((Int(b[0] as int), b[1..]))
    else if tag == IntegerExt then
      if |b| < 4 then None else Some((Int(ToSigned32(Uint32(b))), b[4..]))
    else if tag == SmallBigExt then
      if |b| < 2 || |b| < 2 + b[0] as int then None
      else
        var mag: int := LeValue(b[2..2 + b[0] as int]);
        Some((Int(if b[1] == 0 then mag else -mag), b[2 + b[0] as int..]))
    else None
  }

  /** The body of an atom or binary tagged `tag`, or None if the tag is neither. */
  function DecodeText(tag: byte, b: seq<byte>): (r: Option<(Term, seq<byte>)>)
    ensures r.Some? ==> IsSuffix(r.value.1, b)
  {
    if tag == AtomExt then
      if |b| < 2 || |b| < 2 + Uint16(b) then None
      else Some((Atom(AtomChars(b[2..2 + Uint16(b)])), b[2 + Uint16(b)..]))
    else if tag == SmallAtomUtf8Ext then
      if |b| < 1 || |b| < 1 + b[0] as int || !IsAscii(b[1..1 + b[0] as int]) then None
      else Some((Atom(AtomChars(b[1..1 + b[0] as int])), b[1 + b[0] as int..]))
    else if tag == BinaryExt then
      if |b| < 4 || |b| < 4 + Uint32(b) then None
      else Some((Binary(b[4..4 + Uint32(b)]), b[4 + Uint32(b)..]))
    else None
  }

  /** Reads one term off the front of `s` and returns it with the bytes that follow it. */
  function Decode(s: seq<byte>): (r: Option<(Term, seq<byte>)>)
    decreases |s|, 0
    ensures r.Some? ==> |r.value.1| < |s| && IsSuffix(r.value.1, s)
  {
    if |s| == 0 then None
    else
      var tag, b := s[0], s[1..];
      if tag == SmallTupleExt || tag == LargeTupleExt then
        var (arity, hdr) := if tag == SmallTupleExt then (if |b| < 1 then (0, 0) else (b[0] as nat, 1))
                            else (if |b| < 4 then (0, 0) else (Uint32(b), 4));
        if hdr == 0 then None
        else
          match DecodeSeq(b[hdr..], arity)
          case None => None
          case Some((es, rest)) => Some((Tuple(es), rest))
      else if tag == SmallIntegerExt || tag == IntegerExt || tag == SmallBigExt then DecodeInteger(tag, b)
      else DecodeText(tag, b)
  }

  /** Reads `n` consecutive terms, as the elements of a tuple. */
  function DecodeSeq(s: seq<byte>, n: nat): (r: Option<(seq<Term>, seq<byte>)>)
    decreases |s|, 1
    ensures r.Some? ==> |r.value.0| == n && IsSuffix(r.value.1, s)
  {
    if n == 0 then Some(([], s))
    else
      match Decode(s)
      case None => None
      case Some((t, rest)) =>
        match DecodeSeq(rest, n - 1)
        case None => None
        case Some((ts, rest')) => Some(([t] + ts, rest'))
  }

  /** A whole message: the version byte, one term, nothing after it. */
  function DecodeMessage(s: seq<byte>): Option<Term>
  {
    if |s| == 0 || s[0] != VersionMagic then None
    else
      match Decode(s[1..])
      case Some((t, rest)) => if rest == [] then Some(t) else None
      case None => None
  }

  // Round trip: the reader recovers every well-formed term the encoder writes,
  // and leaves whatever followed it untouched.

  /** How `Decode` dispatches on the tag byte. */
  lemma DecodeDispatch(s: seq<byte>)
    requires |s| > 0 && s[0] != SmallTupleExt && s[0] != LargeTupleExt
    ensures s[0] == SmallIntegerExt || s[0] == IntegerExt || s[0] == SmallBigExt ==>
      Decode(s) == DecodeInteger(s[0], s[1..])
    ensures s[0] != SmallIntegerExt && s[0] != IntegerExt && s[0] != SmallBigExt ==>
      Decode(s) == DecodeText(s[0], s[1..])
  {
  }

  lemma DecodeSmallInteger(n: int, rest: seq<byte>)
    requires 0 <= n < 256
    ensures DecodeInteger(SmallIntegerExt, [n as byte] + rest) == Some((Int(n), rest))
  {
    assert ([n as byte] + rest)[1..] == rest;
  }

  lemma DecodeInteger32(n: int, rest: seq<byte>)
    requires IsInt32(n)
    ensures DecodeInteger(IntegerExt, BE32(ToUnsigned32(n)) + rest) == Some((Int(n), rest))
  {
    var enc := BE32(ToUnsigned32(n));
    var b := enc + rest;
    assert Uint32(b) == Uint32(enc);
    assert b[4..] == rest;
  }

  lemma DecodeBig(n: int, rest: seq<byte>)
    requires IsInt64(n)
    ensures Decode(EncodeBig(n) + rest) == Some((Int(n), rest))
  {
    LeDigitsWidth(Abs(n));
    var digits := LeDigits(Abs(n));
    var k := |digits|;
    var s := EncodeBig(n) + rest;
    DecodeDispatch(s);
    var b := [k as byte, if n < 0 then 1 else 0] + digits + rest;
    assert s[1..] == b;
    assert b[2..2 + k] == digits;
    assert b[2 + k..] == rest;
  }

  lemma DecodeEncodeLong(n: int, rest: seq<byte>)
    requires IsInt64(n)
    ensures Decode(EncodeLong(n) + rest) == Some((Int(n), rest))
  {
    var s := EncodeLong(n) + rest;
    if 0 <= n < 256 {
      DecodeDispatch(s);
      assert s[1..] == [n as byte] + rest;
      DecodeSmallInteger(n, rest);
    } else if EiMin <= n <= EiMax {
      DecodeDispatch(s);
      assert s[1..] == BE32(ToUnsigned32(n)) + rest;
      DecodeInteger32(n, rest);
    } else {
      DecodeBig(n, rest);
    }
  }

  lemma AtomCharsOfBytes(name: string)
    requires ValidAtomName(name)
    ensures AtomChars(AtomBytes(name)) == name
    ensures IsAscii(AtomBytes(name))
  {
  }

  lemma DecodeEncodeAtom(tag: AtomTag, name: string, rest: seq<byte>)
    requires ValidAtomName(name)
    ensures Decode(EncodeAtom(tag, name) + rest) == Some((Atom(name), rest))
  {
    var s := EncodeAtom(tag, name) + rest;
    DecodeDispatch(s);
    var b := s[1..];
    var text := AtomBytes(name);
    AtomCharsOfBytes(name);
    match tag
    case Latin1Atoms =>
      assert b == BE16(|name|) + text + rest;
      assert Uint16(b) == |name|;
      assert b[2..2 + |name|] == text;
      assert b[2 + |name|..] == rest;
    case Utf8Atoms =>
      assert b == [|name| as byte] + text + rest;
      assert b[1..1 + |name|] == text;
      assert b[1 + |name|..] == rest;
  }

  lemma DecodeEncodeBinary(data: seq<byte>, rest: seq<byte>)
    requires |data| < TwoTo32
    ensures Decode(EncodeBinary(data) + rest) == Some((Binary(data), rest))
  {
    DecodeDispatch(EncodeBinary(data) + rest);
    var b := (EncodeBinary(data) + rest)[1..];
    assert b == BE32(|data|) + data + rest;
    assert Uint32(b) == Uint32(BE32(|data|));
    assert b[4..4 + |data|] == data;
    assert b[4 + |data|..] == rest;
  }

  /** A tuple header is followed by exactly `arity` elements. */
  lemma DecodeTupleHeader(arity: nat, body: seq<byte>)
    requires arity < TwoTo32
    ensures Decode(EncodeTupleHeader(arity) + body) ==
      match DecodeSeq(body, arity)
      case None => None
      case Some((es, rest)) => Some((Tuple(es), rest))
  {
    var b := (EncodeTupleHeader(arity) + body)[1..];
    if arity <= 255 {
      assert b == [arity as byte] + body;
      assert b[1..] == body;
    } else {
      assert b == BE32(arity) + body;
      assert Uint32(b) == Uint32(BE32(arity));
      assert b[4..] == body;
    }
  }

  lemma {:induction false} DecodeEncode(tag: AtomTag, t: Term, rest: seq<byte>)
    requires WellFormed(t)
    ensures Decode(Encode(tag, t) + rest) == Some((t, rest))
    decreases t, 1
  {
    match t
    case Atom(name) => DecodeEncodeAtom(tag, name, rest);
    case Int(v) => DecodeEncodeLong(v, rest);
    case Binary(data) => DecodeEncodeBinary(data, rest);
    case Tuple(es) =>
      var body := EncodeSeq(tag, es) + rest;
      assert Encode(tag, t) + rest == EncodeTupleHeader(|es|) + body;
      assert Decode(EncodeTupleHeader(|es|) + body) == Some((t, rest)) by {
        DecodeEncodeSeq(tag, es, rest);
        DecodeTupleHeader(|es|, body);
      }
  }

  lemma DecodeSeqStep(s: seq<byte>, n: nat, t: Term, mid: seq<byte>, ts: seq<Term>, rest: seq<byte>)
    requires n > 0 && Decode(s) == Some((t, mid)) && DecodeSeq(mid, n - 1) == Some((ts, rest))
    ensures DecodeSeq(s, n) == Some(([t] + ts, rest))
  {
  }

  lemma {:induction false} DecodeEncodeSeq(tag: AtomTag, ts: seq<Term>, rest: seq<byte>)
    requires forall i :: 0 <= i < |ts| ==> WellFormed(ts[i])
    ensures DecodeSeq(EncodeSeq(tag, ts) + rest, |ts|) == Some((ts, rest))
    decreases ts, 0
  {
    if ts != [] {
      var tail := EncodeSeq(tag, ts[1..]) + rest;
      var s := Encode(tag, ts[0]) + tail;
      assert EncodeSeq(tag, ts) + rest == s;
      assert DecodeSeq(s, |ts|) == Some((ts, rest)) by {
        DecodeEncode(tag, ts[0], tail);
        DecodeEncodeSeq(tag, ts[1..], rest);
        DecodeSeqStep(s, |ts|, ts[0], tail, ts[1..], rest);
        assert [ts[0]] + ts[1..] == ts;
      }
    }
  }

  /** A message written with either atom tag reads back as the term it encodes. */
  lemma MessageRoundTrip(tag: AtomTag, t: Term)
    requires WellFormed(t)
    ensures DecodeMessage(EncodeMessage(tag, t)) == Some(t)
  {
    DecodeEncode(tag, t, []);
    assert EncodeMessage(tag, t)[1..] == Encode(tag, t) + [];
  }
}

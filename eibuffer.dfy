/**
 The `ei_x_buff` that `epcap_response` and `epcap_ctrl` build a message in
 (c_src/epcap.c lines 296-301 and 309-331): a growable byte buffer whose
 `index` is the number of bytes in use, each `ei_x_encode_*` call appending
 one term's tag and body at `index`. Reallocation is not modelled: the
 buffer is a sequence that grows as needed, so no encoder fails.
 */
module EiBuffer {
  import opened Bytes
  import Etf

  class XBuff {
    /** The allocated storage, `buff` in ei. */
    var buff: seq<byte>
    /** The number of bytes in use, `index` in ei. */
    var index: nat
    /** The atom tag of the linked ei release. */
    const atoms: Etf.AtomTag

    ghost predicate Valid()
      reads this
    {
      index <= |buff|
    }

    /** The message so far: the bytes a send of this buffer writes. */
    function Contents(): (s: seq<byte>)
      reads this
      requires Valid()
      ensures |s| == index
    {
      buff[..index]
    }

    /** `ei_x_new_with_version`: a fresh buffer holding only the version byte. */
    constructor NewWithVersion(atoms: Etf.AtomTag)
      ensures Valid() && this.atoms == atoms
      ensures Contents() == [Etf.VersionMagic]
    {
      this.atoms := atoms;
      buff := [Etf.VersionMagic];
      index := 1;
    }

    /** Appends `bytes` at `index`. */
    method Append(bytes: seq<byte>)
      requires Valid()
      modifies this
      ensures Valid() && Contents() == old(Contents()) + bytes
    {
      buff := buff[..index] + bytes;
      index := index + |bytes|;
    }

    /** `ei_x_encode_tuple_header`. */
    method EncodeTupleHeader(arity: nat)
      requires Valid() && arity < TwoTo32
      modifies this
      ensures Valid() && Contents() == old(Contents()) + Etf.EncodeTupleHeader(arity)
    {
      Append(Etf.EncodeTupleHeader(arity));
    }

    /** `ei_x_encode_atom`. */
    method EncodeAtom(name: string)
      requires Valid() && Etf.ValidAtomName(name)
      modifies this
      ensures Valid() && Contents() == old(Contents()) + Etf.EncodeAtom(atoms, name)
    {
      Append(Etf.EncodeAtom(atoms, name));
    }

    /** `ei_x_encode_long`. */
    method EncodeLong(n: int)
      requires Valid() && IsInt64(n)
      modifies this
      ensures Valid() && Contents() == old(Contents()) + Etf.EncodeLong(n)
    {
      Append(Etf.EncodeLong(n));
    }

    /** `ei_x_encode_binary`: the bytes are copied unchanged. */
    method EncodeBinary(data: seq<byte>)
      requires Valid() && |data| < TwoTo32
      modifies this
      ensures Valid() && Contents() == old(Contents()) + Etf.EncodeBinary(data)
    {
      Append(Etf.EncodeBinary(data));
    }
  }
}

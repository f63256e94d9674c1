/** Little-endian base-128 numbers with padding, against the decoders of section 7.6 of DWARF Version 5. */
module Leb128 {
  import opened Arithmetic

  type Bytes = seq<nat>

  /** What a decoder finds at the start of some bytes: a number and how many bytes it takes. */
  datatype Result = Incomplete | Decoded(value: int, size: nat)

  // ---- Decoding ----

  /** The unsigned number at the start of bs, with the number of bytes it takes. */
  function DecodeU(bs: Bytes): (r: Result)
    ensures r.Decoded? ==> r.value >= 0
  {
    if bs == [] then Incomplete
    else if bs[0] < 0x80 then Decoded(bs[0], 1)
    else
      match DecodeU(bs[1..])
      case Incomplete => Incomplete
      case Decoded(v, n) => Decoded(bs[0] % 0x80 + 0x80 * v, n + 1)
  }

  /** The signed number at the start of bs: bit 6 of its last byte is the sign. */
  function DecodeS(bs: Bytes): Result {
    if bs == [] then Incomplete
    else if bs[0] < 0x80 then Decoded(SignExtend(bs[0]), 1)
    else
      match DecodeS(bs[1..])
      case Incomplete => Incomplete
      case Decoded(v, n) => Decoded(bs[0] % 0x80 + 0x80 * v, n + 1)
  }

  /** A 7-bit number in two's complement. */
  function SignExtend(b: nat): int {
    if b < 0x40 then b else b - 0x80
  }

  // ---- Shortest encodings ----

  function LengthU(value: nat): (n: nat)
    ensures n > 0
  {
    if value < 0x80 then 1 else 1 + LengthU(value / 0x80)
  }

  function LengthS(value: int): (n: nat)
    ensures n > 0
    decreases if value < 0 then -value else value
  {
    if -0x40 <= value < 0x40 then 1 else 1 + LengthS(value / 0x80)
  }

  /** No encoding of a number is shorter. */
  lemma {:induction false} ShortestU(bs: Bytes)
    ensures DecodeU(bs).Decoded? ==> LengthU(DecodeU(bs).value) <= DecodeU(bs).size
    decreases |bs|
  {
    if bs != [] && bs[0] >= 0x80 {
      ShortestU(bs[1..]);
    }
  }

  lemma {:induction false} ShortestS(bs: Bytes)
    ensures DecodeS(bs).Decoded? ==> LengthS(DecodeS(bs).value) <= DecodeS(bs).size
    decreases |bs|
  {
    if bs != [] && bs[0] >= 0x80 {
      ShortestS(bs[1..]);
    }
  }

  // ---- Encoding ----

  /** The bytes p in front of an encoding of value make it one of whole. */
  ghost predicate LeadsU(p: Bytes, whole: nat, value: nat) {
    forall rest: Bytes, n: nat :: DecodeU(rest) == Decoded(value, n) ==> DecodeU(p + rest) == Decoded(whole, |p| + n)
  }

  ghost predicate LeadsS(p: Bytes, whole: int, value: int) {
    forall rest: Bytes, n: nat :: DecodeS(rest) == Decoded(value, n) ==> DecodeS(p + rest) == Decoded(whole, |p| + n)
  }

  lemma LeadsNothing(value: int)
    ensures LeadsS([], value, value) && (value >= 0 ==> LeadsU([], value, value))
  {
    assert forall rest: Bytes :: [] + rest == rest;
  }

  lemma LeadsByteU(p: Bytes, whole: nat, value: nat)
    requires LeadsU(p, whole, value)
    ensures LeadsU(p + [value % 0x80 + 0x80], whole, value / 0x80)
  {
    var b := value % 0x80 + 0x80;
    forall rest: Bytes, n: nat | DecodeU(rest) == Decoded(value / 0x80, n)
      ensures DecodeU(p + [b] + rest) == Decoded(whole, |p + [b]| + n)
    {
      assert ([b] + rest)[1..] == rest;
      assert DecodeU([b] + rest) == Decoded(value, n + 1);
      assert p + [b] + rest == p + ([b] + rest);
    }
  }

  lemma LeadsByteS(p: Bytes, whole: int, value: int)
    requires LeadsS(p, whole, value)
    ensures LeadsS(p + [value % 0x80 + 0x80], whole, value / 0x80)
  {
    var b := value % 0x80 + 0x80;
    forall rest: Bytes, n: nat | DecodeS(rest) == Decoded(value / 0x80, n)
      ensures DecodeS(p + [b] + rest) == Decoded(whole, |p + [b]| + n)
    {
      assert ([b] + rest)[1..] == rest;
      assert DecodeS([b] + rest) == Decoded(value, n + 1);
      assert p + [b] + rest == p + ([b] + rest);
    }
  }

  /** p followed by q, and by anything else, decodes to whole and takes just p and q. */
  ghost predicate DecodesU(e: Bytes, whole: nat) {
    forall tail :: DecodeU(e + tail) == Decoded(whole, |e|)
  }

  ghost predicate DecodesS(e: Bytes, whole: int) {
    forall tail :: DecodeS(e + tail) == Decoded(whole, |e|)
  }

  lemma FinishU(p: Bytes, whole: nat, value: nat, q: Bytes)
    requires LeadsU(p, whole, value) && DecodesU(q, value)
    ensures DecodesU(p + q, whole)
  {
    forall tail
      ensures DecodeU(p + q + tail) == Decoded(whole, |p + q|)
    {
      assert DecodeU(q + tail) == Decoded(value, |q|);
      assert p + q + tail == p + (q + tail);
    }
  }

  lemma FinishS(p: Bytes, whole: int, value: int, q: Bytes)
    requires LeadsS(p, whole, value) && DecodesS(q, value)
    ensures DecodesS(p + q, whole)
  {
    forall tail
      ensures DecodeS(p + q + tail) == Decoded(whole, |p + q|)
    {
      assert DecodeS(q + tail) == Decoded(value, |q|);
      assert p + q + tail == p + (q + tail);
    }
  }

  lemma LastByteU(b: nat)
    requires b < 0x80
    ensures DecodesU([b], b)
  {
    forall tail
      ensures DecodeU([b] + tail) == Decoded(b, |[b]|)
    {
    }
  }

  lemma LastByteS(b: nat)
    requires b < 0x80
    ensures DecodesS([b], SignExtend(b))
  {
    forall tail
      ensures DecodeS([b] + tail) == Decoded(SignExtend(b), |[b]|)
    {
    }
  }

  /** The output stream. */
  class ByteVector {
    var bytes: Bytes

    constructor ()
      ensures bytes == []
    {
      bytes := [];
    }

    method Append(b: nat)
      requires b < 0x100
      modifies this
      ensures bytes == old(bytes) + [b]
    {
      bytes := bytes + [b];
    }
  }

  /** Appends value, with at least padTo bytes. */
  method EncodeULEB128(value: nat, os: ByteVector, padTo: nat) returns (count: nat)
    modifies os
    ensures count == Max(padTo, LengthU(value))
    ensures old(os.bytes) <= os.bytes && |os.bytes| == |old(os.bytes)| + count
    ensures DecodesU(os.bytes[|old(os.bytes)|..], value)
  {
    ghost var before: Bytes, p: Bytes := os.bytes, [];
    LeadsNothing(value);
    var v := value;
    count := 0;
    while true
      invariant os.bytes == before + p && |p| == count && LeadsU(p, value, v)
      invariant count + LengthU(v) == LengthU(value)
      decreases v
    {
      var byte := v % 0x80;
      ghost var v0 := v;
      v := v / 0x80;
      count := count + 1;
      if v != 0 || count < padTo {
        byte := byte + 0x80;
        LeadsByteU(p, value, v0);
      } else {
        LastByteU(byte);
        FinishU(p, value, v0, [byte]);
      }
      os.Append(byte);
      p := p + [byte];
      if v == 0 {
        break;
      }
    }
    assert os.bytes[|before|..] == p;
    if count < padTo {
      count := PadU(os, count, padTo, value, p, before);
    }
  }

  /** Fills up with zero groups. */
  method PadU(os: ByteVector, from: nat, padTo: nat, ghost whole: nat, ghost lead: Bytes, ghost before: Bytes)
    returns (count: nat)
    requires from < padTo && |lead| == from && LeadsU(lead, whole, 0) && os.bytes == before + lead
    modifies os
    ensures count == padTo && |os.bytes| == |before| + padTo
    ensures before <= os.bytes && DecodesU(os.bytes[|before|..], whole)
  {
    count := from;
    ghost var p: Bytes := lead;
    while count < padTo - 1
      invariant from <= count <= padTo - 1
      invariant os.bytes == before + p && |p| == count && LeadsU(p, whole, 0)
    {
      os.Append(0x80);
      LeadsByteU(p, whole, 0);
      p := p + [0x80];
      count := count + 1;
    }
    os.Append(0);
    LastByteU(0);
    FinishU(p, whole, 0, [0]);
    assert os.bytes[|before|..] == p + [0];
    count := count + 1;
  }

  /** Appends the signed number value, with at least padTo bytes. */
  method EncodeSLEB128(value: int, os: ByteVector, padTo: nat) returns (count: nat)
    modifies os
    ensures count == Max(padTo, LengthS(value))
    ensures old(os.bytes) <= os.bytes && |os.bytes| == |old(os.bytes)| + count
    ensures DecodesS(os.bytes[|old(os.bytes)|..], value)
  {
    ghost var before: Bytes, p: Bytes := os.bytes, [];
    LeadsNothing(value);
    var v := value;
    var more := true;
    count := 0;
    while more
      invariant os.bytes == before + p && |p| == count
      invariant more ==> LeadsS(p, value, v) && count + LengthS(v) == LengthS(value)
      invariant !more ==> count == LengthS(value) && (v == 0 || v == -1)
      invariant !more && count < padTo ==> LeadsS(p, value, v)
      invariant !more && count >= padTo ==> DecodesS(p, value)
      decreases more, if v < 0 then -v else v
    {
      var byte := v % 0x80;
      ghost var v0 := v;
      v := v / 0x80;
      more := !((v == 0 && byte < 0x40) || (v == -1 && byte >= 0x40));
      count := count + 1;
      if more || count < padTo {
        byte := byte + 0x80;
        LeadsByteS(p, value, v0);
      } else {
        LastByteS(byte);
        FinishS(p, value, v0, [byte]);
      }
      os.Append(byte);
      p := p + [byte];
    }
    assert os.bytes[|before|..] == p;
    if count < padTo {
      count := PadS(os, v, count, padTo, value, p, before);
    }
  }

  /** Fills up with groups of the sign. */
  method PadS(os: ByteVector, sign: int, from: nat, padTo: nat, ghost whole: int, ghost lead: Bytes,
              ghost before: Bytes)
    returns (count: nat)
    requires from < padTo && |lead| == from && (sign == 0 || sign == -1)
    requires LeadsS(lead, whole, sign) && os.bytes == before + lead
    modifies os
    ensures count == padTo && |os.bytes| == |before| + padTo
    ensures before <= os.bytes && DecodesS(os.bytes[|before|..], whole)
  {
    var padValue := if sign < 0 then 0x7f else 0x00;
    count := from;
    ghost var p: Bytes := lead;
    while count < padTo - 1
      invariant from <= count <= padTo - 1
      invariant os.bytes == before + p && |p| == count && LeadsS(p, whole, sign)
    {
      os.Append(padValue + 0x80);
      LeadsByteS(p, whole, sign);
      p := p + [padValue + 0x80];
      count := count + 1;
    }
    os.Append(padValue);
    LastByteS(padValue);
    FinishS(p, whole, sign, [padValue]);
    assert os.bytes[|before|..] == p + [padValue];
    count := count + 1;
  }
}

/**
  * The encodings of section 3 of RFC 3629 (UTF-8) and section 2 of RFC 2781 (UTF-16), stated on code points.
  * The codec of `Utf` is proved against these definitions.
  */
module Unicode {
  type Byte = b: int | 0 <= b < 0x100
  type Unit = u: int | 0 <= u < 0x10000
  type Code = c: int | 0 <= c <= 0x10FFFF

  datatype Option<+T> = None | Some(value: T)

  predicate IsSurrogate(c: Code) { 0xD800 <= c <= 0xDFFF }

  predicate NoSurrogates(cs: seq<Code>) { forall i :: 0 <= i < |cs| ==> !IsSurrogate(cs[i]) }

  /** A trailing byte 10xxxxxx carrying the low six bits of `v`. */
  function Trail(v: nat): (b: Byte) { 0x80 + v % 64 }

  /** The shortest form of one code point. */
  function Utf8(c: Code): (bs: seq<Byte>)
    ensures 1 <= |bs| <= 4
  {
    if c < 0x80 then [c]
    else if c < 0x800 then [0xC0 + c / 64, Trail(c)]
    else if c < 0x10000 then [0xE0 + c / 64 / 64, Trail(c / 64), Trail(c)]
    else [0xF0 + c / 64 / 64 / 64, Trail(c / 64 / 64), Trail(c / 64), Trail(c)]
  }

  lemma Utf8Forms(c: Code)
    ensures c < 0x80 ==> Utf8(c) == [c]
    ensures 0x80 <= c < 0x800 ==> Utf8(c) == [0xC0 + c / 64, 0x80 + c % 64]
    ensures 0x800 <= c < 0x10000 ==> Utf8(c) == [0xE0 + c / 64 / 64, 0x80 + c / 64 % 64, 0x80 + c % 64]
    ensures 0x10000 <= c ==>
              Utf8(c) == [0xF0 + c / 64 / 64 / 64, 0x80 + c / 64 / 64 % 64, 0x80 + c / 64 % 64, 0x80 + c % 64]
  {
  }

  function Utf16(c: Code): (us: seq<Unit>)
    ensures 1 <= |us| <= 2
  {
    if c < 0x10000 then [c] else [0xD800 + (c - 0x10000) / 0x400, 0xDC00 + (c - 0x10000) % 0x400]
  }

  function Utf8Text(cs: seq<Code>): (bs: seq<Byte>) {
    if cs == [] then [] else Utf8(cs[0]) + Utf8Text(cs[1..])
  }

  function Utf16Text(cs: seq<Code>): (us: seq<Unit>) {
    if cs == [] then [] else Utf16(cs[0]) + Utf16Text(cs[1..])
  }

  lemma {:induction false} Utf8TextConcat(cs: seq<Code>, ds: seq<Code>)
    ensures Utf8Text(cs + ds) == Utf8Text(cs) + Utf8Text(ds)
  {
    if cs == [] {
      assert cs + ds == ds;
    } else {
      assert (cs + ds)[1..] == cs[1..] + ds;
      Utf8TextConcat(cs[1..], ds);
    }
  }

  lemma {:induction false} Utf16TextConcat(cs: seq<Code>, ds: seq<Code>)
    ensures Utf16Text(cs + ds) == Utf16Text(cs) + Utf16Text(ds)
  {
    if cs == [] {
      assert cs + ds == ds;
    } else {
      assert (cs + ds)[1..] == cs[1..] + ds;
      Utf16TextConcat(cs[1..], ds);
    }
  }
}

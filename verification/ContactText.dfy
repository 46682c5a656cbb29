/** How Contacts.cpp stores a text attribute (escape, UTF-8, widen each byte) and reads it back. */
module ContactText {
  import opened Unicode
  import opened UtfText
  import opened Utf
  import opened UtfLaws
  import opened CString
  import Xml = XmlEntity

  type Text = seq<Unit>

  /** A `char` put into a wide string is sign-extended; a wide character put into a narrow one loses its high byte. */
  function Widen(b: Byte): (u: Unit) { if b < 0x80 then b else 0xFF00 + b }

  function Narrow(u: Unit): (b: Byte) { u % 0x100 }

  function WidenAll(bs: seq<Byte>): (us: Text) { seq(|bs|, i requires 0 <= i < |bs| => Widen(bs[i])) }

  function NarrowAll(us: Text): (bs: seq<Byte>) { seq(|us|, i requires 0 <= i < |us| => Narrow(us[i])) }

  /** A byte is widened as the signed number it stands for, in sixteen bits, and narrowing gives it back. */
  lemma WidenIsSigned(b: Byte)
    ensures var signed := if b < 0x80 then b else b - 0x100; Widen(b) == if signed < 0 then signed + 0x10000 else signed
    ensures Narrow(Widen(b)) == b
  {
  }

  /** `AnsiToUnicode` */
  method AnsiToUnicode(str: seq<Byte>) returns (res: Text)
    ensures res == WidenAll(str)
  {
    res := [];
    for i := 0 to |str|
      invariant res == WidenAll(str[..i])
    {
      res := res + [Widen(str[i])];
    }
    assert str[..|str|] == str;
  }

  /** `UnicodeToAnsi` */
  method UnicodeToAnsi(str: Text) returns (res: seq<Byte>)
    ensures res == NarrowAll(str)
  {
    res := [];
    for i := 0 to |str|
      invariant res == NarrowAll(str[..i])
    {
      res := res + [Narrow(str[i])];
    }
    assert str[..|str|] == str;
  }

  /** The stored attribute value; a NULL from the encoder becomes an empty value. */
  ghost function Saved(t: Text): (v: Text) {
    match Encode(CStr(Xml.Encode(t)))
    case None => []
    case Some(bs) => WidenAll(bs)
  }

  /** The text read back from an attribute value; a NULL from the decoder becomes an empty text. */
  ghost function Loaded(v: Text, codepage: Byte -> Unit): (t: Text) {
    var bs: seq<Byte> := CStr(NarrowAll(v));
    if |bs| == 0 then []
    else if |bs| == 1 then Xml.Decode([codepage(bs[0])])
    else match Decode(bs)
      case None => []
      case Some(us) => Xml.Decode(us)
  }

  method SaveText(t: Text) returns (v: Text)
    ensures v == Saved(t)
  {
    var bs := Utf8EncodeUcs2(Xml.Encode(t));
    v := AnsiToUnicode(if bs.Some? then bs.value else []);
  }

  /** `GetBuffer`: a copy of the bytes with a NUL behind them */
  method ToBuffer(bs: seq<Byte>) returns (buf: array<Byte>)
    ensures fresh(buf) && StringAt(buf, 0, CStr(bs))
  {
    buf := new Byte[|bs| + 1];
    for i := 0 to |bs|
      invariant buf[..i] == bs[..i]
    {
      buf[i] := bs[i];
    }
    buf[|bs|] := 0;
    assert buf[..|bs|] == bs;
    assert buf[..|CStr(bs)|] == bs[..|CStr(bs)|];
  }

  method LoadText(v: Text, codepage: Byte -> Unit, narrow: Unit -> Byte) returns (t: Text)
    ensures t == Loaded(v, codepage)
  {
    var bs := UnicodeToAnsi(v);
    var str := ToBuffer(bs);
    var ok, us := Utf8DecodeCP(str, CStr(bs), codepage, narrow);
    t := Xml.Decode(if us.Some? then us.value else []);
  }

  // ---------------------------------------------------------------- escaping against NUL and surrogates

  lemma {:induction false} CStrPrefix(p: seq<int>, x: seq<int>)
    requires 0 !in p
    ensures CStr(p + x) == p + CStr(x)
  {
    if p == [] {
      assert p + x == x;
    } else {
      assert (p + x)[1..] == p[1..] + x;
      CStrPrefix(p[1..], x);
    }
  }

  /** Escaping commutes with cutting a text at its first NUL. */
  lemma {:induction false} EscapedCStr(t: Text)
    ensures CStr(Xml.Escaped(t)) == Xml.Escaped(CStr(t))
  {
    if t != [] {
      EscapedCStr(t[1..]);
      if t[0] == 0 {
        assert Xml.Escaped(t)[0] == 0;
      } else {
        CStrPrefix(Xml.Substituted(t[0], 4), Xml.Escaped(t[1..]));
        assert CStr(t)[1..] == CStr(t[1..]);
      }
    }
  }

  lemma {:induction false} PairedAfterPlain(p: Text, x: Text)
    requires forall i :: 0 <= i < |p| ==> !IsHigh(p[i]) && !IsLow(p[i])
    ensures Paired(p + x) <==> Paired(x)
  {
    if p == [] {
      assert p + x == x;
    } else {
      assert (p + x)[1..] == p[1..] + x;
      PairedTail(p + x, 1);
      PairedAfterPlain(p[1..], x);
    }
  }

  /** Escaping neither pairs nor unpairs a surrogate. */
  lemma {:induction false} EscapedPaired(t: Text)
    ensures Paired(Xml.Escaped(t)) <==> Paired(t)
    decreases |t|
  {
    if t != [] {
      var e := Xml.Escaped(t);
      if !IsHigh(t[0]) && !IsLow(t[0]) {
        PairedAfterPlain(Xml.Substituted(t[0], 4), Xml.Escaped(t[1..]));
        PairedTail(t, 1);
        EscapedPaired(t[1..]);
      } else {
        assert e == [t[0]] + Xml.Escaped(t[1..]);
        if |t| > 1 { assert Xml.Escaped(t[1..]) == Xml.Substituted(t[1], 4) + Xml.Escaped(t[2..]); }
        if IsHigh(t[0]) && |t| > 1 && IsLow(t[1]) {
          assert e[2..] == Xml.Escaped(t[2..]);
          PairedTail(t, 2);
          PairedTail(e, 2);
          EscapedPaired(t[2..]);
        } else {
          assert IsHigh(e[0]) || IsLow(e[0]);
          assert |t| > 1 ==> IsLow(e[1]) ==> IsLow(t[1]);
        }
      }
    }
  }

  // ---------------------------------------------------------------- the round trip

  predicate AsciiTransparent(codepage: Byte -> Unit) { forall b :: 0 <= b < 0x80 ==> codepage(b) == b }

  lemma NarrowInvertsWiden(bs: seq<Byte>)
    ensures NarrowAll(WidenAll(bs)) == bs
  {
  }

  /** Reading back an encoded NUL-free text, whichever of the two decoders its length selects. */
  lemma {:induction false} LoadedEncoding(us: Text, bs: seq<Byte>, codepage: Byte -> Unit)
    requires Encode(us) == Some(bs) && 0 !in us && AsciiTransparent(codepage)
    ensures Loaded(WidenAll(bs), codepage) == Xml.Decode(us)
  {
    NarrowInvertsWiden(bs);
    var cs := Scan16(us).codes;
    Scan16Sound(us);
    UnitsAndCodes(cs);
    EncodingIsLoose(cs);
    EncodeThenDecode(us, bs);
    if |bs| <= 1 {
      if cs != [] {
        assert bs == Utf8(cs[0]) + Utf8Text(cs[1..]);
        assert cs[1..] == [];
        assert us == [cs[0]];
      }
    }
  }

  /** What comes back from the file, for every text: all of it in front of its first NUL, or nothing at all. */
  lemma {:induction false} LoadOfSave(t: Text, codepage: Byte -> Unit)
    requires AsciiTransparent(codepage)
    ensures var text: Text := CStr(t); Loaded(Saved(t), codepage) == if Paired(text) then text else []
  {
    var text: Text := CStr(t);
    Xml.EncodeIsCharacterWise(t);
    Xml.EncodeIsCharacterWise(text);
    EscapedCStr(t);
    var us := Xml.Escaped(text);
    EscapedPaired(text);
    EncoderAcceptsExactlyPaired(us);
    Xml.DecodeInvertsEncode(text);
    if Paired(text) {
      LoadedEncoding(us, Encode(us).value, codepage);
    } else {
      assert NarrowAll([]) == [];
    }
  }

  /** A text survives saving and loading exactly when it is well-formed UTF-16 without NUL. */
  lemma {:induction false} SurvivesIffWellFormed(t: Text, codepage: Byte -> Unit)
    requires AsciiTransparent(codepage)
    ensures Loaded(Saved(t), codepage) == t <==> (0 !in t && Paired(t))
  {
    LoadOfSave(t, codepage);
    assert Paired([]);
  }

  lemma {:induction false} AsciiBytes(cs: seq<Code>, c: Code)
    requires c < 0x80
    ensures c in Utf8Text(cs) <==> c in cs
  {
    if cs != [] {
      AsciiBytes(cs[1..], c);
      AsciiByte(cs[0], c);
      assert cs == [cs[0]] + cs[1..];
    }
  }

  lemma AsciiByte(d: Code, c: Code)
    requires c < 0x80
    ensures c in Utf8(d) <==> c == d
  {
    hide Utf8;
    Utf8Forms(d);
  }

  lemma {:induction false} AsciiUnits(cs: seq<Code>, c: Code)
    requires c < 0x80
    ensures c in Utf16Text(cs) <==> c in cs
  {
    if cs != [] {
      AsciiUnits(cs[1..], c);
      assert cs == [cs[0]] + cs[1..];
    }
  }

  /** The stored value can stand in an attribute: it holds no quote and no bracket, whatever the text. */
  lemma {:induction false} SavedIsSafe(t: Text, c: Unit)
    requires c == '<' as int || c == '>' as int || c == '"' as int
    ensures c !in Saved(t)
  {
    var us: Text := CStr(Xml.Encode(t));
    Xml.EncodedIsSafe(t);
    assert c !in us;
    if Encode(us).Some? {
      var cs, bs := Scan16(us).codes, Encode(us).value;
      Scan16Sound(us);
      AsciiUnits(cs, c);
      AsciiBytes(cs, c);
      assert c !in bs;
      assert forall i :: 0 <= i < |bs| ==> WidenAll(bs)[i] == Widen(bs[i]) && (Widen(bs[i]) == c ==> bs[i] == c);
    }
  }

  /** The bytes of the stored value are the UTF-8 of the escaped text, for every text that has one. */
  lemma {:induction false} SavedIsUtf8(t: Text)
    requires 0 !in t && Paired(t)
    ensures Encode(Xml.AllInAttribute(t)) == Some(NarrowAll(Saved(t)))
  {
    Xml.EncodeWritesEntities(t);
    Xml.EncodeIsCharacterWise(t);
    EscapedCStr(t);
    EscapedPaired(t);
    EncoderAcceptsExactlyPaired(Xml.Encode(t));
    NarrowInvertsWiden(Encode(Xml.Encode(t)).value);
  }
}

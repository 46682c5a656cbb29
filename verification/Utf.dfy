/**
  * The converters of utf.cpp: strict UTF-16 to UTF-8, and UTF-8 to UTF-16 by a table-driven decoder that refuses
  * overlong and out-of-range sequences but lets three-byte surrogate values through.
  */
module Utf {
  import opened Unicode
  import opened UtfText
  import opened UtfBits
  import opened CString

  const BAD: nat := 0xFFFFFFFF

  /** `decodeUtf8Char`: the first byte is already read; the cases fall through from the longest form to the shortest. */
  method DecodeUtf8Char(ch: Byte, src: seq<Byte>, str: nat) returns (res: nat, next: nat)
    requires 1 <= str <= |src| && ch == src[str - 1] && ch >= 0x80
    ensures res <= 0x10FFFF <==> First8(src[str - 1..]).Some?
    ensures res <= 0x10FFFF ==> First8(src[str - 1..]) == Some(res) && next == str - 1 + |Utf8(res)|
  {
    hide Utf8, First8, Assembled, Masked, Flip, Join, Following, MinValue;
    ghost var s := src[str - 1..];
    var len := Following(ch);
    res := Masked(ch, len);
    next := str;
    var end := str + len;
    if end > |src| {
      Broken(s, 0);
      return BAD, next;
    }
    AssembledStep(s, 0);
    if len == 3 {
      var b := Flip(src[end - 3]);
      assert src[end - 3] == s[1];
      if b >= 0x40 {
        Broken(s, 1);
        return BAD, next;
      }
      AssembledStep(s, 1);
      res := Join(res, b);
      next := next + 1;
    }
    assert len >= 2 ==> res == Assembled(s, len - 2);
    if len >= 2 {
      var b := Flip(src[end - 2]);
      assert src[end - 2] == s[len - 1];
      if b >= 0x40 {
        Broken(s, len - 1);
        return BAD, next;
      }
      AssembledStep(s, len - 1);
      res := Join(res, b);
      next := next + 1;
    }
    assert len >= 1 ==> res == Assembled(s, len - 1);
    if len >= 1 {
      var b := Flip(src[end - 1]);
      assert src[end - 1] == s[len];
      if b >= 0x40 {
        Broken(s, len);
        return BAD, next;
      }
      AssembledStep(s, len);
      res := Join(res, b);
      next := next + 1;
      Complete(s);
      if res < MinValue(len) { return BAD, next; }
      return res, next;
    }
    Broken(s, 0);
    return BAD, next;
  }

  /** `Utf8toUcs2Len` */
  method Utf8toUcs2Len(src: seq<Byte>) returns (ret: int)
    ensures ret == if Scan8(src).ok then |Utf16Text(Scan8(src).codes)| else -2
  {
    hide Utf8, First8, Scan8, Reading8, Utf16Text, Masked, Join, Flip;
    ret := 0;
    var pos := 0;
    ghost var done: seq<Code> := [];
    Reading8Ends(src, 0, []);
    while pos < |src|
      invariant pos <= |src| && Reading8(src, pos, done)
      invariant ret == |Utf16Text(done)|
      decreases |src| - pos
    {
      var ch := src[pos];
      if ch < 0x80 {
        First8Shaped(src[pos..], ch);
        Reading8Step(src, pos, done, ch);
        done := done + [ch];
        pos := pos + 1;
        ret := ret + 1;
      } else {
        var res, next := DecodeUtf8Char(ch, src, pos + 1);
        if res <= 0x10FFFF {
          Reading8Step(src, pos, done, res);
          done := done + [res];
          pos := next;
          if res > 0xFFFF { ret := ret + 1; }
          ret := ret + 1;
        } else {
          Reading8Ends(src, pos, done);
          return -2;
        }
      }
    }
    Reading8Ends(src, pos, done);
  }

  /** What a converter returns when the readable part of its source, the whole of it if `ok`, fills `n` places. */
  function Outcome(ok: bool, n: nat, room: nat, badFits: bool): (r: int) {
    if ok then if n <= room then n else -1 else if badFits then -2 else -1
  }

  /** The results a caller has to tell apart. */
  lemma Outcomes(ok: bool, n: nat, room: nat, badFits: bool)
    ensures ok && n <= room ==> Outcome(ok, n, room, badFits) == n
    ensures ok && n > room ==> Outcome(ok, n, room, badFits) == -1
    ensures !ok && badFits ==> Outcome(ok, n, room, badFits) == -2
    ensures !ok && !badFits ==> Outcome(ok, n, room, badFits) == -1
  {
  }

  /** `0xd800 | (v >> 10)` */
  function HighSurrogate(v: nat): (u: Unit)
    requires v < 0x100000
    ensures u == 0xD800 + v / 0x400
  {
    Marks(v / 0x400);
    Or(0xD800, v / 0x400)
  }

  /** `0xdc00 | (v & 0x3ff)` */
  function LowSurrogate(v: nat): (u: Unit)
    ensures u == 0xDC00 + v % 0x400
  {
    Masks(v);
    Marks(v % 0x400);
    Or(0xDC00, And(v, 0x3FF))
  }

  /** `Utf8toUcs2`; on ill-formed input the loop stops at a full buffer before it can see the bad byte. */
  method Utf8toUcs2(src: seq<Byte>, dst: array<Unit>) returns (ret: int)
    modifies dst
    ensures var text := Utf16Text(Scan8(src).codes);
      && ret == Outcome(Scan8(src).ok, |text|, dst.Length, |text| < dst.Length)
      && (ret >= 0 ==> dst[..ret] == text)
      && (forall i :: |text| <= i < dst.Length ==> dst[i] == old(dst[i]))
  {
    hide Utf8, First8, Scan8, Reading8, Utf16Text, HighSurrogate, LowSurrogate, Masked, Join, Flip;
    var pos, d := 0, 0;
    ghost var done: seq<Code> := [];
    Reading8Ends(src, 0, []);
    while d < dst.Length && pos < |src|
      invariant pos <= |src| && Reading8(src, pos, done)
      invariant d == |Utf16Text(done)| <= dst.Length
      invariant d <= |Utf16Text(Scan8(src).codes)|
      invariant dst[..d] == Utf16Text(done)
      invariant forall i :: d <= i < dst.Length ==> dst[i] == old(dst[i])
      decreases |src| - pos
    {
      var ch := src[pos];
      if ch < 0x80 {
        First8Shaped(src[pos..], ch);
        Reading8Step(src, pos, done, ch);
        done := done + [ch];
        pos := pos + 1;
        dst[d] := ch;
        d := d + 1;
      } else {
        var res, next := DecodeUtf8Char(ch, src, pos + 1);
        if res <= 0x10FFFF { Reading8Step(src, pos, done, res); }
        if res <= 0xFFFF {
          done := done + [res];
          pos := next;
          dst[d] := res;
          d := d + 1;
        } else if res <= 0x10FFFF {
          if d == dst.Length - 1 { return -1; }
          done := done + [res];
          pos := next;
          dst[d] := HighSurrogate(res - 0x10000);
          dst[d + 1] := LowSurrogate(res - 0x10000);
          d := d + 2;
        } else {
          Reading8Ends(src, pos, done);
          return -2;
        }
      }
    }
    Reading8Ends(src, pos, done);
    if pos < |src| {
      if First8(src[pos..]).Some? { Reading8Step(src, pos, done, First8(src[pos..]).value); }
      return -1;
    }
    return d;
  }

  /** `Ucs2toUtf8Len` */
  method Ucs2toUtf8Len(src: seq<Unit>) returns (ret: int)
    ensures ret == if Scan16(src).ok then |Utf8Text(Scan16(src).codes)| else -2
  {
    hide First16, Scan16, Reading16, GetSurrogateValue, Utf8Text, Utf16;
    ret := 0;
    var pos := 0;
    ghost var done: seq<Code> := [];
    Reading16Ends(src, 0, []);
    while pos < |src|
      invariant pos <= |src| && Reading16(src, pos, done)
      invariant ret == |Utf8Text(done)|
      decreases |src| - pos
    {
      First16Value(src[pos..]);
      var ch, val := src[pos], src[pos];
      if ch < 0x80 {
        ret := ret + 1;
      } else if ch < 0x800 {
        ret := ret + 2;
      } else {
        val := GetSurrogateValue(src[pos..]);
        if val == 0 {
          Reading16Ends(src, pos, done);
          return -2;
        }
        ret := ret + if val < 0x10000 then 3 else 4;
      }
      Reading16Step(src, pos, done, val);
      done := done + [val];
      pos := pos + if val < 0x10000 then 1 else 2;
    }
    Reading16Ends(src, pos, done);
  }

  /** `0x80 | (v & 0x3f)` */
  function TrailByte(v: nat): (b: Byte)
    ensures b == 0x80 + v % 64
  {
    Masks(v);
    Marks(v % 64);
    Or(0x80, And(v, 0x3F))
  }

  /** `mark | v` for the marks of a first byte */
  function LeadByte(mark: Byte, v: nat): (b: Byte)
    requires (mark == 0xC0 && v < 0x20) || (mark == 0xE0 && v < 0x10) || (mark == 0xF0 && v < 0x08)
    ensures b == mark + v
  {
    Marks(v);
    Or(mark, v)
  }

  /** The writes of one loop iteration of `Ucs2toUtf8`, back to front; nothing is written when the room is short. */
  method PutChar(val: Code, dst: array<Byte>, d: nat) returns (n: nat)
    requires d <= dst.Length
    modifies dst
    ensures n == if |Utf8(val)| <= dst.Length - d then |Utf8(val)| else 0
    ensures n > 0 ==> dst[d..d + n] == Utf8(val)
    ensures forall i :: 0 <= i < dst.Length && !(d <= i < d + n) ==> dst[i] == old(dst[i])
  {
    hide Utf8, TrailByte, LeadByte;
    Utf8Forms(val);
    if val < 0x80 {
      if d == dst.Length { return 0; }
      dst[d] := val;
      return 1;
    } else if val < 0x800 {
      if dst.Length - d < 2 { return 0; }
      dst[d + 1] := TrailByte(val);
      dst[d] := LeadByte(0xC0, val / 64);
      assert dst[d..d + 2] == [dst[d], dst[d + 1]];
      return 2;
    } else if val < 0x10000 {
      if dst.Length - d < 3 { return 0; }
      dst[d + 2] := TrailByte(val);
      dst[d + 1] := TrailByte(val / 64);
      dst[d] := LeadByte(0xE0, val / 64 / 64);
      assert dst[d..d + 3] == [dst[d], dst[d + 1], dst[d + 2]];
      return 3;
    } else {
      if dst.Length - d < 4 { return 0; }
      dst[d + 3] := TrailByte(val);
      dst[d + 2] := TrailByte(val / 64);
      dst[d + 1] := TrailByte(val / 64 / 64);
      dst[d] := LeadByte(0xF0, val / 64 / 64 / 64);
      assert dst[d..d + 4] == [dst[d], dst[d + 1], dst[d + 2], dst[d + 3]];
      return 4;
    }
  }

  /** `Ucs2toUtf8`; an unpaired surrogate is seen before the room for it is tested. */
  method Ucs2toUtf8(src: seq<Unit>, dst: array<Byte>) returns (ret: int)
    modifies dst
    ensures var text := Utf8Text(Scan16(src).codes);
      && ret == Outcome(Scan16(src).ok, |text|, dst.Length, |text| <= dst.Length)
      && (ret >= 0 ==> dst[..ret] == text)
      && (forall i :: |text| <= i < dst.Length ==> dst[i] == old(dst[i]))
  {
    hide First16, Scan16, Reading16, GetSurrogateValue, Utf8Text, Utf8, Utf16;
    var pos, d := 0, 0;
    ghost var done: seq<Code> := [];
    Reading16Ends(src, 0, []);
    while pos < |src|
      invariant pos <= |src| && Reading16(src, pos, done)
      invariant d == |Utf8Text(done)| <= dst.Length
      invariant d <= |Utf8Text(Scan16(src).codes)|
      invariant dst[..d] == Utf8Text(done)
      invariant forall i :: d <= i < dst.Length ==> dst[i] == old(dst[i])
      decreases |src| - pos
    {
      First16Value(src[pos..]);
      var val := src[pos];
      if val >= 0x800 {
        val := GetSurrogateValue(src[pos..]);
        if val == 0 {
          Reading16Ends(src, pos, done);
          return -2;
        }
      }
      Reading16Step(src, pos, done, val);
      var n := PutChar(val, dst, d);
      if n == 0 { return -1; }
      assert dst[..d + n] == dst[..d] + dst[d..d + n];
      d := d + n;
      done := done + [val];
      pos := pos + if val < 0x10000 then 1 else 2;
    }
    Reading16Ends(src, pos, done);
    return d;
  }

  // ---------------------------------------------------------------- whole strings

  ghost function Encode(us: seq<Unit>): (r: Option<seq<Byte>>) {
    if Scan16(us).ok then Some(Utf8Text(Scan16(us).codes)) else None
  }

  ghost function Decode(bs: seq<Byte>): (r: Option<seq<Unit>>) {
    if Scan8(bs).ok then Some(Utf16Text(Scan8(bs).codes)) else None
  }

  /** `Utf8EncodeUcs2`: size the buffer, then fill it; `None` is NULL. */
  method Utf8EncodeUcs2(src: seq<Unit>) returns (r: Option<seq<Byte>>)
    ensures r == Encode(CStr(src))
  {
    var text: seq<Unit> := CStr(src);
    var destlen := Ucs2toUtf8Len(text);
    if destlen < 0 { return None; }
    var result := new Byte[destlen];
    var n := Ucs2toUtf8(text, result);
    assert result[..] == result[..n];
    return Some(result[..]);
  }

  /** `Utf8DecodeUcs2` */
  method Utf8DecodeUcs2(str: seq<Byte>) returns (r: Option<seq<Unit>>)
    ensures r == Decode(CStr(str))
  {
    var text: seq<Byte> := CStr(str);
    var destlen := Utf8toUcs2Len(text);
    if destlen < 0 { return None; }
    var ucs2 := new Unit[destlen];
    var n := Utf8toUcs2(text, ucs2);
    assert ucs2[..] == ucs2[..n];
    if n >= 0 { return Some(ucs2[..]); }
    return None;
  }

  /** UTF-16 never takes more units than UTF-8 takes bytes. */
  lemma {:induction false} NoMoreUnitsThanBytes(cs: seq<Code>)
    ensures |Utf16Text(cs)| <= |Utf8Text(cs)|
  {
    if cs != [] { NoMoreUnitsThanBytes(cs[1..]); }
  }

  function Narrowed(us: seq<Unit>, narrow: Unit -> Byte): (bs: seq<Byte>) {
    seq(|us|, i requires 0 <= i < |us| => narrow(us[i]))
  }

  /** `WideCharToMultiByte` for a code page of single bytes, into a buffer that is large enough */
  method WriteNarrow(us: seq<Unit>, narrow: Unit -> Byte, str: array<Byte>)
    requires |us| < str.Length
    modifies str
    ensures str[..|us|] == Narrowed(us, narrow) && str[|us|] == 0
    ensures forall i :: |us| < i < str.Length ==> str[i] == old(str[i])
  {
    for k := 0 to |us|
      invariant forall i :: 0 <= i < k ==> str[i] == narrow(us[i])
      invariant forall i :: k <= i < str.Length ==> str[i] == old(str[i])
    {
      str[k] := narrow(us[k]);
    }
    str[|us|] := 0;
  }

  /**
    * `Utf8DecodeCP`: the wide text, and the string itself rewritten in the code page, for which there is always room.
    * Strings under two bytes are only widened. The result is false where the code returns NULL.
    */
  method Utf8DecodeCP(str: array<Byte>, ghost text: seq<Byte>, widen: Byte -> Unit, narrow: Unit -> Byte)
      returns (ok: bool, ucs2: Option<seq<Unit>>)
    requires StringAt(str, 0, text)
    modifies str
    ensures |text| < 2 ==> ok && str[..] == old(str[..]) && ucs2 == Some(if text == [] then [] else [widen(text[0])])
    ensures |text| >= 2 ==> ucs2 == Decode(text) && (ok <==> ucs2.Some?)
    ensures |text| >= 2 && !ok ==> str[..] == old(str[..])
    ensures |text| >= 2 && ok ==>
      var n := |ucs2.value|;
      n <= |text| && str[..n] == Narrowed(ucs2.value, narrow) && str[n] == 0 && str[n + 1..] == old(str[n + 1..])
  {
    var len := Strlen(str, 0, text);
    assert str[..len] == text;
    if len < 2 { return true, Some(if len == 0 then [] else [widen(str[0])]); }
    var destlen := Utf8toUcs2Len(str[..len]);
    if destlen < 0 { return false, None; }
    var tempBuf := new Unit[destlen];
    var n := Utf8toUcs2(str[..len], tempBuf);
    assert tempBuf[..] == tempBuf[..n];
    Scan8Sound(text);
    NoMoreUnitsThanBytes(Scan8(text).codes);
    WriteNarrow(tempBuf[..], narrow, str);
    return true, Some(tempBuf[..]);
  }

  // ---------------------------------------------------------------- is_utf8_string

  /** Leading one bits of a byte. */
  function Ones(b: Byte): (n: nat) {
    if b < 0x80 then 0 else 1 + Ones((b - 0x80) * 2)
  }

  /** `k` continuation bytes, then characters: ASCII, or a byte with n leading ones and n - 1 continuation bytes. */
  predicate Loose(s: seq<Byte>, k: nat) {
    if s == [] then k == 0
    else if k > 0 then 0x80 <= s[0] < 0xC0 && Loose(s[1..], k - 1)
    else if s[0] < 0x80 then Loose(s[1..], 0)
    else Loose(s[1..], Ones(s[0]) - 1)
  }

  predicate HasHighByte(s: seq<Byte>) { exists i :: 0 <= i < |s| && s[i] >= 0x80 }

  /** `is_utf8_string` */
  method IsUtf8String(str: seq<Byte>) returns (r: bool)
    ensures var text := CStr(str); r <==> Loose(text, 0) && HasHighByte(text)
  {
    var text: seq<Byte> := CStr(str);
    var pending, found, pos := 0, false, 0;
    assert text[0..] == text;
    while pos < |text|
      invariant pos <= |text| && pending >= 0
      invariant Loose(text, 0) == Loose(text[pos..], pending)
      invariant if pending == 0 then found <==> HasHighByte(text[..pos]) else HasHighByte(text[..pos])
    {
      assert text[pos..][1..] == text[pos + 1..];
      assert text[..pos + 1] == text[..pos] + [text[pos]];
      assert text[pos] >= 0x80 || HasHighByte(text[..pos]) ==> HasHighByte(text[..pos + 1]) by {
        if text[pos] >= 0x80 { assert text[..pos + 1][pos] >= 0x80; }
      }
      if text[pos] < 0x80 {
        if pending > 0 { return false; }
      } else {
        if pending > 0 {
          if text[pos] >= 0xC0 { return false; }
        } else {
          var ch: int := text[pos];
          while ch >= 0x80
            invariant 0 <= ch < 0x100 && pending + Ones(ch) == Ones(text[pos])
            decreases ch
          {
            pending := pending + 1;
            ch := ch % 0x80 * 2;
          }
        }
        pending := pending - 1;
        if pending == 0 { found := true; }
      }
      pos := pos + 1;
    }
    assert text[..pos] == text;
    return found && pending == 0;
  }
}

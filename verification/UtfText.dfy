/**
  * Reading code points off UTF-8 and UTF-16 text, defined as the inverse of writing them, and the tables and the
  * surrogate arithmetic of utf.cpp with the proof that they compute that inverse.
  *
  * Shifts are multiplication and division by powers of two; `And`, `Or` and `Xor` are the operators of the code.
  */
module UtfText {
  import opened Unicode
  import opened UtfBits

  // ---------------------------------------------------------------- the decoder's tables

  /** `utf8_length`: how many bytes follow a first byte above 0x7F. */
  function Following(ch: Byte): (n: nat)
    ensures n <= 3
  {
    if 0xC2 <= ch <= 0xDF then 1 else if 0xE0 <= ch <= 0xEF then 2 else if 0xF0 <= ch <= 0xF4 then 3 else 0
  }

  /** `utf8_mask` */
  function LeadMask(n: nat): (m: Byte) {
    if n == 0 then 0x7F else if n == 1 then 0x1F else if n == 2 then 0x0F else 0x07
  }

  lemma LeadMasks(ch: Byte, n: nat)
    requires n <= 3
    ensures And(ch, LeadMask(n)) <= ch
    ensures n == 0 && ch < 0x80 ==> And(ch, LeadMask(n)) == ch
    ensures n == Following(ch) >= 1 ==>
      And(ch, LeadMask(n)) == ch - (if n == 1 then 0xC0 else if n == 2 then 0xE0 else 0xF0)
  {
    hide And;
    Masks(ch);
  }

  /** `ch & utf8_mask[n]` */
  function Masked(ch: Byte, n: nat): (m: Byte)
    requires n <= 3
    ensures n == 0 && ch < 0x80 ==> m == ch
    ensures n == Following(ch) >= 1 ==> m == ch - (if n == 1 then 0xC0 else if n == 2 then 0xE0 else 0xF0)
  {
    LeadMasks(ch, n);
    And(ch, LeadMask(n))
  }

  /** `utf8_minval` */
  function MinValue(n: nat): (m: nat)
    requires n <= 3
  {
    if n == 0 then 0 else if n == 1 then 0x80 else if n == 2 then 0x800 else 0x10000
  }

  /** A byte xor 0x80: what a continuation byte carries, and 0x40 or more for any other byte. */
  function Flip(b: Byte): (v: Byte)
    ensures v == if b >= 0x80 then b - 0x80 else b + 0x80
  {
    FlipsTopBit(b);
    Xor(b, 0x80)
  }

  /** `(high << 6) | low` */
  function Join(high: nat, low: Byte): (v: nat) { Or(high * 64, low) }

  lemma JoinIsSum(high: nat, low: Byte)
    requires low < 0x40
    ensures Join(high, low) == high * 64 + low
  {
    hide Or;
    Marks(low);
  }

  /** The value assembled from the first byte and `n` continuation bytes. */
  function Assembled(s: seq<Byte>, n: nat): (v: nat)
    requires n < |s|
  {
    if n == 0 then Masked(s[0], Following(s[0])) else Join(Assembled(s, n - 1), Flip(s[n]))
  }

  lemma AssembledStep(s: seq<Byte>, n: nat)
    requires n < |s|
    ensures Assembled(s, n) == if n == 0 then Masked(s[0], Following(s[0])) else Join(Assembled(s, n - 1), Flip(s[n]))
  {
  }

  predicate Continued(s: seq<Byte>, n: nat)
    requires n < |s|
  {
    (1 <= n ==> Flip(s[1]) < 0x40) && (2 <= n ==> Flip(s[2]) < 0x40) && (3 <= n ==> Flip(s[3]) < 0x40)
  }

  /** The tests the decoder makes before it delivers `c`. */
  predicate Shaped(s: seq<Byte>, c: Code) {
    && s != []
    && var n := Following(s[0]);
    && n < |s|
    && (n == 0 ==> s[0] < 0x80)
    && Continued(s, n)
    && MinValue(n) <= c == Assembled(s, n)
  }

  lemma Digits(v: nat, high: int, low: int)
    requires 0 <= low < 64
    ensures v == high * 64 + low <==> (high == v / 64 && low == v % 64)
  {
  }

  /** The decoder's tests are exactly "these bytes start with the shortest form of c". */
  lemma {:induction false} ShapedIsEncoding(s: seq<Byte>, c: Code)
    ensures Shaped(s, c) <==> Utf8(c) <= s
  {
    hide Masked, Join, Flip;
    if s == [] || Following(s[0]) >= |s| {
    } else if Following(s[0]) == 0 {
      assert Utf8(c) <= s ==> Utf8(c)[0] == s[0];
    } else if Following(s[0]) == 1 {
      ShapedTwo(s, c);
    } else if Following(s[0]) == 2 {
      ShapedThree(s, c);
    } else {
      ShapedFour(s, c);
    }
  }

  lemma ShapedTwo(s: seq<Byte>, c: Code)
    requires s != [] && Following(s[0]) == 1 < |s|
    ensures Shaped(s, c) <==> Utf8(c) <= s
  {
    hide Masked, Join, Flip;
    if Flip(s[1]) < 0x40 {
      JoinIsSum(s[0] - 0xC0, Flip(s[1]));
      assert Assembled(s, 1) == (s[0] - 0xC0) * 64 + Flip(s[1]);
      Digits(c, s[0] - 0xC0, Flip(s[1]));
    }
    if Shaped(s, c) { assert Utf8(c) == s[..2]; }
    if Utf8(c) <= s { assert Utf8(c)[0] == s[0] && Utf8(c)[1] == s[1]; }
  }

  lemma ShapedThree(s: seq<Byte>, c: Code)
    requires s != [] && Following(s[0]) == 2 < |s|
    ensures Shaped(s, c) <==> Utf8(c) <= s
  {
    hide Masked, Join, Flip;
    if Flip(s[1]) < 0x40 && Flip(s[2]) < 0x40 {
      JoinIsSum(s[0] - 0xE0, Flip(s[1]));
      assert Assembled(s, 1) == (s[0] - 0xE0) * 64 + Flip(s[1]);
      JoinIsSum(Assembled(s, 1), Flip(s[2]));
      Digits(c, Assembled(s, 1), Flip(s[2]));
      Digits(c / 64, s[0] - 0xE0, Flip(s[1]));
    }
    if Shaped(s, c) { assert Utf8(c) == s[..3]; }
    if Utf8(c) <= s { assert Utf8(c)[0] == s[0] && Utf8(c)[1] == s[1]; }
  }

  lemma ShapedFour(s: seq<Byte>, c: Code)
    requires s != [] && Following(s[0]) == 3 < |s|
    ensures Shaped(s, c) <==> Utf8(c) <= s
  {
    hide Masked, Join, Flip;
    if Flip(s[1]) < 0x40 && Flip(s[2]) < 0x40 && Flip(s[3]) < 0x40 {
      JoinIsSum(s[0] - 0xF0, Flip(s[1]));
      assert Assembled(s, 1) == (s[0] - 0xF0) * 64 + Flip(s[1]);
      assert Assembled(s, 2) == Join(Assembled(s, 1), Flip(s[2]));
      JoinIsSum(Assembled(s, 1), Flip(s[2]));
      JoinIsSum(Assembled(s, 2), Flip(s[3]));
      Digits(c, Assembled(s, 2), Flip(s[3]));
      Digits(c / 64, Assembled(s, 1), Flip(s[2]));
      Digits(c / 64 / 64, s[0] - 0xF0, Flip(s[1]));
    }
    if Shaped(s, c) { assert Utf8(c) == s[..4]; }
    if Utf8(c) <= s { assert Utf8(c)[0] == s[0] && Utf8(c)[1] == s[1]; }
  }

  // ---------------------------------------------------------------- reading text, defined as the inverse of writing it

  /** The code point whose encoding `s` starts with, if there is one. */
  ghost function First8(s: seq<Byte>): (r: Option<Code>)
    ensures r.Some? ==> Utf8(r.value) <= s
    ensures r.None? ==> forall c :: !(Utf8(c) <= s)
  {
    if c :| Utf8(c) <= s then Some(c) else None
  }

  /** A maximal run of code points read off the front of a text; `ok` when it is the whole text. */
  datatype Scan = Scan(codes: seq<Code>, ok: bool)

  /** No encoded character is a prefix of another. */
  lemma {:induction false} Utf8PrefixFree(s: seq<Byte>, c: Code, d: Code)
    requires Utf8(c) <= s && Utf8(d) <= s
    ensures c == d
  {
    ShapedIsEncoding(s, c);
    ShapedIsEncoding(s, d);
  }

  ghost function Scan8(s: seq<Byte>): (r: Scan)
    decreases |s|
  {
    if s == [] then Scan([], true) else
    match First8(s)
    case None => Scan([], false)
    case Some(c) => var rest := Scan8(s[|Utf8(c)|..]); Scan([c] + rest.codes, rest.ok)
  }

  lemma Scan8Step(c: Code, t: seq<Byte>)
    ensures First8(Utf8(c) + t) == Some(c)
    ensures Scan8(Utf8(c) + t) == Scan([c] + Scan8(t).codes, Scan8(t).ok)
  {
    var s := Utf8(c) + t;
    assert Utf8(c) <= s;
    Utf8PrefixFree(s, First8(s).value, c);
    assert s[|Utf8(c)|..] == t;
  }

  lemma {:induction false} Scan8Complete(cs: seq<Code>)
    ensures Scan8(Utf8Text(cs)) == Scan(cs, true)
  {
    if cs != [] {
      Scan8Step(cs[0], Utf8Text(cs[1..]));
      Scan8Complete(cs[1..]);
    }
  }

  lemma {:induction false} Scan8Sound(s: seq<Byte>)
    ensures Utf8Text(Scan8(s).codes) <= s
    ensures Scan8(s).ok ==> Utf8Text(Scan8(s).codes) == s
    decreases |s|
  {
    if s != [] && First8(s).Some? {
      var c := First8(s).value;
      Scan8Sound(s[|Utf8(c)|..]);
      assert Scan8(s).codes[1..] == Scan8(s[|Utf8(c)|..]).codes;
    }
  }

  /** Scanning succeeds with `cs` on exactly the bytes that encode `cs`. */
  lemma {:induction false} Scan8Exact(s: seq<Byte>, cs: seq<Code>)
    ensures Scan8(s) == Scan(cs, true) <==> Utf8Text(cs) == s
  {
    Scan8Complete(cs);
    Scan8Sound(s);
  }

  /** The scalar whose UTF-16 form `s` starts with, if there is one. */
  ghost function First16(s: seq<Unit>): (r: Option<Code>)
    ensures r.Some? ==> !IsSurrogate(r.value) && Utf16(r.value) <= s
    ensures r.None? ==> forall c :: !IsSurrogate(c) ==> !(Utf16(c) <= s)
  {
    if c :| !IsSurrogate(c) && Utf16(c) <= s then Some(c) else None
  }

  /** `getSurrogateValue`; 0 stands for an unpaired surrogate. */
  function GetSurrogateValue(s: seq<Unit>): (v: Code)
    requires s != []
  {
    if 0xD800 <= s[0] <= 0xDFFF then
      if s[0] > 0xDBFF || |s| <= 1 || s[1] < 0xDC00 || s[1] > 0xDFFF then 0
      else
        Masks(s[0]);
        Masks(s[1]);
        0x10000 + And(s[0], 0x3FF) * 0x400 + And(s[1], 0x3FF)
    else s[0]
  }

  /** The surrogate arithmetic inverts the UTF-16 form, and answers 0 exactly where there is nothing to invert. */
  lemma SurrogateValueIsFirst(s: seq<Unit>, c: Code)
    requires s != []
    ensures (!IsSurrogate(c) && Utf16(c) <= s) <==> (c == GetSurrogateValue(s) && (c != 0 || s[0] == 0))
  {
    hide And;
    Masks(s[0]);
    if |s| > 1 { Masks(s[1]); }
  }

  ghost function Scan16(s: seq<Unit>): (r: Scan)
    decreases |s|
  {
    if s == [] then Scan([], true) else
    match First16(s)
    case None => Scan([], false)
    case Some(c) => var rest := Scan16(s[|Utf16(c)|..]); Scan([c] + rest.codes, rest.ok)
  }

  lemma Scan16Step(c: Code, t: seq<Unit>)
    requires !IsSurrogate(c)
    ensures First16(Utf16(c) + t) == Some(c)
    ensures Scan16(Utf16(c) + t) == Scan([c] + Scan16(t).codes, Scan16(t).ok)
  {
    var s := Utf16(c) + t;
    assert Utf16(c) <= s;
    SurrogateValueIsFirst(s, c);
    SurrogateValueIsFirst(s, First16(s).value);
    assert s[|Utf16(c)|..] == t;
  }

  lemma {:induction false} Scan16Complete(cs: seq<Code>)
    requires NoSurrogates(cs)
    ensures Scan16(Utf16Text(cs)) == Scan(cs, true)
  {
    if cs != [] {
      Scan16Step(cs[0], Utf16Text(cs[1..]));
      Scan16Complete(cs[1..]);
    }
  }

  lemma {:induction false} Scan16Sound(s: seq<Unit>)
    ensures NoSurrogates(Scan16(s).codes)
    ensures Utf16Text(Scan16(s).codes) <= s
    ensures Scan16(s).ok ==> Utf16Text(Scan16(s).codes) == s
    decreases |s|
  {
    if s != [] && First16(s).Some? {
      var c := First16(s).value;
      Scan16Sound(s[|Utf16(c)|..]);
      assert Scan16(s).codes[1..] == Scan16(s[|Utf16(c)|..]).codes;
    }
  }

  /** Scanning succeeds with `cs` on exactly the UTF-16 text of the scalars `cs`. */
  lemma {:induction false} Scan16Exact(s: seq<Unit>, cs: seq<Code>)
    ensures Scan16(s) == Scan(cs, true) <==> (NoSurrogates(cs) && Utf16Text(cs) == s)
  {
    if NoSurrogates(cs) { Scan16Complete(cs); }
    Scan16Sound(s);
  }

  lemma First8Shaped(s: seq<Byte>, c: Code)
    ensures First8(s) == Some(c) <==> Shaped(s, c)
    ensures Shaped(s, c) ==> |Utf8(c)| == Following(s[0]) + 1
    ensures s != [] && s[0] < 0x80 ==> First8(s) == Some(s[0]) && |Utf8(s[0])| == 1
  {
    hide Masked, Join, Flip;
    if s != [] && s[0] < 0x80 { ShapedIsEncoding(s, s[0]); }
    if s != [] && s[0] < 0x80 && First8(s).Some? { Utf8PrefixFree(s, s[0], First8(s).value); }
    ShapedIsEncoding(s, c);
    if First8(s).Some? && Utf8(c) <= s { Utf8PrefixFree(s, c, First8(s).value); }
  }

  /** A sequence cut short, or broken at byte `i`, encodes nothing. */
  lemma Broken(s: seq<Byte>, i: nat)
    requires s != [] && s[0] >= 0x80
    requires Following(s[0]) == 0 || |s| <= Following(s[0]) || (1 <= i <= Following(s[0]) && Flip(s[i]) >= 0x40)
    ensures First8(s) == None
  {
    hide Utf8;
    if First8(s).Some? { First8Shaped(s, First8(s).value); }
  }

  /** A complete sequence encodes the assembled value, unless that is overlong or out of range. */
  lemma Complete(s: seq<Byte>)
    requires s != [] && 1 <= Following(s[0]) < |s|
    requires Continued(s, Following(s[0]))
    ensures var v := Assembled(s, Following(s[0]));
      if MinValue(Following(s[0])) <= v <= 0x10FFFF then First8(s) == Some(v) && |Utf8(v)| == Following(s[0]) + 1
      else First8(s) == None
  {
    hide Utf8, First8, Assembled, Flip;
    var v := Assembled(s, Following(s[0]));
    if First8(s).Some? { First8Shaped(s, First8(s).value); }
    if v <= 0x10FFFF { First8Shaped(s, v); }
  }

  lemma First16Value(s: seq<Unit>)
    requires s != []
    ensures var v := GetSurrogateValue(s); First16(s) == if v == 0 && s[0] != 0 then None else Some(v)
    ensures s[0] < 0x800 ==> GetSurrogateValue(s) == s[0]
    ensures s[0] >= 0x800 && GetSurrogateValue(s) != 0 ==> GetSurrogateValue(s) >= 0x800
    ensures forall c: Code :: |Utf16(c)| == if c < 0x10000 then 1 else 2
  {
    SurrogateValueIsFirst(s, GetSurrogateValue(s));
    if First16(s).Some? { SurrogateValueIsFirst(s, First16(s).value); }
  }

  /** A converter has read `done` and stands at `pos`. */
  ghost predicate Reading8(src: seq<Byte>, pos: nat, done: seq<Code>) {
    && pos <= |src|
    && var rest := Scan8(src[pos..]);
    Scan8(src) == Scan(done + rest.codes, rest.ok)
  }

  ghost predicate Reading16(src: seq<Unit>, pos: nat, done: seq<Code>) {
    && pos <= |src|
    && var rest := Scan16(src[pos..]);
    Scan16(src) == Scan(done + rest.codes, rest.ok)
  }

  lemma Reading8Ends(src: seq<Byte>, pos: nat, done: seq<Code>)
    ensures Reading8(src, 0, []) && Utf16Text([]) == []
    ensures Reading8(src, pos, done) && pos == |src| ==> Scan8(src) == Scan(done, true)
    ensures Reading8(src, pos, done) && pos < |src| && First8(src[pos..]) == None ==> Scan8(src) == Scan(done, false)
    ensures Reading8(src, pos, done) ==> done <= Scan8(src).codes
  {
  }

  lemma Reading16Ends(src: seq<Unit>, pos: nat, done: seq<Code>)
    ensures Reading16(src, 0, []) && Utf8Text([]) == []
    ensures Reading16(src, pos, done) && pos == |src| ==> Scan16(src) == Scan(done, true)
    ensures Reading16(src, pos, done) && pos < |src| && First16(src[pos..]) == None ==> Scan16(src) == Scan(done, false)
    ensures Reading16(src, pos, done) ==> done <= Scan16(src).codes
  {
  }

  lemma Reading8Step(src: seq<Byte>, pos: nat, done: seq<Code>, c: Code)
    requires Reading8(src, pos, done) && pos < |src| && First8(src[pos..]) == Some(c)
    ensures pos + |Utf8(c)| <= |src|
    ensures Reading8(src, pos + |Utf8(c)|, done + [c])
    ensures Utf16Text(done + [c]) == Utf16Text(done) + Utf16(c) <= Utf16Text(Scan8(src).codes)
  {
    hide Utf8, Utf16;
    var next := pos + |Utf8(c)|;
    var rest := Scan8(src[pos..]);
    assert src[pos..][|Utf8(c)|..] == src[next..];
    assert done + rest.codes == (done + [c]) + Scan8(src[next..]).codes;
    Utf16TextConcat(done, [c]);
    Utf16TextConcat(done + [c], Scan8(src[next..]).codes);
  }

  lemma Reading16Step(src: seq<Unit>, pos: nat, done: seq<Code>, c: Code)
    requires Reading16(src, pos, done) && pos < |src| && First16(src[pos..]) == Some(c)
    ensures pos + |Utf16(c)| <= |src|
    ensures Reading16(src, pos + |Utf16(c)|, done + [c])
    ensures Utf8Text(done + [c]) == Utf8Text(done) + Utf8(c) <= Utf8Text(Scan16(src).codes)
  {
    hide Utf8, Utf16;
    var next := pos + |Utf16(c)|;
    var rest := Scan16(src[pos..]);
    assert src[pos..][|Utf16(c)|..] == src[next..];
    assert done + rest.codes == (done + [c]) + Scan16(src[next..]).codes;
    Utf8TextConcat(done, [c]);
    Utf8TextConcat(done + [c], Scan16(src[next..]).codes);
  }
}

/** What the two converters promise about each other, for every text. */
module UtfLaws {
  import opened Unicode
  import opened UtfText
  import opened Utf
  import opened CString

  // ---------------------------------------------------------------- which texts are accepted

  predicate IsHigh(u: Unit) { 0xD800 <= u <= 0xDBFF }

  predicate IsLow(u: Unit) { 0xDC00 <= u <= 0xDFFF }

  /** No unpaired surrogate: every high one is followed by a low one and every low one preceded by a high one. */
  predicate Paired(us: seq<Unit>) {
    && (forall i :: 0 <= i < |us| && IsHigh(us[i]) ==> i + 1 < |us| && IsLow(us[i + 1]))
    && (forall i :: 0 <= i < |us| && IsLow(us[i]) ==> i > 0 && IsHigh(us[i - 1]))
  }

  lemma {:induction false} EncoderAcceptsExactlyPaired(us: seq<Unit>)
    ensures Encode(us).Some? <==> Paired(us)
    decreases |us|
  {
    if us != [] {
      First16Value(us);
      if First16(us).Some? {
        var k := |Utf16(First16(us).value)|;
        var rest := us[k..];
        assert us[..k] == Utf16(First16(us).value);
        EncoderAcceptsExactlyPaired(rest);
        PairedTail(us, k);
      }
    }
  }

  lemma PairedTail(us: seq<Unit>, k: nat)
    requires 1 <= k <= 2 && k <= |us|
    requires k == 1 ==> !IsHigh(us[0]) && !IsLow(us[0])
    requires k == 2 ==> IsHigh(us[0]) && IsLow(us[1])
    ensures Paired(us) <==> Paired(us[k..])
  {
  }

  /** The decoder accepts exactly the concatenations of shortest forms of values up to 0x10FFFF. */
  lemma {:induction false} DecoderAcceptsExactlyShortestForms(bs: seq<Byte>)
    ensures Decode(bs).Some? <==> exists cs :: Utf8Text(cs) == bs
  {
    Scan8Exact(bs, Scan8(bs).codes);
    if cs :| Utf8Text(cs) == bs { Scan8Exact(bs, cs); }
  }

  // ---------------------------------------------------------------- round trips

  lemma {:induction false} EncodeThenDecode(us: seq<Unit>, bs: seq<Byte>)
    requires Encode(us) == Some(bs)
    ensures Decode(bs) == Some(us)
  {
    Scan8Complete(Scan16(us).codes);
    Scan16Sound(us);
  }

  /** A three-byte encoding of a surrogate value, as seen in the bytes. */
  predicate HasSurrogateTriple(bs: seq<Byte>) {
    exists i :: 0 <= i < |bs| - 1 && bs[i] == 0xED && bs[i + 1] >= 0xA0
  }

  lemma CharBytes(c: Code)
    ensures forall i :: 1 <= i < |Utf8(c)| ==> 0x80 <= Utf8(c)[i] < 0xC0
    ensures IsSurrogate(c) ==> Utf8(c)[0] == 0xED && |Utf8(c)| == 3 && Utf8(c)[1] >= 0xA0
    ensures Utf8(c)[0] == 0xED && !IsSurrogate(c) ==> |Utf8(c)| == 3 && Utf8(c)[1] < 0xA0
  {
  }

  lemma CharTriple(c: Code, rest: seq<Byte>)
    ensures HasSurrogateTriple(Utf8(c) + rest) <==> (IsSurrogate(c) || HasSurrogateTriple(rest))
  {
    hide Utf8, IsSurrogate;
    CharBytes(c);
    var bs := Utf8(c) + rest;
    var k := |Utf8(c)|;
    if IsSurrogate(c) {
      assert bs[0] == 0xED && bs[0 + 1] >= 0xA0;
    }
    if HasSurrogateTriple(rest) {
      var j :| 0 <= j < |rest| - 1 && rest[j] == 0xED && rest[j + 1] >= 0xA0;
      assert bs[k + j] == 0xED && bs[(k + j) + 1] >= 0xA0;
    }
    if HasSurrogateTriple(bs) {
      var i :| 0 <= i < |bs| - 1 && bs[i] == 0xED && bs[i + 1] >= 0xA0;
      if i >= k {
        assert rest[i - k] == 0xED && rest[(i - k) + 1] >= 0xA0;
      } else {
        assert bs[i] == Utf8(c)[i] && i == 0;
      }
    }
  }

  lemma {:induction false} TripleIsSurrogate(cs: seq<Code>)
    ensures HasSurrogateTriple(Utf8Text(cs)) <==> !NoSurrogates(cs)
  {
    if cs != [] {
      CharTriple(cs[0], Utf8Text(cs[1..]));
      TripleIsSurrogate(cs[1..]);
      assert NoSurrogates(cs) <==> !IsSurrogate(cs[0]) && NoSurrogates(cs[1..]) by {
        assert cs == [cs[0]] + cs[1..];
      }
    }
  }

  /** Re-encoding gives back the same bytes exactly when they hold no three-byte surrogate value. */
  lemma {:induction false} DecodeThenEncode(bs: seq<Byte>, us: seq<Unit>)
    requires Decode(bs) == Some(us)
    ensures Encode(us) == Some(bs) <==> !HasSurrogateTriple(bs)
  {
    var cs := Scan8(bs).codes;
    Scan8Sound(bs);
    TripleIsSurrogate(cs);
    if NoSurrogates(cs) { Scan16Complete(cs); }
    if Encode(us) == Some(bs) {
      Scan8Complete(Scan16(us).codes);
      Scan16Sound(us);
    }
  }

  /** The smallest failing case: one encoded high surrogate is decoded, and cannot be encoded again. */
  lemma SurrogateTripleIsLossy()
    ensures Decode([0xED, 0xA0, 0x80]) == Some([0xD800]) && Encode([0xD800]) == None
  {
    var cs: seq<Code> := [0xD800];
    assert cs[1..] == [];
    assert Utf8Text(cs) == [0xED, 0xA0, 0x80] && Utf16Text(cs) == [0xD800];
    Scan8Complete(cs);
    EncoderAcceptsExactlyPaired([0xD800]);
    assert IsHigh([0xD800][0]);
  }

  // ---------------------------------------------------------------- order

  predicate LexLess(a: seq<int>, b: seq<int>) {
    b != [] && (a == [] || a[0] < b[0] || (a[0] == b[0] && LexLess(a[1..], b[1..])))
  }

  lemma {:induction false} LexTotal(a: seq<int>, b: seq<int>)
    ensures !(LexLess(a, b) && LexLess(b, a)) && !LexLess(a, a)
    ensures a == b || LexLess(a, b) || LexLess(b, a)
  {
    if a != [] { LexTotal(a[1..], a[1..]); }
    if a != [] && b != [] {
      LexTotal(a[1..], b[1..]);
      assert a == [a[0]] + a[1..] && b == [b[0]] + b[1..];
    }
  }

  lemma {:induction false} LexSamePrefix(p: seq<int>, x: seq<int>, y: seq<int>)
    ensures LexLess(p + x, p + y) <==> LexLess(x, y)
  {
    if p == [] {
      assert p + x == x && p + y == y;
    } else {
      assert (p + x)[1..] == p[1..] + x && (p + y)[1..] == p[1..] + y;
      LexSamePrefix(p[1..], x, y);
    }
  }

  lemma {:induction false} LexAt(a: seq<int>, b: seq<int>, i: nat)
    requires i < |a| && i < |b| && a[..i] == b[..i] && a[i] < b[i]
    ensures LexLess(a, b)
  {
    if i > 0 {
      assert a[0] == a[..i][0] == b[..i][0] == b[0];
      assert a[1..][..i - 1] == a[..i][1..] && b[1..][..i - 1] == b[..i][1..];
      LexAt(a[1..], b[1..], i - 1);
    }
  }

  lemma CharOrder(c: Code, d: Code, x: seq<Byte>, y: seq<Byte>)
    requires c < d
    ensures LexLess(Utf8(c) + x, Utf8(d) + y)
  {
    var a, b := Utf8(c), Utf8(d);
    var i := FirstDifference(c, d);
    assert (a + x)[..i] == a[..i] && (b + y)[..i] == b[..i];
    LexAt(a + x, b + y, i);
  }

  lemma FirstDifference(c: Code, d: Code) returns (i: nat)
    requires c < d
    ensures i < |Utf8(c)| && i < |Utf8(d)|
    ensures Utf8(c)[..i] == Utf8(d)[..i] && Utf8(c)[i] < Utf8(d)[i]
  {
    hide Utf8;
    Utf8Forms(c);
    Utf8Forms(d);
    if |Utf8(c)| < |Utf8(d)| || Utf8(c)[0] < Utf8(d)[0] {
      i := 0;
    } else if Utf8(c)[1] < Utf8(d)[1] {
      i := 1;
    } else if Utf8(c)[2] < Utf8(d)[2] {
      i := 2;
    } else {
      i := 3;
    }
  }

  /** Byte order of two encodings is code point order of the texts. */
  lemma {:induction false} OrderPreserved(cs: seq<Code>, ds: seq<Code>)
    ensures LexLess(Utf8Text(cs), Utf8Text(ds)) <==> LexLess(cs, ds)
  {
    LexTotal(cs, ds);
    LexTotal(Utf8Text(cs), Utf8Text(ds));
    if LexLess(cs, ds) { OrderForward(cs, ds); }
    if LexLess(ds, cs) { OrderForward(ds, cs); }
  }

  lemma {:induction false} OrderForward(cs: seq<Code>, ds: seq<Code>)
    requires LexLess(cs, ds)
    ensures LexLess(Utf8Text(cs), Utf8Text(ds))
  {
    if cs != [] {
      if cs[0] < ds[0] {
        CharOrder(cs[0], ds[0], Utf8Text(cs[1..]), Utf8Text(ds[1..]));
      } else {
        OrderForward(cs[1..], ds[1..]);
        LexSamePrefix(Utf8(cs[0]), Utf8Text(cs[1..]), Utf8Text(ds[1..]));
      }
    }
  }

  lemma {:induction false} EncoderInjective(us: seq<Unit>, vs: seq<Unit>)
    requires Encode(us).Some? && Encode(us) == Encode(vs)
    ensures us == vs
  {
    EncodeThenDecode(us, Encode(us).value);
    EncodeThenDecode(vs, Encode(vs).value);
  }

  // ---------------------------------------------------------------- is_utf8_string

  lemma CharLoose(c: Code, rest: seq<Byte>)
    ensures Loose(Utf8(c) + rest, 0) == Loose(rest, 0)
  {
    var s := Utf8(c) + rest;
    var k := |Utf8(c)|;
    assert s[k..] == rest;
    assert s[1..][0..] == s[1..];
    if k >= 2 {
      LeadOnes(c);
      assert s[0] == Utf8(c)[0];
      LooseUnfold(s[1..], k - 1);
      assert s[1..][k - 1..] == rest;
    }
  }

  lemma OnesStep(b: int)
    requires 0 <= b < 0x100
    ensures Ones(b) == if b < 0x80 then 0 else 1 + Ones(2 * b - 0x100)
  {
  }

  /** The seven lead bytes above those of the standard ask for up to seven continuation bytes. */
  lemma OnesAbove(b: Byte)
    ensures 0x80 <= b < 0xC0 ==> Ones(b) == 1
    ensures 0xF8 <= b < 0xFC ==> Ones(b) == 5
    ensures 0xFC <= b < 0xFE ==> Ones(b) == 6
    ensures Ones(0xFE) == 7 && Ones(0xFF) == 8 && Ones(0) == 0
  {
    hide Ones;
    OnesStep(0);
    OnesStep(0xFF);
    OnesStep(0xFE);
    OnesStep(0xFC);
    OnesStep(0xF8);
    OnesStep(0xF0);
    OnesStep(0xE0);
    OnesStep(0xC0);
    OnesStep(0x80);
    if 0x80 <= b < 0xC0 {
      OnesStep(b);
      OnesStep(2 * b - 0x100);
    }
    if 0xF8 <= b < 0xFE {
      OnesOfLead(8 * b - 0x700);
      OnesStep(b);
      OnesStep(2 * b - 0x100);
      OnesStep(4 * b - 0x300);
    }
  }

  lemma OnesOfLead(b: Byte)
    ensures 0xC0 <= b < 0xE0 ==> Ones(b) == 2
    ensures 0xE0 <= b < 0xF0 ==> Ones(b) == 3
    ensures 0xF0 <= b < 0xF8 ==> Ones(b) == 4
  {
    hide Ones;
    if 0xC0 <= b < 0xF8 {
      OnesStep(b);
      OnesStep(2 * b - 0x100);
      OnesStep(4 * b - 0x300);
      if 0xE0 <= b { OnesStep(8 * b - 0x700); }
      if 0xF0 <= b { OnesStep(16 * b - 0xF00); }
    }
  }

  lemma LeadOnes(c: Code)
    requires c >= 0x80
    ensures Ones(Utf8(c)[0]) == |Utf8(c)|
    ensures Utf8(c)[0] >= 0x80
    ensures forall i :: 1 <= i < |Utf8(c)| ==> 0x80 <= Utf8(c)[i] < 0xC0
  {
    hide Ones;
    OnesOfLead(Utf8(c)[0]);
  }

  /** A pending count of k asks for k continuation bytes and then for whole characters. */
  lemma {:induction false} LooseUnfold(s: seq<Byte>, k: nat)
    ensures Loose(s, k) <==> k <= |s| && (forall i :: 0 <= i < k ==> 0x80 <= s[i] < 0xC0) && Loose(s[k..], 0)
  {
    if k == 0 {
      assert s[0..] == s;
    } else if s != [] {
      LooseUnfold(s[1..], k - 1);
      if k <= |s| {
        assert s[1..][k - 1..] == s[k..];
        assert (forall i :: 0 <= i < k ==> 0x80 <= s[i] < 0xC0) <==>
          0x80 <= s[0] < 0xC0 && forall i :: 0 <= i < k - 1 ==> 0x80 <= s[1..][i] < 0xC0 by {
          assert s == [s[0]] + s[1..];
        }
      }
    }
  }

  lemma {:induction false} EncodingIsLoose(cs: seq<Code>)
    ensures Loose(Utf8Text(cs), 0)
    ensures (exists i :: 0 <= i < |cs| && cs[i] >= 0x80) ==> HasHighByte(Utf8Text(cs))
    ensures 0 !in cs ==> 0 !in Utf8Text(cs)
  {
    if cs != [] {
      CharLoose(cs[0], Utf8Text(cs[1..]));
      EncodingIsLoose(cs[1..]);
      if i :| 0 <= i < |cs| && cs[i] >= 0x80 {
        if i > 0 {
          assert cs[1..][i - 1] >= 0x80;
          var j :| 0 <= j < |Utf8Text(cs[1..])| && Utf8Text(cs[1..])[j] >= 0x80;
          assert Utf8Text(cs)[|Utf8(cs[0])| + j] >= 0x80;
        } else {
          LeadOnes(cs[0]);
          assert Utf8Text(cs)[0] >= 0x80;
        }
      }
    }
  }

  /** The test accepts every NUL-free encoder output that holds a non-ASCII character. */
  lemma {:induction false} LooseTestAcceptsEncodings(us: seq<Unit>, bs: seq<Byte>)
    requires Encode(us) == Some(bs) && 0 !in us && exists i :: 0 <= i < |us| && us[i] >= 0x80
    ensures CStr(bs) == bs && Loose(bs, 0) && HasHighByte(bs)
  {
    var cs := Scan16(us).codes;
    Scan16Sound(us);
    UnitsAndCodes(cs);
    EncodingIsLoose(cs);
  }

  lemma {:induction false} UnitsAndCodes(cs: seq<Code>)
    ensures 0 in Utf16Text(cs) <==> 0 in cs
    ensures (exists i :: 0 <= i < |Utf16Text(cs)| && Utf16Text(cs)[i] >= 0x80) ==>
      exists i :: 0 <= i < |cs| && cs[i] >= 0x80
  {
    if cs != [] {
      UnitsAndCodes(cs[1..]);
      var us, k := Utf16Text(cs), |Utf16(cs[0])|;
      assert cs == [cs[0]] + cs[1..];
      if i :| 0 <= i < |us| && us[i] >= 0x80 {
        if i >= k {
          assert Utf16Text(cs[1..])[i - k] >= 0x80;
          var j :| 0 <= j < |cs[1..]| && cs[1..][j] >= 0x80;
          assert cs[j + 1] >= 0x80;
        } else {
          assert cs[0] >= 0x80;
        }
      }
    }
  }

  /** The lead byte starts a form of the standard, and the byte behind it neither wastes a form nor leaves the range. */
  predicate LegalLead(s: seq<Byte>)
    requires s != []
  {
    s[0] < 0x80 || (
      && Following(s[0]) >= 1
      && (|s| >= 2 && s[0] == 0xE0 ==> s[1] >= 0xA0)
      && (|s| >= 2 && s[0] == 0xF0 ==> s[1] >= 0x90)
      && (|s| >= 2 && s[0] == 0xF4 ==> s[1] < 0x90))
  }

  predicate AllLegal(s: seq<Byte>)
    decreases |s|
  {
    s == [] || (LegalLead(s) && (|s| > 1 + Following(s[0]) ==> AllLegal(s[1 + Following(s[0])..])))
  }

  /** Given its continuation bytes, a character is decoded exactly if its lead is legal. */
  lemma LegalIsDecodable(s: seq<Byte>)
    requires s != [] && 1 <= Following(s[0]) < |s| && Continued(s, Following(s[0]))
    ensures First8(s).Some? <==> LegalLead(s)
    ensures First8(s).Some? ==> |Utf8(First8(s).value)| == 1 + Following(s[0])
  {
    hide First8, Utf8, Masked, Join, Flip;
    Complete(s);
    var n := Following(s[0]);
    JoinIsSum(Masked(s[0], n), Flip(s[1]));
    assert Assembled(s, 1) == Masked(s[0], n) * 64 + Flip(s[1]);
    if n >= 2 { JoinIsSum(Assembled(s, 1), Flip(s[2])); }
    if n >= 3 {
      assert Assembled(s, 2) == Join(Assembled(s, 1), Flip(s[2]));
      JoinIsSum(Assembled(s, 2), Flip(s[3]));
    }
  }

  lemma ContinuedBytes(s: seq<Byte>, n: nat)
    requires 1 <= n <= 3 && n < |s|
    ensures Continued(s, n) <==> forall i :: 0 <= i < n ==> 0x80 <= s[1..][i] < 0xC0
  {
    assert forall i :: 0 <= i < n ==> s[1..][i] == s[i + 1];
    if forall i :: 0 <= i < n ==> 0x80 <= s[1..][i] < 0xC0 {
      assert 0x80 <= s[1..][0] < 0xC0 && (n >= 2 ==> 0x80 <= s[1..][1] < 0xC0) && (n >= 3 ==> 0x80 <= s[1..][2] < 0xC0);
    }
  }

  /** The test and the decoder on one character of several bytes. */
  lemma LeadStep(s: seq<Byte>)
    requires s != [] && s[0] >= 0x80 && Following(s[0]) >= 1
    ensures var k := 1 + Following(s[0]);
      && (Loose(s, 0) <==> k <= |s| && Continued(s, k - 1) && Loose(s[k..], 0))
      && (First8(s).Some? <==> k <= |s| && Continued(s, k - 1) && LegalLead(s))
      && (First8(s).Some? ==> |Utf8(First8(s).value)| == k)
  {
    hide First8, Utf8, Ones, LegalLead;
    var n := Following(s[0]);
    OnesOfLead(s[0]);
    LooseUnfold(s[1..], n);
    if |s| <= n {
      Broken(s, 0);
    } else {
      assert s[1..][n..] == s[1 + n..];
      ContinuedBytes(s, n);
      if Continued(s, n) {
        LegalIsDecodable(s);
      } else {
        Broken(s, if Flip(s[1]) >= 0x40 then 1 else if Flip(s[2]) >= 0x40 then 2 else 3);
      }
    }
  }

  /** The decoder accepts exactly what the test accepts and what has legal leads throughout. */
  lemma {:induction false} DecoderIsTestAndLegal(s: seq<Byte>)
    ensures Decode(s).Some? <==> Loose(s, 0) && AllLegal(s)
    decreases |s|
  {
    if s != [] {
      hide First8, Utf8, Utf8Text, Utf16Text, Masked, Join, Flip;
      if s[0] < 0x80 {
        First8Shaped(s, s[0]);
        DecoderIsTestAndLegal(s[1..]);
      } else if Following(s[0]) == 0 {
        Broken(s, 0);
      } else {
        LeadStep(s);
        var k := 1 + Following(s[0]);
        if k <= |s| { DecoderIsTestAndLegal(s[k..]); }
      }
    }
  }

  /** The converse fails: a stray continuation byte passes the test, and the decoder refuses it. */
  lemma LooseTestIsWeaker()
    ensures Loose([0x80], 0) && HasHighByte([0x80]) && Decode([0x80]) == None
  {
  }

  // ---------------------------------------------------------------- the standards' own examples

  /** An example of section 7 of RFC 3629, and the one of section 4 of RFC 2781. */
  lemma StandardExamples()
    ensures Encode([0x41, 0x2262, 0x0391, 0x2E]) == Some([0x41, 0xE2, 0x89, 0xA2, 0xCE, 0x91, 0x2E])
    ensures Encode([0xD808, 0xDF45, 0x3D, 0x52, 0x61]) == Some(Utf8Text([0x12345, 0x3D, 0x52, 0x61]))
    ensures Utf8Text([0x12345]) == [0xF0, 0x92, 0x8D, 0x85]
  {
    Examples16();
    var a: seq<Code>, b: seq<Code> := [0x41, 0x2262, 0x0391, 0x2E], [0x12345, 0x3D, 0x52, 0x61];
    Scan16Complete(a);
    Scan16Complete(b);
  }

  lemma Examples16()
    ensures Utf16Text([0x41, 0x2262, 0x0391, 0x2E]) == [0x41, 0x2262, 0x0391, 0x2E]
    ensures Utf8Text([0x41, 0x2262, 0x0391, 0x2E]) == [0x41, 0xE2, 0x89, 0xA2, 0xCE, 0x91, 0x2E]
    ensures Utf16Text([0x12345, 0x3D, 0x52, 0x61]) == [0xD808, 0xDF45, 0x3D, 0x52, 0x61]
    ensures Utf8Text([0x12345]) == [0xF0, 0x92, 0x8D, 0x85]
  {
    assert Utf8Text([]) == [] && Utf16Text([]) == [];
    var a: seq<Code>, b: seq<Code> := [0x41, 0x2262, 0x0391, 0x2E], [0x12345, 0x3D, 0x52, 0x61];
    var c: seq<Code> := [0x12345];
    assert a[1..] == [0x2262, 0x0391, 0x2E] && a[1..][1..] == [0x0391, 0x2E] && a[1..][1..][1..] == [0x2E];
    assert b[1..] == [0x3D, 0x52, 0x61] && b[1..][1..] == [0x52, 0x61] && b[1..][1..][1..] == [0x61];
    assert a[1..][1..][1..][1..] == [] && b[1..][1..][1..][1..] == [] && c[1..] == [];
  }
}

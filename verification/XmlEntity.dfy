/** The entity escaping of global.cpp: four successive substring replacements each way. */
module XmlEntity {
  import opened Unicode

  type Text = seq<Unit>

  const AMP: Unit := 0x26
  const LT: Unit := 0x3C
  const GT: Unit := 0x3E
  const QUOT: Unit := 0x22

  /** The entities in the order in which `XMLEntityDecode` replaces them: &lt; &gt; &quot; &amp; */
  function Entity(k: nat): (e: Text)
    requires k < 4
    ensures |e| >= 4 && e[0] == AMP
    ensures forall i :: 1 <= i < |e| ==> e[i] !in {AMP, LT, GT, QUOT}
  {
    if k == 0 then [AMP, 0x6C, 0x74, 0x3B]
    else if k == 1 then [AMP, 0x67, 0x74, 0x3B]
    else if k == 2 then [AMP, 0x71, 0x75, 0x6F, 0x74, 0x3B]
    else [AMP, 0x61, 0x6D, 0x70, 0x3B]
  }

  function Char(k: nat): (c: Unit)
    requires k < 4
  {
    if k == 0 then LT else if k == 1 then GT else if k == 2 then QUOT else AMP
  }

  /** `CString::Replace`: left to right, not looking again at what it wrote. */
  function Replace(s: Text, from: Text, to: Text): (r: Text)
    requires from != []
    decreases |s|
  {
    if s == [] then []
    else if from <= s then to + Replace(s[|from|..], from, to)
    else [s[0]] + Replace(s[1..], from, to)
  }

  /** `XMLEntityDecode` */
  function Decode(s: Text): (r: Text) {
    var s1 := Replace(s, Entity(0), [LT]);
    var s2 := Replace(s1, Entity(1), [GT]);
    var s3 := Replace(s2, Entity(2), [QUOT]);
    Replace(s3, Entity(3), [AMP])
  }

  /** `XMLEntityEncode` */
  function Encode(s: Text): (r: Text) {
    var s1 := Replace(s, [AMP], Entity(3));
    var s2 := Replace(s1, [LT], Entity(0));
    var s3 := Replace(s2, [GT], Entity(1));
    Replace(s3, [QUOT], Entity(2))
  }

  // ---------------------------------------------------------------- encoding is one character-wise substitution

  /** What one character has become after the first `n` replacements of `Encode`. */
  function Substituted(c: Unit, n: nat): (r: Text) {
    if c == AMP && n >= 1 then Entity(3)
    else if c == LT && n >= 2 then Entity(0)
    else if c == GT && n >= 3 then Entity(1)
    else if c == QUOT && n >= 4 then Entity(2)
    else [c]
  }

  function Mapped(s: Text, n: nat): (r: Text) {
    if s == [] then [] else Substituted(s[0], n) + Mapped(s[1..], n)
  }

  /** Every special character replaced by its entity, once. */
  function Escaped(s: Text): (r: Text) { Mapped(s, 4) }

  lemma {:induction false} ReplaceCharConcat(a: Text, b: Text, c: Unit, to: Text)
    ensures Replace(a + b, [c], to) == Replace(a, [c], to) + Replace(b, [c], to)
  {
    if a == [] {
      assert a + b == b;
    } else {
      assert (a + b)[1..] == a[1..] + b;
      assert [c] <= a <==> a[0] == c;
      assert [c] <= a + b <==> (a + b)[0] == c;
      ReplaceCharConcat(a[1..], b, c, to);
    }
  }

  lemma {:induction false} ReplaceAbsent(s: Text, c: Unit, to: Text)
    requires c !in s
    ensures Replace(s, [c], to) == s
  {
    if s != [] {
      assert [c][0] != s[0];
      ReplaceAbsent(s[1..], c, to);
    }
  }

  /** One more replacement substitutes one more character. */
  lemma {:induction false} EncodeStep(s: Text, n: nat)
    requires n < 4
    ensures var k := if n == 0 then 3 else n - 1; Replace(Mapped(s, n), [Char(k)], Entity(k)) == Mapped(s, n + 1)
  {
    var k := if n == 0 then 3 else n - 1;
    if s != [] {
      ReplaceCharConcat(Substituted(s[0], n), Mapped(s[1..], n), Char(k), Entity(k));
      EncodeStep(s[1..], n);
      if s[0] == Char(k) {
        assert Substituted(s[0], n) == [s[0]] && [s[0]][1..] == [];
      } else {
        ReplaceAbsent(Substituted(s[0], n), Char(k), Entity(k));
      }
    }
  }

  lemma {:induction false} MappedNone(s: Text)
    ensures Mapped(s, 0) == s
  {
    if s != [] { MappedNone(s[1..]); }
  }

  lemma {:induction false} EncodeIsCharacterWise(s: Text)
    ensures Encode(s) == Escaped(s)
  {
    MappedNone(s);
    EncodeStep(s, 0);
    EncodeStep(s, 1);
    EncodeStep(s, 2);
    EncodeStep(s, 3);
  }

  /** The code units of an ASCII text. */
  function Units(s: string): (t: Text) { seq(|s|, i requires 0 <= i < |s| => s[i] as int % 0x10000) }

  /** How each character stands in an attribute value. */
  function InAttribute(c: Unit): (t: Text) {
    if c == '&' as int then Units("&amp;")
    else if c == '<' as int then Units("&lt;")
    else if c == '>' as int then Units("&gt;")
    else if c == '"' as int then Units("&quot;")
    else [c]
  }

  function AllInAttribute(s: Text): (t: Text) { if s == [] then [] else InAttribute(s[0]) + AllInAttribute(s[1..]) }

  /** Encoding writes the four entities of XML by their names, and everything else as it is. */
  lemma {:induction false} EncodeWritesEntities(s: Text)
    ensures Encode(s) == AllInAttribute(s)
  {
    EncodeIsCharacterWise(s);
    EscapedWritesEntities(s);
  }

  lemma EntityNames()
    ensures Entity(0) == Units("&lt;") && Entity(1) == Units("&gt;")
    ensures Entity(2) == Units("&quot;") && Entity(3) == Units("&amp;")
  {
  }

  lemma {:induction false} EscapedWritesEntities(s: Text)
    ensures Escaped(s) == AllInAttribute(s)
  {
    if s != [] {
      EscapedWritesEntities(s[1..]);
      EntityNames();
      hide Units, Entity;
    }
  }

  lemma {:induction false} EncodedIsSafe(s: Text)
    ensures LT !in Encode(s) && GT !in Encode(s) && QUOT !in Encode(s)
  {
    EncodeIsCharacterWise(s);
    EscapedIsSafe(s);
  }

  lemma {:induction false} EscapedIsSafe(s: Text)
    ensures LT !in Escaped(s) && GT !in Escaped(s) && QUOT !in Escaped(s)
  {
    if s != [] { EscapedIsSafe(s[1..]); }
  }

  // ---------------------------------------------------------------- decoding is one left-to-right pass

  /** The entity among the first `n` that `s` starts with, or -1. */
  function Match(s: Text, n: nat): (k: int)
    requires n <= 4
    ensures -1 <= k < n
    ensures k >= 0 ==> Entity(k) <= s && s[0] == AMP
  {
    if n == 0 then -1 else
    var k := Match(s, n - 1);
    if k >= 0 then k else if Entity(n - 1) <= s then n - 1 else -1
  }

  /** One pass that recognises the first `n` entities. */
  function Pass(s: Text, n: nat): (r: Text)
    requires n <= 4
    decreases |s|
  {
    if s == [] then []
    else if Match(s, n) >= 0 then [Char(Match(s, n))] + Pass(s[|Entity(Match(s, n))|..], n)
    else [s[0]] + Pass(s[1..], n)
  }

  lemma EntitiesApart(s: Text, j: nat, k: nat)
    requires j < 4 && k < 4 && Entity(j) <= s && Entity(k) <= s
    ensures j == k
  {
    assert s[1] == Entity(j)[1] == Entity(k)[1];
    assert s[2] == Entity(j)[2] == Entity(k)[2];
  }

  lemma {:induction false} MatchFound(s: Text, k: nat, n: nat)
    requires k < n <= 4 && Entity(k) <= s
    ensures Match(s, n) == k
  {
    if Match(s, n) >= 0 { EntitiesApart(s, Match(s, n), k); }
    if k < n - 1 { MatchFound(s, k, n - 1); }
  }

  /** Plain text passes through unchanged, and can only come from itself. */
  lemma {:induction false} PlainThrough(s: Text, u: Text, n: nat)
    requires n <= 3 && forall i :: 0 <= i < |u| ==> u[i] !in {AMP, LT, GT, QUOT}
    ensures u <= s <==> u <= Pass(s, n)
    ensures u <= s ==> Pass(s, n)[|u|..] == Pass(s[|u|..], n)
  {
    if u != [] && s != [] {
      var p := Pass(s, n);
      if Match(s, n) < 0 {
        PlainThrough(s[1..], u[1..], n);
        assert p[1..] == Pass(s[1..], n);
        assert u <= s <==> (u[0] == s[0] && u[1..] <= s[1..]);
        assert u <= p <==> (u[0] == p[0] && u[1..] <= p[1..]);
        if u <= s {
          assert p[|u|..] == p[1..][|u| - 1..] && s[|u|..] == s[1..][|u| - 1..];
        }
      } else {
        assert p[0] in {LT, GT, QUOT} && s[0] == AMP;
      }
    }
  }

  /** Replacing the next entity in the output of a pass is a pass that knows one entity more. */
  lemma {:induction false} DecodeStep(s: Text, n: nat)
    requires n < 4
    ensures Replace(Pass(s, n), Entity(n), [Char(n)]) == Pass(s, n + 1)
    decreases |s|
  {
    if s != [] {
      var e, p := Entity(n), Pass(s, n);
      var k := Match(s, n);
      if k >= 0 {
        assert p[0] == Char(k) != AMP;
        assert !(e <= p);
        DecodeStep(s[|Entity(k)|..], n);
      } else {
        assert p[1..] == Pass(s[1..], n);
        PlainThrough(s[1..], e[1..], n);
        assert e <= s <==> (s[0] == AMP && e[1..] <= s[1..]);
        assert e <= p <==> (p[0] == AMP && e[1..] <= p[1..]);
        if e <= s {
          assert p[|e|..] == p[1..][|e| - 1..] && s[|e|..] == s[1..][|e| - 1..];
          DecodeStep(s[|e|..], n);
        } else {
          DecodeStep(s[1..], n);
        }
      }
    }
  }

  lemma {:induction false} PassNone(s: Text)
    ensures Pass(s, 0) == s
  {
    if s != [] { PassNone(s[1..]); }
  }

  /** On every string, escaped or not, the four replacements amount to one pass over the four entities. */
  lemma {:induction false} DecodeIsOnePass(s: Text)
    ensures Decode(s) == Pass(s, 4)
  {
    PassNone(s);
    DecodeStep(s, 0);
    DecodeStep(s, 1);
    DecodeStep(s, 2);
    DecodeStep(s, 3);
  }

  // ---------------------------------------------------------------- round trip

  lemma {:induction false} PassOfEscaped(s: Text)
    ensures Pass(Escaped(s), 4) == s
  {
    if s != [] {
      var rest := Escaped(s[1..]);
      var t := Substituted(s[0], 4) + rest;
      PassOfEscaped(s[1..]);
      if Substituted(s[0], 4) == [s[0]] {
        assert t[1..] == rest;
      } else {
        var k := if s[0] == LT then 0 else if s[0] == GT then 1 else if s[0] == QUOT then 2 else 3;
        assert Substituted(s[0], 4) == Entity(k) && s[0] == Char(k);
        MatchFound(t, k, 4);
        assert t[|Entity(k)|..] == rest;
      }
    }
  }

  lemma {:induction false} DecodeInvertsEncode(s: Text)
    ensures Decode(Encode(s)) == s
  {
    EncodeIsCharacterWise(s);
    DecodeIsOnePass(Encode(s));
    PassOfEscaped(s);
  }
}

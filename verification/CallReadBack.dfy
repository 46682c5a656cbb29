/** Which call history entries survive the 255 characters that one read of the ini file delivers. */
module CallReadBack {
  import opened CallRecord
  import opened CallSlots
  import SipUri

  function Cut(s: string, n: nat): (r: string) { if |s| <= n then s else s[..n] }

  /** One field of a text that is cut off somewhere. */
  lemma {:induction false} CutField(a: string, rest: string, n: nat)
    ensures n <= |a| ==> Cut(a + ";" + rest, n) == Cut(a, n)
    ensures n <= |a| && ';' !in Cut(a, n) ==> Split(Cut(a + ";" + rest, n)) == [Cut(a, n)]
    ensures n > |a| && ';' !in a ==> Split(Cut(a + ";" + rest, n)) == [a] + Split(Cut(rest, n - |a| - 1))
    ensures n > |a| ==> |Split(Cut(a + ";" + rest, n))| >= 2
  {
    hide Split;
    if n <= |a| {
      assert Cut(a + ";" + rest, n) == Cut(a, n);
      SplitLast(Cut(a, n));
    } else {
      assert Cut(a + ";" + rest, n) == a + ";" + Cut(rest, n - |a| - 1);
      SplitField(a, Cut(rest, n - |a| - 1));
    }
  }

  lemma {:induction false} SplitParts(s: string, i: nat)
    requires i < |Split(s)|
    ensures ';' !in Split(s)[i]
    decreases |s|
  {
    hide SipUri.Find;
    SplitLast(s);
    HeadFacts(s);
    var k := SipUri.Find(s, ";", 0);
    if i > 0 { SplitParts(s[k + 1..], i - 1); }
  }

  /** Whatever text is decoded, only a name can hold semicolons, and only in a text with a single one. */
  lemma DecodedFields(s: string)
    ensures ';' !in Decode(s).number && ';' !in Decode(s).info && 0 <= Decode(s).kind <= 2
    ensures |Split(s)| >= 3 ==> ';' !in Decode(s).name
  {
    hide Split, Atoi;
    SplitParts(s, 0);
    SplitLast(s);
    HeadFacts(s);
    if |Split(s)| == 1 { OnlyPart(s); }
    if |Split(s)| >= 3 { SplitParts(s, 1); }
    if |Split(s)| >= 6 { SplitParts(s, 5); }
  }

  lemma OnlyPart(s: string)
    requires |Split(s)| == 1
    ensures Split(s) == [s] && ';' !in s
  {
    SplitParts(s, 0);
  }

  // ---------------------------------------------------------------- the text of a record, cut

  /** The text of a record behind its name. */
  function Numbers(r: Record): (s: string) {
    Decimal(r.kind) + ";" + (Decimal(r.time) + ";" + (Decimal(r.duration) + ";" + r.info))
  }

  lemma EncodeParts(r: Record)
    ensures Encode(r) == r.number + ";" + (r.name + ";" + Numbers(r))
  {
  }

  lemma ZeroIsOneDigit(n: int32)
    ensures Decimal(n) != "" && Decimal(0) == "0" && Kind(0) == 0
  {
  }

  /** What the numbers come back as when only m characters of them are left, and more were there. */
  lemma CutNumbers(r: Record, s: string, m: nat)
    requires |Numbers(r)| > m && Split(s) == [r.number, r.name] + Split(Cut(Numbers(r), m))
    ensures Decode(s) == r <==>
      && r.info == "" && r.duration == 0 && 0 <= r.kind <= 2
      && (|Numbers(r)| <= m + 2 || (r.time == 0 && (|Numbers(r)| <= m + 4 || (r.kind == 0 && |Numbers(r)| <= m + 6))))
  {
    hide Split, Atoi, Decimal;
    var k, t, d := Decimal(r.kind), Decimal(r.time), Decimal(r.duration);
    CutField(k, t + ";" + (d + ";" + r.info), m);
    AtoiInvertsDecimal(r.kind);
    AtoiInvertsDecimal(r.time);
    AtoiInvertsDecimal(r.duration);
    ZeroIsOneDigit(r.kind);
    ZeroIsOneDigit(r.time);
    if m > |k| {
      var m4 := m - |k| - 1;
      CutField(t, d + ";" + r.info, m4);
      if m4 > |t| {
        var m5 := m4 - |t| - 1;
        CutField(d, r.info, m5);
        if m5 > |d| {
          var info := Cut(r.info, m5 - |d| - 1);
          SplitLast(info);
          HeadFacts(info);
          assert |Decode(s).info| < |r.info|;
        }
      }
    }
  }

  // ---------------------------------------------------------------- the exact condition

  const BUFFER: nat := 255

  /** A name that repeats the number behind a semicolon, over the whole buffer: the default for a missing name. */
  predicate Echoed(r: Record) {
    127 <= |r.number| <= BUFFER && ';' !in r.number && r.name == (r.number + ";" + r.number)[..BUFFER]
  }

  /** The record fits the buffer, or all it loses is what the decoder fills in by itself. */
  predicate Storable(r: Record) {
    var n := |Encode(r)|;
    if n <= BUFFER then Clean(r)
    else
      && r.info == "" && r.duration == 0
      && (|| (Clean(r) && n <= BUFFER + 2)
          || (Clean(r) && r.time == 0 && n <= BUFFER + 4)
          || (Clean(r) && r.time == 0 && r.kind == 0 && n <= BUFFER + 6)
          || (Echoed(r) && r.time == 0 && r.kind == 0))
  }

  /** Cut inside the name: what is left of the text stands for the name too. */
  lemma CutInName(r: Record)
    requires |r.number| < BUFFER <= |r.number| + 1 + |r.name| && ';' !in r.number
    ensures Decode(Cut(Encode(r), BUFFER)) == r <==>
      Echoed(r) && r.kind == 0 && r.time == 0 && r.duration == 0 && r.info == ""
  {
    hide Split, Numbers, Encode, Echoed, Decode;
    var k, s := |r.number|, Cut(Encode(r), BUFFER);
    var m := BUFFER - k - 1;
    var name := Cut(r.name, m);
    CutNameText(r);
    if ';' in name {
      DecodedFields(s);
      assert ';' in r.name;
      if Echoed(r) { EchoedHead(r); }
    } else {
      if r.name == s { EchoedName(r, m); }
      if Echoed(r) { EchoedHead(r); }
    }
  }

  lemma CutNameText(r: Record)
    requires |r.number| < BUFFER <= |r.number| + 1 + |r.name| && ';' !in r.number
    ensures var s, name := Cut(Encode(r), BUFFER), Cut(r.name, BUFFER - |r.number| - 1);
      && s == r.number + ";" + name
      && (if ';' in name then |Split(s)| >= 3 else Decode(s) == Record(r.number, s, 0, 0, 0, ""))
  {
    hide Split, Numbers, Encode;
    EncodeParts(r);
    var name := Cut(r.name, BUFFER - |r.number| - 1);
    CutField(r.number, r.name + ";" + Numbers(r), BUFFER);
    CutField(r.name, Numbers(r), BUFFER - |r.number| - 1);
    if ';' in name { NotLast(name); }
  }

  lemma NotLast(s: string)
    requires ';' in s
    ensures |Split(s)| >= 2
  {
    if |Split(s)| == 1 { OnlyPart(s); }
  }

  lemma EchoedFacts(r: Record)
    ensures Echoed(r) ==> ';' !in r.number && |r.name| == BUFFER
  {
  }

  lemma EchoedHead(r: Record)
    requires Echoed(r) && |r.number| < BUFFER
    ensures var m := BUFFER - |r.number| - 1;
      m <= |r.name| && ';' !in r.name[..m] && r.name == r.number + ";" + r.name[..m]
  {
    var m := BUFFER - |r.number| - 1;
    assert r.name[..m] == r.number[..m];
  }

  lemma EchoedName(r: Record, m: nat)
    requires m + |r.number| + 1 == BUFFER && ';' !in r.number && m <= |r.name| && ';' !in r.name[..m]
    requires r.name == r.number + ";" + r.name[..m]
    ensures Echoed(r)
  {
    var k := |r.number|;
    assert r.name[k] == ';';
    assert forall j :: 0 <= j < m ==> r.name[j] == r.name[..m][j] != ';';
    assert r.name[..m] == r.number[..m];
  }

  /** Cut inside the number: what is left of it stands for number and name. */
  lemma CutInNumber(r: Record)
    requires |r.number| >= BUFFER && ';' !in r.number
    ensures Decode(Cut(Encode(r), BUFFER)) == r <==>
      Echoed(r) && r.kind == 0 && r.time == 0 && r.duration == 0 && r.info == ""
  {
    hide Split, Numbers, Encode;
    EncodeParts(r);
    var s := Cut(Encode(r), BUFFER);
    CutField(r.number, r.name + ";" + Numbers(r), BUFFER);
    assert Decode(s) == Record(s, s, 0, 0, 0, "");
    if |r.number| == BUFFER { assert (r.number + ";" + r.number)[..BUFFER] == r.number; }
  }

  /** Cut behind the name: the numbers that are missing are taken for 0. */
  lemma CutBehindName(r: Record)
    requires |r.number| + 1 + |r.name| < BUFFER < |Encode(r)| && ';' !in r.number
    ensures Decode(Cut(Encode(r), BUFFER)) == r <==>
      && Clean(r) && r.info == "" && r.duration == 0
      && (|Encode(r)| <= BUFFER + 2 ||
          (r.time == 0 && (|Encode(r)| <= BUFFER + 4 || (r.kind == 0 && |Encode(r)| <= BUFFER + 6))))
  {
    hide Split, Numbers, Encode, Decode;
    EncodeParts(r);
    var s := Cut(Encode(r), BUFFER);
    var m := BUFFER - |r.number| - 1;
    CutField(r.number, r.name + ";" + Numbers(r), BUFFER);
    CutField(r.name, Numbers(r), m);
    if ';' in r.name {
      DecodedFields(s);
    } else {
      CutNumbers(r, s, m - |r.name| - 1);
    }
  }

  lemma NumbersLength(r: Record)
    ensures |Numbers(r)| >= 6
  {
    ZeroIsOneDigit(r.kind);
    ZeroIsOneDigit(r.time);
    ZeroIsOneDigit(r.duration);
  }

  /** An entry comes back from the file exactly if it is storable. */
  lemma {:induction false} ReadBackIffStorable(r: Record)
    ensures Decode(Read(Encode(r))) == r <==> Storable(r)
  {
    hide Split, Numbers, Encode, Decode, Echoed;
    var s := Cut(Encode(r), BUFFER);
    EncodeParts(r);
    NumbersLength(r);
    DecodedFields(s);
    assert Echoed(r) ==> ';' !in r.number && |r.name| == BUFFER by { EchoedFacts(r); }
    if |Encode(r)| <= BUFFER {
      DecodeInvertsEncodeIffClean(r);
    } else if ';' !in r.number {
      if |r.number| >= BUFFER {
        CutInNumber(r);
      } else if BUFFER <= |r.number| + 1 + |r.name| {
        CutInName(r);
      } else {
        CutBehindName(r);
      }
    }
  }
}

/** One call history entry as text: CallEncode and CallDecode in Calls.cpp. */
module CallRecord {
  import opened SipUri

  type int32 = x: int | -0x8000_0000 <= x < 0x8000_0000

  /** The stored fields of a `Call`; `kind` is MSIP_CALL_OUT (0), MSIP_CALL_IN (1) or MSIP_CALL_MISS (2). */
  datatype Record = Record(number: string, name: string, kind: int32, time: int32, duration: int32, info: string)

  // ---------------------------------------------------------------- decimal numbers

  function Digit(n: nat): (c: char)
    requires n < 10
  {
    ('0' as int + n) as char
  }

  predicate IsDigit(c: char) { '0' <= c <= '9' }

  function Digits(n: nat): (s: string)
    ensures s != "" && forall i :: 0 <= i < |s| ==> IsDigit(s[i])
  {
    if n < 10 then [Digit(n)] else Digits(n / 10) + [Digit(n % 10)]
  }

  /** `%d` */
  function Decimal(n: int): (s: string)
    ensures ';' !in s
  {
    if n < 0 then "-" + Digits(0 - n) else Digits(n)
  }

  function ReadDigits(s: string, acc: nat): (n: nat) {
    if s != "" && IsDigit(s[0]) then ReadDigits(s[1..], acc * 10 + (s[0] as int - '0' as int)) else acc
  }

  function SkipSpace(s: string): (r: string) {
    if s != "" && (s[0] == ' ' || '\t' <= s[0] <= '\r') then SkipSpace(s[1..]) else s
  }

  function Clamp(n: int): (r: int32) {
    if n < -0x8000_0000 then -0x8000_0000 else if n > 0x7FFF_FFFF then 0x7FFF_FFFF else n
  }

  function Atoi(s: string): (r: int32) {
    var t := SkipSpace(s);
    if t != "" && t[0] == '-' then Clamp(0 - ReadDigits(t[1..], 0))
    else if t != "" && t[0] == '+' then Clamp(ReadDigits(t[1..], 0))
    else Clamp(ReadDigits(t, 0))
  }

  lemma {:induction false} ReadDigitsAppend(s: string, c: char, acc: nat)
    requires IsDigit(c) && forall i :: 0 <= i < |s| ==> IsDigit(s[i])
    ensures ReadDigits(s + [c], acc) == ReadDigits(s, acc) * 10 + (c as int - '0' as int)
  {
    if s == "" {
      assert (s + [c])[1..] == "";
    } else {
      assert (s + [c])[1..] == s[1..] + [c];
      ReadDigitsAppend(s[1..], c, acc * 10 + (s[0] as int - '0' as int));
    }
  }

  lemma {:induction false} ReadDigitsInverts(n: nat)
    ensures ReadDigits(Digits(n), 0) == n
  {
    if n >= 10 {
      ReadDigitsInverts(n / 10);
      ReadDigitsAppend(Digits(n / 10), Digit(n % 10), 0);
    } else {
      assert Digits(n)[1..] == "";
    }
  }

  lemma {:induction false} AtoiInvertsDecimal(n: int32)
    ensures Atoi(Decimal(n)) == n
  {
    if n < 0 {
      var m: nat := 0 - n;
      ReadDigitsInverts(m);
      assert Decimal(n)[1..] == Digits(m);
    } else {
      ReadDigitsInverts(n);
      assert IsDigit(Digits(n)[0]);
    }
  }

  lemma {:induction false} ReadDigitsStops(s: string, tail: string, acc: nat)
    requires (forall i :: 0 <= i < |s| ==> IsDigit(s[i])) && (tail == "" || !IsDigit(tail[0]))
    ensures ReadDigits(s + tail, acc) == ReadDigits(s, acc)
  {
    if s == "" {
      assert s + tail == tail;
    } else {
      assert (s + tail)[1..] == s[1..] + tail;
      ReadDigitsStops(s[1..], tail, acc * 10 + (s[0] as int - '0' as int));
    }
  }

  /** Leading blanks and a plus sign are skipped, what follows the digits is ignored, and large numbers saturate. */
  lemma {:induction false} AtoiForms(n: nat, tail: string, s: string)
    requires tail == "" || !IsDigit(tail[0])
    ensures Atoi(" " + s) == Atoi(s)
    ensures Atoi(Digits(n) + tail) == Atoi("+" + Digits(n) + tail) == if n > 0x7FFF_FFFF then 0x7FFF_FFFF else n
    ensures Atoi("-" + Digits(n) + tail) == if n > 0x8000_0000 then -0x8000_0000 else 0 - n
    ensures s == "" || (!IsDigit(s[0]) && s[0] !in "+- " && !('\t' <= s[0] <= '\r')) ==> Atoi(s) == 0
  {
    assert (" " + s)[1..] == s;
    var t := Digits(n) + tail;
    assert t[0] == Digits(n)[0] && IsDigit(t[0]);
    assert "+" + Digits(n) + tail == "+" + t && "-" + Digits(n) + tail == "-" + t;
    assert ("+" + t)[1..] == t && ("-" + t)[1..] == t;
    ReadDigitsStops(Digits(n), tail, 0);
    ReadDigitsInverts(n);
  }

  // ---------------------------------------------------------------- the text form

  /** `CallEncode` */
  function Encode(r: Record): (s: string) {
    r.number + ";" + (r.name + ";" +
      (Decimal(r.kind) + ";" + (Decimal(r.time) + ";" + (Decimal(r.duration) + ";" + r.info))))
  }

  /** The fields between semicolons. */
  function Split(s: string): (parts: seq<string>)
    ensures parts != []
    decreases |s|
  {
    var i := Find(s, ";", 0);
    if i < 0 then [s] else [s[..i]] + Split(s[i + 1..])
  }

  function Kind(n: int32): (k: int32) { if n > 2 || n < 0 then 0 else n }

  /** What a text with these fields stands for; fields that are missing or not closed keep their defaults. */
  function Fields(s: string, parts: seq<string>): (r: Record)
    requires parts != []
  {
    var n := |parts|;
    Record(
      if n >= 2 then parts[0] else s,
      if n >= 3 then parts[1] else s,
      if n >= 4 then Kind(Atoi(parts[2])) else 0,
      if n >= 5 then Atoi(parts[3]) else 0,
      if n >= 6 then Atoi(parts[4]) else 0,
      if n >= 6 then parts[5] else "")
  }

  function Decode(s: string): (r: Record) { Fields(s, Split(s)) }

  /** What is left of `s` from `begin` on are its fields from the `k`-th on. */
  predicate Reached(s: string, begin: nat, k: nat) {
    begin <= |s| && k < |Split(s)| && Split(s[begin..]) == Split(s)[k..]
  }

  lemma {:induction false} FindInSuffix(s: string, begin: nat)
    requires begin <= |s|
    ensures var i, j := Find(s, ";", begin), Find(s[begin..], ";", 0); i == if j < 0 then -1 else begin + j
  {
    hide Find;
    var i, j := Find(s, ";", begin), Find(s[begin..], ";", 0);
    if i >= 0 {
      AtChar(s, ';', i);
      AtChar(s[begin..], ';', i - begin);
    }
    if j >= 0 {
      AtChar(s[begin..], ';', j);
      AtChar(s, ';', begin + j);
    }
  }

  lemma ReachedStart(s: string)
    ensures Reached(s, 0, 0)
  {
  }

  /** One `Find` of `CallDecode` peels one field off what is left. */
  lemma {:induction false} NextField(s: string, begin: nat, k: nat)
    requires Reached(s, begin, k)
    ensures begin <= |s| && k < |Split(s)|
    ensures var end := Find(s, ";", begin);
      if end < 0 then |Split(s)| == k + 1 && Split(s)[k] == s[begin..]
      else begin <= end < |s| && |Split(s)| >= k + 2 && Split(s)[k] == s[begin..end] && Reached(s, end + 1, k + 1)
  {
    hide Find;
    FindInSuffix(s, begin);
    var j := Find(s[begin..], ";", 0);
    assert Split(s)[k] == Split(s)[k..][0];
    if j >= 0 {
      AtChar(s[begin..], ';', j);
      assert s[begin..][..j] == s[begin..begin + j] && s[begin..][j + 1..] == s[begin + j + 1..];
      assert Split(s)[k + 1..] == Split(s)[k..][1..];
    }
  }

  /** `CallDecode` */
  method CallDecode(str: string) returns (r: Record)
    ensures r == Decode(str)
  {
    hide Find, Split, Atoi, Reached;
    r := Record(str, str, 0, 0, 0, "");
    var begin := 0;
    ReachedStart(str);
    NextField(str, begin, 0);
    var end := Find(str, ";", begin);
    if end != -1 {
      r := r.(number := str[begin..end]);
      begin := end + 1;
      NextField(str, begin, 1);
      end := Find(str, ";", begin);
      if end != -1 {
        r := r.(name := str[begin..end]);
        begin := end + 1;
        NextField(str, begin, 2);
        end := Find(str, ";", begin);
        if end != -1 {
          r := r.(kind := Atoi(str[begin..end]));
          if r.kind > 2 || r.kind < 0 { r := r.(kind := 0); }
          begin := end + 1;
          NextField(str, begin, 3);
          end := Find(str, ";", begin);
          if end != -1 {
            r := r.(time := Atoi(str[begin..end]));
            begin := end + 1;
            NextField(str, begin, 4);
            end := Find(str, ";", begin);
            if end != -1 {
              r := r.(duration := Atoi(str[begin..end]));
              begin := end + 1;
              NextField(str, begin, 5);
              end := Find(str, ";", begin);
              r := r.(info := if end != -1 then str[begin..end] else str[begin..]);
            }
          }
        }
      }
    }
  }

  // ---------------------------------------------------------------- round trip

  /** The text before the first semicolon. */
  function Head(s: string): (h: string) {
    if s == "" || s[0] == ';' then "" else [s[0]] + Head(s[1..])
  }

  lemma {:induction false} HeadFacts(s: string)
    ensures Head(s) <= s && ';' !in Head(s)
    ensures Head(s) == s <==> ';' !in s
    ensures ';' in s ==> s[|Head(s)|] == ';'
  {
    if s != "" && s[0] != ';' { HeadFacts(s[1..]); }
  }

  /** The first field of a text, whatever it contains, and the rest when that field is free of semicolons. */
  lemma {:induction false} SplitField(a: string, rest: string)
    ensures var parts := Split(a + ";" + rest); |parts| >= 2 && parts[0] == Head(a)
    ensures ';' !in a ==> Split(a + ";" + rest) == [a] + Split(rest)
  {
    hide Find;
    var s := a + ";" + rest;
    var i := |Head(a)|;
    HeadFacts(a);
    assert s[i] == ';' && s[..i] == Head(a);
    assert forall j :: 0 <= j < i ==> s[j] == Head(a)[j];
    FindFirst(s, ';', 0, i);
    if ';' !in a { assert s[i + 1..] == rest; }
  }

  lemma {:induction false} SplitLast(a: string)
    ensures Split(a)[0] == Head(a)
    ensures ';' !in a ==> Split(a) == [a]
  {
    hide Find;
    HeadFacts(a);
    if ';' in a {
      var i := |Head(a)|;
      assert forall j :: 0 <= j < i ==> a[j] == Head(a)[j];
      FindFirst(a, ';', 0, i);
    } else {
      FindNone(a, ';', 0);
    }
  }

  predicate Clean(r: Record) {
    ';' !in r.number && ';' !in r.name && ';' !in r.info && 0 <= r.kind <= 2
  }

  lemma {:induction false} SplitEncode(r: Record)
    ensures |Split(Encode(r))| >= 2 && Split(Encode(r))[0] == Head(r.number)
    ensures ';' !in r.number ==> |Split(Encode(r))| >= 3 && Split(Encode(r))[1] == Head(r.name)
    ensures ';' !in r.number && ';' !in r.name ==>
      Split(Encode(r)) ==
      [r.number, r.name, Decimal(r.kind), Decimal(r.time), Decimal(r.duration)] + Split(r.info)
  {
    hide Find, Split, Decimal;
    var t5 := Decimal(r.duration) + ";" + r.info;
    var t4 := Decimal(r.time) + ";" + t5;
    var t3 := Decimal(r.kind) + ";" + t4;
    var t2 := r.name + ";" + t3;
    assert Encode(r) == r.number + ";" + t2;
    SplitField(r.number, t2);
    SplitField(r.name, t3);
    SplitField(Decimal(r.kind), t4);
    SplitField(Decimal(r.time), t5);
    SplitField(Decimal(r.duration), r.info);
  }

  /** What each field of a record comes back as, when only the first two must be free of semicolons. */
  lemma {:induction false} DecodedFieldByField(r: Record)
    requires ';' !in r.number && ';' !in r.name
    ensures Decode(Encode(r)) == Record(
      r.number, r.name, if 0 <= r.kind <= 2 then r.kind else 0, r.time, r.duration, Head(r.info))
  {
    hide Split, Atoi, Decimal, Head;
    SplitEncode(r);
    SplitLast(r.info);
    AtoiInvertsDecimal(r.kind);
    AtoiInvertsDecimal(r.time);
    AtoiInvertsDecimal(r.duration);
  }

  /** A record comes back from its text exactly when its fields hold no semicolon and its type is one of the three. */
  lemma {:induction false} DecodeInvertsEncodeIffClean(r: Record)
    ensures Decode(Encode(r)) == r <==> Clean(r)
  {
    hide Split, Atoi, Decimal, Head;
    SplitEncode(r);
    HeadFacts(r.number);
    HeadFacts(r.name);
    HeadFacts(r.info);
    SplitLast(r.info);
    AtoiInvertsDecimal(r.kind);
    AtoiInvertsDecimal(r.time);
    AtoiInvertsDecimal(r.duration);
  }
}

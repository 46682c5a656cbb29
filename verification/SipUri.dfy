/** SIP URI parsing and formatting in global.cpp, a subset of section 19.1.1 of RFC 3261. */
module SipUri {
  datatype Uri = Uri(user: string, domain: string, name: string)

  datatype Transport = Auto | Tcp | Tls

  /** The account settings the formatter consults; an active account has a non-zero id. */
  datatype Settings = Settings(accountId: nat, domain: string, transport: Transport)

  predicate At(s: string, p: string, i: nat) { i + |p| <= |s| && s[i..i + |p|] == p }

  /** `CString::Find`: the first occurrence at or after `start`, or -1. */
  function Find(s: string, p: string, start: nat): (r: int)
    ensures r >= -1 && (r >= 0 ==> start <= r && At(s, p, r))
    ensures forall i :: start <= i && At(s, p, i) ==> 0 <= r <= i
    decreases |s| + 1 - start
  {
    if start > |s| then -1 else if At(s, p, start) then start else Find(s, p, start + 1)
  }

  function Lower(c: char): (l: char) { if 'A' <= c <= 'Z' then (c as int + 32) as char else c }

  /** `CString::MakeLower`, on ASCII letters */
  function LowerAll(s: string): (l: string) { seq(|s|, i requires 0 <= i < |s| => Lower(s[i])) }

  function TrimLeft(s: string, cs: set<char>): (r: string) {
    if s != [] && s[0] in cs then TrimLeft(s[1..], cs) else s
  }

  function TrimRight(s: string, cs: set<char>): (r: string) {
    if s != [] && s[|s| - 1] in cs then TrimRight(s[..|s| - 1], cs) else s
  }

  /** `CString::Trim` */
  function Trim(s: string, cs: set<char>): (r: string) { TrimLeft(TrimRight(s, cs), cs) }

  /** `ParseSIPURI` */
  function ParseSIPURI(text: string): (out: Uri) {
    var scheme := Find(text, "sip:", 0);
    var trimmed := if scheme > 0 then Trim(text[..scheme], {' ', '"', '<'}) else "";
    var name := if LowerAll(trimmed) == "unknown" then "" else trimmed;
    var start := if scheme >= 0 then scheme + 4 else 0;
    var at := Find(text, "@", start);
    var user := if at >= 0 then text[start..at] else "";
    var from := if at >= 0 then at + 1 else start;
    Uri(user, DomainFrom(text, from), name)
  }

  /** The domain that starts at `from`: up to the first ';', else up to the first '>', else up to the end. */
  function DomainFrom(text: string, from: nat): (d: string)
    requires from <= |text|
  {
    var semicolon := Find(text, ";", from);
    var end := if semicolon >= 0 then semicolon else Find(text, ">", from);
    if end >= 0 then text[from..end] else text[from..]
  }

  /** `AddTransportSuffix` */
  function TransportSuffix(t: Transport): (r: string) {
    match t
    case Auto => ""
    case Tcp => ";transport=tcp"
    case Tls => ";transport=tls"
  }

  predicate HasScheme(s: string) { Find(LowerAll(s), "sip:", 0) >= 0 }

  function WithScheme(str: string): (r: string)
    ensures r != ""
  {
    if HasScheme(str) then str else "sip:" + str
  }

  function Addressed(str: string, isLocal: bool, settings: Settings): (r: string) {
    if !isLocal && settings.accountId != 0 && Find(str, "@", 0) == -1 then str + "@" + settings.domain else str
  }

  function Bracketed(str: string, suffix: string): (r: string)
    requires str != ""
  {
    if str[|str| - 1] == '>' then str[..|str| - 1] + suffix + ">" else "<" + str + suffix + ">"
  }

  /** `GetSIPURI` */
  function GetSIPURI(str: string, isSimple: bool, isLocal: bool, settings: Settings): (r: string) {
    var suffix :=
      if !isSimple && (!isLocal || settings.accountId == 0) then TransportSuffix(settings.transport) else "";
    Bracketed(Addressed(WithScheme(str), isLocal, settings), suffix)
  }

  // ---------------------------------------------------------------- formatting twice

  lemma AtInside(s: string, p: string, i: nat, before: string, after: string)
    requires At(s, p, i)
    ensures At(before + s + after, p, |before| + i)
  {
  }

  lemma SchemeInside(s: string, before: string, after: string)
    requires HasScheme(s)
    ensures HasScheme(before + s + after)
  {
    hide Find;
    var i := Find(LowerAll(s), "sip:", 0);
    assert LowerAll(before + s + after) == LowerAll(before) + LowerAll(s) + LowerAll(after);
    AtInside(LowerAll(s), "sip:", i, LowerAll(before), LowerAll(after));
  }

  lemma SchemeAdded(s: string)
    ensures HasScheme("sip:" + s)
  {
  }

  lemma AtChar(s: string, c: char, i: nat)
    ensures At(s, [c], i) <==> (i < |s| && s[i] == c)
  {
  }

  lemma FindFirst(s: string, c: char, start: nat, i: nat)
    requires start <= i < |s| && s[i] == c && forall j :: start <= j < i ==> s[j] != c
    ensures Find(s, [c], start) == i
  {
    hide Find;
    AtChar(s, c, i);
    AtChar(s, c, Find(s, [c], start));
  }

  lemma FindNone(s: string, c: char, start: nat)
    requires forall j :: start <= j < |s| ==> s[j] != c
    ensures Find(s, [c], start) == -1
  {
    hide Find;
    if Find(s, [c], start) >= 0 { AtChar(s, c, Find(s, [c], start)); }
  }

  lemma FindSome(s: string, c: char)
    ensures Find(s, [c], 0) >= 0 <==> c in s
  {
    hide Find;
    if c in s {
      var i :| 0 <= i < |s| && s[i] == c;
      AtChar(s, c, i);
    } else {
      FindNone(s, c, 0);
    }
  }

  /** A text the formatter would only bracket. */
  predicate Settled(s: string, isLocal: bool, settings: Settings) {
    HasScheme(s) && (isLocal || settings.accountId == 0 || '@' in s)
  }

  lemma SettledStays(s: string, isLocal: bool, settings: Settings)
    requires Settled(s, isLocal, settings)
    ensures Addressed(WithScheme(s), isLocal, settings) == s
  {
    hide Find, LowerAll;
    FindSome(s, '@');
  }

  lemma BecomesSettled(str: string, isLocal: bool, settings: Settings)
    ensures Settled(Addressed(WithScheme(str), isLocal, settings), isLocal, settings)
  {
    hide Find, LowerAll;
    var w := WithScheme(str);
    if !HasScheme(str) { SchemeAdded(str); }
    FindSome(w, '@');
    var a := Addressed(w, isLocal, settings);
    if a != w {
      SchemeInside(w, "", "@" + settings.domain);
      assert "" + w + ("@" + settings.domain) == a;
      assert a[|w|] == '@';
    }
  }

  lemma BracketsKeepSettled(a: string, isLocal: bool, settings: Settings)
    requires a != "" && Settled(a, isLocal, settings)
    ensures Settled(Bracketed(a, ""), isLocal, settings)
    ensures Bracketed(Bracketed(a, ""), "") == Bracketed(a, "")
  {
    hide Find, LowerAll, HasScheme;
    if a[|a| - 1] == '>' {
      assert a[..|a| - 1] + "" + ">" == a;
    } else {
      SchemeInside(a, "<", ">");
      var r := "<" + a + ">";
      assert Bracketed(a, "") == r;
      assert r[..|r| - 1] + "" + ">" == r;
    }
  }

  /** Formatting in simple mode a second time changes nothing, whatever the input. */
  lemma {:induction false} SimpleFormatIdempotent(str: string, isLocal: bool, settings: Settings)
    ensures var r := GetSIPURI(str, true, isLocal, settings); GetSIPURI(r, true, isLocal, settings) == r
  {
    hide Find, LowerAll, HasScheme;
    BecomesSettled(str, isLocal, settings);
    var a := Addressed(WithScheme(str), isLocal, settings);
    BracketsKeepSettled(a, isLocal, settings);
    SettledStays(Bracketed(a, ""), isLocal, settings);
  }

  // ---------------------------------------------------------------- parsing what was formatted

  lemma BracketTrimmed()
    ensures Trim("<", {' ', '"', '<'}) == "" && LowerAll("") == ""
  {
    assert "<"[..0] == "";
  }

  predicate Closed(d: string) { d != "" && d[|d| - 1] == '>' }

  /** What stands in front of a formatted address, and what is left of its domain. */
  function Opening(d: string): (o: string) { if Closed(d) then "" else "<" }

  function Inner(d: string): (i: string) { if Closed(d) then d[..|d| - 1] else d }

  /** The domain is delimited by the first semicolon or, without a transport, by the first bracket. */
  predicate Delimited(d: string, suffix: string) { ';' !in d && !Closed(d) && (suffix == "" ==> '>' !in d) }

  predicate IsSuffix(suffix: string) { suffix == "" || (suffix[0] == ';' && 'i' !in suffix && '@' !in suffix) }

  /** No parsed domain holds a semicolon, nor a bracket unless a semicolon ended it. */
  lemma DomainIsPlain(text: string, from: nat)
    requires from <= |text|
    ensures ';' !in DomainFrom(text, from)
    ensures ';' !in text[from..] ==> '>' !in DomainFrom(text, from)
  {
    hide Find;
    var d, semicolon, bracket := DomainFrom(text, from), Find(text, ";", from), Find(text, ">", from);
    if semicolon >= 0 {
      AtChar(text, ';', semicolon);
      assert text[from..][semicolon - from] == ';';
    }
    if bracket >= 0 { AtChar(text, '>', bracket); }
    forall j | 0 <= j < |d| ensures d[j] != ';' && (semicolon < 0 ==> d[j] != '>') {
      AtChar(text, ';', from + j);
      AtChar(text, '>', from + j);
    }
  }

  /** Behind any text that ends with the '@', the domain is parsed back exactly if it is delimited. */
  lemma DomainRecovered(head: string, d: string, suffix: string)
    requires IsSuffix(suffix)
    ensures DomainFrom(head + Inner(d) + (suffix + ">"), |head|) == d <==> Delimited(d, suffix)
  {
    hide Find, DomainFrom;
    var r, n := head + Inner(d) + (suffix + ">"), |head| + |Inner(d)|;
    assert r[|head|..n] == Inner(d) && r[n] == (suffix + ">")[0];
    assert forall j :: |head| <= j < n ==> r[j] == Inner(d)[j - |head|];
    DomainIsPlain(r, |head|);
    if ';' in d {
    } else if suffix != "" {
      DomainEndsAt(r, |head|, n);
    } else {
      assert r[|head|..] == Inner(d) + ">";
      if '>' !in d { DomainEndsAt(r, |head|, n); }
    }
  }

  lemma DomainEndsAt(r: string, from: nat, n: nat)
    requires from <= n < |r| && forall j :: from <= j < n ==> r[j] != ';'
    requires r[n] == ';' || (r[n] == '>' && n == |r| - 1 && forall j :: from <= j < n ==> r[j] != '>')
    ensures DomainFrom(r, from) == r[from..n]
  {
    hide Find;
    if r[n] == ';' {
      FindFirst(r, ';', from, n);
    } else {
      FindNone(r, ';', from);
      FindFirst(r, '>', from, n);
    }
  }

  /** No parsed user holds an '@'. */
  lemma UserIsPlain(text: string)
    ensures '@' !in ParseSIPURI(text).user
  {
    hide Find, LowerAll, Trim, DomainFrom;
    var u, scheme := ParseSIPURI(text).user, Find(text, "sip:", 0);
    var start := if scheme >= 0 then scheme + 4 else 0;
    var at := Find(text, "@", start);
    forall j | 0 <= j < |u| ensures u[j] != '@' { AtChar(text, '@', start + j); }
  }

  lemma SchemeAtFront(r: string, k: nat)
    requires At(r, "sip:", k) && (k == 0 || (k == 1 && r[0] == '<'))
    ensures Find(r, "sip:", 0) == k
  {
    hide Find;
    assert k == 1 ==> r[0..0 + 4][0] == '<';
  }

  lemma ParseAt(r: string, k: nat, at: nat)
    requires At(r, "sip:", k) && (k == 0 || (k == 1 && r[0] == '<'))
    requires k + 4 <= at < |r| && r[at] == '@' && forall j :: k + 4 <= j < at ==> r[j] != '@'
    ensures ParseSIPURI(r) == Uri(r[k + 4..at], DomainFrom(r, at + 1), "")
  {
    hide Find, LowerAll, Trim, DomainFrom;
    BracketTrimmed();
    SchemeAtFront(r, k);
    assert k == 1 ==> r[..k] == "<";
    FindFirst(r, '@', k + 4, at);
  }

  /** An address that the formatter has given its scheme: user and domain are parsed back, and there is no name. */
  lemma ParseLayout(open: string, user: string, rest: string)
    requires (open == "" || open == "<") && '@' !in user
    ensures var head := open + ("sip:" + user) + "@";
      ParseSIPURI(head + rest) == Uri(user, DomainFrom(head + rest, |head|), "")
  {
    var w := "sip:" + user;
    var head := open + w + "@";
    var r, k, at := head + rest, |open|, |open| + |w|;
    assert r[k..at] == w && r[at] == '@' && (k == 1 ==> r[0] == '<');
    assert w[..4] == "sip:" && w[4..] == user;
    assert r[k..k + 4] == r[k..at][..4] && r[k + 4..at] == r[k..at][4..];
    hide ParseSIPURI, DomainFrom;
    ParseAt(r, k, at);
  }

  /** What the formatter makes of a user without '@'. */
  function Written(user: string, suffix: string, d: string): (r: string) {
    Opening(d) + (if HasScheme(user) then user else "sip:" + user) + "@" + Inner(d) + (suffix + ">")
  }

  lemma FormatLayout(user: string, suffix: string, settings: Settings)
    requires settings.accountId != 0 && '@' !in user
    ensures Bracketed(Addressed(WithScheme(user), false, settings), suffix) == Written(user, suffix, settings.domain)
  {
    hide Find, LowerAll, HasScheme;
    var w, d := WithScheme(user), settings.domain;
    FindSome(w, '@');
    var a := w + "@" + d;
    assert Addressed(w, false, settings) == a;
    if d == "" {
      assert a[|a| - 1] == '@';
    } else {
      assert a[|a| - 1] == d[|d| - 1];
    }
    if Closed(d) {
      assert a[..|a| - 1] == w + "@" + Inner(d);
      Regroup("", w + "@" + Inner(d), suffix);
    } else {
      Regroup("<", a, suffix);
    }
  }

  lemma Regroup(open: string, a: string, suffix: string)
    ensures open + a + suffix + ">" == open + a + (suffix + ">")
  {
  }

  lemma DomainWithin(r: string, from: nat, end: nat)
    requires from <= end < |r| && (r[end] == ';' || (r[end] == '>' && end == |r| - 1))
    ensures |DomainFrom(r, from)| <= end - from
  {
    hide Find;
    AtChar(r, ';', end);
    AtChar(r, '>', end);
    var semicolon := Find(r, ";", from);
    if semicolon >= 0 { AtChar(r, ';', semicolon); }
  }

  /** The letters of a scheme found in a text, none of which is '@', ';' or '>'. */
  lemma SchemeLetters(r: string, i: nat)
    requires At(r, "sip:", i)
    ensures i + 4 <= |r| && r[i] == 's' && r[i + 1] == 'i' && r[i + 2] == 'p' && r[i + 3] == ':'
  {
    var p := r[i..i + 4];
    assert r[i] == p[0] && r[i + 1] == p[1] && r[i + 2] == p[2] && r[i + 3] == p[3];
  }

  /** Behind the '@' at a, with the tail of the address from b on, the scheme can only lead into the domain. */
  lemma SchemeInDomain(r: string, a: nat, b: nat, i: nat)
    requires a < b < |r| && r[a] == '@' && (r[b] == ';' || (r[b] == '>' && b == |r| - 1))
    requires At(r, "sip:", i) && a < i + 4 && forall j :: b <= j < |r| ==> r[j] != 'i' && r[j] != '@'
    requires Find(r, "sip:", 0) == i
    ensures |ParseSIPURI(r).domain| + 5 <= b - a
  {
    hide Find, LowerAll, Trim, DomainFrom, At;
    SchemeLetters(r, i);
    assert a < i && i + 4 <= b;
    var at := Find(r, "@", i + 4);
    if at >= 0 { AtChar(r, '@', at); }
    DomainWithin(r, if at >= 0 then at + 1 else i + 4, b);
  }

  lemma NoScheme(r: string, a: nat)
    requires Find(r, "sip:", 0) < 0 && a < |r| && r[a] == '@' && forall j :: 0 <= j < a ==> r[j] != '@'
    ensures ParseSIPURI(r) == Uri(r[..a], DomainFrom(r, a + 1), "")
  {
    BracketTrimmed();
    hide Find, LowerAll, Trim, DomainFrom;
    FindFirst(r, '@', 0, a);
  }

  lemma SchemeInUser(r: string, a: nat)
    requires 0 <= Find(r, "sip:", 0) <= a - 4 && a < |r| && r[a] == '@' && forall j :: 0 <= j < a ==> r[j] != '@'
    ensures |ParseSIPURI(r).user| + 4 <= a
  {
    hide LowerAll, Trim, DomainFrom;
    var i := Find(r, "sip:", 0);
    hide Find;
    FindFirst(r, '@', i + 4, a);
  }

  /** A user that brings its own scheme is not parsed back as it was. */
  lemma OwnSchemeIsLost(user: string, d: string, suffix: string)
    requires '@' !in user && IsSuffix(suffix)
    ensures ParseSIPURI(Opening(d) + user + "@" + Inner(d) + (suffix + ">")) != Uri(user, d, "")
  {
    hide Find, ParseSIPURI, DomainFrom, IsSuffix;
    var head := Opening(d) + user + "@";
    var r := head + Inner(d) + (suffix + ">");
    var a, b := |Opening(d)| + |user|, |head| + |Inner(d)|;
    assert r[..a] == Opening(d) + user && r[a] == '@' && r[b..] == suffix + ">";
    assert forall j :: 0 <= j < a ==> r[j] == (Opening(d) + user)[j];
    assert forall j :: b <= j < |r| ==> r[j] == r[b..][j - b];
    TailIsPlain(suffix);
    var i := Find(r, "sip:", 0);
    if i < 0 {
      NoScheme(r, a);
      DomainRecovered(head, d, suffix);
    } else if i + 4 <= a {
      SchemeInUser(r, a);
    } else {
      SchemeInDomain(r, a, b, i);
    }
  }

  lemma TailIsPlain(suffix: string)
    requires IsSuffix(suffix)
    ensures var tail := suffix + ">";
      && 'i' !in tail && '@' !in tail && tail[0] == (if suffix == "" then '>' else ';')
  {
  }

  lemma SuffixIsPlain(t: Transport)
    ensures IsSuffix(TransportSuffix(t)) && IsSuffix("")
  {
  }

  /**
    * With an active account, parsing recovers what a non-local formatting put together exactly if the user holds no
    * '@' and no scheme, and the domain is delimited.
    */
  lemma {:induction false} ParseRecovers(user: string, isSimple: bool, settings: Settings)
    requires settings.accountId != 0
    ensures var suffix := if isSimple then "" else TransportSuffix(settings.transport);
      ParseSIPURI(GetSIPURI(user, isSimple, false, settings)) == Uri(user, settings.domain, "") <==>
      '@' !in user && !HasScheme(user) && Delimited(settings.domain, suffix)
  {
    hide Find, LowerAll, HasScheme, ParseSIPURI, Bracketed, Addressed, WithScheme, IsSuffix, Delimited, TransportSuffix;
    var suffix, d := if isSimple then "" else TransportSuffix(settings.transport), settings.domain;
    SuffixIsPlain(settings.transport);
    UserIsPlain(GetSIPURI(user, isSimple, false, settings));
    if '@' !in user {
      FormatLayout(user, suffix, settings);
      if HasScheme(user) {
        OwnSchemeIsLost(user, d, suffix);
      } else {
        var head, rest := Opening(d) + ("sip:" + user) + "@", Inner(d) + (suffix + ">");
        assert head + Inner(d) + (suffix + ">") == head + rest;
        ParseLayout(Opening(d), user, rest);
        DomainRecovered(head, d, suffix);
      }
    }
  }

  // ---------------------------------------------------------------- the text that is written

  /** The address of a plain user, letter by letter: what is written for each transport, and where none is written. */
  lemma {:induction false} AddressWritten(user: string, isLocal: bool, settings: Settings)
    requires '@' !in user && !HasScheme(user) && !Closed(user) && !Closed(settings.domain)
    ensures var bare :=
        if isLocal || settings.accountId == 0 then "sip:" + user else "sip:" + user + "@" + settings.domain;
      && GetSIPURI(user, true, isLocal, settings) == "<" + bare + ">"
      && (settings.transport.Auto? || (isLocal && settings.accountId != 0) ==>
            GetSIPURI(user, false, isLocal, settings) == "<" + bare + ">")
      && (settings.transport.Tcp? && !(isLocal && settings.accountId != 0) ==>
            GetSIPURI(user, false, isLocal, settings) == "<" + bare + ";transport=tcp>")
      && (settings.transport.Tls? && !(isLocal && settings.accountId != 0) ==>
            GetSIPURI(user, false, isLocal, settings) == "<" + bare + ";transport=tls>")
  {
    hide Find, LowerAll, HasScheme;
    var w := "sip:" + user;
    FindSome(w, '@');
    assert w[|w| - 1] == if user == "" then ':' else user[|user| - 1];
    var a := Addressed(w, isLocal, settings);
    var d := settings.domain;
    if a != w { assert a[|a| - 1] == if d == "" then '@' else d[|d| - 1]; }
    assert ";transport=tcp" + ">" == ";transport=tcp>" && ";transport=tls" + ">" == ";transport=tls>";
    Regroup("<", a, "");
    Regroup("<", a, ";transport=tcp");
    Regroup("<", a, ";transport=tls");
    assert "" + ">" == ">";
  }

  lemma CompleteAddressWritten(user: string, d: string, isSimple: bool, settings: Settings)
    requires !HasScheme(user + "@" + d) && !Closed(d)
    ensures var suffix := if isSimple then "" else TransportSuffix(settings.transport);
      GetSIPURI(user + "@" + d, isSimple, false, settings) == "<" + ("sip:" + (user + "@" + d)) + suffix + ">"
  {
    hide Find, LowerAll, HasScheme, TransportSuffix;
    var w := "sip:" + (user + "@" + d);
    assert w[4 + |user|] == '@';
    FindSome(w, '@');
    assert w[|w| - 1] == if d == "" then '@' else d[|d| - 1];
  }

  lemma RegroupAddress(user: string, d: string, suffix: string)
    ensures "<" + ("sip:" + (user + "@" + d)) + suffix + ">" == "<" + ("sip:" + user) + "@" + (d + (suffix + ">"))
    ensures "<" + ("sip:" + user) + "@" + (d + (suffix + ">")) == "<" + ("sip:" + user) + "@" + d + (suffix + ">")
  {
  }

  /** An address that is complete but for its scheme is parsed back as it was. */
  lemma {:induction false} CompleteAddressRecovers(user: string, d: string, isSimple: bool, settings: Settings)
    requires '@' !in user && !HasScheme(user + "@" + d) && ';' !in d && '>' !in d
    ensures ParseSIPURI(GetSIPURI(user + "@" + d, isSimple, false, settings)) == Uri(user, d, "")
  {
    hide Find, HasScheme, ParseSIPURI, GetSIPURI, TransportSuffix, IsSuffix, DomainFrom;
    var suffix := if isSimple then "" else TransportSuffix(settings.transport);
    SuffixIsPlain(settings.transport);
    CompleteAddressWritten(user, d, isSimple, settings);
    RegroupAddress(user, d, suffix);
    ParseLayout("<", user, d + (suffix + ">"));
    DomainRecovered("<" + ("sip:" + user) + "@", d, suffix);
  }

  predicate LetterAt(s: string, i: nat, lower: char, upper: char) { i < |s| && (s[i] == lower || s[i] == upper) }

  predicate SchemeAt(s: string, i: nat) {
    && LetterAt(s, i, 's', 'S') && LetterAt(s, i + 1, 'i', 'I')
    && LetterAt(s, i + 2, 'p', 'P') && LetterAt(s, i + 3, ':', ':')
  }

  /** The scheme is recognised in every mixture of upper and lower case. */
  lemma {:induction false} SchemeInAnyCase(s: string)
    ensures HasScheme(s) <==> exists i: nat :: SchemeAt(s, i)
  {
    hide Find;
    if HasScheme(s) {
      var i := Find(LowerAll(s), "sip:", 0);
      SchemeLetters(LowerAll(s), i);
      assert SchemeAt(s, i);
    }
    if i: nat :| SchemeAt(s, i) {
      assert LowerAll(s)[i..i + 4] == "sip:";
      assert At(LowerAll(s), "sip:", i);
    }
  }

  /** Without an '@' there is no user, and what is left is the domain. */
  lemma {:induction false} ParseWithoutUser(d: string)
    requires '@' !in d && ';' !in d && '>' !in d
    ensures ParseSIPURI("sip:" + d) == Uri("", d, "")
  {
    var r := "sip:" + d;
    assert At(r, "sip:", 0);
    BracketTrimmed();
    assert forall j :: 4 <= j < |r| ==> r[j] == d[j - 4];
    hide Find, LowerAll, Trim;
    FindNone(r, '@', 4);
    FindNone(r, ';', 4);
    FindNone(r, '>', 4);
    assert r[4..] == d;
  }

  // ---------------------------------------------------------------- display names

  predicate Trimmable(c: char) { c == ' ' || c == '"' || c == '<' }

  lemma TrimQuoted(name: string)
    requires name != "" && !Trimmable(name[0]) && !Trimmable(name[|name| - 1])
    ensures Trim("\"" + name + "\" <", {' ', '"', '<'}) == name
  {
    var cs := {' ', '"', '<'};
    var s := "\"" + name;
    assert (s + "\" <")[..|s| + 2] == s + "\" " && (s + "\" ")[..|s| + 1] == s + "\"" && (s + "\"")[..|s|] == s;
    assert TrimRight(s + "\" <", cs) == TrimRight(s + "\" ", cs) == TrimRight(s + "\"", cs) == TrimRight(s, cs) == s;
    assert s[1..] == name;
    assert TrimLeft(s, cs) == TrimLeft(name, cs) == name;
  }

  /** The scheme can occur before the bracket only inside the name itself. */
  lemma SchemeInName(name: string, r: string, i: nat)
    requires |r| >= |name| + 4 && r[..|name| + 4] == "\"" + name + "\" <"
    requires At(r, "sip:", i) && i < |name| + 4
    ensures i >= 1 && At(name, "sip:", i - 1)
  {
    var n, prefix := |name|, "\"" + name + "\" <";
    assert r[0] == prefix[0] && r[n + 1] == prefix[n + 1] && r[n + 2] == prefix[n + 2] && r[n + 3] == prefix[n + 3];
    assert r[i] == r[i..i + 4][0] == 's' && r[i + 1] == r[i..i + 4][1] == 'i';
    assert r[i + 2] == r[i..i + 4][2] == 'p' && r[i + 3] == r[i..i + 4][3] == ':';
    assert name == prefix[1..n + 1] == r[1..n + 1];
    assert name[i - 1..i + 3] == r[i..i + 4];
  }

  lemma FindScheme(name: string, rest: string)
    requires Find(name, "sip:", 0) < 0
    ensures Find("\"" + name + "\" <" + "sip:" + rest, "sip:", 0) == |name| + 4
  {
    hide Find;
    var r := "\"" + name + "\" <" + "sip:" + rest;
    var n := |name|;
    assert r[n + 4..n + 8] == "sip:" && r[..n + 4] == "\"" + name + "\" <";
    assert At(r, "sip:", n + 4);
    forall i: nat | i < n + 4 ensures !At(r, "sip:", i) {
      if At(r, "sip:", i) { SchemeInName(name, r, i); }
    }
  }

  lemma {:induction false} TrimLeftFacts(s: string, cs: set<char>)
    ensures var t := TrimLeft(s, cs); |t| <= |s| && t == s[|s| - |t|..] && (t == "" || t[0] !in cs)
  {
    if s != "" && s[0] in cs { TrimLeftFacts(s[1..], cs); }
  }

  lemma {:induction false} TrimRightFacts(s: string, cs: set<char>)
    ensures var t := TrimRight(s, cs); t <= s && (t == "" || t[|t| - 1] !in cs)
  {
    if s != "" && s[|s| - 1] in cs { TrimRightFacts(s[..|s| - 1], cs); }
  }

  /** Trimming leaves no character of the set at either end. */
  lemma TrimFacts(s: string, cs: set<char>)
    ensures var t := Trim(s, cs); |t| <= |s| && (t == "" || (t[0] !in cs && t[|t| - 1] !in cs))
  {
    hide TrimLeft, TrimRight;
    TrimRightFacts(s, cs);
    TrimLeftFacts(TrimRight(s, cs), cs);
  }

  /** The name part of a text with a scheme at i > 0. */
  lemma NameOf(r: string, i: nat)
    requires Find(r, "sip:", 0) == i > 0
    ensures var t := Trim(r[..i], {' ', '"', '<'}); ParseSIPURI(r).name == if LowerAll(t) == "unknown" then "" else t
  {
    hide Find, Trim, LowerAll, DomainFrom;
  }

  lemma FindSchemeEarly(name: string, rest: string)
    requires Find(name, "sip:", 0) >= 0
    ensures var i := Find("\"" + name + "\" <" + "sip:" + rest, "sip:", 0); 0 < i <= |name| - 3
  {
    hide Find;
    var k, r := Find(name, "sip:", 0), "\"" + name + "\" <" + "sip:" + rest;
    assert r[k + 1..k + 5] == name[k..k + 4];
    assert At(r, "sip:", k + 1);
    assert r[0..0 + 4][0] == '"';
  }

  /** A quoted display name is recovered exactly if nothing trims it, it holds no scheme and it is not "unknown". */
  lemma {:induction false} ParseRecoversName(name: string, rest: string)
    ensures ParseSIPURI("\"" + name + "\" <" + "sip:" + rest).name == name <==>
      name == "" || (
        && !Trimmable(name[0]) && !Trimmable(name[|name| - 1])
        && Find(name, "sip:", 0) < 0 && LowerAll(name) != "unknown")
  {
    hide Find, Trim, LowerAll, ParseSIPURI;
    var prefix := "\"" + name + "\" <";
    var r := prefix + "sip:" + rest;
    if Find(name, "sip:", 0) >= 0 {
      FindSchemeEarly(name, rest);
      var i := Find(r, "sip:", 0);
      NameOf(r, i);
      TrimFacts(r[..i], {' ', '"', '<'});
    } else {
      FindScheme(name, rest);
      NameOf(r, |prefix|);
      assert r[..|prefix|] == prefix;
      TrimFacts(prefix, {' ', '"', '<'});
      if name == "" {
        TrimNothing();
      } else if !Trimmable(name[0]) && !Trimmable(name[|name| - 1]) {
        TrimQuoted(name);
      }
    }
  }

  lemma TrimNothing()
    ensures Trim("\"" + "" + "\" <", {' ', '"', '<'}) == ""
  {
    var cs := {' ', '"', '<'};
    var s := "\"" + "" + "\" <";
    assert s[..3] == "\"\" " && "\"\" "[..2] == "\"\"" && "\"\""[..1] == "\"" && "\""[..0] == "";
    assert TrimRight(s, cs) == TrimRight("\"\" ", cs) == TrimRight("\"\"", cs) == TrimRight("\"", cs) == "";
  }
}

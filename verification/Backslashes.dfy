/** ConvertBackslashes in langpack.cpp: escapes undone in place in a NUL-terminated buffer, one byte per character. */
module Backslashes {
  import opened Unicode
  import opened CString

  const BACKSLASH: Byte := 0x5C

  /** What `\` followed by `c` stands for. */
  function Escape(c: Byte): (r: Byte) {
    if c == 0x6E then 0x0A else if c == 0x74 then 0x09 else if c == 0x72 then 0x0D else c
  }

  /** Left to right; a lone backslash at the end is dropped. */
  function Unescape(s: Text): (r: Text)
    decreases |s|
  {
    if s == [] then []
    else if s[0] != BACKSLASH then [s[0]] + Unescape(s[1..])
    else if |s| == 1 then []
    else [Escape(s[1])] + Unescape(s[2..])
  }

  /** The number of backslashes that introduce an escape, counting one left dangling. */
  function Escapes(s: Text): (n: nat)
    decreases |s|
  {
    if s == [] then 0
    else if s[0] != BACKSLASH then Escapes(s[1..])
    else if |s| == 1 then 1
    else 1 + Escapes(s[2..])
  }

  predicate Dangling(s: Text)
    decreases |s|
  {
    if s == [] then false
    else if s[0] != BACKSLASH then Dangling(s[1..])
    else if |s| == 1 then true
    else Dangling(s[2..])
  }

  /** Unescaping shortens a text by exactly its number of escapes, and never puts a NUL into it. */
  lemma {:induction false} UnescapeLength(s: Text)
    requires 0 !in s
    ensures |Unescape(s)| == |s| - Escapes(s) && 0 !in Unescape(s)
    decreases |s|
  {
    if s != [] {
      if s[0] != BACKSLASH {
        UnescapeLength(s[1..]);
      } else if |s| > 1 {
        UnescapeLength(s[2..]);
      }
    }
  }

  // ---------------------------------------------------------------- writing texts that are read back

  /** How a byte is written so that unescaping gives it back. */
  function EscapedByte(c: Byte): (r: Text) {
    if c == 0x5C then [0x5C, 0x5C]
    else if c == 0x0A then [0x5C, 0x6E]
    else if c == 0x09 then [0x5C, 0x74]
    else if c == 0x0D then [0x5C, 0x72]
    else [c]
  }

  function Escaped(u: Text): (r: Text) { if u == [] then [] else EscapedByte(u[0]) + Escaped(u[1..]) }

  lemma UnescapeByte(c: Byte, rest: Text)
    ensures Unescape(EscapedByte(c) + rest) == [c] + Unescape(rest)
    ensures Dangling(EscapedByte(c) + rest) == Dangling(rest)
  {
    var s, e := EscapedByte(c) + rest, EscapedByte(c);
    assert s[|e|..] == rest && s[0] == e[0] && (|e| == 2 ==> s[1] == e[1]);
  }

  /** Unescaping gives every written text back, and leaves no backslash dangling. */
  lemma {:induction false} UnescapeInverts(u: Text)
    ensures Unescape(Escaped(u)) == u && !Dangling(Escaped(u))
  {
    if u != [] {
      hide Unescape, Dangling, EscapedByte;
      UnescapeInverts(u[1..]);
      UnescapeByte(u[0], Escaped(u[1..]));
    }
  }

  /** A backslash in front of any other character stands for that character. */
  lemma UnescapeOther(c: Byte, rest: Text)
    requires c !in {0x6E, 0x74, 0x72}
    ensures Unescape([0x5C, c] + rest) == [c] + Unescape(rest)
  {
    assert ([0x5C, c] + rest)[2..] == rest;
  }

  lemma {:induction false} EscapedConcat(u: Text, v: Text)
    ensures Escaped(u + v) == Escaped(u) + Escaped(v)
  {
    if u == [] {
      assert u + v == v;
    } else {
      assert (u + v)[1..] == u[1..] + v;
      EscapedConcat(u[1..], v);
    }
  }

  /** A written text is one line. */
  lemma {:induction false} EscapedIsOneLine(u: Text)
    ensures 0x0A !in Escaped(u) && 0x0D !in Escaped(u)
    ensures Escaped(u) == [] <==> u == []
    ensures u != [] ==> Escaped(u)[0] == if u[0] in {0x5C, 0x0A, 0x09, 0x0D} then 0x5C else u[0]
  {
    if u != [] { EscapedIsOneLine(u[1..]); }
  }

  predicate Blank(s: Text) { forall i :: 0 <= i < |s| ==> s[i] == 0x20 }

  lemma BlankCons(c: Byte, s: Text)
    ensures Blank([c] + s) <==> c == 0x20 && Blank(s)
  {
    assert ([c] + s)[0] == c && ([c] + s)[1..] == s;
    assert forall i :: 0 <= i < |s| ==> ([c] + s)[i + 1] == s[i];
  }

  lemma {:induction false} EscapedBlank(u: Text)
    ensures Blank(Escaped(u)) <==> Blank(u)
  {
    if u != [] {
      hide Blank;
      var rest := Escaped(u[1..]);
      EscapedBlank(u[1..]);
      assert u == [u[0]] + u[1..];
      BlankCons(u[0], u[1..]);
      var e := EscapedByte(u[0]);
      if |e| == 1 {
        BlankCons(e[0], rest);
      } else {
        assert Escaped(u) == [e[0]] + ([e[1]] + rest);
        BlankCons(e[0], [e[1]] + rest);
      }
    }
  }

  /** A lone backslash is in the end reached with another NUL behind the terminator, so that reading on is safe. */
  predicate Safe(buf: array<Byte>, end: nat, s: Text)
    reads buf
  {
    Dangling(s) && Escapes(s) == 1 ==> NulBeyond(buf, end)
  }

  predicate NulBeyond(buf: array<Byte>, end: nat)
    reads buf
  {
    exists k :: end < k < buf.Length && buf[k] == 0
  }

  lemma UnescapeStep(s: Text)
    requires s != []
    ensures s[0] != BACKSLASH ==>
      Unescape(s) == [s[0]] + Unescape(s[1..]) && Dangling(s) == Dangling(s[1..]) && Escapes(s) == Escapes(s[1..])
    ensures s[0] == BACKSLASH && |s| >= 2 ==> Unescape(s) == [Escape(s[1])] + Unescape(s[2..])
    ensures s[0] == BACKSLASH && |s| == 1 ==> Unescape(s) == [] && Dangling(s) && Escapes(s) == 1
  {
  }

  lemma StringBehind(buf: array<Byte>, end: nat)
    requires NulBeyond(buf, end)
    ensures end + 1 < buf.Length && StringAt(buf, end + 1, CStr(buf[end + 1..]))
  {
    var k :| end < k < buf.Length && buf[k] == 0;
    var s := buf[end + 1..];
    assert s[k - end - 1] == 0;
    assert buf[end + 1..end + 1 + |CStr(s)|] == s[..|CStr(s)|];
  }

  lemma UnescapeNothing()
    ensures Unescape([]) == [] && !Dangling([])
  {
  }

  lemma Regroup(done: Text, c: Byte, rest: Text)
    ensures done + ([c] + rest) == (done + [c]) + rest
  {
  }

  /** `memmove(buf + to, buf + to + 1, n)` */
  method ShiftDown(buf: array<Byte>, to: nat, n: nat)
    requires to + 1 + n <= buf.Length
    modifies buf
    ensures buf[to..to + n] == old(buf[to + 1..to + 1 + n])
    ensures forall k :: 0 <= k < buf.Length && !(to <= k < to + n) ==> buf[k] == old(buf[k])
  {
    for k := to to to + n
      invariant forall j :: to <= j < k ==> buf[j] == old(buf[j + 1])
      invariant forall j :: 0 <= j < buf.Length && !(to <= j < k) ==> buf[j] == old(buf[j])
    {
      buf[k] := buf[k + 1];
    }
  }

  /** What stands behind an escape: the rest of the string, or whatever follows the end behind a lone backslash. */
  ghost function Behind(buf: array<Byte>, p: nat, s: Text): (t: Text)
    requires p + 2 <= buf.Length
    reads buf
  {
    if |s| >= 2 then s[2..] else CStr(buf[p + 2..])
  }

  lemma BehindIsString(buf: array<Byte>, p: nat, s: Text)
    requires StringAt(buf, p, s) && s != [] && (|s| == 1 ==> NulBeyond(buf, p + 1))
    ensures p + 2 <= buf.Length && StringAt(buf, p + 2, Behind(buf, p, s))
    ensures buf[p + 1] == if |s| >= 2 then s[1] else 0
  {
    if |s| == 1 {
      StringBehind(buf, p + 1);
    } else {
      assert buf[p + 1] == buf[p..p + |s|][1];
      assert buf[p + 2..p + |s|] == s[2..];
    }
  }

  /** One escape: the character at p replaced, the rest pulled down over the one behind it. */
  method ConvertOne(buf: array<Byte>, p: nat, ghost s: Text)
    requires StringAt(buf, p, s) && s != [] && (|s| == 1 ==> NulBeyond(buf, p + 1))
    modifies buf
    ensures buf[..p] == old(buf[..p])
    ensures |s| >= 2 ==> StringAt(buf, p, [Escape(s[1])] + s[2..]) && NulBeyond(buf, p + |s| - 1)
    ensures |s| == 1 ==> StringAt(buf, p, [])
  {
    BehindIsString(buf, p, s);
    ghost var t := Behind(buf, p, s);
    buf[p] := Escape(buf[p + 1]);
    assert StringAt(buf, p + 2, t);
    StringWithEnd(buf, p + 2, t);
    var n := Strlen(buf, p + 2, t);
    ShiftDown(buf, p + 1, n + 1);
    StringFromEnd(buf, p + 1, t);
    if |s| >= 2 { StringGrows(buf, p, t); }
  }

  lemma StringWithEnd(buf: array<Byte>, p: nat, t: Text)
    requires StringAt(buf, p, t)
    ensures buf[p..p + |t| + 1] == t + [0]
  {
  }

  lemma StringFromEnd(buf: array<Byte>, p: nat, t: Text)
    requires p + |t| < buf.Length && buf[p..p + |t| + 1] == t + [0] && 0 !in t
    ensures StringAt(buf, p, t)
  {
    assert buf[p..p + |t|] == buf[p..p + |t| + 1][..|t|];
    assert buf[p + |t|] == buf[p..p + |t| + 1][|t|];
  }

  lemma StringGrows(buf: array<Byte>, p: nat, t: Text)
    requires p < buf.Length && StringAt(buf, p + 1, t) && buf[p] != 0
    ensures StringAt(buf, p, [buf[p]] + t)
  {
    assert buf[p..p + 1 + |t|] == [buf[p]] + buf[p + 1..p + 1 + |t|];
  }

  /** `CharNextExA` in a code page of single bytes: it stays on the terminator. */
  function CharNext(buf: array<Byte>, p: nat): (q: nat)
    requires p < buf.Length
    reads buf
  {
    if buf[p] == 0 then p else p + 1
  }

  /** `ConvertBackslashes` */
  method ConvertBackslashes(buf: array<Byte>, ghost s: Text)
    requires StringAt(buf, 0, s) && Safe(buf, |s|, s)
    modifies buf
    ensures StringAt(buf, 0, Unescape(s)) && |Unescape(s)| == |s| - Escapes(s)
  {
    UnescapeLength(s);
    hide StringAt, Unescape, Dangling, Escape, Escapes, NulBeyond;
    UnescapeNothing();
    var p: nat := 0;
    ghost var rest := s;
    NulAt(buf, p, rest, 0);
    while buf[p] != 0
      invariant p < buf.Length && (buf[p] == 0 <==> rest == [])
      invariant StringAt(buf, p, rest) && Safe(buf, p + |rest|, rest)
      invariant buf[..p] + Unescape(rest) == Unescape(s)
      decreases |rest|
    {
      ghost var done, was := buf[..p], rest;
      StringTail(buf, p, rest);
      UnescapeStep(rest);
      if buf[p] == BACKSLASH {
        ConvertOne(buf, p, rest);
        rest := if |rest| == 1 then [] else [Escape(rest[1])] + rest[2..];
      }
      if rest == [] {
        NulAt(buf, p, rest, 0);
      } else {
        StringTail(buf, p, rest);
        assert buf[..p + 1] == done + [rest[0]];
        Regroup(done, rest[0], Unescape(rest[1..]));
        NulAt(buf, p + 1, rest[1..], 0);
        rest := rest[1..];
        assert was[0] == BACKSLASH ==> rest == was[2..];
      }
      p := CharNext(buf, p);
    }
    assert buf[..p] + [] == buf[..p];
    StringEnds(buf, p, Unescape(s));
  }
}

/** NUL-terminated strings in byte buffers. */
module CString {
  import opened Unicode

  type Text = seq<Byte>

  /** A NUL-terminated string sits at position p. */
  predicate StringAt(buf: array<Byte>, p: nat, s: Text)
    reads buf
  {
    p + |s| < buf.Length && buf[p..p + |s|] == s && 0 !in s && buf[p + |s|] == 0
  }

  lemma NulAt(buf: array<Byte>, p: nat, s: Text, n: nat)
    requires StringAt(buf, p, s) && n <= |s|
    ensures p + n < buf.Length && (buf[p + n] == 0 <==> n == |s|)
  {
  }

  lemma StringTail(buf: array<Byte>, p: nat, s: Text)
    requires StringAt(buf, p, s) && s != []
    ensures p < buf.Length && buf[p] == s[0] && buf[p] != 0 && StringAt(buf, p + 1, s[1..])
  {
  }

  method Strlen(buf: array<Byte>, p: nat, ghost s: Text) returns (n: nat)
    requires StringAt(buf, p, s)
    ensures n == |s|
  {
    n := 0;
    NulAt(buf, p, s, 0);
    while buf[p + n] != 0
      invariant n <= |s| && p + n < buf.Length
      decreases |s| - n
    {
      NulAt(buf, p, s, n);
      n := n + 1;
      NulAt(buf, p, s, n);
    }
    NulAt(buf, p, s, n);
  }

  lemma StringEnds(buf: array<Byte>, p: nat, s: Text)
    requires p < buf.Length && buf[p] == 0 && buf[..p] == s && 0 !in s
    ensures StringAt(buf, 0, s)
  {
  }

  /** The text in front of the first NUL: what `strlen` and `wcslen` see. */
  function CStr(s: seq<int>): (t: seq<int>)
    ensures t <= s && 0 !in t
    ensures 0 !in s ==> t == s
    ensures |t| < |s| ==> s[|t|] == 0
  {
    if s == [] || s[0] == 0 then [] else [s[0]] + CStr(s[1..])
  }
}

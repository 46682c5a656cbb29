/** The "Calls" section of the ini file: numbered slots holding a record text or a tombstone. */
module CallSlots {
  type Slots = map<nat, string>

  const NULL := "null"

  predicate Tombstone(v: string) { v == NULL }

  /** The ini call reports an empty value as an absent key. */
  predicate Missing(v: string) { v == "" }

  /** `GetPrivateProfileString` into a buffer of 256 characters */
  function Read(v: string): (r: string)
    ensures |r| <= 255 && (Missing(v) <==> Missing(r)) && (Tombstone(v) <==> Tombstone(r))
  {
    if |v| <= 255 then v else v[..255]
  }

  /** What a load sees: slots 0..n-1 are there and slot n is not, whatever other keys the section holds. */
  ghost predicate Readable(m: Slots, n: nat) {
    (forall k: nat :: k < n ==> k in m && !Missing(m[k])) && (n in m ==> Missing(m[n]))
  }

  /** The number of slots that a load of this file sees. */
  ghost function Extent(m: Slots): (n: nat)
    ensures Readable(m, n)
  {
    var k := FirstGap(m, 0, {});
    k
  }

  ghost function FirstGap(m: Slots, i: nat, seen: set<nat>): (n: nat)
    requires forall k: nat :: k in seen <==> k < i
    requires forall k: nat :: k < i ==> k in m && !Missing(m[k])
    ensures Readable(m, n)
    decreases m.Keys - seen
  {
    if i in m && !Missing(m[i]) then FirstGap(m, i + 1, seen + {i}) else i
  }

  lemma ExtentIs(m: Slots, n: nat)
    requires Readable(m, n)
    ensures Extent(m) == n
  {
    hide Extent;
    assert Extent(m) < n ==> Extent(m) in m;
  }

  lemma ContiguousExtent(m: Slots, n: nat)
    requires Contiguous(m, n)
    ensures Readable(m, n) && Extent(m) == n
  {
    ExtentIs(m, n);
  }

  /** The two files agree on key k. */
  ghost predicate SameAt(m: Slots, m': Slots, k: nat) { (k in m <==> k in m') && (k in m ==> m[k] == m'[k]) }

  ghost predicate SameFrom(m: Slots, m': Slots, n: nat) { forall k: nat :: n <= k ==> SameAt(m, m', k) }

  lemma SameFromWrite(m: Slots, m': Slots, n: nat, j: nat, v: string)
    requires SameFrom(m, m', n) && j < n
    ensures SameFrom(m[j := v], m', n)
  {
    var written := m[j := v];
    forall k: nat | n <= k ensures SameAt(written, m', k) { assert SameAt(m, m', k); }
  }

  /** The slots are exactly 0..n-1 and none reads as missing. */
  ghost predicate Contiguous(m: Slots, n: nat) {
    (forall k: nat :: k in m <==> k < n) && (forall k: nat :: k < n ==> !Missing(m[k]))
  }

  /** The texts read from slots lo..hi-1 in key order, tombstones left out. */
  function Live(m: Slots, lo: nat, hi: nat): (vs: seq<string>)
    decreases hi
  {
    if hi <= lo then [] else
    Live(m, lo, hi - 1) + if hi - 1 in m && !Tombstone(m[hi - 1]) then [Read(m[hi - 1])] else []
  }

  lemma {:induction false} LiveSplit(m: Slots, lo: nat, mid: nat, hi: nat)
    requires lo <= mid <= hi
    ensures Live(m, lo, hi) == Live(m, lo, mid) + Live(m, mid, hi)
    decreases hi
  {
    if mid < hi { LiveSplit(m, lo, mid, hi - 1); }
  }

  lemma {:induction false} LiveLength(m: Slots, lo: nat, hi: nat)
    requires lo <= hi
    ensures |Live(m, lo, hi)| <= hi - lo
    decreases hi
  {
    if lo < hi { LiveLength(m, lo, hi - 1); }
  }

  lemma {:induction false} LiveSame(m: Slots, m': Slots, lo: nat, hi: nat)
    requires lo <= hi && forall k: nat :: lo <= k < hi ==> k in m && k in m' && Read(m[k]) == Read(m'[k])
    ensures Live(m, lo, hi) == Live(m', lo, hi)
    decreases hi
  {
    if lo < hi { LiveSame(m, m', lo, hi - 1); }
  }

  lemma {:induction false} LiveTombstones(m: Slots, lo: nat, hi: nat)
    requires lo <= hi && forall k: nat :: lo <= k < hi ==> k in m && Tombstone(m[k])
    ensures Live(m, lo, hi) == []
    decreases hi
  {
    if lo < hi { LiveTombstones(m, lo, hi - 1); }
  }

  lemma {:induction false} LiveDense(m: Slots, vs: seq<string>, n: nat)
    requires n <= |vs| && forall k: nat :: k < n ==> k in m && !Tombstone(m[k]) && Read(m[k]) == vs[k]
    ensures Live(m, 0, n) == vs[..n]
  {
    if n > 0 {
      LiveDense(m, vs, n - 1);
      assert vs[..n] == vs[..n - 1] + [vs[n - 1]];
    }
  }

  /** Records at the front followed by tombstones. */
  lemma LiveFront(m: Slots, front: seq<string>, i: nat)
    requires |front| <= i && forall k: nat :: k < i ==> k in m
    requires forall k: nat :: k < |front| ==> !Tombstone(m[k]) && Read(m[k]) == front[k]
    requires forall k: nat :: |front| <= k < i ==> Tombstone(m[k])
    ensures Live(m, 0, i) == front
  {
    hide Live, Read;
    assert front[..|front|] == front;
    LiveDense(m, front, |front|);
    LiveTombstones(m, |front|, i);
    LiveSplit(m, 0, |front|, i);
  }

  /** Compaction under way: slots below |done| hold the records read so far, slots up to i are tombstones. */
  ghost predicate Compacting(orig: Slots, m: Slots, n: nat, i: nat) {
    && Readable(orig, n) && Readable(m, n) && i <= n
    && var done := Live(orig, 0, i);
    && |done| <= i
    && (forall k: nat :: k < |done| ==> !Tombstone(m[k]) && Read(m[k]) == done[k])
    && (forall k: nat :: |done| <= k < i ==> Tombstone(m[k]))
    && (forall k: nat :: i <= k < n ==> m[k] == orig[k])
    && SameFrom(m, orig, n)
  }

  /** No record is lost or moved out of order while compaction is under way. */
  lemma CompactingKeepsLive(orig: Slots, m: Slots, n: nat, i: nat)
    requires Compacting(orig, m, n, i)
    ensures Live(m, 0, n) == Live(orig, 0, n)
  {
    hide Live, Read;
    LiveFront(m, Live(orig, 0, i), i);
    LiveSame(m, orig, i, n);
    LiveSplit(m, 0, i, n);
    LiveSplit(orig, 0, i, n);
  }

  /** The sequence with its j-th element repeated once, in place. */
  function Doubled(vs: seq<string>, j: nat): (r: seq<string>)
    requires j < |vs|
  {
    vs[..j + 1] + vs[j..]
  }

  /** A file state in which every record of `vs` is present in order, at most one of them twice in a row. */
  ghost predicate Recoverable(m: Slots, vs: seq<string>) {
    exists n: nat :: Readable(m, n) &&
      (Live(m, 0, n) == vs || exists j: nat :: j < |vs| && Live(m, 0, n) == Doubled(vs, j))
  }

  /** The state between the copy of record i and its tombstone. */
  ghost predicate Copied(orig: Slots, c: Slots, n: nat, i: nat) {
    && Readable(orig, n) && Readable(c, n) && i < n && !Tombstone(orig[i]) && c[i] == orig[i]
    && var done := Live(orig, 0, i);
    && |done| < i
    && (forall k: nat :: k < |done| ==> !Tombstone(c[k]) && Read(c[k]) == done[k])
    && c[|done|] == Read(orig[i])
    && (forall k: nat :: |done| < k < i ==> Tombstone(c[k]))
    && (forall k: nat :: i < k < n ==> c[k] == orig[k])
    && SameFrom(c, orig, n)
  }

  lemma CopyReachesCopied(orig: Slots, m: Slots, n: nat, i: nat)
    requires Compacting(orig, m, n, i) && i < n && !Tombstone(orig[i]) && |Live(orig, 0, i)| < i
    ensures Copied(orig, m[|Live(orig, 0, i)| := Read(orig[i])], n, i)
  {
    hide Live, Read, SameFrom;
    SameFromWrite(m, orig, n, |Live(orig, 0, i)|, Read(orig[i]));
  }

  lemma CopiedFront(orig: Slots, c: Slots, n: nat, i: nat)
    requires Copied(orig, c, n, i)
    ensures Live(c, 0, i) == Live(orig, 0, i) + ([Read(orig[i])] + [])
  {
    var done, x := Live(orig, 0, i), Read(orig[i]);
    assert Read(x) == x;
    hide Live, Read;
    LiveAt(c, |done|, i);
    LiveFront(c, done, |done|);
    LiveTombstones(c, |done| + 1, i);
  }

  /** After the copy and before the tombstone, exactly one record is there twice. */
  lemma CopiedIsDoubled(orig: Slots, c: Slots, n: nat, i: nat)
    requires Copied(orig, c, n, i)
    ensures |Live(orig, 0, i)| < |Live(orig, 0, n)|
    ensures Live(c, 0, n) == Doubled(Live(orig, 0, n), |Live(orig, 0, i)|)
  {
    hide Live, Read, Doubled;
    CopiedFront(orig, c, n, i);
    LiveAt(orig, i, n);
    LiveAt(c, i, n);
    LiveSame(c, orig, i + 1, n);
    DoubledParts(Live(orig, 0, i), Read(orig[i]), Live(orig, i + 1, n));
  }

  lemma LiveAt(m: Slots, i: nat, n: nat)
    requires i < n && i in m && !Tombstone(m[i])
    ensures Live(m, 0, n) == Live(m, 0, i) + ([Read(m[i])] + Live(m, i + 1, n))
  {
  }

  lemma DoubledParts(done: seq<string>, x: string, rest: seq<string>)
    ensures Doubled(done + ([x] + rest), |done|) == (done + ([x] + [])) + ([x] + rest)
  {
  }

  /** Both writes together move one record down and take compaction one slot further. */
  lemma MoveAdvances(orig: Slots, m: Slots, n: nat, i: nat)
    requires Compacting(orig, m, n, i) && i < n
    ensures Tombstone(orig[i]) ==> Compacting(orig, m, n, i + 1)
    ensures !Tombstone(orig[i]) && |Live(orig, 0, i)| == i ==> Compacting(orig, m, n, i + 1)
    ensures !Tombstone(orig[i]) && |Live(orig, 0, i)| < i ==>
              Compacting(orig, m[|Live(orig, 0, i)| := Read(orig[i])][i := NULL], n, i + 1)
  {
    hide SameFrom;
    if |Live(orig, 0, i)| < i {
      SameFromWrite(m, orig, n, |Live(orig, 0, i)|, Read(orig[i]));
      SameFromWrite(m[|Live(orig, 0, i)| := Read(orig[i])], orig, n, i, NULL);
    }
  }

  /** The slot to be read next is still as it was, and it reads as present exactly while i < n. */
  lemma CompactingSlot(orig: Slots, m: Slots, n: nat, i: nat)
    requires Compacting(orig, m, n, i)
    ensures i in m && !Missing(m[i]) <==> i < n
    ensures i < n ==> i in orig && m[i] == orig[i]
  {
  }

  lemma LiveNext(m: Slots, i: nat)
    requires i in m
    ensures Live(m, 0, i + 1) == if Tombstone(m[i]) then Live(m, 0, i) else Live(m, 0, i) + [Read(m[i])]
  {
  }

  lemma SameIsRecoverable(m: Slots, n: nat, vs: seq<string>)
    requires Readable(m, n) && Live(m, 0, n) == vs
    ensures Recoverable(m, vs)
  {
  }

  lemma DoubledIsRecoverable(m: Slots, n: nat, vs: seq<string>, j: nat)
    requires Readable(m, n) && j < |vs| && Live(m, 0, n) == Doubled(vs, j)
    ensures Recoverable(m, vs)
  {
  }

  /** The two writes that move record i down, each leaving a file from which no record is lost. */
  lemma MoveIsSafe(orig: Slots, m: Slots, n: nat, i: nat)
    requires Compacting(orig, m, n, i) && i < n && !Tombstone(orig[i]) && |Live(orig, 0, i)| < i
    ensures var c := m[|Live(orig, 0, i)| := Read(orig[i])];
      && Recoverable(c, Live(orig, 0, n))
      && Recoverable(c[i := NULL], Live(orig, 0, n))
      && Compacting(orig, c[i := NULL], n, i + 1)
  {
    var c := m[|Live(orig, 0, i)| := Read(orig[i])];
    CopyReachesCopied(orig, m, n, i);
    MoveAdvances(orig, m, n, i);
    hide Live, Read, Tombstone, Recoverable, Doubled;
    CopiedIsDoubled(orig, c, n, i);
    DoubledIsRecoverable(c, n, Live(orig, 0, n), |Live(orig, 0, i)|);
    CompactingKeepsLive(orig, c[i := NULL], n, i + 1);
    SameIsRecoverable(c[i := NULL], n, Live(orig, 0, n));
  }

  /** Compaction is done; `top` slots are left, tombstones above the records. */
  ghost predicate Cutting(vs: seq<string>, m: Slots, top: nat) {
    && Readable(m, top) && |vs| <= top
    && (forall k: nat :: k < |vs| ==> !Tombstone(m[k]) && Read(m[k]) == vs[k])
    && (forall k: nat :: |vs| <= k < top ==> Tombstone(m[k]))
  }

  lemma CuttingLive(vs: seq<string>, m: Slots, top: nat)
    requires Cutting(vs, m, top)
    ensures Live(m, 0, top) == vs
    ensures Recoverable(m, vs)
  {
    hide Live, Read, Tombstone;
    LiveFront(m, vs, top);
  }

  /** Cutting a tombstone off the top loses nothing. */
  lemma CutTombstone(vs: seq<string>, m: Slots, top: nat)
    requires Cutting(vs, m, top) && |vs| < top
    ensures Cutting(vs, m - {top - 1}, top - 1)
  {
  }

  /** From `top` up the file holds what lay behind the gap at n in `orig`, and nothing else. */
  ghost predicate Behind(orig: Slots, n: nat, m: Slots, top: nat) {
    forall k: nat :: top <= k ==> if k < n then k !in m else SameAt(m, orig, k)
  }

  lemma CutBehind(orig: Slots, n: nat, m: Slots, top: nat)
    requires Behind(orig, n, m, top) && 1 <= top <= n
    ensures Behind(orig, n, m - {top - 1}, top - 1)
  {
  }
}

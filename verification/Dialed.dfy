/** The list of dialled numbers in Dialer.cpp: most recent first, at most ten, kept in the ini file. */
module Dialed {
  import opened CallSlots
  import opened Sequences

  const LIMIT: nat := 10

  /** What the combo box compares: two texts match when their keys are equal. */
  type Key = string -> string

  function Keys(xs: seq<string>, key: Key): (ks: seq<string>) { seq(|xs|, i requires 0 <= i < |xs| => key(xs[i])) }

  /** `FindStringExact(-1, s)` */
  function FindExact(xs: seq<string>, s: string, key: Key): (i: int)
    ensures -1 <= i < |xs|
    ensures i >= 0 ==> key(xs[i]) == key(s) && forall j :: 0 <= j < i ==> key(xs[j]) != key(s)
    ensures i < 0 ==> forall j :: 0 <= j < |xs| ==> key(xs[j]) != key(s)
  {
    if xs == [] then -1 else if key(xs[0]) == key(s) then 0 else
    var i := FindExact(xs[1..], s, key); if i < 0 then -1 else i + 1
  }

  /** The list update in `Action`. */
  function Dial(xs: seq<string>, number: string, key: Key): (r: seq<string>) {
    var pos := FindExact(xs, number, key);
    if pos == 0 then xs
    else if pos > 0 then [number] + (xs[..pos] + xs[pos + 1..])
    else if |xs| >= LIMIT then [number] + xs[..|xs| - 1]
    else [number] + xs
  }

  function DialAll(history: seq<string>, key: Key): (xs: seq<string>) {
    if history == [] then [] else Dial(DialAll(history[..|history| - 1], key), history[|history| - 1], key)
  }

  // ---------------------------------------------------------------- the ten latest distinct numbers

  function Reverse(xs: seq<string>): (r: seq<string>) {
    if xs == [] then [] else [xs[|xs| - 1]] + Reverse(xs[..|xs| - 1])
  }

  function Other(ks: seq<string>, k: string): (r: seq<string>) {
    if ks == [] then [] else (if ks[0] == k then [] else [ks[0]]) + Other(ks[1..], k)
  }

  /** Each element at its first occurrence only. */
  function Firsts(ks: seq<string>): (r: seq<string>) {
    if ks == [] then [] else [ks[0]] + Other(Firsts(ks[1..]), ks[0])
  }

  function Take(ks: seq<string>, n: nat): (r: seq<string>) { if |ks| <= n then ks else ks[..n] }

  lemma {:induction false} OtherAbsent(ks: seq<string>, k: string)
    requires k !in ks
    ensures Other(ks, k) == ks
  {
    if ks != [] { OtherAbsent(ks[1..], k); }
  }

  lemma {:induction false} OtherAt(ks: seq<string>, p: nat)
    requires NoDup(ks) && p < |ks|
    ensures Other(ks, ks[p]) == ks[..p] + ks[p + 1..]
  {
    if p == 0 {
      assert ks[0] !in ks[1..];
      OtherAbsent(ks[1..], ks[0]);
    } else {
      OtherAt(ks[1..], p - 1);
      assert ks[1..][..p - 1] == ks[1..p] && ks[1..][p..] == ks[p + 1..];
      assert ks[..p] == [ks[0]] + ks[1..p];
    }
  }

  lemma {:induction false} OtherMembers(ks: seq<string>, k: string)
    requires NoDup(ks)
    ensures NoDup(Other(ks, k)) && forall x :: x in Other(ks, k) <==> x in ks && x != k
  {
    if p :| 0 <= p < |ks| && ks[p] == k {
      OtherAt(ks, p);
      assert ks == ks[..p] + [ks[p]] + ks[p + 1..];
    } else {
      OtherAbsent(ks, k);
    }
  }

  lemma {:induction false} FirstsNoDup(ks: seq<string>)
    ensures NoDup(Firsts(ks))
  {
    if ks != [] {
      FirstsNoDup(ks[1..]);
      OtherMembers(Firsts(ks[1..]), ks[0]);
      var others := Other(Firsts(ks[1..]), ks[0]);
      assert forall j :: 0 <= j < |others| ==> others[j] in others;
    }
  }

  lemma KeysMoved(xs: seq<string>, number: string, pos: nat, key: Key)
    requires pos < |xs|
    ensures var ks := Keys(xs, key);
      Keys([number] + (xs[..pos] + xs[pos + 1..]), key) == [key(number)] + (ks[..pos] + ks[pos + 1..])
  {
  }

  lemma KeysPushed(xs: seq<string>, number: string, n: nat, key: Key)
    requires n <= |xs|
    ensures Keys([number] + xs[..n], key) == [key(number)] + Keys(xs, key)[..n]
  {
  }

  /** One dial moves its key to the front of the distinct keys and keeps the first ten. */
  lemma {:induction false} DialStep(xs: seq<string>, all: seq<string>, number: string, key: Key)
    requires NoDup(all) && Keys(xs, key) == Take(all, LIMIT)
    ensures Keys(Dial(xs, number, key), key) == Take([key(number)] + Other(all, key(number)), LIMIT)
  {
    var k, ks, pos := key(number), Keys(xs, key), FindExact(xs, number, key);
    assert |xs| == |ks| && (pos >= 0 ==> ks[pos] == k && all[pos] == k) && (pos < 0 ==> k !in ks);
    hide FindExact, Other, NoDup, Keys, Take;
    if pos >= 0 {
      OtherAt(all, pos);
      DialOld(ks, all, pos);
      if pos == 0 {
        assert [ks[0]] + (ks[..0] + ks[1..]) == ks;
      } else {
        KeysMoved(xs, number, pos, key);
      }
    } else {
      DialNew(ks, all, k);
      KeysPushed(xs, number, if |xs| >= LIMIT then |xs| - 1 else |xs|, key);
      assert xs[..|xs|] == xs && ks[..|ks|] == ks;
    }
  }

  lemma DialOld(ks: seq<string>, all: seq<string>, pos: nat)
    requires ks == Take(all, LIMIT) && pos < |ks|
    ensures pos < |all|
    ensures Take([all[pos]] + (all[..pos] + all[pos + 1..]), LIMIT) == [all[pos]] + (ks[..pos] + ks[pos + 1..])
  {
  }

  lemma {:induction false} DialNew(ks: seq<string>, all: seq<string>, k: string)
    requires NoDup(all) && ks == Take(all, LIMIT) && k !in ks
    ensures Take([k] + Other(all, k), LIMIT) == [k] + if |ks| >= LIMIT then ks[..|ks| - 1] else ks
  {
    assert forall p :: 0 <= p < |all| && p < LIMIT ==> all[p] == ks[p];
    if p :| LIMIT <= p < |all| && all[p] == k {
      OtherAt(all, p);
      var r := [k] + (all[..p] + all[p + 1..]);
      assert r[..LIMIT] == [k] + all[..LIMIT - 1];
      assert ks[..|ks| - 1] == all[..LIMIT - 1];
    } else {
      OtherAbsent(all, k);
      if |all| >= LIMIT {
        assert ([k] + all)[..LIMIT] == [k] + all[..LIMIT - 1];
        assert ks[..|ks| - 1] == all[..LIMIT - 1];
      }
    }
  }

  /** After any dials the list shows, up to what the box takes for equal, the ten latest distinct numbers. */
  lemma {:induction false} ListIsTenLatest(history: seq<string>, key: Key)
    ensures Keys(DialAll(history, key), key) == Take(Firsts(Keys(Reverse(history), key)), 10)
  {
    if history != [] {
      var front, last := history[..|history| - 1], history[|history| - 1];
      ListIsTenLatest(front, key);
      var ks := Keys(Reverse(front), key);
      FirstsNoDup(ks);
      DialStep(DialAll(front, key), Firsts(ks), last, key);
      assert Keys(Reverse(history), key) == [key(last)] + ks;
      assert ([key(last)] + ks)[1..] == ks;
    }
  }

  /** The spellings: the number stands on top as dialled unless its like already did, and the others keep theirs. */
  lemma {:induction false} DialKeepsSpelling(xs: seq<string>, number: string, key: Key)
    ensures var r := Dial(xs, number, key);
      && r != [] && r[0] == (if xs != [] && key(xs[0]) == key(number) then xs[0] else number)
      && forall j :: 1 <= j < |r| ==> (j < |xs| && r[j] == xs[j]) || (j <= |xs| && r[j] == xs[j - 1])
  {
    hide FindExact;
  }

  // ---------------------------------------------------------------- the file

  /** The section as `DialedSave` writes it. */
  function Saved(xs: seq<string>): (m: Slots) { map i: nat | i < |xs| :: xs[i] }

  /** The values `DialedLoad` reads from key i on. */
  function Loaded(m: Slots, i: nat): (xs: seq<string>)
    decreases |m|
  {
    if i in m && !Missing(m[i]) then
      assert |m - {i}| < |m| by { assert m.Keys == (m - {i}).Keys + {i}; }
      [Read(m[i])] + Loaded(m - {i}, i + 1)
    else []
  }

  class Dialer {
    var combobox: seq<string>
    var section: Slots

    constructor ()
      ensures combobox == [] && section == map[]
    {
      combobox, section := [], map[];
    }

    /** The accepted part of `Action` */
    method Action(number: string, key: Key)
      modifies this
      ensures combobox == Dial(old(combobox), number, key) && section == Saved(combobox)
    {
      var pos := FindExact(combobox, number, key);
      if pos == -1 || pos > 0 {
        if pos > 0 {
          combobox := combobox[..pos] + combobox[pos + 1..];
        } else if |combobox| >= LIMIT {
          combobox := combobox[..|combobox| - 1];
        }
        combobox := [number] + combobox;
      }
      DialedSave();
    }

    method DialedSave()
      modifies this`section
      ensures section == Saved(combobox)
    {
      section := map[];
      for i := 0 to |combobox|
        invariant section == Saved(combobox[..i])
      {
        section := section[i := combobox[i]];
      }
      assert combobox[..|combobox|] == combobox;
    }

    method DialedLoad()
      modifies this`combobox
      ensures combobox == old(combobox) + Loaded(section, 0)
    {
      var i := 0;
      ghost var rest: Slots := section;
      while true
        invariant forall k: nat :: k >= i ==> (k in rest <==> k in section) && (k in rest ==> rest[k] == section[k])
        invariant combobox + Loaded(rest, i) == old(combobox) + Loaded(section, 0)
        decreases |rest|
      {
        if i !in section || Missing(section[i]) { break; }
        assert rest.Keys == (rest - {i}).Keys + {i};
        combobox := combobox + [Read(section[i])];
        rest := rest - {i};
        i := i + 1;
      }
    }
  }

  predicate Storable(x: string) { x != "" && |x| <= 255 }

  lemma {:induction false} LoadedFrom(xs: seq<string>, m: Slots, i: nat)
    requires i <= |xs| && forall k: nat :: k >= i ==> (k in m <==> k < |xs|) && (k in m ==> m[k] == xs[k])
    ensures Loaded(m, i) == xs[i..] <==> forall k :: i <= k < |xs| ==> Storable(xs[k])
    decreases |xs| - i
  {
    if i < |xs| {
      LoadedFrom(xs, m - {i}, i + 1);
      assert xs[i..] == [xs[i]] + xs[i + 1..];
    }
  }

  /** Saving and loading gives the list back exactly when every entry is non-empty and fits the read buffer. */
  lemma {:induction false} LoadOfSave(xs: seq<string>)
    ensures Loaded(Saved(xs), 0) == xs <==> forall k :: 0 <= k < |xs| ==> Storable(xs[k])
  {
    LoadedFrom(xs, Saved(xs), 0);
    assert xs[0..] == xs;
  }
}

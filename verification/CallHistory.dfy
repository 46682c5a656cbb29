/** The call history of Calls.cpp as a state machine over the list shown and the slots of the ini file. */
module CallHistory {
  import opened CallRecord
  import opened CallSlots
  import opened CallReadBack
  import SipUri

  const MAX_CALLS: nat := 1000
  const MISS: int32 := 2

  datatype Item = Item(key: nat, id: string, rec: Record)

  /** `nextKey`, the list control from top (newest) to bottom, and the file. */
  datatype State = State(nextKey: nat, items: seq<Item>, slots: Slots)

  // ---------------------------------------------------------------- the operations

  function Text(it: Item): (v: string) { if it.rec.number != "" then Encode(it.rec) else NULL }

  /** `CallSave` */
  function Saved(s: State, it: Item): (r: State) {
    s.(slots := s.slots[it.key := Text(it)], nextKey := if it.key == s.nextKey then s.nextKey + 1 else s.nextKey)
  }

  function Without(items: seq<Item>, i: nat): (r: seq<Item>)
    requires i < |items|
  {
    items[..i] + items[i + 1..]
  }

  /** `Delete`: blank the number, save the tombstone, drop the item. */
  function Deleted(s: State, i: nat): (r: State)
    requires i < |s.items|
  {
    var it := s.items[i].(rec := s.items[i].rec.(number := ""));
    Saved(s, it).(items := Without(s.items, i))
  }

  /** An item's record replaced and saved under its old key. */
  function Changed(s: State, i: nat, rec: Record): (r: State)
    requires i < |s.items|
  {
    var it := s.items[i].(rec := rec);
    Saved(s.(items := s.items[i := it]), it)
  }

  /** The loop at the end of `Add`. */
  function Trimmed(s: State): (r: State)
    decreases |s.items|
  {
    if |s.items| > MAX_CALLS then Trimmed(Deleted(s, |s.items| - 1)) else s
  }

  function Inserted(s: State, id: string, rec: Record): (r: State) {
    var it := Item(s.nextKey, id, rec);
    Saved(s.(items := [it] + s.items), it)
  }

  /** `Get`: the first item with this id, or -1. */
  function Index(items: seq<Item>, id: string): (i: int)
    ensures -1 <= i < |items|
    ensures i >= 0 ==> items[i].id == id && forall j :: 0 <= j < i ==> items[j].id != id
    ensures i < 0 ==> forall j :: 0 <= j < |items| ==> items[j].id != id
  {
    if items == [] then -1
    else if items[0].id == id then 0
    else var i := Index(items[1..], id); if i < 0 then -1 else i + 1
  }

  /** The number shown for a remote address: the domain is left out when it is the account's own. */
  function Number(uri: SipUri.Uri, domain: string): (r: string) {
    if domain == uri.domain || uri.domain == "" then uri.user else uri.user + "@" + uri.domain
  }

  /** `Add` */
  function Added(
      s: State, id: string, remote: string, name: string, kind: int32, time: int32, domain: string): (r: State)
  {
    var i := Index(s.items, id);
    if i < 0 then
      var uri := SipUri.ParseSIPURI(remote);
      if uri.user == "" then s else Trimmed(Inserted(s, id, Record(Number(uri, domain), name, kind, time, 0, "")))
    else if s.items[i].rec.kind == MISS && kind != MISS then Changed(s, i, s.items[i].rec.(kind := kind))
    else s
  }

  /** `SetDuration` */
  function DurationSet(s: State, id: string, sec: int32): (r: State) {
    var i := Index(s.items, id);
    if i < 0 then s else Changed(s, i, s.items[i].rec.(duration := sec))
  }

  /** `SetInfo` */
  function InfoSet(s: State, id: string, info: string): (r: State) {
    var i := Index(s.items, id);
    if i < 0 then s else Changed(s, i, s.items[i].rec.(info := info))
  }

  datatype Op =
    | AddCall(id: string, remote: string, name: string, kind: int32, time: int32)
    | DeleteCall(index: nat)
    | SetDuration(id: string, sec: int32)
    | SetInfo(id: string, info: string)

  function Apply(s: State, op: Op, domain: string): (r: State) {
    match op
    case AddCall(id, remote, name, kind, time) => Added(s, id, remote, name, kind, time, domain)
    case DeleteCall(index) => if index < |s.items| then Deleted(s, index) else s
    case SetDuration(id, sec) => DurationSet(s, id, sec)
    case SetInfo(id, info) => InfoSet(s, id, info)
  }

  function Run(s: State, ops: seq<Op>, domain: string): (r: State)
    decreases |ops|
  {
    if ops == [] then s else Run(Apply(s, ops[0], domain), ops[1..], domain)
  }

  // ---------------------------------------------------------------- the invariant

  /** The record of an item, as the file has it: its own text, or the text it was decoded from. */
  predicate Kept(v: string, rec: Record) { v == Encode(rec) || Decode(Read(v)) == rec }

  predicate HasKey(items: seq<Item>, k: nat) { exists i :: 0 <= i < |items| && items[i].key == k }

  predicate Ordered(items: seq<Item>) { forall i, j :: 0 <= i < j < |items| ==> items[i].key > items[j].key }

  /** The item owns a live slot, and that slot keeps its record. */
  predicate Backed(slots: Slots, it: Item) {
    it.key in slots && !Tombstone(slots[it.key]) && it.rec.number != "" && Kept(slots[it.key], it.rec)
  }

  /** The file's slots are 0..nextKey-1; the live ones are those of the list, newest last, and hold its records. */
  ghost predicate Inv(s: State) {
    && Contiguous(s.slots, s.nextKey)
    && Ordered(s.items)
    && AllBacked(s.slots, s.items)
    && Covered(s.slots, s.items)
  }

  /** Every live slot belongs to an item. */
  predicate Covered(slots: Slots, items: seq<Item>) {
    forall k :: k in slots && !Tombstone(slots[k]) ==> HasKey(items, k)
  }

  lemma ContiguousUpdate(m: Slots, n: nat, k: nat, v: string)
    requires Contiguous(m, n) && k <= n && !Missing(v)
    ensures Contiguous(m[k := v], if k == n then n + 1 else n)
  {
  }

  lemma EncodeIsRecord(r: Record)
    ensures !Missing(Encode(r)) && !Tombstone(Encode(r))
  {
  }

  /** Every item is backed. */
  predicate AllBacked(slots: Slots, items: seq<Item>) { forall i :: 0 <= i < |items| ==> Backed(slots, items[i]) }

  lemma OrderedAt(items: seq<Item>, i: nat, j: nat)
    requires Ordered(items) && i < j < |items|
    ensures items[i].key > items[j].key
  {
  }

  lemma WithoutAt(items: seq<Item>, i: nat, j: nat)
    requires i < |items| && j < |items| - 1
    ensures |Without(items, i)| == |items| - 1
    ensures Without(items, i)[j] == items[if j < i then j else j + 1]
  {
  }

  lemma WithoutOrdered(items: seq<Item>, i: nat)
    requires Ordered(items) && i < |items|
    ensures Ordered(Without(items, i))
  {
  }

  lemma WithoutHasKey(items: seq<Item>, i: nat, k: nat)
    requires i < |items| && HasKey(items, k) && items[i].key != k
    ensures HasKey(Without(items, i), k)
  {
    var j :| 0 <= j < |items| && items[j].key == k;
    var j' := if j < i then j else j - 1;
    WithoutAt(items, i, j');
  }

  lemma UpdateHasKey(items: seq<Item>, i: nat, it: Item, k: nat)
    requires i < |items| && HasKey(items, k) && items[i].key == it.key
    ensures HasKey(items[i := it], k)
  {
    var j :| 0 <= j < |items| && items[j].key == k;
    assert items[i := it][j].key == k;
  }

  lemma NullIsTombstone()
    ensures Tombstone(NULL) && !Missing(NULL)
  {
  }

  lemma {:induction false} DeletedKeepsInv(s: State, i: nat)
    requires Inv(s) && i < |s.items|
    ensures Inv(Deleted(s, i))
  {
    NullIsTombstone();
    assert Backed(s.slots, s.items[i]);
    var gone := s.items[i].key;
    assert gone < s.nextKey;
    hide Contiguous, Ordered, AllBacked, Covered, Backed, Tombstone, Missing, Without, Encode;
    ContiguousUpdate(s.slots, s.nextKey, gone, NULL);
    WithoutOrdered(s.items, i);
    DeletedBacked(s.slots, s.items, i);
    DeletedCovered(s.slots, s.items, i);
  }

  lemma DeletedCovered(slots: Slots, items: seq<Item>, i: nat)
    requires Covered(slots, items) && i < |items|
    ensures Covered(slots[items[i].key := NULL], Without(items, i))
  {
    hide HasKey, Without;
    var slots' := slots[items[i].key := NULL];
    forall k | k in slots' && !Tombstone(slots'[k]) ensures HasKey(Without(items, i), k) {
      assert k in slots && slots[k] == slots'[k];
      WithoutHasKey(items, i, k);
    }
  }

  lemma DeletedBacked(slots: Slots, items: seq<Item>, i: nat)
    requires Ordered(items) && AllBacked(slots, items) && i < |items|
    ensures AllBacked(slots[items[i].key := NULL], Without(items, i))
  {
  }

  lemma {:induction false} ChangedKeepsInv(s: State, i: nat, rec: Record)
    requires Inv(s) && i < |s.items| && rec.number != ""
    ensures Inv(Changed(s, i, rec))
  {
    EncodeIsRecord(rec);
    assert Backed(s.slots, s.items[i]);
    var it := s.items[i].(rec := rec);
    assert it.key < s.nextKey;
    assert Backed(s.slots[it.key := Encode(rec)], it);
    hide Contiguous, Ordered, AllBacked, Covered, Backed, Tombstone, Missing, Encode;
    ContiguousUpdate(s.slots, s.nextKey, it.key, Encode(rec));
    ChangedOrdered(s.items, i, it);
    ChangedBacked(s.slots, s.items, i, it, Encode(rec));
    ChangedCovered(s.slots, s.items, i, it, Encode(rec));
  }

  lemma ChangedOrdered(items: seq<Item>, i: nat, it: Item)
    requires Ordered(items) && i < |items| && it.key == items[i].key
    ensures Ordered(items[i := it])
  {
  }

  lemma ChangedCovered(slots: Slots, items: seq<Item>, i: nat, it: Item, v: string)
    requires Covered(slots, items) && i < |items| && it.key == items[i].key && it.key in slots
    requires !Tombstone(slots[it.key])
    ensures Covered(slots[it.key := v], items[i := it])
  {
    hide HasKey, Tombstone;
    var slots' := slots[it.key := v];
    forall k | k in slots' && !Tombstone(slots'[k]) ensures HasKey(items[i := it], k) {
      assert k in slots && !Tombstone(slots[k]);
      UpdateHasKey(items, i, it, k);
    }
  }

  lemma ChangedBacked(slots: Slots, items: seq<Item>, i: nat, it: Item, v: string)
    requires Ordered(items) && AllBacked(slots, items) && i < |items| && it.key == items[i].key
    requires Backed(slots[it.key := v], it)
    ensures AllBacked(slots[it.key := v], items[i := it])
  {
  }

  lemma {:induction false} InsertedKeepsInv(s: State, id: string, rec: Record)
    requires Inv(s) && rec.number != ""
    ensures Inv(Inserted(s, id, rec))
  {
    EncodeIsRecord(rec);
    var it := Item(s.nextKey, id, rec);
    assert s.nextKey !in s.slots;
    assert Backed(s.slots[it.key := Encode(rec)], it);
    InsertedOrdered(s, it);
    hide Contiguous, Ordered, AllBacked, Covered, Backed, Tombstone, Missing, Encode;
    ContiguousUpdate(s.slots, s.nextKey, it.key, Encode(rec));
    InsertedBacked(s.slots, s.items, it, Encode(rec));
    InsertedCovered(s.slots, s.items, it, Encode(rec));
  }

  lemma InsertedBacked(slots: Slots, items: seq<Item>, it: Item, v: string)
    requires AllBacked(slots, items) && it.key !in slots && Backed(slots[it.key := v], it)
    ensures AllBacked(slots[it.key := v], [it] + items)
  {
  }

  lemma InsertedCovered(slots: Slots, items: seq<Item>, it: Item, v: string)
    requires Covered(slots, items)
    ensures Covered(slots[it.key := v], [it] + items)
  {
    var slots', items' := slots[it.key := v], [it] + items;
    forall k | k in slots' && !Tombstone(slots'[k]) ensures HasKey(items', k) {
      if k == it.key {
        assert items'[0].key == k;
      } else {
        var j := KeyAt(items, k);
        assert items'[j + 1].key == k;
      }
    }
  }

  lemma InsertedOrdered(s: State, it: Item)
    requires Inv(s) && it.key == s.nextKey
    ensures Ordered([it] + s.items)
  {
  }

  lemma DeletedShrinks(s: State, i: nat)
    requires i < |s.items|
    ensures |Deleted(s, i).items| == |s.items| - 1
  {
  }

  /** Trimming drops the oldest items and nothing else. */
  lemma {:induction false} TrimmedKeeps(s: State)
    ensures Trimmed(s).items == if |s.items| > MAX_CALLS then s.items[..MAX_CALLS] else s.items
    ensures Inv(s) ==> Inv(Trimmed(s))
    decreases |s.items|
  {
    if |s.items| > MAX_CALLS {
      var t := Deleted(s, |s.items| - 1);
      assert t.items == s.items[..|s.items| - 1];
      assert t.items[..MAX_CALLS] == s.items[..MAX_CALLS];
      hide Inv, Deleted;
      TrimmedKeeps(t);
      if Inv(s) { DeletedKeepsInv(s, |s.items| - 1); }
    }
  }

  /** A call not listed yet goes on top under a fresh key, and the list keeps its newest thousand. */
  lemma {:induction false} NewCallGoesOnTop(
      s: State, id: string, remote: string, name: string, kind: int32, time: int32, domain: string)
    requires Index(s.items, id) < 0 && SipUri.ParseSIPURI(remote).user != ""
    ensures var items := Added(s, id, remote, name, kind, time, domain).items;
      var rec := Record(Number(SipUri.ParseSIPURI(remote), domain), name, kind, time, 0, "");
      var all := [Item(s.nextKey, id, rec)] + s.items;
      items == if |all| > 1000 then all[..1000] else all
  {
    hide SipUri.ParseSIPURI, Trimmed, Number;
    TrimmedKeeps(Inserted(s, id, Record(Number(SipUri.ParseSIPURI(remote), domain), name, kind, time, 0, "")));
  }

  // ---------------------------------------------------------------- what each operation leaves in list and file

  /** The address of a call as it comes in. */
  function Address(user: string, d: string): (r: string) { "<" + ("sip:" + user) + "@" + (d + ">") }

  lemma AddressParsed(user: string, d: string)
    requires '@' !in user && ';' !in d && '>' !in d
    ensures SipUri.ParseSIPURI(Address(user, d)) == SipUri.Uri(user, d, "")
  {
    hide SipUri.ParseSIPURI, SipUri.DomainFrom, SipUri.Find;
    var head := "<" + ("sip:" + user) + "@";
    SipUri.ParseLayout("<", user, d + ">");
    assert "" + ">" == ">" && head + d + ("" + ">") == head + (d + ">");
    SipUri.DomainRecovered(head, d, "");
  }

  /** A new call is listed under its user alone if it comes from the own domain or none, else under the full address. */
  lemma {:induction false} ListedNumber(
      s: State, id: string, user: string, d: string, name: string, kind: int32, time: int32, domain: string)
    requires Index(s.items, id) < 0 && user != "" && '@' !in user && ';' !in d && '>' !in d
    ensures var t := Added(s, id, Address(user, d), name, kind, time, domain);
      && t.items != [] && t.items[0].id == id && t.items[0].key == s.nextKey
      && t.items[0].rec == Record(if d == "" || d == domain then user else user + "@" + d, name, kind, time, 0, "")
  {
    hide SipUri.ParseSIPURI, Address, Added;
    AddressParsed(user, d);
    NewCallGoesOnTop(s, id, Address(user, d), name, kind, time, domain);
  }

  /** Calling a listed number back reaches the caller: the user at the domain given, or at the own one if none was. */
  lemma {:induction false} CallingBack(
      s: State, id: string, user: string, d: string, name: string, kind: int32, time: int32,
      isSimple: bool, settings: SipUri.Settings)
    requires Index(s.items, id) < 0 && user != "" && '@' !in user && ';' !in d && '>' !in d
    requires settings.accountId != 0 && ';' !in settings.domain && '>' !in settings.domain
    requires !SipUri.HasScheme(user) && !SipUri.HasScheme(user + "@" + d)
    ensures var t := Added(s, id, Address(user, d), name, kind, time, settings.domain);
      && t.items != []
      && SipUri.ParseSIPURI(SipUri.GetSIPURI(t.items[0].rec.number, isSimple, false, settings))
         == SipUri.Uri(user, if d == "" then settings.domain else d, "")
  {
    hide SipUri.ParseSIPURI, SipUri.GetSIPURI, SipUri.HasScheme, Added;
    ListedNumber(s, id, user, d, name, kind, time, settings.domain);
    if d == "" || d == settings.domain {
      SipUri.ParseRecovers(user, isSimple, settings);
    } else {
      SipUri.CompleteAddressRecovers(user, d, isSimple, settings);
    }
  }

  /** Two lists that differ in item i at most. */
  predicate SameBut(items: seq<Item>, items': seq<Item>, i: nat) {
    |items'| == |items| && forall j :: 0 <= j < |items| && j != i ==> items'[j] == items[j]
  }

  ghost predicate SlotsSameBut(slots: Slots, slots': Slots, k: nat) {
    forall j :: j != k ==> (j in slots <==> j in slots') && (j in slots ==> slots'[j] == slots[j])
  }

  /** A call without a user is not listed; adding a listed one again can change nothing but a missed type. */
  lemma {:induction false} AddingAgain(
      s: State, id: string, remote: string, name: string, kind: int32, time: int32, domain: string)
    ensures var t, i := Added(s, id, remote, name, kind, time, domain), Index(s.items, id);
      && (i < 0 && SipUri.ParseSIPURI(remote).user == "" ==> t == s)
      && (i >= 0 && (s.items[i].rec.kind != 2 || kind == 2) ==> t == s)
      && (i >= 0 && s.items[i].rec.kind == 2 && kind != 2 ==>
            && SameBut(s.items, t.items, i) && t.items[i] == s.items[i].(rec := s.items[i].rec.(kind := kind))
            && SlotsSameBut(s.slots, t.slots, s.items[i].key))
  {
    hide SipUri.ParseSIPURI, Trimmed, Text;
  }

  /** Setting a duration or an info touches that field of the first item with the id, and the slot of that item. */
  lemma {:induction false} SettingTouchesOne(s: State, id: string, sec: int32, info: string)
    ensures var i, d, t := Index(s.items, id), DurationSet(s, id, sec), InfoSet(s, id, info);
      if i < 0 then d == s && t == s
      else
        && SameBut(s.items, d.items, i) && d.items[i] == s.items[i].(rec := s.items[i].rec.(duration := sec))
        && SlotsSameBut(s.slots, d.slots, s.items[i].key)
        && SameBut(s.items, t.items, i) && t.items[i] == s.items[i].(rec := s.items[i].rec.(info := info))
        && SlotsSameBut(s.slots, t.slots, s.items[i].key)
  {
    hide Text;
  }

  /** Deleting takes item i out of the list, writes "null" over its slot and touches nothing else. */
  lemma {:induction false} DeletingTakesOne(s: State, i: nat)
    requires i < |s.items|
    ensures var t := Deleted(s, i);
      && |t.items| == |s.items| - 1 && t.items[..i] == s.items[..i] && t.items[i..] == s.items[i + 1..]
      && s.items[i].key in t.slots && t.slots[s.items[i].key] == "null"
      && SlotsSameBut(s.slots, t.slots, s.items[i].key)
  {
  }

  lemma {:induction false} ApplyKeepsInv(s: State, op: Op, domain: string)
    requires Inv(s)
    ensures Inv(Apply(s, op, domain))
    ensures |s.items| <= MAX_CALLS ==> |Apply(s, op, domain).items| <= MAX_CALLS
  {
    InvNumbers(s);
    hide Inv, Trimmed, Deleted, Changed, Inserted, Number, SipUri.ParseSIPURI;
    match op
    case AddCall(id, remote, name, kind, time) =>
      AddedKeepsInv(s, id, remote, name, kind, time, domain);
    case DeleteCall(index) =>
      if index < |s.items| {
        DeletedKeepsInv(s, index);
        DeletedShrinks(s, index);
      }
    case SetDuration(id, sec) =>
      var i := Index(s.items, id);
      if i >= 0 {
        ChangedKeepsInv(s, i, s.items[i].rec.(duration := sec));
        ChangedLength(s, i, s.items[i].rec.(duration := sec));
      }
    case SetInfo(id, info) =>
      var i := Index(s.items, id);
      if i >= 0 {
        ChangedKeepsInv(s, i, s.items[i].rec.(info := info));
        ChangedLength(s, i, s.items[i].rec.(info := info));
      }
  }

  lemma ChangedLength(s: State, i: nat, rec: Record)
    requires i < |s.items|
    ensures |Changed(s, i, rec).items| == |s.items|
  {
  }

  lemma {:induction false} AddedKeepsInv(
      s: State, id: string, remote: string, name: string, kind: int32, time: int32, domain: string)
    requires Inv(s)
    ensures var t := Added(s, id, remote, name, kind, time, domain);
      Inv(t) && (|s.items| <= MAX_CALLS ==> |t.items| <= MAX_CALLS)
  {
    InvNumbers(s);
    hide Inv, Trimmed, Changed, Inserted, SipUri.ParseSIPURI;
    var i := Index(s.items, id);
    if i >= 0 {
      ChangedKeepsInv(s, i, s.items[i].rec.(kind := kind));
      ChangedLength(s, i, s.items[i].rec.(kind := kind));
    } else if SipUri.ParseSIPURI(remote).user != "" {
      var rec := Record(Number(SipUri.ParseSIPURI(remote), domain), name, kind, time, 0, "");
      InsertedKeepsInv(s, id, rec);
      TrimmedKeeps(Inserted(s, id, rec));
    }
  }

  lemma InvNumbers(s: State)
    requires Inv(s)
    ensures forall i :: 0 <= i < |s.items| ==> s.items[i].rec.number != ""
  {
  }

  /** Every run keeps file and list in step, and keeps the list within its limit. */
  lemma {:induction false} RunKeepsInv(s: State, ops: seq<Op>, domain: string)
    requires Inv(s)
    ensures Inv(Run(s, ops, domain))
    ensures |s.items| <= 1000 ==> |Run(s, ops, domain).items| <= 1000
    decreases |ops|
  {
    hide Inv, Apply;
    if ops != [] {
      ApplyKeepsInv(s, ops[0], domain);
      RunKeepsInv(Apply(s, ops[0], domain), ops[1..], domain);
    }
  }

  // ---------------------------------------------------------------- the file read back

  /** The list `CallsLoad` builds from the record texts in key order: each is put on top. */
  function LoadedList(vs: seq<string>): (items: seq<Item>) {
    seq(|vs|, i requires 0 <= i < |vs| => Item(|vs| - 1 - i, "", Decode(vs[|vs| - 1 - i])))
  }

  lemma KeyAt(items: seq<Item>, k: nat) returns (i: nat)
    requires HasKey(items, k)
    ensures i < |items| && items[i].key == k
  {
    i :| i < |items| && items[i].key == k;
  }

  /** The live slots below n, oldest first, are those of the items from j on, bottom up. */
  lemma {:induction false} LiveBelow(s: State, n: nat, j: nat)
    requires Inv(s) && n <= s.nextKey && j <= |s.items|
    requires (j > 0 ==> s.items[j - 1].key >= n) && (j < |s.items| ==> s.items[j].key < n)
    ensures var vs := Live(s.slots, 0, n);
      && |vs| == |s.items| - j
      && forall i :: j <= i < |s.items| ==>
           s.items[i].key in s.slots && vs[|s.items| - 1 - i] == Read(s.slots[s.items[i].key])
  {
    hide Kept, Read, Tombstone, Missing, Ordered, HasKey;
    if j < |s.items| { assert Backed(s.slots, s.items[j]); }
    if n == 0 {
    } else if Tombstone(s.slots[n - 1]) {
      LiveBelow(s, n - 1, j);
    } else {
      var i := KeyAt(s.items, n - 1);
      if i > j { OrderedAt(s.items, j, i); }
      if i < j - 1 { OrderedAt(s.items, i, j - 1); }
      if j + 1 < |s.items| { OrderedAt(s.items, j, j + 1); }
      LiveBelow(s, n - 1, j + 1);
    }
  }

  /** The record in the file still is, or decodes to, the one in the list. */
  predicate Intact(v: string, r: Record) { v == Encode(r) ==> Storable(r) }

  lemma IntactReadsBack(v: string, r: Record)
    requires Kept(v, r)
    ensures Decode(Read(v)) == r <==> Intact(v, r)
  {
    hide Encode, Decode, Storable, Read;
    ReadBackIffStorable(r);
  }

  /**
    * Loading the file of any valid state rebuilds the list: same length, same order, and a record comes back intact
    * exactly if it is storable or was itself read from the file.
    */
  lemma {:induction false} ReloadRebuildsList(s: State)
    requires Inv(s)
    ensures var l := LoadedList(Live(s.slots, 0, s.nextKey));
      && |l| == |s.items|
      && forall i :: 0 <= i < |l| ==>
           && s.items[i].key in s.slots
           && l[i].rec == Decode(Read(s.slots[s.items[i].key]))
           && (l[i].rec == s.items[i].rec <==> Intact(s.slots[s.items[i].key], s.items[i].rec))
  {
    hide Decode, Read, Kept, Intact, Tombstone, Missing;
    if s.items != [] { assert Backed(s.slots, s.items[0]); }
    LiveBelow(s, s.nextKey, 0);
    var l := LoadedList(Live(s.slots, 0, s.nextKey));
    forall i | 0 <= i < |l|
      ensures s.items[i].key in s.slots
      ensures l[i].rec == s.items[i].rec <==> Intact(s.slots[s.items[i].key], s.items[i].rec)
    {
      assert Backed(s.slots, s.items[i]);
      IntactReadsBack(s.slots[s.items[i].key], s.items[i].rec);
    }
  }

  /**
    * What `CallsLoad` leaves behind: records moved down in order, slot 0 kept as a tombstone if there were none,
    * and whatever lay behind the first gap untouched.
    */
  ghost predicate LoadedFrom(orig: Slots, n: nat, s: State) {
    var vs := Live(orig, 0, n);
    && s.items == LoadedList(vs)
    && s.nextKey == (if n == 0 then 0 else if vs == [] then 1 else |vs|)
    && Readable(s.slots, s.nextKey) && Behind(orig, n, s.slots, s.nextKey)
    && Filled(vs, s.slots)
    && (n > 0 && vs == [] ==> Tombstone(s.slots[0]))
  }

  /** The texts fill the slots from 0 on. */
  ghost predicate Filled(vs: seq<string>, slots: Slots) {
    forall k: nat :: k < |vs| ==> k in slots && !Tombstone(slots[k]) && Read(slots[k]) == vs[k]
  }

  /** A text that starts with a semicolon has an empty number. */
  predicate Numberless(v: string) { v == "" || v[0] == ';' }

  lemma NumberOfText(v: string)
    ensures Decode(v).number == "" <==> Numberless(v)
    ensures !Numberless(v) ==> Decode(v).number[0] == v[0]
  {
    hide Split;
    SplitLast(v);
    if |Split(v)| == 1 { OnlyPart(v); }
  }

  lemma LoadedOrdered(vs: seq<string>)
    ensures Ordered(LoadedList(vs))
  {
    hide Decode;
  }

  predicate AllNumbered(vs: seq<string>) { forall k :: 0 <= k < |vs| ==> !Numberless(vs[k]) }

  lemma LoadedBacked(vs: seq<string>, slots: Slots)
    requires Filled(vs, slots)
    ensures AllBacked(slots, LoadedList(vs)) <==> AllNumbered(vs)
  {
    hide Decode, Read, Encode, Tombstone, Numberless;
    var items := LoadedList(vs);
    forall i | 0 <= i < |items| ensures Backed(slots, items[i]) <==> !Numberless(vs[|vs| - 1 - i]) {
      NumberOfText(vs[|vs| - 1 - i]);
    }
    if AllBacked(slots, items) {
      forall k | 0 <= k < |vs| ensures !Numberless(vs[k]) { assert Backed(slots, items[|vs| - 1 - k]); }
    }
  }

  ghost predicate LiveWithin(slots: Slots, n: nat) { forall k :: k in slots && !Tombstone(slots[k]) ==> k < n }

  lemma LoadedCovered(vs: seq<string>, slots: Slots)
    requires LiveWithin(slots, |vs|)
    ensures Covered(slots, LoadedList(vs))
  {
    hide Decode, Tombstone;
    forall k | k in slots && !Tombstone(slots[k]) ensures HasKey(LoadedList(vs), k) {
      assert LoadedList(vs)[|vs| - 1 - k].key == k;
    }
  }

  /** Nothing lies behind the first gap. */
  ghost predicate NothingBehind(m: Slots, n: nat) { forall k: nat :: n <= k ==> k !in m }

  /** A loaded history is valid exactly if every text starts with a number and nothing lay behind the first gap. */
  lemma {:induction false} LoadedIsValid(orig: Slots, n: nat, s: State)
    requires Readable(orig, n) && LoadedFrom(orig, n, s)
    ensures Inv(s) <==> AllNumbered(Live(orig, 0, n)) && NothingBehind(orig, n)
  {
    hide LoadedFrom, Live, LoadedList, Readable, Contiguous, NothingBehind, Ordered, AllBacked, Covered, AllNumbered;
    var vs := Live(orig, 0, n);
    LoadedSlots(orig, n, s);
    LoadedOrdered(vs);
    LoadedBacked(vs, s.slots);
    LoadedExtent(orig, n, s);
    if Contiguous(s.slots, s.nextKey) { LoadedCovered(vs, s.slots); }
  }

  lemma LoadedSlots(orig: Slots, n: nat, s: State)
    requires LoadedFrom(orig, n, s)
    ensures s.items == LoadedList(Live(orig, 0, n)) && Filled(Live(orig, 0, n), s.slots)
  {
    hide Live, LoadedList, Behind, Readable, Filled;
    LiveLength(orig, 0, n);
  }

  /** Without a number: the next change turns the entry's slot into a tombstone while the list still shows it. */
  lemma NumberlessEntryIsLost(slots: Slots)
    ensures var s := State(1, LoadedList([";a;0;0;0;"]), slots);
      |DurationSet(s, "", 5).items| == 1 && DurationSet(s, "", 5).slots == slots[0 := NULL]
  {
    NumberOfText(";a;0;0;0;");
    hide Decode;
  }

  /** The program can write such a text itself: for an address whose user starts with a semicolon. */
  lemma SemicolonUser(s: State, id: string, name: string, kind: int32, time: int32, domain: string)
    requires Index(s.items, id) < 0 && |s.items| < MAX_CALLS
    ensures var slots := Added(s, id, "" + ("sip:" + ";a") + "@" + "d", name, kind, time, domain).slots;
      s.nextKey in slots && Numberless(slots[s.nextKey])
  {
    hide SipUri.ParseSIPURI;
    SipUri.ParseLayout("", ";a", "d");
  }

  /** With a gap: filling it brings back what lay behind it. */
  lemma StaleRecordReturns(first: string, added: string, stale: string)
    requires !Missing(first) && !Missing(added) && !Missing(stale)
    ensures Extent(map[0 := first, 2 := stale]) == 1 && Extent(map[0 := first, 2 := stale][1 := added]) == 3
  {
    hide Missing;
    ExtentIs(map[0 := first, 2 := stale], 1);
    ExtentIs(map[0 := first, 2 := stale][1 := added], 3);
  }

  lemma LoadedExtent(orig: Slots, n: nat, s: State)
    requires Readable(orig, n) && LoadedFrom(orig, n, s)
    ensures Contiguous(s.slots, s.nextKey) <==> NothingBehind(orig, n)
    ensures Contiguous(s.slots, s.nextKey) ==> LiveWithin(s.slots, |Live(orig, 0, n)|)
  {
    hide Live, LoadedList, Read, Tombstone, Missing, Behind, Readable, Contiguous;
    LiveLength(orig, 0, n);
    GapClosed(orig, n, s.slots, s.nextKey);
    if Contiguous(s.slots, s.nextKey) { ContiguousKeys(s.slots, s.nextKey); }
  }

  lemma ContiguousKeys(m: Slots, n: nat)
    requires Contiguous(m, n)
    ensures forall k: nat :: k in m <==> k < n
  {
  }

  lemma GapClosed(orig: Slots, n: nat, m: Slots, top: nat)
    requires top <= n && Readable(m, top) && Behind(orig, n, m, top)
    ensures Contiguous(m, top) <==> NothingBehind(orig, n)
  {
    hide Missing;
    forall k: nat | n <= k ensures k in m <==> k in orig { assert SameAt(m, orig, k); }
  }

  /** The text of this record does not start with the semicolon behind an empty number. */
  predicate StartsWithNumber(r: Record) { r.number != "" && r.number[0] != ';' }

  lemma KeptNumber(v: string, r: Record)
    requires Kept(v, r) && r.number != ""
    ensures Numberless(Read(v)) <==> !StartsWithNumber(r)
  {
    NumberOfText(Read(v));
    hide Decode;
    if v == Encode(r) { assert v[0] == r.number[0] && Read(v)[0] == v[0]; }
  }

  /**
    * After any run from a valid state, a restart shows as many entries in the same order. They are the same exactly
    * if each is intact, and the state is again valid exactly if no number starts with a semicolon.
    */
  lemma {:induction false} RunThenReload(s: State, ops: seq<Op>, domain: string, u: State)
    requires Inv(s) && LoadedFrom(Run(s, ops, domain).slots, Extent(Run(s, ops, domain).slots), u)
    ensures var t := Run(s, ops, domain);
      && |u.items| == |t.items|
      && (forall i :: 0 <= i < |t.items| ==>
            && t.items[i].key in t.slots && u.items[i].key == |t.items| - 1 - i && u.items[i].id == ""
            && (u.items[i].rec == t.items[i].rec <==> Intact(t.slots[t.items[i].key], t.items[i].rec)))
      && (Inv(u) <==> forall i :: 0 <= i < |t.items| ==> StartsWithNumber(t.items[i].rec))
  {
    hide Run, Live, Decode, Intact, Extent;
    var t := Run(s, ops, domain);
    RunKeepsInv(s, ops, domain);
    ContiguousExtent(t.slots, t.nextKey);
    ReloadRebuildsList(t);
    ReloadNumbers(t);
    LoadedIsValid(t.slots, t.nextKey, u);
  }

  lemma ReloadNumbers(s: State)
    requires Inv(s)
    ensures var vs := Live(s.slots, 0, s.nextKey);
      AllNumbered(vs) <==> forall i :: 0 <= i < |s.items| ==> StartsWithNumber(s.items[i].rec)
    ensures NothingBehind(s.slots, s.nextKey)
  {
    hide Kept, Read, Tombstone, Missing, Numberless, StartsWithNumber, Live;
    var vs, n := Live(s.slots, 0, s.nextKey), |s.items|;
    if s.items != [] { assert Backed(s.slots, s.items[0]); }
    LiveBelow(s, s.nextKey, 0);
    forall i | 0 <= i < n ensures Numberless(vs[n - 1 - i]) <==> !StartsWithNumber(s.items[i].rec) {
      assert Backed(s.slots, s.items[i]);
      KeptNumber(s.slots[s.items[i].key], s.items[i].rec);
    }
    if forall i :: 0 <= i < n ==> StartsWithNumber(s.items[i].rec) {
      forall k | 0 <= k < n ensures !Numberless(vs[k]) { assert StartsWithNumber(s.items[n - 1 - k].rec); }
    }
    if AllNumbered(vs) {
      forall i | 0 <= i < n ensures StartsWithNumber(s.items[i].rec) { assert !Numberless(vs[n - 1 - i]); }
    }
  }

  lemma {:induction false} LoadedListAppend(vs: seq<string>, v: string)
    ensures LoadedList(vs + [v]) == [Item(|vs|, "", Decode(v))] + LoadedList(vs)
  {
  }

  /** The state in which `CallsLoad` stops. */
  lemma CutIsLoaded(orig: Slots, n: nat, s: State)
    requires Cutting(Live(orig, 0, n), s.slots, s.nextKey) && Behind(orig, n, s.slots, s.nextKey)
    requires s.items == LoadedList(Live(orig, 0, n))
    requires s.nextKey == (if n == 0 then 0 else if Live(orig, 0, n) == [] then 1 else |Live(orig, 0, n)|)
    ensures LoadedFrom(orig, n, s)
  {
  }

  // ---------------------------------------------------------------- the reading loop of CallsLoad

  /** Where the loop stands before slot i. */
  ghost predicate Loading(s: State, orig: Slots, n: nat, i: nat, emptyKey: int) {
    && i <= n && Compacting(orig, s.slots, n, i)
    && s.items == LoadedList(Live(orig, 0, i)) && |s.items| == |Live(orig, 0, i)| <= i
    && emptyKey == (if |s.items| == i then -1 else |s.items|)
    && s.nextKey == (if |s.items| == 0 then 0 else |s.items| - 1)
  }

  lemma LoadingStart(orig: Slots, n: nat)
    requires Readable(orig, n)
    ensures Loading(State(0, [], orig), orig, n, 0, -1)
  {
  }

  lemma LoadingSlot(s: State, orig: Slots, n: nat, i: nat, emptyKey: int)
    requires Loading(s, orig, n, i, emptyKey)
    ensures i <= n && (i in s.slots && !Missing(s.slots[i]) <==> i < n)
    ensures i < n ==> i in orig && s.slots[i] == orig[i]
    ensures -1 <= emptyKey
  {
  }

  lemma LoadingTombstone(s: State, orig: Slots, n: nat, i: nat, emptyKey: int)
    requires Loading(s, orig, n, i, emptyKey) && i < n && i in orig && Tombstone(orig[i])
    ensures Loading(s, orig, n, i + 1, if emptyKey == -1 then i else emptyKey)
  {
    CompactingSlot(orig, s.slots, n, i);
    LiveNext(orig, i);
    MoveAdvances(orig, s.slots, n, i);
    hide Live, LoadedList, Compacting, Tombstone;
  }

  lemma LoadingInPlace(s: State, orig: Slots, n: nat, i: nat)
    requires Loading(s, orig, n, i, -1) && i < n && i in orig && !Tombstone(orig[i])
    ensures Loading(State(i, [Item(i, "", Decode(Read(orig[i])))] + s.items, s.slots), orig, n, i + 1, -1)
  {
    CompactingSlot(orig, s.slots, n, i);
    LiveNext(orig, i);
    MoveAdvances(orig, s.slots, n, i);
    LoadedListAppend(Live(orig, 0, i), Read(orig[i]));
    hide Live, LoadedList, Compacting, Tombstone, Decode, Read;
  }

  /** A record is moved down by two writes, and the file can be recovered after each of them. */
  lemma LoadingMove(s: State, orig: Slots, n: nat, i: nat, emptyKey: nat)
    requires Loading(s, orig, n, i, emptyKey) && i < n && i in orig && !Tombstone(orig[i])
    ensures var c := s.slots[emptyKey := Read(orig[i])];
      && Recoverable(c, Live(orig, 0, n)) && Recoverable(c[i := NULL], Live(orig, 0, n))
      && Loading(State(emptyKey, [Item(emptyKey, "", Decode(Read(orig[i])))] + s.items, c[i := NULL]),
                 orig, n, i + 1, emptyKey + 1)
  {
    CompactingSlot(orig, s.slots, n, i);
    LiveNext(orig, i);
    MoveIsSafe(orig, s.slots, n, i);
    LoadedListAppend(Live(orig, 0, i), Read(orig[i]));
    hide Live, LoadedList, Compacting, Tombstone, Decode, Read, Recoverable;
  }

  lemma LoadingDone(s: State, orig: Slots, n: nat, emptyKey: int)
    requires Loading(s, orig, n, n, emptyKey)
    ensures Cutting(Live(orig, 0, n), s.slots, n) && s.items == LoadedList(Live(orig, 0, n))
    ensures |Live(orig, 0, n)| <= n && Behind(orig, n, s.slots, n)
    ensures s.nextKey == if Live(orig, 0, n) == [] then 0 else |Live(orig, 0, n)| - 1
  {
  }
}

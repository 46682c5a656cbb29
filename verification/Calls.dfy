/** The dialog class of Calls.cpp, proved against the state machine of `CallHistory`. */
module Calls {
  import opened CallRecord
  import opened CallSlots
  import opened CallHistory
  import SipUri

  ghost predicate Loadable(m: Slots) { exists n: nat :: Contiguous(m, n) }

  /** The file was loadable after each of these writes. */
  ghost predicate AllLoadable(states: seq<Slots>) {
    forall j :: 0 <= j < |states| ==> Loadable(states[j])
  }

  /** After each of these writes no record of `all` was lost, and at most one was there twice. */
  ghost predicate AllRecoverable(states: seq<Slots>, all: seq<string>) {
    forall j :: 0 <= j < |states| ==> Recoverable(states[j], all)
  }

  lemma RecoverableSoFar(j0: seq<Slots>, j1: seq<Slots>, j2: seq<Slots>, all: seq<string>)
    requires j0 <= j1 <= j2 && AllRecoverable(j1[|j0|..], all) && AllRecoverable(j2[|j1|..], all)
    ensures AllRecoverable(j2[|j0|..], all)
  {
  }

  lemma RecoverableNothing(j: seq<Slots>, all: seq<string>)
    ensures AllRecoverable(j[|j|..], all)
  {
  }

  class Dialog {
    var nextKey: nat
    var items: seq<Item>
    var slots: Slots
    /** Every state the file has been in, one entry per write. */
    ghost var journal: seq<Slots>

    ghost function Now(): (s: State)
      reads this
    {
      State(nextKey, items, slots)
    }

    constructor (file: Slots)
      ensures nextKey == 0 && items == [] && slots == file && journal == []
    {
      nextKey, items, slots, journal := 0, [], file, [];
    }

    /** `WritePrivateProfileString` on the "Calls" section */
    method WriteSlot(key: nat, data: string)
      modifies this`slots, this`journal
      ensures slots == old(slots)[key := data] && journal == old(journal) + [slots]
    {
      slots := slots[key := data];
      journal := journal + [slots];
    }

    /** `WritePrivateProfileString` with a NULL value */
    method EraseSlot(key: nat)
      modifies this`slots, this`journal
      ensures slots == old(slots) - {key} && journal == old(journal) + [slots]
    {
      slots := slots - {key};
      journal := journal + [slots];
    }

    method CallSave(it: Item)
      modifies this
      ensures Now() == Saved(old(Now()), it) && journal == old(journal) + [slots]
    {
      var data := if it.rec.number != "" then Encode(it.rec) else NULL;
      WriteSlot(it.key, data);
      if it.key == nextKey { nextKey := nextKey + 1; }
    }

    method Delete(i: nat)
      requires Inv(Now()) && i < |items|
      modifies this
      ensures Now() == Deleted(old(Now()), i) && Inv(Now())
      ensures journal == old(journal) + [slots] && Loadable(slots)
    {
      DeletedKeepsInv(Now(), i);
      var it := items[i];
      it := it.(rec := it.rec.(number := ""));
      CallSave(it);
      items := items[..i] + items[i + 1..];
    }

    method Get(id: string) returns (i: int)
      ensures i == Index(items, id)
    {
      i := 0;
      while i < |items|
        invariant 0 <= i <= |items| && forall j :: 0 <= j < i ==> items[j].id != id
      {
        if items[i].id == id { return; }
        i := i + 1;
      }
      return -1;
    }

    /** The rewriting of one item, common to `Add`, `SetDuration` and `SetInfo`. */
    method Change(i: nat, rec: Record)
      requires Inv(Now()) && i < |items| && rec.number != ""
      modifies this
      ensures Now() == Changed(old(Now()), i, rec) && Inv(Now())
      ensures journal == old(journal) + [slots] && Loadable(slots)
    {
      ChangedKeepsInv(Now(), i, rec);
      var it := items[i].(rec := rec);
      items := items[i := it];
      CallSave(it);
    }

    method Add(id: string, remote: string, name: string, kind: int32, time: int32, domain: string)
      requires Inv(Now())
      modifies this
      ensures Now() == Added(old(Now()), id, remote, name, kind, time, domain) && Inv(Now())
      ensures old(journal) <= journal && AllLoadable(journal[|old(journal)|..])
      ensures |old(items)| <= MAX_CALLS ==> |items| <= MAX_CALLS
    {
      hide SipUri.ParseSIPURI, Inv, Trimmed, Loadable;
      ApplyKeepsInv(Now(), AddCall(id, remote, name, kind, time), domain);
      InvNumbers(Now());
      var i := Get(id);
      if i == -1 {
        var uri := SipUri.ParseSIPURI(remote);
        if uri.user != "" {
          var number := if domain == uri.domain || uri.domain == "" then uri.user else uri.user + "@" + uri.domain;
          Insert(id, Record(number, name, kind, time, 0, ""));
          TrimToLimit();
        }
      } else if items[i].rec.kind == MISS && kind != MISS {
        Change(i, items[i].rec.(kind := kind));
      }
    }

    /** `Insert` at the top of the list, and the save that follows it in `Add` */
    method Insert(id: string, rec: Record)
      requires Inv(Now()) && rec.number != ""
      modifies this
      ensures Now() == Inserted(old(Now()), id, rec) && Inv(Now())
      ensures journal == old(journal) + [slots] && Loadable(slots)
    {
      InsertedKeepsInv(Now(), id, rec);
      var it := Item(nextKey, id, rec);
      items := [it] + items;
      CallSave(it);
    }

    /** The loop that ends `Add` */
    method TrimToLimit()
      requires Inv(Now())
      modifies this
      ensures Now() == Trimmed(old(Now())) && Inv(Now())
      ensures old(journal) <= journal && AllLoadable(journal[|old(journal)|..])
    {
      hide Inv, Loadable, Deleted;
      while |items| > MAX_CALLS
        invariant Inv(Now()) && Trimmed(Now()) == Trimmed(old(Now()))
        invariant old(journal) <= journal && AllLoadable(journal[|old(journal)|..])
        decreases |items|
      {
        DeletedShrinks(Now(), |items| - 1);
        Delete(|items| - 1);
      }
    }

    method SetDuration(id: string, sec: int32)
      requires Inv(Now())
      modifies this
      ensures Now() == DurationSet(old(Now()), id, sec) && Inv(Now())
      ensures old(journal) <= journal && AllLoadable(journal[|old(journal)|..])
    {
      hide Inv, Loadable, Changed;
      InvNumbers(Now());
      var i := Get(id);
      if i != -1 { Change(i, items[i].rec.(duration := sec)); }
    }

    method SetInfo(id: string, str: string)
      requires Inv(Now())
      modifies this
      ensures Now() == InfoSet(old(Now()), id, str) && Inv(Now())
      ensures old(journal) <= journal && AllLoadable(journal[|old(journal)|..])
    {
      hide Inv, Loadable, Changed;
      InvNumbers(Now());
      var i := Get(id);
      if i != -1 { Change(i, items[i].rec.(info := str)); }
    }

    /** One iteration of the reading loop of `CallsLoad`, on a slot that is there. */
    method LoadSlot(ghost orig: Slots, ghost n: nat, i: nat, emptyKey: int) returns (emptyKey': int)
      requires Loading(Now(), orig, n, i, emptyKey) && i < n && i in slots
      modifies this
      ensures Loading(Now(), orig, n, i + 1, emptyKey')
      ensures old(journal) <= journal && AllRecoverable(journal[|old(journal)|..], Live(orig, 0, n))
    {
      hide Loading, Live, Read, Tombstone, Missing, Decode, Recoverable, Readable;
      LoadingSlot(Now(), orig, n, i, emptyKey);
      var ptr := Read(slots[i]);
      if Tombstone(ptr) {
        LoadingTombstone(Now(), orig, n, i, emptyKey);
        emptyKey' := if emptyKey == -1 then i else emptyKey;
      } else {
        var rec := CallDecode(ptr);
        if emptyKey != -1 {
          LoadingMove(Now(), orig, n, i, emptyKey);
          items := [Item(emptyKey, "", rec)] + items;
          WriteSlot(emptyKey, ptr);
          WriteSlot(i, NULL);
          nextKey := emptyKey;
          emptyKey' := emptyKey + 1;
        } else {
          LoadingInPlace(Now(), orig, n, i);
          items := [Item(i, "", rec)] + items;
          nextKey := i;
          emptyKey' := -1;
        }
      }
    }

    /** The reading loop of `CallsLoad`, up to the first key that is not there. */
    method ReadSlots(ghost n: nat) returns (i: nat, emptyKey: int)
      requires Loading(Now(), slots, n, 0, -1)
      modifies this
      ensures i == n && Loading(Now(), old(slots), n, n, emptyKey)
      ensures old(journal) <= journal && AllRecoverable(journal[|old(journal)|..], Live(old(slots), 0, n))
    {
      ghost var orig, all := slots, Live(slots, 0, n);
      hide Loading, Live, Missing, AllRecoverable, Readable;
      RecoverableNothing(journal, all);
      i, emptyKey := 0, -1;
      while true
        invariant i <= n && Loading(Now(), orig, n, i, emptyKey)
        invariant old(journal) <= journal && AllRecoverable(journal[|old(journal)|..], all)
        decreases n - i
      {
        LoadingSlot(Now(), orig, n, i, emptyKey);
        if i !in slots || Missing(slots[i]) { break; }
        ghost var before := journal;
        emptyKey := LoadSlot(orig, n, i, emptyKey);
        RecoverableSoFar(old(journal), before, journal, all);
        i := i + 1;
      }
    }

    /** `CallsLoad`: read the slots up to the first gap, moving records down over tombstones, then cut the tail off. */
    method CallsLoad()
      requires nextKey == 0 && items == []
      modifies this
      ensures LoadedFrom(old(slots), Extent(old(slots)), Now())
      ensures Live(slots, 0, nextKey) == Live(old(slots), 0, Extent(old(slots)))
      ensures old(journal) <= journal
      ensures AllRecoverable(journal[|old(journal)|..], Live(old(slots), 0, Extent(old(slots))))
    {
      ghost var orig, n := slots, Extent(slots);
      ghost var all := Live(orig, 0, n);
      hide Loading, Live, AllRecoverable, Readable, Cutting, Behind, LoadedFrom, LoadedList, Extent;
      LoadingStart(orig, n);
      var i, emptyKey := ReadSlots(n);
      LoadingDone(Now(), orig, n, emptyKey);
      if i != 0 { nextKey := nextKey + 1; }
      assert nextKey == if n == 0 then 0 else if all == [] then 1 else |all|;
      ghost var before := journal;
      CutTail(i, orig, all);
      RecoverableSoFar(old(journal), before, journal, all);
      CutIsLoaded(orig, n, Now());
    }

    /** The second loop of `CallsLoad`: erase the slots from `top` down to `nextKey`. */
    method CutTail(top: nat, ghost orig: Slots, ghost all: seq<string>)
      requires |all| <= nextKey <= top && Cutting(all, slots, top) && Behind(orig, top, slots, top)
      modifies this`slots, this`journal
      ensures Cutting(all, slots, nextKey) && Behind(orig, top, slots, nextKey) && Live(slots, 0, nextKey) == all
      ensures old(journal) <= journal && AllRecoverable(journal[|old(journal)|..], all)
    {
      hide Live, Recoverable, Cutting, Behind;
      var last := top - 1;
      while last >= nextKey
        invariant nextKey - 1 <= last < top && Cutting(all, slots, last + 1) && Behind(orig, top, slots, last + 1)
        invariant old(journal) <= journal && AllRecoverable(journal[|old(journal)|..], all)
      {
        ghost var before := journal;
        CutTombstone(all, slots, last + 1);
        CutBehind(orig, top, slots, last + 1);
        EraseSlot(last);
        CuttingLive(all, slots, last);
        RecoverableSoFar(old(journal), before, journal, all);
        last := last - 1;
      }
      CuttingLive(all, slots, nextKey);
    }
  }
}

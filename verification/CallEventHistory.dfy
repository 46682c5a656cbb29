/** What onCallState does to the call history, and the type an incoming call ends up with there. */
module CallEventHistory {
  import opened Unicode
  import opened CallRecord
  import opened CallHistory
  import opened CallEvents
  import SipUri

  const OUT: int32 := 0
  const IN: int32 := 1

  /** The type under which a call is entered, if this event enters it at all. */
  function EntryKind(role: Role, state: InviteState): (k: Option<int32>) {
    match (role, state)
    case (Uas, Confirmed) => Some(IN)
    case (Uas, Incoming) => Some(MISS)
    case (Uas, Early) => Some(MISS)
    case (Uac, Calling) => Some(OUT)
    case _ => None
  }

  function Entered(h: CallHistory.State, e: Event, domain: string): (r: CallHistory.State)
    requires e.CallState?
  {
    match (e.tab, EntryKind(e.role, e.state))
    case (Some(tab), Some(kind)) => Added(h, e.callId, tab.number, tab.name, kind, e.time, domain)
    case _ => h
  }

  function HistoryStep(h: CallHistory.State, e: Event, domain: string): (r: CallHistory.State) {
    match e
    case Destroy => h
    case DeleteEntry(index) => Apply(h, DeleteCall(index), domain)
    case CallState(_, _, state, lastStatus, _, callId, _, seconds, text, _) =>
      var h1 := Entered(h, e, domain);
      if !state.Disconnected? then h1
      else
        var h2 := DurationSet(h1, callId, seconds);
        if lastStatus == 200 then h2 else InfoSet(h2, callId, text)
  }

  function HistoryRun(h: CallHistory.State, es: seq<Event>, domain: string): (r: CallHistory.State) {
    if es == [] then h else HistoryStep(HistoryRun(h, es[..|es| - 1], domain), es[|es| - 1], domain)
  }

  lemma {:induction false} StepKeepsInv(h: CallHistory.State, e: Event, domain: string)
    requires Inv(h)
    ensures Inv(HistoryStep(h, e, domain))
  {
    hide Inv, Added, DurationSet, InfoSet, Deleted;
    match e
    case Destroy =>
    case DeleteEntry(index) => ApplyKeepsInv(h, DeleteCall(index), domain);
    case CallState(_, role, state, lastStatus, _, callId, tab, seconds, text, time) =>
      match (tab, EntryKind(role, state)) {
        case (Some(t), Some(kind)) => AddedKeepsInv(h, callId, t.number, t.name, kind, time, domain);
        case _ =>
      }
      var h1 := Entered(h, e, domain);
      ApplyKeepsInv(h1, SetDuration(callId, seconds), domain);
      ApplyKeepsInv(DurationSet(h1, callId, seconds), SetInfo(callId, text), domain);
  }

  /** File and list stay in step over every run of events. */
  lemma {:induction false} EventsKeepInv(h: CallHistory.State, es: seq<Event>, domain: string)
    requires Inv(h)
    ensures Inv(HistoryRun(h, es, domain))
  {
    hide Inv, HistoryStep;
    if es != [] {
      EventsKeepInv(h, es[..|es| - 1], domain);
      StepKeepsInv(HistoryRun(h, es[..|es| - 1], domain), es[|es| - 1], domain);
    }
  }

  // ---------------------------------------------------------------- the entry of one call

  function RecordOf(it: Item, x: string): (rs: seq<Record>) { if it.id == x then [it.rec] else [] }

  /** The records of the entries with this call id, top to bottom. */
  function Records(items: seq<Item>, x: string): (rs: seq<Record>) {
    if items == [] then [] else RecordOf(items[0], x) + Records(items[1..], x)
  }

  lemma {:induction false} RecordsConcat(a: seq<Item>, b: seq<Item>, x: string)
    ensures Records(a + b, x) == Records(a, x) + Records(b, x)
  {
    hide RecordOf;
    if a == [] {
      assert a + b == b;
    } else {
      assert (a + b)[1..] == a[1..] + b;
      RecordsConcat(a[1..], b, x);
    }
  }

  lemma RecordsCons(items: seq<Item>, x: string)
    requires items != []
    ensures Records(items, x) == (if items[0].id == x then [items[0].rec] else []) + Records(items[1..], x)
  {
  }

  lemma IndexCons(items: seq<Item>, x: string)
    requires items != []
    ensures var i := Index(items[1..], x);
      Index(items, x) == if items[0].id == x then 0 else if i < 0 then -1 else i + 1
  {
  }

  lemma {:induction false} RecordsIndex(items: seq<Item>, x: string)
    ensures var i := Index(items, x);
      if i < 0 then Records(items, x) == [] else Records(items, x) != [] && Records(items, x)[0] == items[i].rec
  {
    if items != [] {
      hide Records, Index;
      RecordsCons(items, x);
      IndexCons(items, x);
      if items[0].id != x { RecordsIndex(items[1..], x); }
    }
  }

  lemma RecordsOne(it: Item, x: string)
    ensures Records([it], x) == if it.id == x then [it.rec] else []
  {
  }

  lemma RecordsAround(items: seq<Item>, i: nat, x: string)
    requires i < |items|
    ensures Records(items, x) == Records(items[..i], x) + Records([items[i]], x) + Records(items[i + 1..], x)
  {
    assert items == items[..i] + [items[i]] + items[i + 1..];
    RecordsConcat(items[..i] + [items[i]], items[i + 1..], x);
    RecordsConcat(items[..i], [items[i]], x);
  }

  lemma RecordsWithout(items: seq<Item>, i: nat, x: string)
    requires i < |items|
    ensures Records(Without(items, i), x) == Records(items[..i], x) + Records(items[i + 1..], x)
  {
    RecordsConcat(items[..i], items[i + 1..], x);
  }

  lemma RecordsUpdate(items: seq<Item>, i: nat, it: Item, x: string)
    requires i < |items|
    ensures Records(items[i := it], x) == Records(items[..i], x) + Records([it], x) + Records(items[i + 1..], x)
  {
    var items' := items[i := it];
    RecordsAround(items', i, x);
    assert items'[..i] == items[..i] && items'[i + 1..] == items[i + 1..];
  }

  /** With at most one entry for x, rewriting an item matters to x only if it is that entry. */
  lemma {:induction false} ChangedRecords(h: CallHistory.State, i: nat, rec: Record, x: string)
    requires i < |h.items| && |Records(h.items, x)| <= 1
    ensures Records(Changed(h, i, rec).items, x) == if h.items[i].id == x then [rec] else Records(h.items, x)
  {
    var it := h.items[i].(rec := rec);
    assert Changed(h, i, rec).items == h.items[i := it];
    hide Records, Changed;
    RecordsAround(h.items, i, x);
    RecordsUpdate(h.items, i, it, x);
    RecordsOne(it, x);
    RecordsOne(h.items[i], x);
  }

  lemma {:induction false} DeletedRecords(h: CallHistory.State, i: nat, x: string)
    requires i < |h.items| && |Records(h.items, x)| <= 1
    ensures Records(Deleted(h, i).items, x) == Records(h.items, x) || Records(Deleted(h, i).items, x) == []
  {
    hide Records, Without;
    RecordsAround(h.items, i, x);
    RecordsWithout(h.items, i, x);
    RecordsOne(h.items[i], x);
  }

  lemma RecordsPrefix(items: seq<Item>, n: nat, x: string)
    requires n <= |items|
    ensures Records(items[..n], x) <= Records(items, x)
    ensures n > 0 && items[0].id == x ==> Records(items[..n], x) != []
  {
    assert items == items[..n] + items[n..];
    RecordsConcat(items[..n], items[n..], x);
  }

  lemma {:induction false} InsertedRecords(h: CallHistory.State, id: string, rec: Record, x: string)
    ensures Records(Trimmed(Inserted(h, id, rec)).items, x) <= (if id == x then [rec] else []) + Records(h.items, x)
    ensures id == x ==> Records(Trimmed(Inserted(h, id, rec)).items, x) != []
  {
    var s, it := Inserted(h, id, rec), Item(h.nextKey, id, rec);
    assert s.items == [it] + h.items;
    hide Records, Trimmed, Inserted;
    TrimmedKeeps(s);
    var n := if |s.items| > MAX_CALLS then MAX_CALLS else |s.items|;
    assert Trimmed(s).items == s.items[..n];
    RecordsPrefix(s.items, n, x);
    RecordsConcat([it], h.items, x);
    RecordsOne(it, x);
  }

  /** What adding makes of the entry of the call that is added. */
  function Adding(rs: seq<Record>, tab: Tab, kind: int32, time: int32, domain: string): (r: seq<Record>) {
    var uri := SipUri.ParseSIPURI(tab.number);
    if rs == [] then if uri.user == "" then [] else [Record(Number(uri, domain), tab.name, kind, time, 0, "")]
    else if rs[0].kind == MISS then [rs[0].(kind := kind)] else rs
  }

  lemma {:induction false} AddedRecords(
      h: CallHistory.State, id: string, tab: Tab, kind: int32, time: int32, domain: string, x: string)
    requires |Records(h.items, x)| <= 1
    ensures var rs := Records(h.items, x);
      var r := Records(Added(h, id, tab.number, tab.name, kind, time, domain).items, x);
      if id == x then r == Adding(rs, tab, kind, time, domain) else r == rs || r == []
  {
    hide Records, Trimmed, Inserted, Changed, Number, SipUri.ParseSIPURI;
    RecordsIndex(h.items, id);
    RecordsIndex(h.items, x);
    var i := Index(h.items, id);
    if i < 0 {
      var uri := SipUri.ParseSIPURI(tab.number);
      InsertedRecords(h, id, Record(Number(uri, domain), tab.name, kind, time, 0, ""), x);
    } else {
      ChangedRecords(h, i, h.items[i].rec.(kind := kind), x);
    }
  }

  /** What an event of the call itself makes of its entry. */
  function Next(rs: seq<Record>, e: Event, domain: string): (r: seq<Record>)
    requires e.CallState?
  {
    var added := match (e.tab, EntryKind(e.role, e.state))
      case (Some(tab), Some(kind)) => Adding(rs, tab, kind, e.time, domain)
      case _ => rs;
    if added == [] || !e.state.Disconnected? then added
    else [added[0].(duration := e.seconds, info := if e.lastStatus == 200 then added[0].info else e.text)]
  }

  predicate Own(e: Event, x: string) { e.CallState? && e.callId == x }

  lemma {:induction false} EnteredRecords(h: CallHistory.State, e: Event, domain: string, x: string)
    requires e.CallState? && |Records(h.items, x)| <= 1
    ensures var rs, r := Records(h.items, x), Records(Entered(h, e, domain).items, x);
      if e.callId != x then r == rs || r == []
      else match (e.tab, EntryKind(e.role, e.state))
        case (Some(tab), Some(kind)) => r == Adding(rs, tab, kind, e.time, domain)
        case _ => r == rs
  {
    hide Records, Added, Adding;
    match (e.tab, EntryKind(e.role, e.state))
    case (Some(tab), Some(kind)) => AddedRecords(h, e.callId, tab, kind, e.time, domain, x);
    case _ =>
  }

  lemma {:induction false} RewriteRecords(h: CallHistory.State, id: string, sec: int32, info: string, x: string)
    requires |Records(h.items, x)| <= 1
    ensures var rs := Records(h.items, x);
      && Records(DurationSet(h, id, sec).items, x) == (if id == x && rs != [] then [rs[0].(duration := sec)] else rs)
      && Records(InfoSet(h, id, info).items, x) == (if id == x && rs != [] then [rs[0].(info := info)] else rs)
  {
    hide Records, Changed;
    var i := Index(h.items, id);
    RecordsIndex(h.items, x);
    if i >= 0 {
      ChangedRecords(h, i, h.items[i].rec.(duration := sec), x);
      ChangedRecords(h, i, h.items[i].rec.(info := info), x);
    }
  }

  lemma AddingOne(rs: seq<Record>, tab: Tab, kind: int32, time: int32, domain: string)
    requires |rs| <= 1
    ensures |Adding(rs, tab, kind, time, domain)| <= 1
  {
  }

  /** A call's own event makes of its entry what it says; any other event leaves the entry alone or removes it. */
  lemma {:induction false} StepRecords(h: CallHistory.State, e: Event, domain: string, x: string)
    requires |Records(h.items, x)| <= 1
    ensures var rs, r := Records(h.items, x), Records(HistoryStep(h, e, domain).items, x);
      if Own(e, x) then r == Next(rs, e, domain) && |r| <= 1 else r == rs || r == []
  {
    hide Records, Adding, DurationSet, InfoSet, Entered, Deleted, EntryKind;
    match e
    case Destroy =>
    case DeleteEntry(index) =>
      if index < |h.items| { DeletedRecords(h, index, x); }
    case CallState(_, role, state, lastStatus, _, callId, tab, seconds, text, time) =>
      EnteredRecords(h, e, domain, x);
      match (tab, EntryKind(role, state)) {
        case (Some(t), Some(kind)) => AddingOne(Records(h.items, x), t, kind, time, domain);
        case _ =>
      }
      var h1 := Entered(h, e, domain);
      RewriteRecords(h1, callId, seconds, text, x);
      RewriteRecords(DurationSet(h1, callId, seconds), callId, seconds, text, x);
  }

  /** Tearing the library down leaves the history alone, and so do other calls as long as there is room for them. */
  lemma {:induction false} OthersLeaveAlone(h: CallHistory.State, e: Event, domain: string, x: string)
    requires !Own(e, x) && !e.DeleteEntry? && (e.Destroy? || |h.items| < 1000)
    ensures Records(HistoryStep(h, e, domain).items, x) == Records(h.items, x)
    ensures e.Destroy? ==> HistoryStep(h, e, domain) == h
  {
    if e.CallState? {
      hide Records, Added, DurationSet, InfoSet, EntryKind;
      match (e.tab, EntryKind(e.role, e.state)) {
        case (Some(tab), Some(kind)) => RoomForOthers(h, e.callId, tab, kind, e.time, domain, x);
        case _ =>
      }
      var h1 := Entered(h, e, domain);
      OtherRewrites(h1, e.callId, e.seconds, e.text, x);
      OtherRewrites(DurationSet(h1, e.callId, e.seconds), e.callId, e.seconds, e.text, x);
    }
  }

  lemma OtherChange(h: CallHistory.State, i: nat, rec: Record, x: string)
    requires i < |h.items| && h.items[i].id != x
    ensures Records(Changed(h, i, rec).items, x) == Records(h.items, x)
  {
    var it := h.items[i].(rec := rec);
    assert Changed(h, i, rec).items == h.items[i := it];
    hide Records, Changed;
    RecordsAround(h.items, i, x);
    RecordsUpdate(h.items, i, it, x);
    RecordsOne(it, x);
    RecordsOne(h.items[i], x);
  }

  lemma OtherRewrites(h: CallHistory.State, id: string, sec: int32, info: string, x: string)
    requires id != x
    ensures Records(DurationSet(h, id, sec).items, x) == Records(h.items, x)
    ensures Records(InfoSet(h, id, info).items, x) == Records(h.items, x)
  {
    hide Records, Changed;
    var i := Index(h.items, id);
    if i >= 0 {
      OtherChange(h, i, h.items[i].rec.(duration := sec), x);
      OtherChange(h, i, h.items[i].rec.(info := info), x);
    }
  }

  lemma RoomForOthers(h: CallHistory.State, id: string, tab: Tab, kind: int32, time: int32, domain: string, x: string)
    requires id != x && |h.items| < 1000
    ensures Records(Added(h, id, tab.number, tab.name, kind, time, domain).items, x) == Records(h.items, x)
  {
    hide Records, Changed, Number, SipUri.ParseSIPURI;
    var i := Index(h.items, id);
    if i >= 0 {
      OtherChange(h, i, h.items[i].rec.(kind := kind), x);
    } else {
      var rec := Record(Number(SipUri.ParseSIPURI(tab.number), domain), tab.name, kind, time, 0, "");
      var it := Item(h.nextKey, id, rec);
      assert Trimmed(Inserted(h, id, rec)).items == [it] + h.items;
      RecordsConcat([it], h.items, x);
      RecordsOne(it, x);
    }
  }

  /** The events that list a call: an incoming one that rings or is answered, an outgoing one that is being placed. */
  lemma {:induction false} ListedBy(h: CallHistory.State, e: Event, domain: string, x: string)
    requires Index(h.items, x) < 0
    ensures Index(HistoryStep(h, e, domain).items, x) >= 0 <==>
      && Own(e, x) && e.tab.Some? && SipUri.ParseSIPURI(e.tab.value.number).user != ""
      && if e.role.Uas? then e.state.Incoming? || e.state.Early? || e.state.Confirmed? else e.state.Calling?
  {
    hide Records, HistoryStep, SipUri.ParseSIPURI;
    RecordsIndex(h.items, x);
    RecordsIndex(HistoryStep(h, e, domain).items, x);
    StepRecords(h, e, domain, x);
  }

  // ---------------------------------------------------------------- over a run

  /** An event that reports x answered, on a call that has a tab. */
  predicate Answers(e: Event, x: string) { Own(e, x) && e.tab.Some? && e.state.Confirmed? }

  predicate Answered(es: seq<Event>, x: string) { exists i :: 0 <= i < |es| && Answers(es[i], x) }

  predicate IncomingOnly(es: seq<Event>, x: string) { forall i :: 0 <= i < |es| && Own(es[i], x) ==> es[i].role.Uas? }

  predicate OutgoingOnly(es: seq<Event>, x: string) { forall i :: 0 <= i < |es| && Own(es[i], x) ==> es[i].role.Uac? }

  /** The duration reported by the latest disconnection of x, and the text of its latest unsuccessful one. */
  function LastSeconds(es: seq<Event>, x: string): (sec: int32) {
    if es == [] then 0 else
    var e := es[|es| - 1];
    if Own(e, x) && e.state.Disconnected? then e.seconds else LastSeconds(es[..|es| - 1], x)
  }

  function LastText(es: seq<Event>, x: string): (text: string) {
    if es == [] then "" else
    var e := es[|es| - 1];
    if Own(e, x) && e.state.Disconnected? && e.lastStatus != 200 then e.text else LastText(es[..|es| - 1], x)
  }

  ghost predicate Listed(h: CallHistory.State, es: seq<Event>, domain: string, x: string) {
    Index(HistoryRun(h, es, domain).items, x) >= 0
  }

  /** Not listed after the first m events, listed after every later one: event m made the entry, and it stayed. */
  ghost predicate Retained(h: CallHistory.State, es: seq<Event>, m: nat, domain: string, x: string) {
    && m < |es| && !Listed(h, es[..m], domain, x)
    && forall n :: m < n <= |es| ==> Listed(h, es[..n], domain, x)
  }

  /** A run can be cut anywhere. */
  lemma {:induction false} HistoryRunConcat(h: CallHistory.State, a: seq<Event>, b: seq<Event>, domain: string)
    ensures HistoryRun(h, a + b, domain) == HistoryRun(HistoryRun(h, a, domain), b, domain)
  {
    hide HistoryStep;
    if b == [] {
      assert a + b == a;
    } else {
      var front := b[..|b| - 1];
      assert (a + b)[..|a + b| - 1] == a + front;
      HistoryRunConcat(h, a, front, domain);
    }
  }

  /** The entry of a call whose events these are, the first of which made it. */
  ghost predicate Tells(r: Record, es: seq<Event>, domain: string, x: string) {
    && es != [] && Own(es[0], x) && es[0].tab.Some?
    && r.number == Number(SipUri.ParseSIPURI(es[0].tab.value.number), domain)
    && r.name == es[0].tab.value.name && r.time == es[0].time
    && r.duration == LastSeconds(es, x) && r.info == LastText(es, x)
    && (IncomingOnly(es, x) ==> r.kind == if Answered(es, x) then 1 else 2)
    && (OutgoingOnly(es, x) ==> es[0].state.Calling? && r.kind == 0)
  }

  /** In any run, the entry of a call that stays listed tells the story of that call, whatever other calls do. */
  lemma {:induction false} EntryTellsStory(h: CallHistory.State, es: seq<Event>, m: nat, domain: string, x: string)
    requires Retained(h, es, m, domain, x)
    ensures var items := HistoryRun(h, es, domain).items;
      Index(items, x) >= 0 && Tells(items[Index(items, x)].rec, es[m..], domain, x)
  {
    hide HistoryRun, Tells, Records;
    var h', rest := HistoryRun(h, es[..m], domain), es[m..];
    assert es == es[..m] + rest;
    HistoryRunConcat(h, es[..m], rest, domain);
    forall n | 1 <= n <= |rest| ensures Listed(h', rest[..n], domain, x) {
      assert es[..m + n] == es[..m] + rest[..n];
      HistoryRunConcat(h, es[..m], rest[..n], domain);
      assert Listed(h, es[..m + n], domain, x);
    }
    RecordsOverRun(h', rest, domain, x);
    RecordsIndex(HistoryRun(h', rest, domain).items, x);
  }

  lemma {:induction false} RecordsOverRun(h: CallHistory.State, es: seq<Event>, domain: string, x: string)
    requires Index(h.items, x) < 0 && es != []
    requires forall n :: 1 <= n <= |es| ==> Listed(h, es[..n], domain, x)
    ensures var rs := Records(HistoryRun(h, es, domain).items, x); |rs| == 1 && Tells(rs[0], es, domain, x)
  {
    hide Records, HistoryStep, Tells, Next;
    var before, e := es[..|es| - 1], es[|es| - 1];
    assert es[..|es|] == es && Listed(h, es[..|es|], domain, x);
    RecordsIndex(HistoryRun(h, es, domain).items, x);
    if before == [] {
      assert es == [e] && HistoryRun(h, before, domain) == h;
      RecordsIndex(h.items, x);
      StepRecords(h, e, domain, x);
      FirstTells(e, domain, x);
    } else {
      forall n | 1 <= n <= |before| ensures Listed(h, before[..n], domain, x) {
        assert before[..n] == es[..n];
      }
      RecordsOverRun(h, before, domain, x);
      StepRecords(HistoryRun(h, before, domain), e, domain, x);
      var rs := Records(HistoryRun(h, before, domain).items, x);
      assert rs == [rs[0]];
      NextTells(rs[0], es, domain, x);
    }
  }

  lemma FirstTells(e: Event, domain: string, x: string)
    requires Own(e, x) && Next([], e, domain) != []
    ensures |Next([], e, domain)| == 1 && Tells(Next([], e, domain)[0], [e], domain, x)
  {
    hide Number, SipUri.ParseSIPURI;
    var es := [e];
    assert es[..|es| - 1] == [] && es[0] == e;
    assert LastSeconds([], x) == 0 && LastText([], x) == "";
    assert Answered(es, x) <==> Answers(es[0], x);
    assert IncomingOnly(es, x) <==> e.role.Uas?;
    assert OutgoingOnly(es, x) <==> e.role.Uac?;
  }

  lemma NextTells(r: Record, es: seq<Event>, domain: string, x: string)
    requires |es| >= 2 && Tells(r, es[..|es| - 1], domain, x)
    ensures var e := es[|es| - 1];
      if Own(e, x) then |Next([r], e, domain)| == 1 && Tells(Next([r], e, domain)[0], es, domain, x)
      else Tells(r, es, domain, x)
  {
    hide Number, SipUri.ParseSIPURI;
    var e, before := es[|es| - 1], es[..|es| - 1];
    AnsweredLast(es, x);
    RolesLast(es, x);
  }

  lemma RolesLast(es: seq<Event>, x: string)
    requires es != []
    ensures var e := es[|es| - 1];
      && (IncomingOnly(es, x) <==> IncomingOnly(es[..|es| - 1], x) && (Own(e, x) ==> e.role.Uas?))
      && (OutgoingOnly(es, x) <==> OutgoingOnly(es[..|es| - 1], x) && (Own(e, x) ==> e.role.Uac?))
  {
    assert es == es[..|es| - 1] + [es[|es| - 1]];
  }

  lemma AnsweredLast(es: seq<Event>, x: string)
    requires es != []
    ensures Answered(es, x) <==> Answered(es[..|es| - 1], x) || Answers(es[|es| - 1], x)
  {
  }

  /** In any run, an incoming call ends up listed as received if it was answered while listed, and as missed if not. */
  lemma {:induction false} ReceivedIffAnswered(
      h: CallHistory.State, es: seq<Event>, m: nat, domain: string, x: string)
    requires Retained(h, es, m, domain, x) && IncomingOnly(es[m..], x)
    ensures var items := HistoryRun(h, es, domain).items;
      Index(items, x) >= 0 && items[Index(items, x)].rec.kind == if Answered(es[m..], x) then 1 else 2
  {
    hide HistoryRun, Answered;
    EntryTellsStory(h, es, m, domain, x);
  }

  /** In any run, an outgoing call was listed when it was placed, and is listed as outgoing whatever became of it. */
  lemma {:induction false} OutgoingStaysOutgoing(
      h: CallHistory.State, es: seq<Event>, m: nat, domain: string, x: string)
    requires Retained(h, es, m, domain, x) && OutgoingOnly(es[m..], x)
    ensures Own(es[m], x) && es[m].state.Calling?
    ensures var items := HistoryRun(h, es, domain).items; Index(items, x) >= 0 && items[Index(items, x)].rec.kind == 0
  {
    hide HistoryRun;
    EntryTellsStory(h, es, m, domain, x);
    assert es[m..][0] == es[m];
  }
}

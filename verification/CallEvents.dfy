/** The bookkeeping of onCallState and PJDestroy in mainDlg.cpp. */
module CallEvents {
  import opened CallRecord
  import CallHistory
  import opened Unicode
  import opened Sequences

  datatype Role = Uac | Uas

  datatype InviteState = Null | Calling | Incoming | Early | Connecting | Confirmed | Disconnected

  /** The message tab of a call: its number and name. */
  datatype Tab = Tab(number: string, name: string)

  /**
    * `tab` is what `AddTab` returned; `text` and `seconds` are the status text and duration of the call.
    * `Destroy` is a `PJDestroy` that finds the library running; one that does not has no effect.
    */
  datatype Event =
    | CallState(id: int, role: Role, state: InviteState, lastStatus: int, mediaCount: nat,
                callId: string, tab: Option<Tab>, seconds: int32, text: string, time: int32)
    | Destroy
    | DeleteEntry(index: nat)

  datatype State = State(toneCalls: seq<int>, toneTimer: bool, attendedCalls: seq<int>)

  // ---------------------------------------------------------------- one event

  /** `CList::Find` and `RemoveAt` */
  function Removed(xs: seq<int>, x: int): (r: seq<int>) {
    if xs == [] then [] else if xs[0] == x then xs[1..] else [xs[0]] + Removed(xs[1..], x)
  }

  function Appended(xs: seq<int>, x: int): (r: seq<int>) { if x in xs then xs else xs + [x] }

  predicate Ringing(e: Event)
    requires e.CallState?
  {
    e.lastStatus == 180 && e.mediaCount == 0
  }

  predicate Attended(s: InviteState) { s.Early? || s.Connecting? || s.Confirmed? }

  function Step(s: State, e: Event, localDTMF: bool): (r: State) {
    match e
    case Destroy => State([], false, [])
    case DeleteEntry(_) => s
    case CallState(id, role, state, _, _, _, _, _, _, _) =>
      var tones :=
        if !(role.Uac? && localDTMF) then s.toneCalls
        else if Ringing(e) then Appended(s.toneCalls, id)
        else Removed(s.toneCalls, id);
      var timer :=
        if !(role.Uac? && localDTMF) then s.toneTimer
        else if Ringing(e) then s.toneTimer || s.toneCalls == []
        else s.toneTimer && !(id in s.toneCalls && tones == []);
      State(tones, timer, if Attended(state) then Appended(s.attendedCalls, id) else Removed(s.attendedCalls, id))
  }

  function Run(es: seq<Event>, localDTMF: bool): (s: State) {
    if es == [] then State([], false, []) else Step(Run(es[..|es| - 1], localDTMF), es[|es| - 1], localDTMF)
  }

  // ---------------------------------------------------------------- what a run amounts to

  /** The latest event of a call since the library was last torn down. */
  function Latest(es: seq<Event>, id: int): (r: Option<Event>)
    ensures r.Some? ==> r.value.CallState?
  {
    if es == [] then None else
    var e := es[|es| - 1];
    if e.Destroy? then None
    else if e.CallState? && e.id == id then Some(e)
    else Latest(es[..|es| - 1], id)
  }

  function LatestOutgoing(es: seq<Event>, id: int): (r: Option<Event>)
    ensures r.Some? ==> r.value.CallState?
  {
    if es == [] then None else
    var e := es[|es| - 1];
    if e.Destroy? then None
    else if e.CallState? && e.id == id && e.role.Uac? then Some(e)
    else LatestOutgoing(es[..|es| - 1], id)
  }

  lemma {:induction false} RemovedFacts(xs: seq<int>, x: int)
    requires NoDup(xs)
    ensures NoDup(Removed(xs, x))
    ensures forall y :: y in Removed(xs, x) <==> y in xs && y != x
  {
    if xs != [] {
      RemovedFacts(xs[1..], x);
      if xs[0] != x {
        var r := Removed(xs[1..], x);
        assert xs[0] !in xs[1..];
        assert xs == [xs[0]] + xs[1..];
      } else {
        assert xs == [xs[0]] + xs[1..];
        assert xs[0] !in xs[1..];
      }
    }
  }

  lemma AppendedFacts(xs: seq<int>, x: int)
    requires NoDup(xs)
    ensures NoDup(Appended(xs, x)) && Appended(xs, x) != []
    ensures forall y :: y in Appended(xs, x) <==> y in xs || y == x
  {
  }

  /** The lists and the timer after any run, in terms of each call's latest event alone. */
  ghost predicate Accurate(s: State, es: seq<Event>, localDTMF: bool) {
    && NoDup(s.attendedCalls) && NoDup(s.toneCalls)
    && (forall id :: id in s.attendedCalls <==>
          (Latest(es, id).Some? && var state := Latest(es, id).value.state;
           state.Early? || state.Connecting? || state.Confirmed?))
    && (forall id :: id in s.toneCalls <==>
          (localDTMF && LatestOutgoing(es, id).Some? && var e := LatestOutgoing(es, id).value;
           e.lastStatus == 180 && e.mediaCount == 0))
    && (s.toneTimer <==> s.toneCalls != [])
  }

  lemma {:induction false} RunIsAccurate(es: seq<Event>, localDTMF: bool)
    ensures Accurate(Run(es, localDTMF), es, localDTMF)
  {
    if es != [] {
      hide Accurate, Step;
      RunIsAccurate(es[..|es| - 1], localDTMF);
      StepIsAccurate(Run(es[..|es| - 1], localDTMF), es, localDTMF);
    } else {
      hide NoDup;
      NothingIsAccurate(localDTMF);
    }
  }

  lemma NothingIsAccurate(localDTMF: bool)
    ensures Accurate(Run([], localDTMF), [], localDTMF)
  {
  }

  lemma LatestStep(es: seq<Event>, id: int)
    requires es != []
    ensures var before, e := es[..|es| - 1], es[|es| - 1];
      && Latest(es, id) == (if e.Destroy? then None
                            else if e.CallState? && e.id == id then Some(e) else Latest(before, id))
      && LatestOutgoing(es, id) == (if e.Destroy? then None
                                    else if e.CallState? && e.id == id && e.role.Uac? then Some(e)
                                    else LatestOutgoing(before, id))
  {
  }

  lemma StepIsAccurate(s: State, es: seq<Event>, localDTMF: bool)
    requires es != [] && Accurate(s, es[..|es| - 1], localDTMF)
    ensures Accurate(Step(s, es[|es| - 1], localDTMF), es, localDTMF)
  {
    hide Latest, LatestOutgoing, NoDup, Removed, Appended;
    var before, e := es[..|es| - 1], es[|es| - 1];
    forall id ensures Latest(es, id) == (if e.Destroy? then None
                                         else if e.CallState? && e.id == id then Some(e) else Latest(before, id)) {
      LatestStep(es, id);
    }
    forall id ensures LatestOutgoing(es, id) == (if e.Destroy? then None
                                                 else if e.CallState? && e.id == id && e.role.Uac? then Some(e)
                                                 else LatestOutgoing(before, id)) {
      LatestStep(es, id);
    }
    NoDupNothing();
    if e.CallState? {
      RemovedFacts(s.attendedCalls, e.id);
      AppendedFacts(s.attendedCalls, e.id);
      RemovedFacts(s.toneCalls, e.id);
      AppendedFacts(s.toneCalls, e.id);
      if e.id !in s.toneCalls { RemovedAbsent(s.toneCalls, e.id); }
    }
  }

  lemma NoDupNothing()
    ensures NoDup<int>([])
  {
  }

  lemma {:induction false} RemovedAbsent(xs: seq<int>, x: int)
    requires x !in xs
    ensures Removed(xs, x) == xs
  {
    if xs != [] { RemovedAbsent(xs[1..], x); }
  }
}

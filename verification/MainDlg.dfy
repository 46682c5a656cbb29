/** The call event handlers of mainDlg.cpp, working on their lists in place. */
module MainDlg {
  import opened Unicode
  import opened CallRecord
  import opened CallHistory
  import opened CallEvents
  import opened CallEventHistory
  import opened Calls

  class CmainDlg {
    var toneCalls: seq<int>
    var toneTimer: bool
    var attendedCalls: seq<int>
    /** `pj_ready`: the call library is running */
    var pjReady: bool
    const pageCalls: Dialog
    const localDTMF: bool

    ghost function Lists(): (s: CallEvents.State)
      reads this
    {
      CallEvents.State(toneCalls, toneTimer, attendedCalls)
    }

    constructor (calls: Dialog, localDTMF: bool)
      ensures !pjReady && Lists() == CallEvents.Run([], localDTMF)
      ensures pageCalls == calls && this.localDTMF == localDTMF
    {
      toneCalls, toneTimer, attendedCalls, pageCalls, this.localDTMF := [], false, [], calls, localDTMF;
      pjReady := false;
    }

    /** The dial tone part of `onCallState` */
    method UpdateTones(e: Event)
      requires e.CallState?
      modifies this`toneCalls, this`toneTimer
      ensures toneCalls == Step(old(Lists()), e, localDTMF).toneCalls
      ensures toneTimer == Step(old(Lists()), e, localDTMF).toneTimer
    {
      if e.role.Uac? && localDTMF {
        if e.lastStatus == 180 && e.mediaCount == 0 {
          if toneCalls == [] {
            toneTimer := true;
            toneCalls := toneCalls + [e.id];
          } else if e.id !in toneCalls {
            toneCalls := toneCalls + [e.id];
          }
        } else if e.id in toneCalls {
          toneCalls := Removed(toneCalls, e.id);
          if toneCalls == [] { toneTimer := false; }
        } else {
          RemovedAbsent(toneCalls, e.id);
        }
      }
    }

    /** The history part of `onCallState` */
    method UpdateHistory(e: Event, domain: string)
      requires e.CallState? && Inv(pageCalls.Now())
      modifies pageCalls
      ensures pageCalls.Now() == HistoryStep(old(pageCalls.Now()), e, domain) && Inv(pageCalls.Now())
    {
      hide Inv, Added, DurationSet, InfoSet, AllLoadable;
      if e.tab.Some? {
        var tab := e.tab.value;
        if e.role.Uas? {
          if e.state.Confirmed? {
            pageCalls.Add(e.callId, tab.number, tab.name, IN, e.time, domain);
          } else if e.state.Incoming? || e.state.Early? {
            pageCalls.Add(e.callId, tab.number, tab.name, MISS, e.time, domain);
          }
        } else {
          if e.state.Calling? {
            pageCalls.Add(e.callId, tab.number, tab.name, OUT, e.time, domain);
          }
        }
      }
      if e.state.Disconnected? {
        pageCalls.SetDuration(e.callId, e.seconds);
        if e.lastStatus != 200 {
          pageCalls.SetInfo(e.callId, e.text);
        }
      }
    }

    /** `onCallState` */
    method OnCallState(e: Event, domain: string)
      requires e.CallState? && Inv(pageCalls.Now())
      modifies this, pageCalls
      ensures pjReady == old(pjReady) && Lists() == Step(old(Lists()), e, localDTMF)
      ensures pageCalls.Now() == HistoryStep(old(pageCalls.Now()), e, domain) && Inv(pageCalls.Now())
    {
      hide Inv, HistoryStep;
      UpdateTones(e);
      UpdateHistory(e, domain);
      if e.state.Early? || e.state.Connecting? || e.state.Confirmed? {
        if e.id !in attendedCalls {
          attendedCalls := attendedCalls + [e.id];
        }
      } else if e.id in attendedCalls {
        attendedCalls := Removed(attendedCalls, e.id);
      } else {
        RemovedAbsent(attendedCalls, e.id);
      }
    }

    /** `PJCreate`, when the library starts */
    method PJCreate()
      modifies this`pjReady
      ensures pjReady
    {
      pjReady := true;
    }

    /** `PJDestroy`: without a running library nothing is touched, not even what late events have left behind. */
    method PJDestroy()
      modifies this
      ensures !pjReady && Lists() == if old(pjReady) then Step(old(Lists()), Destroy, localDTMF) else old(Lists())
    {
      if pjReady {
        toneCalls := [];
        toneTimer := false;
        attendedCalls := [];
        pjReady := false;
      }
    }
  }
}

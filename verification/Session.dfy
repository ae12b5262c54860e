/** The server's session wrapper: accepting, rejecting and closing, with callbacks that call back. */
module Session {
  import opened Bytes

  /** What the wrapper does and is told, in order. */
  datatype Entry =
    | Ready
    | Asked
    | Rejected(code: int, reason: string)
    | Close(code: int, reason: string)
    | Sent(data: Octets)
    | Delivered(data: Octets)
    | StreamOffered
    | PeerClosed

  /** What a callback may do with the session before it returns. A close that calls straight back into the wrapper is
      covered too: the wrapper does nothing after the call, so the calls made from inside it are simply the next ones. */
  datatype Action = Reject(code: int, reason: string) | Send(data: Octets) | PeerCloses

  datatype Callback = Absent | Callback(actions: seq<Action>, accept: bool)

  /** One event from outside, with the callback it may meet. */
  datatype Event =
    | CallReject(code: int, reason: string)
    | CallSend(data: Octets)
    | OnReady(cb: Callback)
    | OnDatagram(data: Octets, cb: Callback)
    | OnStreams(cbs: seq<Callback>)
    | OnClosed

  datatype State = State(ready: bool, closed: bool, shouldReject: bool, code: int, reason: string, log: seq<Entry>)

  const NEW_SESSION := State(false, false, false, 0, "", [])

  // --- what each call does

  function Noted(s: State, e: Entry): State { s.(log := s.log + [e]) }

  function CloseOnce(s: State, code: int, reason: string): State {
    if s.closed then s else Noted(s.(closed := true), Close(code, reason))
  }

  function Rejecting(s: State, code: int, reason: string): State {
    var s1 := Noted(s.(code := code, reason := reason, shouldReject := true), Rejected(code, reason));
    if s.ready then CloseOnce(s1, code, reason) else s1
  }

  function Sending(s: State, data: Octets): State {
    if s.closed then s else Noted(s, Sent(data))
  }

  function Closing(s: State): State { Noted(s.(closed := true), PeerClosed) }

  function Act(s: State, a: Action): State {
    match a
    case Reject(code, reason) => Rejecting(s, code, reason)
    case Send(data) => Sending(s, data)
    case PeerCloses => Closing(s)
  }

  function Acts(s: State, actions: seq<Action>): State
    decreases |actions|
  {
    if actions == [] then s else Acts(Act(s, actions[0]), actions[1..])
  }

  function Answer(s: State, cb: Callback): State {
    if cb.Absent? then s
    else
      var t := Acts(Noted(s, Asked), cb.actions);
      if !cb.accept && !t.shouldReject then CloseOnce(t, 0, "Session rejected by application") else t
  }

  function BecomeReady(s: State, cb: Callback): State {
    var s1 := Noted(s.(ready := true), Ready);
    if s.shouldReject then CloseOnce(s1, s.code, s.reason) else Answer(s1, cb)
  }

  function Receive(s: State, data: Octets, cb: Callback): State {
    if cb.Absent? || s.closed then s else Acts(Noted(s, Delivered(data)), cb.actions)
  }

  /** The accepting loop does not look at the flag again. */
  function Offer(s: State, cbs: seq<Callback>): State
    decreases |cbs|
  {
    if cbs == [] then s
    else if cbs[0].Absent? then Offer(s, cbs[1..])
    else Offer(Acts(Noted(s, StreamOffered), cbs[0].actions), cbs[1..])
  }

  function Apply(s: State, e: Event): State {
    match e
    case CallReject(code, reason) => Rejecting(s, code, reason)
    case CallSend(data) => Sending(s, data)
    case OnReady(cb) => BecomeReady(s, cb)
    case OnDatagram(data, cb) => Receive(s, data, cb)
    case OnStreams(cbs) => if s.closed then s else Offer(s, cbs)
    case OnClosed => Closing(s)
  }

  function Run(s: State, events: seq<Event>): State
    decreases |events|
  {
    if events == [] then s else Run(Apply(s, events[0]), events[1..])
  }

  class SessionWrapper {
    var onReadyCalled: bool
    var sessionClosed: bool
    var shouldReject: bool
    var rejectErrorCode: int
    var rejectReason: string
    ghost var log: seq<Entry>

    ghost function View(): State
      reads this
    {
      State(onReadyCalled, sessionClosed, shouldReject, rejectErrorCode, rejectReason, log)
    }

    constructor ()
      ensures View() == NEW_SESSION
    {
      onReadyCalled, sessionClosed, shouldReject, rejectErrorCode, rejectReason, log := false, false, false, 0, "", [];
    }

    method SendDatagram(data: Octets)
      modifies this
      ensures View() == Sending(old(View()), data)
    {
      if !sessionClosed { log := log + [Sent(data)]; }
    }

    method RejectSession(errorCode: int, reason: string)
      modifies this
      ensures View() == Rejecting(old(View()), errorCode, reason)
    {
      log := log + [Rejected(errorCode, reason)];
      rejectErrorCode := errorCode;
      rejectReason := reason;
      shouldReject := true;
      if onReadyCalled {
        if !sessionClosed {
          sessionClosed := true;
          log := log + [Close(errorCode, reason)];
        }
      }
    }

    method OnSessionClosed()
      modifies this
      ensures View() == Closing(old(View()))
    {
      sessionClosed := true;
      log := log + [PeerClosed];
    }

    /** A callback's body: it may call any of the methods above. */
    method RunCallback(actions: seq<Action>)
      modifies this
      ensures View() == Acts(old(View()), actions)
    {
      for i := 0 to |actions|
        invariant Acts(View(), actions[i..]) == Acts(old(View()), actions)
      {
        assert actions[i..][1..] == actions[i + 1..];
        hide Rejecting, Sending, Closing;
        match actions[i] {
          case Reject(code, reason) => RejectSession(code, reason);
          case Send(data) => SendDatagram(data);
          case PeerCloses => OnSessionClosed();
        }
      }
    }

    method OnSessionReady(cb: Callback)
      modifies this
      ensures View() == BecomeReady(old(View()), cb)
    {
      hide Acts;
      onReadyCalled := true;
      log := log + [Ready];
      if shouldReject {
        if !sessionClosed {
          sessionClosed := true;
          log := log + [Close(rejectErrorCode, rejectReason)];
        }
        return;
      }
      var accept := true;
      if cb.Callback? {
        log := log + [Asked];
        RunCallback(cb.actions);
        accept := cb.accept;
      }
      if !accept && !shouldReject && !sessionClosed {
        sessionClosed := true;
        log := log + [Close(0, "Session rejected by application")];
      }
    }

    method OnDatagramReceived(data: Octets, cb: Callback)
      modifies this
      ensures View() == Receive(old(View()), data, cb)
    {
      if cb.Callback? && !sessionClosed {
        log := log + [Delivered(data)];
        RunCallback(cb.actions);
      }
    }

    method OnIncomingStreamsAvailable(cbs: seq<Callback>)
      modifies this
      ensures View() == Apply(old(View()), OnStreams(cbs))
    {
      if sessionClosed { return; }
      for i := 0 to |cbs|
        invariant Offer(View(), cbs[i..]) == Offer(old(View()), cbs)
      {
        hide Acts;
        assert cbs[i..][1..] == cbs[i + 1..];
        if cbs[i].Callback? {
          log := log + [StreamOffered];
          RunCallback(cbs[i].actions);
        }
      }
    }
  }

  // --- safety, said of what was logged

  predicate Ends(e: Entry) { e.Close? || e.PeerClosed? }

  predicate Active(e: Entry) { e.Close? || e.Sent? || e.Delivered? }

  ghost predicate HasEnd(log: seq<Entry>) {
    exists e :: e in log && Ends(e)
  }

  /** Behind the end of the session, from either side, nothing is closed, sent or delivered. So there is at most one close
      and none after the peer's. */
  ghost predicate Quiet(log: seq<Entry>) {
    forall i, j | 0 <= i < j < |log| && Ends(log[i]) :: !Active(log[j])
  }

  function LastRejection(log: seq<Entry>): (int, string) {
    if log == [] then (0, "")
    else if log[|log| - 1].Rejected? then (log[|log| - 1].code, log[|log| - 1].reason)
    else LastRejection(log[..|log| - 1])
  }

  ghost predicate HasRejection(log: seq<Entry>) {
    exists e :: e in log && e.Rejected?
  }

  ghost predicate Inv(s: State) {
    && Quiet(s.log)
    && (s.closed <==> HasEnd(s.log))
    && (s.shouldReject <==> HasRejection(s.log))
    && (s.code, s.reason) == LastRejection(s.log)
  }

  lemma LogGrows(log: seq<Entry>, e: Entry)
    ensures HasEnd(log + [e]) <==> HasEnd(log) || Ends(e)
    ensures HasRejection(log + [e]) <==> HasRejection(log) || e.Rejected?
    ensures Quiet(log) && (HasEnd(log) ==> !Active(e)) ==> Quiet(log + [e])
    ensures LastRejection(log + [e]) == if e.Rejected? then (e.code, e.reason) else LastRejection(log)
  {
    var all := log + [e];
    assert all[|log|] == e && all[..|log|] == log;
    assert forall x | x in log :: x in all;
    assert forall x | x in all :: x in log || x == e;
    if Quiet(log) && (HasEnd(log) ==> !Active(e)) {
      forall i, j | 0 <= i < j < |all| && Ends(all[i]) ensures !Active(all[j]) {
        assert all[i] == log[i] && log[i] in log;
        if j < |log| { assert all[j] == log[j]; }
      }
    }
  }

  lemma NotedKeeps(s: State, s': State, e: Entry)
    requires Inv(s) && (s.closed ==> !Active(e))
    requires s'.log == s.log + [e] && s'.closed == (s.closed || Ends(e)) && s'.shouldReject == (s.shouldReject || e.Rejected?)
    requires (s'.code, s'.reason) == if e.Rejected? then (e.code, e.reason) else (s.code, s.reason)
    ensures Inv(s')
  {
    LogGrows(s.log, e);
  }

  lemma CloseOnceKeeps(s: State, code: int, reason: string)
    requires Inv(s)
    ensures Inv(CloseOnce(s, code, reason))
  {
    hide Inv;
    if !s.closed { NotedKeeps(s, CloseOnce(s, code, reason), Close(code, reason)); }
  }

  lemma ActKeeps(s: State, a: Action)
    requires Inv(s)
    ensures Inv(Act(s, a)) && (s.closed ==> Act(s, a).closed)
  {
    hide Inv;
    match a
    case Reject(code, reason) =>
      var s1 := Noted(s.(code := code, reason := reason, shouldReject := true), Rejected(code, reason));
      NotedKeeps(s, s1, Rejected(code, reason));
      CloseOnceKeeps(s1, code, reason);
    case Send(data) =>
      if !s.closed { NotedKeeps(s, Act(s, a), Sent(data)); }
    case PeerCloses => NotedKeeps(s, Act(s, a), PeerClosed);
  }

  lemma {:induction false} ActsKeep(s: State, actions: seq<Action>)
    requires Inv(s)
    ensures Inv(Acts(s, actions)) && (s.closed ==> Acts(s, actions).closed)
    decreases |actions|
  {
    hide Inv, Act;
    if actions != [] {
      ActKeeps(s, actions[0]);
      ActsKeep(Act(s, actions[0]), actions[1..]);
    }
  }

  lemma {:induction false} OfferKeeps(s: State, cbs: seq<Callback>)
    requires Inv(s)
    ensures Inv(Offer(s, cbs)) && (s.closed ==> Offer(s, cbs).closed)
    decreases |cbs|
  {
    hide Inv, Acts;
    if cbs != [] {
      if cbs[0].Absent? {
        OfferKeeps(s, cbs[1..]);
      } else {
        var s1 := Noted(s, StreamOffered);
        NotedKeeps(s, s1, StreamOffered);
        ActsKeep(s1, cbs[0].actions);
        OfferKeeps(Acts(s1, cbs[0].actions), cbs[1..]);
      }
    }
  }

  lemma ApplyKeeps(s: State, e: Event)
    requires Inv(s)
    ensures Inv(Apply(s, e)) && (s.closed ==> Apply(s, e).closed)
  {
    hide Inv, Acts, Offer;
    match e
    case CallReject(code, reason) => ActKeeps(s, Reject(code, reason));
    case CallSend(data) => ActKeeps(s, Send(data));
    case OnClosed => ActKeeps(s, PeerCloses);
    case OnStreams(cbs) => OfferKeeps(s, cbs);
    case OnDatagram(data, cb) =>
      if cb.Callback? && !s.closed {
        var s1 := Noted(s, Delivered(data));
        NotedKeeps(s, s1, Delivered(data));
        ActsKeep(s1, cb.actions);
      }
    case OnReady(cb) =>
      var s1 := Noted(s.(ready := true), Ready);
      NotedKeeps(s, s1, Ready);
      if s.shouldReject {
        CloseOnceKeeps(s1, s.code, s.reason);
      } else if cb.Callback? {
        NotedKeeps(s1, Noted(s1, Asked), Asked);
        ActsKeep(Noted(s1, Asked), cb.actions);
        CloseOnceKeeps(Acts(Noted(s1, Asked), cb.actions), 0, "Session rejected by application");
      }
  }

  lemma {:induction false} RunKeeps(s: State, events: seq<Event>)
    requires Inv(s)
    ensures Inv(Run(s, events)) && (s.closed ==> Run(s, events).closed)
    decreases |events|
  {
    hide Inv, Apply;
    if events != [] {
      ApplyKeeps(s, events[0]);
      RunKeeps(Apply(s, events[0]), events[1..]);
    }
  }

  lemma NewSessionOk()
    ensures Inv(NEW_SESSION)
  {
  }

  /** Over every sequence of events, with callbacks doing whatever they may: at most one close, none after the peer's, and
      no datagram sent or delivered once the session has ended; and the flag says exactly whether it has. */
  lemma SessionIsSafe(events: seq<Event>)
    ensures var s := Run(NEW_SESSION, events);
            Quiet(s.log) && |Closes(s.log)| <= 1 && (s.closed <==> HasEnd(s.log))
  {
    NewSessionOk();
    RunKeeps(NEW_SESSION, events);
    QuietClosesOnce(Run(NEW_SESSION, events).log);
  }

  lemma {:induction false} RunInTwo(s: State, xs: seq<Event>, ys: seq<Event>)
    ensures Run(s, xs + ys) == Run(Run(s, xs), ys)
    decreases |xs|
  {
    hide Apply;
    if xs == [] {
      assert xs + ys == ys;
    } else {
      assert (xs + ys)[1..] == xs[1..] + ys;
      RunInTwo(Apply(s, xs[0]), xs[1..], ys);
    }
  }

  /** Once closed, always closed. */
  lemma ClosedIsForEver(xs: seq<Event>, ys: seq<Event>)
    requires Run(NEW_SESSION, xs).closed
    ensures Run(NEW_SESSION, xs + ys).closed
  {
    NewSessionOk();
    RunKeeps(NEW_SESSION, xs);
    RunKeeps(Run(NEW_SESSION, xs), ys);
    RunInTwo(NEW_SESSION, xs, ys);
  }

  function Closes(log: seq<Entry>): seq<Entry> {
    if log == [] then []
    else Closes(log[..|log| - 1]) + if log[|log| - 1].Close? then [log[|log| - 1]] else []
  }

  lemma {:induction false} QuietClosesOnce(log: seq<Entry>)
    requires Quiet(log)
    ensures |Closes(log)| <= 1 && (Closes(log) != [] ==> HasEnd(log))
    decreases |log|
  {
    if log != [] {
      var n := |log| - 1;
      assert forall i | 0 <= i < n :: log[..n][i] == log[i];
      QuietClosesOnce(log[..n]);
      if HasEnd(log[..n]) {
        var e :| e in log[..n] && Ends(e);
        var i :| 0 <= i < n && log[i] == e;
        assert !Active(log[n]) && e in log;
      }
      if log[n].Close? { assert Ends(log[n]) && log[n] in log; }
    }
  }

  // --- the verdict at readiness

  /** However the session came to it: becoming ready asks the application exactly when nothing was rejected before;
      otherwise it closes with the last rejection, unless the session has ended already. */
  lemma ReadyVerdict(events: seq<Event>, cb: Callback)
    requires cb.Callback?
    ensures var s := Run(NEW_SESSION, events);
            var t := Run(NEW_SESSION, events + [OnReady(cb)]);
            var (code, reason) := LastRejection(s.log);
            if HasRejection(s.log)
            then t.log == s.log + [Ready] + if HasEnd(s.log) then [] else [Close(code, reason)]
            else s.log + [Ready, Asked] <= t.log
  {
    var s := Run(NEW_SESSION, events);
    NewSessionOk();
    RunKeeps(NEW_SESSION, events);
    RunInTwo(NEW_SESSION, events, [OnReady(cb)]);
    assert Run(s, [OnReady(cb)]) == Apply(s, OnReady(cb));
    if HasRejection(s.log) {
      assert s.log + [Ready] + [] == s.log + [Ready];
    } else {
      var a := Noted(Noted(s.(ready := true), Ready), Asked);
      assert a.log == s.log + [Ready, Asked];
      ActsExtend(a, cb.actions);
    }
  }

  lemma {:induction false} ActsExtend(s: State, actions: seq<Action>)
    ensures s.log <= Acts(s, actions).log
    decreases |actions|
  {
    if actions != [] { ActsExtend(Act(s, actions[0]), actions[1..]); }
  }

  /** What a callback decides: the first rejection in it before the peer closes, else the value it returns. */
  datatype Verdict = Accepted | Refused(code: int, reason: string) | EndedByPeer

  function Decision(actions: seq<Action>): Verdict {
    if actions == [] then Accepted
    else match actions[0]
      case Reject(code, reason) => Refused(code, reason)
      case PeerCloses => EndedByPeer
      case Send(_) => Decision(actions[1..])
  }

  lemma ClosesGrow(log: seq<Entry>, e: Entry)
    ensures Closes(log + [e]) == Closes(log) + if e.Close? then [e] else []
  {
    assert (log + [e])[..|log|] == log;
  }

  lemma {:induction false} ClosedStaysSilent(s: State, actions: seq<Action>)
    requires s.closed
    ensures Acts(s, actions).closed && Closes(Acts(s, actions).log) == Closes(s.log)
    ensures s.shouldReject ==> Acts(s, actions).shouldReject
    decreases |actions|
  {
    if actions != [] {
      var a := actions[0];
      if a.Reject? { ClosesGrow(s.log, Rejected(a.code, a.reason)); }
      if a.PeerCloses? { ClosesGrow(s.log, PeerClosed); }
      ClosedStaysSilent(Act(s, a), actions[1..]);
    }
  }

  /** The first rejection of an open, ready session closes it. */
  lemma RejectionCloses(s: State, code: int, reason: string)
    requires s.ready && !s.closed
    ensures var t := Act(s, Reject(code, reason));
            t.closed && t.shouldReject && Closes(t.log) == Closes(s.log) + [Close(code, reason)]
  {
    hide Closes;
    ClosesGrow(s.log, Rejected(code, reason));
    ClosesGrow(s.log + [Rejected(code, reason)], Close(code, reason));
    assert Closes(s.log) + [] == Closes(s.log);
  }

  lemma {:induction false} ActsDecide(s: State, actions: seq<Action>)
    requires s.ready && !s.closed && !s.shouldReject
    ensures var t, d := Acts(s, actions), Decision(actions);
            && Closes(t.log) == Closes(s.log) + (if d.Refused? then [Close(d.code, d.reason)] else [])
            && (t.closed <==> !d.Accepted?) && (d.Accepted? ==> !t.shouldReject) && (d.Refused? ==> t.shouldReject)
    decreases |actions|
  {
    hide Closes, Rejecting;
    assert Closes(s.log) + [] == Closes(s.log);
    if actions != [] {
      match actions[0]
      case Reject(code, reason) =>
        RejectionCloses(s, code, reason);
        ClosedStaysSilent(Act(s, actions[0]), actions[1..]);
      case PeerCloses =>
        ClosesGrow(s.log, PeerClosed);
        ClosedStaysSilent(Act(s, actions[0]), actions[1..]);
      case Send(data) =>
        ClosesGrow(s.log, Sent(data));
        ActsDecide(Act(s, actions[0]), actions[1..]);
    }
  }

  /** A session that becomes ready open and unrejected is closed exactly once if its callback rejects it in either way, with
      the code of the first rejection made in the callback or code 0 when it only returns false; and otherwise not at all. */
  lemma CallbackVerdict(s: State, cb: Callback)
    requires !s.closed && !s.shouldReject && cb.Callback?
    ensures var t, d := BecomeReady(s, cb), Decision(cb.actions);
            Closes(t.log) == Closes(s.log)
            + match d
              case Refused(code, reason) => [Close(code, reason)]
              case EndedByPeer => []
              case Accepted => if cb.accept then [] else [Close(0, "Session rejected by application")]
  {
    hide Acts, Closes;
    var s1 := Noted(s.(ready := true), Ready);
    var a := Noted(s1, Asked);
    ClosesGrow(s.log, Ready);
    ClosesGrow(s1.log, Asked);
    ActsDecide(a, cb.actions);
    var t := Acts(a, cb.actions);
    ClosesGrow(t.log, Close(0, "Session rejected by application"));
    assert Closes(s.log) + [] + [] == Closes(s.log) && Closes(s.log) + [] == Closes(s.log);
  }

  // --- streams offered after the end

  /** How many streams were offered when the session had ended. */
  ghost function LateStreams(log: seq<Entry>): nat {
    if log == [] then 0
    else LateStreams(log[..|log| - 1]) + if log[|log| - 1].StreamOffered? && HasEnd(log[..|log| - 1]) then 1 else 0
  }

  lemma LateGrows(log: seq<Entry>, e: Entry)
    ensures LateStreams(log + [e]) == LateStreams(log) + if e.StreamOffered? && HasEnd(log) then 1 else 0
  {
    assert (log + [e])[..|log|] == log;
  }

  /** The callback's body ends the session. */
  predicate EndsIt(actions: seq<Action>, ready: bool) {
    actions != [] && (actions[0].PeerCloses? || (actions[0].Reject? && ready) || EndsIt(actions[1..], ready))
  }

  lemma {:induction false} EndsItMeans(actions: seq<Action>, ready: bool)
    ensures EndsIt(actions, ready) <==> exists a :: a in actions && (a.PeerCloses? || (a.Reject? && ready))
    decreases |actions|
  {
    if actions != [] {
      EndsItMeans(actions[1..], ready);
      assert forall a | a in actions :: a == actions[0] || a in actions[1..];
      assert actions[0] in actions && forall a | a in actions[1..] :: a in actions;
    }
  }

  /** Of the streams waiting, one meets a callback although the session is closed: it was before, or a callback of a stream in
      front of it has ended it. */
  predicate OffersLate(cbs: seq<Callback>, closed: bool, ready: bool) {
    cbs != [] &&
    if cbs[0].Absent? then OffersLate(cbs[1..], closed, ready)
    else closed || OffersLate(cbs[1..], EndsIt(cbs[0].actions, ready), ready)
  }

  ghost predicate Behind(cbs: seq<Callback>, ready: bool, i: nat, j: nat) {
    i < j < |cbs| && cbs[i].Callback? && EndsIt(cbs[i].actions, ready) && cbs[j].Callback?
  }

  lemma {:induction false} OffersLateMeans(cbs: seq<Callback>, closed: bool, ready: bool)
    ensures OffersLate(cbs, closed, ready)
            <==> (closed && exists j :: 0 <= j < |cbs| && cbs[j].Callback?) || exists i: nat, j: nat :: Behind(cbs, ready, i, j)
    decreases |cbs|
  {
    if cbs != [] {
      var rest := cbs[1..];
      var ended := cbs[0].Callback? && EndsIt(cbs[0].actions, ready);
      OffersLateMeans(rest, if cbs[0].Absent? then closed else ended, ready);
      assert forall k | 0 <= k < |rest| :: rest[k] == cbs[k + 1];
      forall i: nat, j: nat | Behind(rest, ready, i, j) ensures Behind(cbs, ready, i + 1, j + 1) {
      }
      forall i: nat, j: nat | Behind(cbs, ready, i, j) && i > 0 ensures Behind(rest, ready, i - 1, j - 1) {
      }
      if j :| 0 <= j < |rest| && rest[j].Callback? {
        assert cbs[j + 1].Callback?;
        assert ended ==> Behind(cbs, ready, 0, j + 1);
      }
    }
  }

  /** What the flag, the log and the count of late streams owe to a callback's body. */
  lemma {:induction false} ActsLate(s: State, actions: seq<Action>)
    requires s.closed <==> HasEnd(s.log)
    ensures var t := Acts(s, actions);
            && (t.closed <==> HasEnd(t.log)) && t.ready == s.ready && LateStreams(t.log) == LateStreams(s.log)
            && (t.closed <==> s.closed || EndsIt(actions, s.ready))
    decreases |actions|
  {
    hide LateStreams, HasEnd, Act;
    if actions != [] {
      ActLate(s, actions[0]);
      ActsLate(Act(s, actions[0]), actions[1..]);
    }
  }

  lemma ActLate(s: State, a: Action)
    requires s.closed <==> HasEnd(s.log)
    ensures var t := Act(s, a);
            && (t.closed <==> HasEnd(t.log)) && t.ready == s.ready && LateStreams(t.log) == LateStreams(s.log)
            && (t.closed <==> s.closed || a.PeerCloses? || (a.Reject? && s.ready))
  {
    hide LateStreams, HasEnd;
    match a
    case Reject(code, reason) =>
      Logged(s.log, Rejected(code, reason));
      Logged(s.log + [Rejected(code, reason)], Close(code, reason));
    case Send(data) => Logged(s.log, Sent(data));
    case PeerCloses => Logged(s.log, PeerClosed);
  }

  lemma Logged(log: seq<Entry>, e: Entry)
    ensures HasEnd(log + [e]) <==> HasEnd(log) || Ends(e)
    ensures LateStreams(log + [e]) == LateStreams(log) + if e.StreamOffered? && HasEnd(log) then 1 else 0
  {
    LogGrows(log, e);
    LateGrows(log, e);
  }

  /** The accepting loop offers a stream after the end exactly when the condition says so. */
  lemma {:induction false} OfferLate(s: State, cbs: seq<Callback>)
    requires s.closed <==> HasEnd(s.log)
    ensures var t := Offer(s, cbs);
            && (t.closed <==> HasEnd(t.log)) && t.ready == s.ready && LateStreams(t.log) >= LateStreams(s.log)
            && (LateStreams(t.log) > LateStreams(s.log) <==> OffersLate(cbs, s.closed, s.ready))
    decreases |cbs|
  {
    hide LateStreams, HasEnd, Acts, EndsIt;
    if cbs != [] {
      if cbs[0].Absent? {
        OfferLate(s, cbs[1..]);
      } else {
        var s1 := Noted(s, StreamOffered);
        Logged(s.log, StreamOffered);
        ActsLate(s1, cbs[0].actions);
        OfferLate(Acts(s1, cbs[0].actions), cbs[1..]);
        if !s.closed { assert Acts(s1, cbs[0].actions).closed == EndsIt(cbs[0].actions, s.ready); }
      }
    }
  }

  /** The event lets a stream through after the end: one of the callbacks it meets ends the session in front of another. */
  ghost predicate LetsThrough(s: State, e: Event) {
    e.OnStreams? && !s.closed && exists i: nat, j: nat :: Behind(e.cbs, s.ready, i, j)
  }

  lemma ApplyLate(s: State, e: Event)
    requires s.closed <==> HasEnd(s.log)
    ensures var t := Apply(s, e);
            && (t.closed <==> HasEnd(t.log)) && LateStreams(t.log) >= LateStreams(s.log)
            && (LateStreams(t.log) > LateStreams(s.log) <==> LetsThrough(s, e))
  {
    hide LateStreams, HasEnd, Acts, Offer, EndsIt;
    match e
    case CallReject(code, reason) => ActLate(s, Reject(code, reason));
    case CallSend(data) => ActLate(s, Send(data));
    case OnClosed => ActLate(s, PeerCloses);
    case OnStreams(cbs) =>
      if !s.closed {
        OfferLate(s, cbs);
        OffersLateMeans(cbs, false, s.ready);
      }
    case OnDatagram(data, cb) =>
      if cb.Callback? && !s.closed {
        Logged(s.log, Delivered(data));
        ActsLate(Noted(s, Delivered(data)), cb.actions);
      }
    case OnReady(cb) =>
      var s1 := Noted(s.(ready := true), Ready);
      Logged(s.log, Ready);
      if s.shouldReject {
        Logged(s1.log, Close(s.code, s.reason));
      } else if cb.Callback? {
        Logged(s1.log, Asked);
        ActsLate(Noted(s1, Asked), cb.actions);
        Logged(Acts(Noted(s1, Asked), cb.actions).log, Close(0, "Session rejected by application"));
      }
  }

  lemma {:induction false} RunLate(s: State, events: seq<Event>)
    requires s.closed <==> HasEnd(s.log)
    ensures LateStreams(Run(s, events).log) >= LateStreams(s.log)
    ensures LateStreams(Run(s, events).log) > LateStreams(s.log)
            <==> exists k :: 0 <= k < |events| && LetsThrough(Run(s, events[..k]), events[k])
    decreases |events|
  {
    hide LateStreams, HasEnd, Apply, LetsThrough;
    if events != [] {
      var e, rest := events[0], events[1..];
      var s1 := Apply(s, e);
      ApplyLate(s, e);
      RunLate(s1, rest);
      assert Run(s, events[..0]) == s;
      forall k | 0 <= k < |rest| ensures Run(s1, rest[..k]) == Run(s, events[..k + 1]) && rest[k] == events[k + 1] {
        assert events[..k + 1][1..] == rest[..k] && events[..k + 1][0] == e;
      }
      if k :| 0 <= k < |rest| && LetsThrough(Run(s1, rest[..k]), rest[k]) {
        assert LetsThrough(Run(s, events[..k + 1]), events[k + 1]);
      }
      if k :| 0 <= k < |events| && LetsThrough(Run(s, events[..k]), events[k]) {
        if k > 0 { assert LetsThrough(Run(s1, rest[..k - 1]), rest[k - 1]); }
      }
    }
  }

  /** When streams outlive the session, over every sequence of events: the accepting loops look at the flag only before they
      start, so a stream is offered after the end if and only if at some event of waiting streams, the session being open, a
      stream's callback ended it (by the peer's close, or by a rejection once ready) in front of another stream with a callback. */
  lemma StreamsOutliveClose(events: seq<Event>)
    ensures LateStreams(Run(NEW_SESSION, events).log) > 0
            <==> exists k :: 0 <= k < |events| && LetsThrough(Run(NEW_SESSION, events[..k]), events[k])
  {
    NewSessionOk();
    RunLate(NEW_SESSION, events);
  }

  /** It does happen. */
  lemma StreamOutlivesClose()
    ensures var reject := Callback([Reject(7, "")], true);
            LateStreams(Run(NEW_SESSION, [OnReady(Absent), OnStreams([reject, reject])]).log) > 0
  {
    var reject := Callback([Reject(7, "")], true);
    var events := [OnReady(Absent), OnStreams([reject, reject])];
    var s := Run(NEW_SESSION, events[..1]);
    var s0 := Apply(NEW_SESSION, OnReady(Absent));
    assert events[..1] == [OnReady(Absent)] && events[..1][1..] == [] && Run(s0, []) == s0;
    assert s.ready && !s.closed;
    assert reject.actions[0] == Reject(7, "") && EndsIt(reject.actions, true);
    assert Behind(events[1].cbs, s.ready, 0, 1);
    assert LetsThrough(s, events[1]);
    StreamsOutliveClose(events);
  }
}

/** What the session wrapper does, said of its log alone: its flags refine its history, and what gets through is exactly what
    was asked for in time. */
module SessionHistory {
  import opened Bytes
  import opened Session

  // --- the flags only remember what was logged

  /** The same calls, decided by looking at everything logged so far instead of at the flags. */
  ghost function LogAct(log: seq<Entry>, a: Action): seq<Entry> {
    match a
    case Reject(code, reason) => log + [Rejected(code, reason)] + if Ready in log && !HasEnd(log) then [Close(code, reason)] else []
    case Send(data) => if HasEnd(log) then log else log + [Sent(data)]
    case PeerCloses => log + [PeerClosed]
  }

  ghost function LogActs(log: seq<Entry>, actions: seq<Action>): seq<Entry>
    decreases |actions|
  {
    if actions == [] then log else LogActs(LogAct(log, actions[0]), actions[1..])
  }

  ghost function LogOffer(log: seq<Entry>, cbs: seq<Callback>): seq<Entry>
    decreases |cbs|
  {
    if cbs == [] then log
    else LogOffer(if cbs[0].Absent? then log else LogActs(log + [StreamOffered], cbs[0].actions), cbs[1..])
  }

  /** An application that says no without a rejection of its own. */
  ghost function LogAnswer(log: seq<Entry>, accept: bool): seq<Entry> {
    if accept || HasRejection(log) || HasEnd(log) then log else log + [Close(0, "Session rejected by application")]
  }

  ghost function LogApply(log: seq<Entry>, e: Event): seq<Entry> {
    match e
    case CallReject(code, reason) => LogAct(log, Reject(code, reason))
    case CallSend(data) => LogAct(log, Send(data))
    case OnClosed => LogAct(log, PeerCloses)
    case OnReady(cb) =>
      if HasRejection(log) then
        log + [Ready] + if HasEnd(log) then [] else [Close(LastRejection(log).0, LastRejection(log).1)]
      else if cb.Absent? then log + [Ready]
      else LogAnswer(LogActs(log + [Ready, Asked], cb.actions), cb.accept)
    case OnDatagram(data, cb) => if cb.Absent? || HasEnd(log) then log else LogActs(log + [Delivered(data)], cb.actions)
    case OnStreams(cbs) => if HasEnd(log) then log else LogOffer(log, cbs)
  }

  ghost function LogRun(log: seq<Entry>, events: seq<Event>): seq<Entry>
    decreases |events|
  {
    if events == [] then log else LogRun(LogApply(log, events[0]), events[1..])
  }

  /** Each flag says something about what was logged. */
  ghost predicate Remembers(s: State) {
    && (s.ready <==> Ready in s.log) && (s.closed <==> HasEnd(s.log)) && (s.shouldReject <==> HasRejection(s.log))
    && (s.code, s.reason) == LastRejection(s.log)
  }

  lemma Remembered(log: seq<Entry>, e: Entry)
    ensures HasEnd(log + [e]) <==> HasEnd(log) || Ends(e)
    ensures HasRejection(log + [e]) <==> HasRejection(log) || e.Rejected?
    ensures Ready in log + [e] <==> Ready in log || e == Ready
    ensures LastRejection(log + [e]) == if e.Rejected? then (e.code, e.reason) else LastRejection(log)
  {
    LogGrows(log, e);
  }

  lemma ActIsLogged(s: State, a: Action)
    requires Remembers(s)
    ensures Remembers(Act(s, a)) && Act(s, a).log == LogAct(s.log, a)
  {
    hide HasEnd, HasRejection, LastRejection;
    match a
    case Reject(code, reason) =>
      Remembered(s.log, Rejected(code, reason));
      Remembered(s.log + [Rejected(code, reason)], Close(code, reason));
      assert s.log + [Rejected(code, reason)] + [] == s.log + [Rejected(code, reason)];
    case Send(data) => Remembered(s.log, Sent(data));
    case PeerCloses => Remembered(s.log, PeerClosed);
  }

  lemma {:induction false} ActsAreLogged(s: State, actions: seq<Action>)
    requires Remembers(s)
    ensures Remembers(Acts(s, actions)) && Acts(s, actions).log == LogActs(s.log, actions)
    decreases |actions|
  {
    hide Remembers, Act, LogAct;
    if actions != [] {
      ActIsLogged(s, actions[0]);
      ActsAreLogged(Act(s, actions[0]), actions[1..]);
    }
  }

  lemma {:induction false} OfferIsLogged(s: State, cbs: seq<Callback>)
    requires Remembers(s)
    ensures Remembers(Offer(s, cbs)) && Offer(s, cbs).log == LogOffer(s.log, cbs)
    decreases |cbs|
  {
    hide HasEnd, HasRejection, LastRejection, Acts, LogActs;
    if cbs != [] {
      if cbs[0].Absent? {
        OfferIsLogged(s, cbs[1..]);
      } else {
        Remembered(s.log, StreamOffered);
        ActsAreLogged(Noted(s, StreamOffered), cbs[0].actions);
        OfferIsLogged(Acts(Noted(s, StreamOffered), cbs[0].actions), cbs[1..]);
      }
    }
  }

  lemma ReadyIsLogged(s: State, cb: Callback)
    requires Remembers(s)
    ensures var t := Apply(s, OnReady(cb)); Remembers(t) && t.log == LogApply(s.log, OnReady(cb))
  {
    hide HasEnd, HasRejection, LastRejection, Acts, LogActs;
    var s1 := Noted(s.(ready := true), Ready);
    Remembered(s.log, Ready);
    if s.shouldReject {
      Remembered(s1.log, Close(s.code, s.reason));
      assert s1.log + [] == s1.log;
    } else if cb.Callback? {
      Remembered(s1.log, Asked);
      assert s1.log + [Asked] == s.log + [Ready, Asked];
      ActsAreLogged(Noted(s1, Asked), cb.actions);
      Remembered(Acts(Noted(s1, Asked), cb.actions).log, Close(0, "Session rejected by application"));
    }
  }

  lemma ApplyIsLogged(s: State, e: Event)
    requires Remembers(s)
    ensures Remembers(Apply(s, e)) && Apply(s, e).log == LogApply(s.log, e)
  {
    hide HasEnd, HasRejection, LastRejection, Acts, Offer, LogActs, LogOffer, BecomeReady;
    match e
    case CallReject(code, reason) => ActIsLogged(s, Reject(code, reason));
    case CallSend(data) => ActIsLogged(s, Send(data));
    case OnClosed => ActIsLogged(s, PeerCloses);
    case OnStreams(cbs) => OfferIsLogged(s, cbs);
    case OnReady(cb) => ReadyIsLogged(s, cb);
    case OnDatagram(data, cb) =>
      if cb.Callback? && !s.closed {
        Remembered(s.log, Delivered(data));
        ActsAreLogged(Noted(s, Delivered(data)), cb.actions);
      }
  }

  /** The wrapper with its five fields does, over every sequence of events with callbacks doing whatever they may, exactly what
      a wrapper would that kept nothing and decided by its whole history. */
  lemma {:induction false} FlagsAreHistory(s: State, events: seq<Event>)
    requires Remembers(s)
    ensures Remembers(Run(s, events)) && Run(s, events).log == LogRun(s.log, events)
    decreases |events|
  {
    hide Remembers, Apply, LogApply;
    if events != [] {
      ApplyIsLogged(s, events[0]);
      FlagsAreHistory(Apply(s, events[0]), events[1..]);
    }
  }

  lemma NewRemembers()
    ensures Remembers(NEW_SESSION)
  {
  }

  /** What one call from outside adds to the log, however the session came to it. */
  lemma CallsAreLogged(events: seq<Event>, e: Event)
    requires e.CallSend? || e.CallReject? || e.OnClosed?
    ensures var log := Run(NEW_SESSION, events).log;
            var added := match e
              case CallSend(data) => if HasEnd(log) then [] else [Sent(data)]
              case CallReject(code, reason) =>
                [Rejected(code, reason)] + (if Ready in log && !HasEnd(log) then [Close(code, reason)] else [])
              case _ => [PeerClosed];
            Run(NEW_SESSION, events + [e]).log == log + added
  {
    hide HasEnd;
    NewRemembers();
    FlagsAreHistory(NEW_SESSION, events);
    RunInTwo(NEW_SESSION, events, [e]);
    var s := Run(NEW_SESSION, events);
    assert Run(s, [e]) == Apply(s, e);
    ApplyIsLogged(s, e);
    assert s.log + [] == s.log;
    if e.CallReject? {
      assert s.log + [Rejected(e.code, e.reason)] + [Close(e.code, e.reason)]
          == s.log + ([Rejected(e.code, e.reason)] + [Close(e.code, e.reason)]);
      assert s.log + ([Rejected(e.code, e.reason)] + []) == s.log + [Rejected(e.code, e.reason)] + [];
    }
  }

  // --- what gets through, over a whole run

  /** Something asked of the session when `at` entries were logged: to send, to deliver, or to offer a stream. */
  datatype Wish = Wish(entry: Entry, at: nat)

  ghost function ActionWishes(log: seq<Entry>, actions: seq<Action>): seq<Wish>
    decreases |actions|
  {
    if actions == [] then []
    else
      (if actions[0].Send? then [Wish(Sent(actions[0].data), |log|)] else []) + ActionWishes(LogAct(log, actions[0]), actions[1..])
  }

  /** The streams that were waiting when `at` entries were logged. */
  ghost function StreamWishes(log: seq<Entry>, cbs: seq<Callback>, at: nat): seq<Wish>
    decreases |cbs|
  {
    if cbs == [] then []
    else if cbs[0].Absent? then StreamWishes(log, cbs[1..], at)
    else
      var log1 := log + [StreamOffered];
      [Wish(StreamOffered, at)]
      + (ActionWishes(log1, cbs[0].actions) + StreamWishes(LogActs(log1, cbs[0].actions), cbs[1..], at))
  }

  /** What the event asks for: sends from outside, the datagram or the streams that have arrived for a callback, and the sends
      of every callback that runs. */
  ghost function EventWishes(log: seq<Entry>, e: Event): seq<Wish> {
    match e
    case CallSend(data) => [Wish(Sent(data), |log|)]
    case OnReady(cb) => if cb.Absent? || HasRejection(log) then [] else ActionWishes(log + [Ready, Asked], cb.actions)
    case OnDatagram(data, cb) =>
      if cb.Absent? then []
      else [Wish(Delivered(data), |log|)] + if HasEnd(log) then [] else ActionWishes(log + [Delivered(data)], cb.actions)
    case OnStreams(cbs) => if HasEnd(log) then [] else StreamWishes(log, cbs, |log|)
    case _ => []
  }

  ghost function Wishes(log: seq<Entry>, events: seq<Event>): seq<Wish>
    decreases |events|
  {
    if events == [] then [] else EventWishes(log, events[0]) + Wishes(LogApply(log, events[0]), events[1..])
  }

  /** Those made before the session ended, the log being `log` in the end. */
  ghost function Granted(ws: seq<Wish>, log: seq<Entry>): seq<Entry> {
    if ws == [] then []
    else (if ws[0].at <= |log| && HasEnd(log[..ws[0].at]) then [] else [ws[0].entry]) + Granted(ws[1..], log)
  }

  function Traffic(log: seq<Entry>): seq<Entry> {
    if log == [] then []
    else
      var last := log[|log| - 1];
      Traffic(log[..|log| - 1]) + if last.Sent? || last.Delivered? || last.StreamOffered? then [last] else []
  }

  /** From `log` to `log'` the wishes `ws` were made, and exactly the granted ones came through, in order. */
  ghost predicate Accounted(log: seq<Entry>, log': seq<Entry>, ws: seq<Wish>) {
    && log <= log' && (forall w | w in ws :: w.at <= |log'|)
    && Traffic(log') == Traffic(log) + Granted(ws, log')
  }

  lemma TrafficGrows(log: seq<Entry>, e: Entry)
    ensures Traffic(log + [e]) == Traffic(log) + if e.Sent? || e.Delivered? || e.StreamOffered? then [e] else []
  {
    assert (log + [e])[..|log|] == log;
  }

  lemma {:induction false} GrantedLater(ws: seq<Wish>, log: seq<Entry>, log': seq<Entry>)
    requires log <= log' && forall w | w in ws :: w.at <= |log|
    ensures Granted(ws, log') == Granted(ws, log)
    decreases |ws|
  {
    if ws != [] {
      assert ws[0] in ws && forall w | w in ws[1..] :: w in ws;
      assert log'[..ws[0].at] == log[..ws[0].at];
      GrantedLater(ws[1..], log, log');
    }
  }

  lemma {:induction false} GrantedConcat(xs: seq<Wish>, ys: seq<Wish>, log: seq<Entry>)
    ensures Granted(xs + ys, log) == Granted(xs, log) + Granted(ys, log)
    decreases |xs|
  {
    hide HasEnd;
    if xs == [] {
      assert xs + ys == ys;
    } else {
      GrantedConcat(xs[1..], ys, log);
      assert (xs + ys)[1..] == xs[1..] + ys && (xs + ys)[0] == xs[0];
      Regroup(if xs[0].at <= |log| && HasEnd(log[..xs[0].at]) then [] else [xs[0].entry], Granted(xs[1..], log), Granted(ys, log));
    }
  }

  lemma Nothing(log: seq<Entry>)
    ensures Accounted(log, log, [])
  {
    assert Traffic(log) + [] == Traffic(log);
  }

  lemma InTurn(log: seq<Entry>, log': seq<Entry>, ws: seq<Wish>, log'': seq<Entry>, ws': seq<Wish>)
    requires Accounted(log, log', ws) && Accounted(log', log'', ws')
    ensures Accounted(log, log'', ws + ws')
  {
    hide Traffic, Granted;
    GrantedLater(ws, log', log'');
    GrantedConcat(ws, ws', log'');
    Regroup(Traffic(log), Granted(ws, log'), Granted(ws', log''));
  }

  lemma NotTraffic(log: seq<Entry>, e: Entry)
    requires !(e.Sent? || e.Delivered? || e.StreamOffered?)
    ensures Accounted(log, log + [e], [])
  {
    TrafficGrows(log, e);
    assert log <= log + [e] && Granted([], log + [e]) == [];
  }

  lemma AndAnother(log: seq<Entry>, log': seq<Entry>, ws: seq<Wish>, e: Entry)
    requires Accounted(log, log', ws) && !(e.Sent? || e.Delivered? || e.StreamOffered?)
    ensures Accounted(log, log' + [e], ws)
  {
    NotTraffic(log', e);
    InTurn(log, log', ws, log' + [e], []);
    assert ws + [] == ws;
  }

  lemma GrantedOne(w: Wish, log: seq<Entry>)
    requires w.at <= |log|
    ensures Granted([w], log) == if HasEnd(log[..w.at]) then [] else [w.entry]
  {
    assert [w][1..] == [] && Granted([], log) == [];
  }

  lemma OneWish(log: seq<Entry>, w: Wish)
    requires w.at <= |log| && (w.entry.Sent? || w.entry.Delivered? || w.entry.StreamOffered?)
    ensures if HasEnd(log[..w.at]) then Accounted(log, log, [w]) else Accounted(log, log + [w.entry], [w])
  {
    hide HasEnd, Granted, Traffic;
    TrafficGrows(log, w.entry);
    GrantedOne(w, log);
    GrantedOne(w, log + [w.entry]);
    assert (log + [w.entry])[..w.at] == log[..w.at] && log <= log + [w.entry];
    assert Traffic(log) + [] == Traffic(log);
  }

  lemma ActAccounted(log: seq<Entry>, a: Action)
    ensures Accounted(log, LogAct(log, a), if a.Send? then [Wish(Sent(a.data), |log|)] else [])
  {
    hide HasEnd, Accounted;
    assert log[..|log|] == log;
    match a
    case Reject(code, reason) =>
      var log1 := log + [Rejected(code, reason)];
      NotTraffic(log, Rejected(code, reason));
      AndAnother(log, log1, [], Close(code, reason));
      assert log1 + [] == log1;
    case Send(data) => OneWish(log, Wish(Sent(data), |log|));
    case PeerCloses => NotTraffic(log, PeerClosed);
  }

  lemma {:induction false} ActsAccounted(log: seq<Entry>, actions: seq<Action>)
    ensures Accounted(log, LogActs(log, actions), ActionWishes(log, actions))
    decreases |actions|
  {
    hide Accounted, LogAct;
    if actions == [] {
      Nothing(log);
    } else {
      var log1 := LogAct(log, actions[0]);
      ActAccounted(log, actions[0]);
      ActsAccounted(log1, actions[1..]);
      InTurn(log, log1, if actions[0].Send? then [Wish(Sent(actions[0].data), |log|)] else [],
             LogActs(log1, actions[1..]), ActionWishes(log1, actions[1..]));
    }
  }

  lemma {:induction false} OfferAccounted(log: seq<Entry>, cbs: seq<Callback>, at: nat)
    requires at <= |log| && !HasEnd(log[..at])
    ensures Accounted(log, LogOffer(log, cbs), StreamWishes(log, cbs, at))
    decreases |cbs|
  {
    hide Accounted, LogActs, ActionWishes, HasEnd;
    if cbs == [] {
      Nothing(log);
    } else if cbs[0].Absent? {
      OfferAccounted(log, cbs[1..], at);
    } else {
      var log1 := log + [StreamOffered];
      var log2 := LogActs(log1, cbs[0].actions);
      OneWish(log, Wish(StreamOffered, at));
      ActsAccounted(log1, cbs[0].actions);
      ExtendsBy(log1, log2, ActionWishes(log1, cbs[0].actions));
      assert log2[..at] == log[..at];
      OfferAccounted(log2, cbs[1..], at);
      InTurn(log1, log2, ActionWishes(log1, cbs[0].actions), LogOffer(log2, cbs[1..]), StreamWishes(log2, cbs[1..], at));
      InTurn(log, log1, [Wish(StreamOffered, at)], LogOffer(log2, cbs[1..]),
             ActionWishes(log1, cbs[0].actions) + StreamWishes(log2, cbs[1..], at));
    }
  }

  lemma ExtendsBy(log: seq<Entry>, log': seq<Entry>, ws: seq<Wish>)
    requires Accounted(log, log', ws)
    ensures log <= log'
  {
  }

  lemma ReadyAccounted(log: seq<Entry>, cb: Callback)
    ensures Accounted(log, LogApply(log, OnReady(cb)), EventWishes(log, OnReady(cb)))
  {
    hide HasEnd, HasRejection, LastRejection, Accounted, LogActs, ActionWishes;
    var log1 := log + [Ready];
    NotTraffic(log, Ready);
    if HasRejection(log) {
      var close := Close(LastRejection(log).0, LastRejection(log).1);
      AndAnother(log, log1, [], close);
      assert log1 + [] == log1;
    } else if cb.Callback? {
      var log2, ws := log + [Ready, Asked], ActionWishes(log + [Ready, Asked], cb.actions);
      AndAnother(log, log1, [], Asked);
      assert log1 + [Asked] == log2 && [] + ws == ws;
      ActsAccounted(log2, cb.actions);
      var log3 := LogActs(log2, cb.actions);
      InTurn(log, log2, [], log3, ws);
      AndAnother(log, log3, ws, Close(0, "Session rejected by application"));
    }
  }

  lemma EventAccounted(log: seq<Entry>, e: Event)
    ensures Accounted(log, LogApply(log, e), EventWishes(log, e))
  {
    hide HasEnd, HasRejection, Accounted, LogActs, LogOffer, ActionWishes, StreamWishes, LogAct;
    assert log[..|log|] == log;
    match e
    case CallReject(code, reason) => ActAccounted(log, Reject(code, reason));
    case CallSend(data) => ActAccounted(log, Send(data));
    case OnClosed => ActAccounted(log, PeerCloses);
    case OnReady(cb) => ReadyAccounted(log, cb);
    case OnStreams(cbs) => if HasEnd(log) { Nothing(log); } else { OfferAccounted(log, cbs, |log|); }
    case OnDatagram(data, cb) =>
      Nothing(log);
      var w, log1 := Wish(Delivered(data), |log|), log + [Delivered(data)];
      OneWish(log, w);
      if cb.Callback? && !HasEnd(log) {
        ActsAccounted(log1, cb.actions);
        InTurn(log, log1, [w], LogActs(log1, cb.actions), ActionWishes(log1, cb.actions));
      }
      assert [w] + [] == [w];
  }

  lemma {:induction false} RunAccounted(log: seq<Entry>, events: seq<Event>)
    ensures Accounted(log, LogRun(log, events), Wishes(log, events))
    decreases |events|
  {
    hide Accounted, LogApply, EventWishes;
    if events == [] {
      Nothing(log);
    } else {
      var log1 := LogApply(log, events[0]);
      EventAccounted(log, events[0]);
      RunAccounted(log1, events[1..]);
      InTurn(log, log1, EventWishes(log, events[0]), LogRun(log1, events[1..]), Wishes(log1, events[1..]));
    }
  }

  /** Over every sequence of events, callbacks included: what is sent, delivered and offered is exactly what was asked for
      before the session ended, in that order and with that data. For streams, asked for is when they are found waiting. */
  lemma TrafficExactly(events: seq<Event>)
    ensures var log := Run(NEW_SESSION, events).log;
            Traffic(log) == Granted(Wishes([], events), log)
  {
    NewRemembers();
    FlagsAreHistory(NEW_SESSION, events);
    RunAccounted([], events);
    var log := Run(NEW_SESSION, events).log;
    assert Traffic([]) + Granted(Wishes([], events), log) == Granted(Wishes([], events), log);
  }

  function Sends(ds: seq<Octets>): seq<Event> {
    if ds == [] then [] else [CallSend(ds[0])] + Sends(ds[1..])
  }

  function SentEntries(ds: seq<Octets>): seq<Entry> {
    if ds == [] then [] else [Sent(ds[0])] + SentEntries(ds[1..])
  }

  /** Datagrams sent one after the other go out all of them, in order, or none when the session has ended. */
  lemma {:induction false} OpenSessionSends(events: seq<Event>, ds: seq<Octets>)
    ensures var log := Run(NEW_SESSION, events).log;
            Run(NEW_SESSION, events + Sends(ds)).log == log + if HasEnd(log) then [] else SentEntries(ds)
    decreases |ds|
  {
    hide HasEnd, Run;
    var log := Run(NEW_SESSION, events).log;
    if ds == [] {
      assert events + Sends(ds) == events && log + [] == log;
    } else {
      var more := events + [CallSend(ds[0])];
      CallsAreLogged(events, CallSend(ds[0]));
      OpenSessionSends(more, ds[1..]);
      assert events + Sends(ds) == more + Sends(ds[1..]);
      Remembered(log, Sent(ds[0]));
      assert log + [] == log;
      Regroup(log, [Sent(ds[0])], SentEntries(ds[1..]));
    }
  }

  // --- what each arrival brings

  function Offered(log: seq<Entry>): nat {
    if log == [] then 0 else Offered(log[..|log| - 1]) + if log[|log| - 1].StreamOffered? then 1 else 0
  }

  function Present(cbs: seq<Callback>): nat {
    if cbs == [] then 0 else (if cbs[0].Callback? then 1 else 0) + Present(cbs[1..])
  }

  lemma {:induction false} ActsOfferNothing(log: seq<Entry>, actions: seq<Action>)
    ensures Offered(LogActs(log, actions)) == Offered(log)
    decreases |actions|
  {
    if actions != [] {
      var a := actions[0];
      ActsOfferNothing(LogAct(log, a), actions[1..]);
      if a.Reject? {
        OfferedGrows(log, Rejected(a.code, a.reason));
        OfferedGrows(log + [Rejected(a.code, a.reason)], Close(a.code, a.reason));
        assert log + [Rejected(a.code, a.reason)] + [] == log + [Rejected(a.code, a.reason)];
      }
      if a.Send? { OfferedGrows(log, Sent(a.data)); }
      if a.PeerCloses? { OfferedGrows(log, PeerClosed); }
    }
  }

  lemma OfferedGrows(log: seq<Entry>, e: Entry)
    ensures Offered(log + [e]) == Offered(log) + if e.StreamOffered? then 1 else 0
  {
    assert (log + [e])[..|log|] == log;
  }

  lemma {:induction false} LogOfferCounts(log: seq<Entry>, cbs: seq<Callback>)
    ensures Offered(LogOffer(log, cbs)) == Offered(log) + Present(cbs)
    decreases |cbs|
  {
    hide LogActs;
    if cbs != [] {
      var log1 := if cbs[0].Absent? then log else LogActs(log + [StreamOffered], cbs[0].actions);
      if cbs[0].Callback? {
        OfferedGrows(log, StreamOffered);
        ActsOfferNothing(log + [StreamOffered], cbs[0].actions);
      }
      LogOfferCounts(log1, cbs[1..]);
    }
  }

  /** However the session came to it: waiting streams are all offered when it has not ended, whatever their callbacks do, and
      none otherwise; a datagram is the next thing delivered exactly when there is a callback and the session has not ended. */
  lemma ArrivalsAreMet(events: seq<Event>, cbs: seq<Callback>, data: Octets, cb: Callback)
    ensures var log := Run(NEW_SESSION, events).log;
            var streams, datagram := Run(NEW_SESSION, events + [OnStreams(cbs)]).log, Run(NEW_SESSION, events + [OnDatagram(data, cb)]).log;
            && Offered(streams) == Offered(log) + (if HasEnd(log) then 0 else Present(cbs))
            && (if HasEnd(log) || cb.Absent? then datagram == log else log + [Delivered(data)] <= datagram)
  {
    hide HasEnd, LogOffer, LogActs;
    NewRemembers();
    FlagsAreHistory(NEW_SESSION, events);
    var s := Run(NEW_SESSION, events);
    RunInTwo(NEW_SESSION, events, [OnStreams(cbs)]);
    RunInTwo(NEW_SESSION, events, [OnDatagram(data, cb)]);
    assert Run(s, [OnStreams(cbs)]) == Apply(s, OnStreams(cbs)) && Run(s, [OnDatagram(data, cb)]) == Apply(s, OnDatagram(data, cb));
    ApplyIsLogged(s, OnStreams(cbs));
    ApplyIsLogged(s, OnDatagram(data, cb));
    LogOfferCounts(s.log, cbs);
    if cb.Callback? {
      ActsAccounted(s.log + [Delivered(data)], cb.actions);
      ExtendsBy(s.log + [Delivered(data)], LogActs(s.log + [Delivered(data)], cb.actions),
                ActionWishes(s.log + [Delivered(data)], cb.actions));
    }
  }
}

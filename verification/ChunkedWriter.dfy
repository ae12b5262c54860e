/** `write_content_chunked`: the loop that asks a content provider for data until it has no more. */
module ChunkedWriter {
  import opened Bytes
  import opened TextSearch
  import opened Chunked

  /** What a provider does with the sink. */
  datatype Call = Put(data: string) | Finish(trailer: seq<Field>)

  /** One turn of the loop: is the server shutting down, does the connection take data, the provider's calls, and whether it
      returns true. */
  datatype Turn = Turn(shuttingDown: bool, writable: bool, calls: seq<Call>, accepted: bool)

  datatype Outcome = Success | WriteError | Canceled

  function CallText(c: Call): string {
    match c
    case Put(d) => ChunkText(d)
    case Finish(trailer) => EndText(trailer)
  }

  function Text(calls: seq<Call>): string {
    if calls == [] then "" else CallText(calls[0]) + Text(calls[1..])
  }

  /** The loop goes on after these calls: the last of them put something. */
  predicate GoesOn(calls: seq<Call>, before: bool) {
    if calls == [] then before else calls[|calls| - 1].Put? && calls[|calls| - 1].data != ""
  }

  /** The provider's call on the sink. */
  method Provide(sink: DataSink, calls: seq<Call>)
    modifies sink
    ensures sink.ok <==> old(sink.ok) && |Text(calls)| <= old(sink.budget)
    ensures sink.ok ==> sink.out == old(sink.out) + Text(calls) && sink.budget == old(sink.budget) - |Text(calls)|
    ensures sink.ok ==> sink.dataAvailable == GoesOn(calls, old(sink.dataAvailable))
  {
    hide ChunkText, EndText;
    ghost var before, room := sink.out, sink.budget;
    assert before + "" == before;
    for i := 0 to |calls|
      invariant sink.ok <==> old(sink.ok) && |Text(calls[..i])| <= room
      invariant sink.ok ==> sink.out == before + Text(calls[..i]) && sink.budget == room - |Text(calls[..i])|
      invariant sink.ok ==> sink.dataAvailable == GoesOn(calls[..i], old(sink.dataAvailable))
    {
      assert calls[..i + 1] == calls[..i] + [calls[i]];
      TextAppend(calls[..i], calls[i]);
      Regroup(before, Text(calls[..i]), CallText(calls[i]));
      match calls[i] {
        case Put(d) => var _ := sink.Write(d);
        case Finish(trailer) => sink.Done(trailer);
      }
    }
    assert calls[..|calls|] == calls;
  }

  lemma {:induction false} TextAppend(calls: seq<Call>, c: Call)
    ensures Text(calls + [c]) == Text(calls) + CallText(c)
    decreases |calls|
  {
    hide CallText;
    if calls == [] {
      assert calls + [c] == [c] && Text([c]) == CallText(c) + "";
      assert "" + CallText(c) == CallText(c);
    } else {
      TextAppend(calls[1..], c);
      assert (calls + [c])[1..] == calls[1..] + [c];
      Regroup(CallText(calls[0]), Text(calls[1..]), CallText(c));
    }
  }

  /** The loop over the turns: how it ends and, when it ends well, what it has written. A list of turns that runs out stands
      for the server shutting down. */
  function Drive(turns: seq<Turn>, available: bool, budget: nat): (Outcome, string)
    decreases |turns|
  {
    if !available || turns == [] || turns[0].shuttingDown then (Success, "")
    else if !turns[0].writable then (WriteError, "")
    else if !turns[0].accepted then (Canceled, "")
    else
      var t := Text(turns[0].calls);
      if |t| > budget then (WriteError, "")
      else
        var (r, more) := Drive(turns[1..], GoesOn(turns[0].calls, available), budget - |t|);
        (r, t + more)
  }

  method WriteContentChunked(turns: seq<Turn>, budget: nat) returns (r: Outcome, sink: DataSink)
    ensures fresh(sink) && r == Drive(turns, true, budget).0
    ensures r == Success ==> sink.out == Drive(turns, true, budget).1
  {
    hide Text, GoesOn;
    sink := new DataSink(budget);
    ghost var all := Drive(turns, true, budget);
    var k := 0;
    assert "" + all.1 == all.1;
    while sink.dataAvailable && k < |turns| && !turns[k].shuttingDown
      invariant k <= |turns| && fresh(sink) && sink.ok
      invariant var left := Drive(turns[k..], sink.dataAvailable, sink.budget);
                all.0 == left.0 && all.1 == sink.out + left.1
      decreases |turns| - k
    {
      var turn := turns[k];
      assert turns[k..][0] == turn && turns[k..][1..] == turns[k + 1..];
      if !turn.writable { return WriteError, sink; }
      ghost var before := sink.out;
      Provide(sink, turn.calls);
      if !turn.accepted { return Canceled, sink; }
      if !sink.ok { return WriteError, sink; }
      Regroup(before, Text(turn.calls), Drive(turns[k + 1..], sink.dataAvailable, sink.budget).1);
      k := k + 1;
    }
    assert sink.out + "" == sink.out;
    r := Success;
  }

  function AllCalls(turns: seq<Turn>): seq<Call> {
    if turns == [] then [] else turns[0].calls + AllCalls(turns[1..])
  }

  lemma {:induction false} TextConcat(xs: seq<Call>, ys: seq<Call>)
    ensures Text(xs + ys) == Text(xs) + Text(ys)
    decreases |xs|
  {
    hide CallText;
    if xs == [] {
      assert xs + ys == ys && "" + Text(ys) == Text(ys);
    } else {
      TextConcat(xs[1..], ys);
      assert (xs + ys)[1..] == xs[1..] + ys;
      Regroup(CallText(xs[0]), Text(xs[1..]), Text(ys));
    }
  }

  /** A well-ended loop has written exactly the calls of its first `k` turns, and stopped there because the turns ran out, the
      server was shutting down, or the provider's last call put nothing more. */
  lemma {:induction false} SuccessWrites(turns: seq<Turn>, available: bool, budget: nat) returns (k: nat)
    requires Drive(turns, available, budget).0 == Success
    ensures k <= |turns| && Drive(turns, available, budget).1 == Text(AllCalls(turns[..k]))
    ensures k == |turns| || turns[k].shuttingDown || !GoesOn(AllCalls(turns[..k]), available)
    ensures forall j | 0 <= j < k :: !turns[j].shuttingDown && turns[j].writable && turns[j].accepted
    decreases |turns|
  {
    hide Text;
    if !available || turns == [] || turns[0].shuttingDown {
      k := 0;
      assert Text(AllCalls(turns[..0])) == "" by { NoText(); }
    } else {
      var calls := turns[0].calls;
      k := SuccessWrites(turns[1..], GoesOn(calls, available), budget - |Text(calls)|);
      var more := AllCalls(turns[1..][..k]);
      TextConcat(calls, more);
      assert turns[..k + 1][1..] == turns[1..][..k] && turns[..k + 1][0] == turns[0];
      assert AllCalls(turns[..k + 1]) == calls + more;
      assert GoesOn(calls + more, available) == GoesOn(more, GoesOn(calls, available)) by {
        if more == [] { assert calls + more == calls; }
      }
      k := k + 1;
    }
  }

  /** The first `k` turns went well and left more to come. */
  ghost predicate WentOn(turns: seq<Turn>, available: bool, budget: nat, k: nat) {
    && k <= |turns| && (forall j | 0 <= j < k :: !turns[j].shuttingDown && turns[j].writable && turns[j].accepted)
    && |Text(AllCalls(turns[..k]))| <= budget && GoesOn(AllCalls(turns[..k]), available)
  }

  /** A loop that ends badly names the first turn at which something goes wrong, and what: cancelled when the provider gives
      up, and a write error when the connection takes no data or does not take all of what has been put. */
  lemma {:induction false} FailureMeans(turns: seq<Turn>, available: bool, budget: nat) returns (k: nat)
    requires Drive(turns, available, budget).0 != Success
    ensures k < |turns| && WentOn(turns, available, budget, k) && !turns[k].shuttingDown
    ensures var outcome := Drive(turns, available, budget).0;
            if !turns[k].writable then outcome == WriteError
            else if !turns[k].accepted then outcome == Canceled
            else outcome == WriteError && |Text(AllCalls(turns[..k + 1]))| > budget
    decreases |turns|
  {
    hide Text;
    assert turns[..0] == [];
    NoText();
    var calls := turns[0].calls;
    OneTurn(turns[0]);
    assert turns[..1] == [turns[0]];
    if !turns[0].writable || !turns[0].accepted || |Text(calls)| > budget {
      k := 0;
    } else {
      var rest := turns[1..];
      k := FailureMeans(rest, GoesOn(calls, available), budget - |Text(calls)|);
      CallsOfTurns(turns, k);
      CallsOfTurns(turns, k + 1);
      var more := AllCalls(rest[..k]);
      assert GoesOn(calls + more, available) == GoesOn(more, GoesOn(calls, available)) by {
        if more == [] { assert calls + more == calls; }
      }
      forall j | 0 < j < |turns| ensures turns[j] == rest[j - 1] {
      }
      k := k + 1;
    }
  }

  lemma OneTurn(turn: Turn)
    ensures AllCalls([turn]) == turn.calls
  {
    assert [turn][1..] == [] && turn.calls + [] == turn.calls;
  }

  lemma CallsOfTurns(turns: seq<Turn>, k: nat)
    requires turns != [] && k < |turns|
    ensures AllCalls(turns[..k + 1]) == turns[0].calls + AllCalls(turns[1..][..k])
    ensures |Text(AllCalls(turns[..k + 1]))| == |Text(turns[0].calls)| + |Text(AllCalls(turns[1..][..k]))|
  {
    hide Text;
    assert turns[..k + 1][1..] == turns[1..][..k] && turns[..k + 1][0] == turns[0];
    TextConcat(turns[0].calls, AllCalls(turns[1..][..k]));
  }

  lemma NoText()
    ensures Text(AllCalls([])) == ""
  {
  }

  /** What was put before the provider first said that it was done. */
  function PutBefore(calls: seq<Call>): seq<string> {
    if calls == [] || calls[0].Finish? then [] else [calls[0].data] + PutBefore(calls[1..])
  }

  /** The calls from the first `Finish` on. */
  function FromFinish(calls: seq<Call>): (rest: seq<Call>)
    ensures rest != [] ==> rest[0].Finish?
    ensures rest != [] <==> HasFinish(calls)
  {
    if calls == [] || calls[0].Finish? then calls else FromFinish(calls[1..])
  }

  predicate HasFinish(calls: seq<Call>) {
    calls != [] && (calls[0].Finish? || HasFinish(calls[1..]))
  }

  lemma {:induction false} HasFinishMeans(calls: seq<Call>)
    ensures HasFinish(calls) <==> exists c :: c in calls && c.Finish?
    decreases |calls|
  {
    if calls != [] {
      HasFinishMeans(calls[1..]);
      assert calls[0] in calls && forall c | c in calls :: c == calls[0] || c in calls[1..];
      assert forall c | c in calls[1..] :: c in calls;
    }
  }

  lemma {:induction false} TextSplits(calls: seq<Call>)
    ensures Text(calls) == ChunksText(PutBefore(calls)) + Text(FromFinish(calls))
    decreases |calls|
  {
    hide ChunkText, EndText;
    if calls == [] || calls[0].Finish? {
      assert "" + Text(calls) == Text(calls);
    } else {
      TextSplits(calls[1..]);
      var w, more := calls[0].data, PutBefore(calls[1..]);
      assert ([w] + more)[1..] == more;
      Regroup(ChunkText(w), ChunksText(more), Text(FromFinish(calls[1..])));
    }
  }

  /** Sizes that the size line can say, and trailers that are lines. */
  ghost predicate CallOk(c: Call) {
    match c
    case Put(d) => |d| < ULONG_MAX
    case Finish(trailer) => forall f | f in trailer :: FieldOk(f)
  }

  lemma {:induction false} PartsOk(calls: seq<Call>)
    requires forall c | c in calls :: CallOk(c)
    ensures forall w | w in PutBefore(calls) :: |w| < ULONG_MAX
    ensures forall c | c in FromFinish(calls) :: CallOk(c)
    decreases |calls|
  {
    hide FieldOk;
    if calls != [] && calls[0].Put? {
      assert calls[0] in calls && CallOk(calls[0]) && forall c | c in calls[1..] :: c in calls;
      PartsOk(calls[1..]);
    }
  }

  /** Whatever calls were made: what they write is a readable body if and only if the provider once said that it was done, and
      the reader is given exactly what was put before that, or all of it. */
  lemma ReadableExactly(calls: seq<Call>, broken: bool)
    requires forall c | c in calls :: CallOk(c)
    ensures var got := ReadChunked(Text(calls), broken, 0);
            (got.ok <==> exists c :: c in calls && c.Finish?) && got.body == Join(PutBefore(calls))
  {
    hide ReadChunked, ChunksText, EndText, FieldOk;
    var data, writes, rest := Text(calls), PutBefore(calls), FromFinish(calls);
    TextSplits(calls);
    PartsOk(calls);
    HasFinishMeans(calls);
    if HasFinish(calls) {
      var trailer := rest[0].trailer;
      assert rest[0] in rest && CallOk(rest[0]);
      var head := ChunksText(writes) + EndText(trailer);
      Regroup(ChunksText(writes), EndText(trailer), Text(rest[1..]));
      assert data == head + Text(rest[1..]) && data[0..|head|] == head;
      ChunkedRoundTrip(data, broken, 0, writes, trailer);
    } else {
      assert data == ChunksText(writes) + "" == ChunksText(writes) && data[0..|data|] == data;
      UnfinishedIsRefused(data, broken, 0, writes);
    }
  }

  /** What the loop's success is worth: it has written the calls of its first `k` turns, and the reader accepts that if and only
      if one of them was `Finish`. */
  lemma SuccessIsReadable(turns: seq<Turn>, budget: nat, broken: bool) returns (k: nat)
    requires Drive(turns, true, budget).0 == Success
    requires forall c | c in AllCalls(turns) :: CallOk(c)
    ensures k <= |turns| && (k == |turns| || turns[k].shuttingDown || !GoesOn(AllCalls(turns[..k]), true))
    ensures var calls := AllCalls(turns[..k]);
            var got := ReadChunked(Drive(turns, true, budget).1, broken, 0);
            (got.ok <==> exists c :: c in calls && c.Finish?) && got.body == Join(PutBefore(calls))
  {
    hide Drive, Text, CallOk, GoesOn, ReadChunked;
    k := SuccessWrites(turns, true, budget);
    FirstCalls(turns, k);
    ReadableExactly(AllCalls(turns[..k]), broken);
  }

  lemma {:induction false} FirstCalls(turns: seq<Turn>, k: nat)
    requires k <= |turns|
    ensures forall c | c in AllCalls(turns[..k]) :: c in AllCalls(turns)
    decreases k
  {
    if k > 0 {
      FirstCalls(turns[1..], k - 1);
      assert turns[..k][1..] == turns[1..][..k - 1];
    }
  }

  /** A provider that ends with an empty write: the loop reports success, and the reader refuses the body. */
  lemma EmptyWriteEndsBody(broken: bool)
    ensures var turns := [Turn(false, true, [Put("data")], true), Turn(false, true, [Put("")], true), Turn(false, true, [Put("more")], true)];
            var (r, text) := Drive(turns, true, 100);
            r == Success && text == ChunksText(["data", ""]) && !ReadChunked(text, broken, 0).ok
  {
    var t0, t1, t2 := Turn(false, true, [Put("data")], true), Turn(false, true, [Put("")], true), Turn(false, true, [Put("more")], true);
    var text := ChunksText(["data", ""]);
    assert ["data", ""][1..] == [""] && [""][1..] == [];
    assert Text([Put("data")]) == ChunkText("data") + "" && Text([Put("")]) == "";
    assert ChunkText("data") == "4" + CRLF + "data" + CRLF by { assert ToHex(4) == "4"; }
    var turns := [t0, t1, t2];
    assert turns[1..] == [t1, t2] && [t1, t2][1..] == [t2];
    assert Drive([t2], false, 91) == (Success, "");
    assert Drive([t1, t2], true, 91) == (Success, "" + "");
    assert Drive(turns, true, 100) == (Success, ChunkText("data") + "" + "");
    assert text == ChunkText("data") + ("" + "");
    assert text[0..|text|] == text;
    UnfinishedIsRefused(text, broken, 0, ["data", ""]);
  }
}

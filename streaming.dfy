/**
 * The producer/consumer hand-off of tensorrtllm.cc as functions on values: the text delta the
 * `onTokenGenerated` callback pushes, one pull of `chunked_content_provider`, and the stream of
 * fragments a client sees. The class in inference_state.dfy is proved to follow these.
 */
module Streaming {
  import opened Seqs
  import opened StopWords

  datatype Option<T> = None | Some(value: T)

  /** The in-band sentinel the producer pushes after the final generation step. */
  const Done: string := "[DONE]"

  // ---------------------------------------------------------------- producer

  /** The fragment one producer step pushes for the decoded text `text` when the cursor is at
      `prevPos`: the not yet streamed rest of the text, if there is any. */
  function Delta(prevPos: int, text: string): (r: seq<string>)
    ensures |r| <= 1
    ensures r != [] <==> 0 <= prevPos < |text|
    ensures r != [] ==> r[0] != "" && text[..prevPos] + r[0] == text
  {
    if 0 <= prevPos < |text| then [text[prevPos..]] else []
  }

  /** The fragments pushed by successive non-final steps that decode `texts`, the cursor starting
      at `prevPos` and moved to the end of each decoded text. */
  function Produce(prevPos: int, texts: seq<string>): seq<string>
    decreases |texts|
  {
    if texts == [] then [] else Delta(prevPos, texts[0]) + Produce(|texts[0]|, texts[1..])
  }

  /** Each decoded text extends the previous one. */
  ghost predicate Growing(texts: seq<string>) {
    forall i :: 0 < i < |texts| ==> texts[i - 1] <= texts[i]
  }

  lemma {:induction false} GrowingToLast(texts: seq<string>)
    requires texts != [] && Growing(texts)
    ensures texts[0] <= texts[|texts| - 1]
    decreases |texts|
  {
    if |texts| > 1 {
      GrowingToLast(texts[1..]);
    }
  }

  /** Dropping the first decoded text keeps the rest growing. */
  lemma GrowingTail(texts: seq<string>)
    requires texts != [] && Growing(texts)
    ensures Growing(texts[1..])
  {
  }

  /** The delta completes what was already streamed into the decoded text. */
  lemma DeltaCompletes(seen: string, t: string)
    requires seen <= t
    ensures seen + Concat(Delta(|seen|, t)) == t
  {
  }

  /** While decoded texts only grow, the pushed deltas put together give back the latest text. */
  lemma {:induction false} ProduceReassembles(seen: string, texts: seq<string>)
    requires texts != [] && seen <= texts[0] && Growing(texts)
    ensures seen + Concat(Produce(|seen|, texts)) == texts[|texts| - 1]
    decreases |texts|
  {
    var t, rest := texts[0], texts[1..];
    var d, later := Delta(|seen|, t), Produce(|t|, rest);
    assert Produce(|seen|, texts) == d + later;
    ConcatAppend(d, later);
    DeltaCompletes(seen, t);
    if rest == [] {
      assert later == [];
    } else {
      GrowingTail(texts);
      assert t <= rest[0] by { assert texts[1] == rest[0]; }
      ProduceReassembles(t, rest);
      assert rest[|rest| - 1] == texts[|texts| - 1];
    }
  }

  /** While decoded texts only grow, every pushed delta is made of characters of the latest text. */
  lemma {:induction false} ProduceWithin(prevPos: int, texts: seq<string>)
    requires texts != [] && Growing(texts)
    ensures forall e, c :: e in Produce(prevPos, texts) && c in e ==> c in texts[|texts| - 1]
    decreases |texts|
  {
    var t, rest := texts[0], texts[1..];
    var last := texts[|texts| - 1];
    GrowingToLast(texts);
    assert Produce(prevPos, texts) == Delta(prevPos, t) + Produce(|t|, rest);
    if rest != [] {
      GrowingTail(texts);
      ProduceWithin(|t|, rest);
      assert rest[|rest| - 1] == last;
    }
    forall e, c | e in Produce(prevPos, texts) && c in e
      ensures c in last
    {
      if e in Delta(prevPos, t) {
        assert e == t[prevPos..];
        var k :| 0 <= k < |e| && e[k] == c;
        assert t[prevPos + k] == c;
        assert last[prevPos + k] == c;
      } else {
        assert e in Produce(|t|, rest);
      }
    }
  }

  // ---------------------------------------------------------------- consumer

  /** The consumer's part of the session state. */
  datatype Consumer = Consumer(matcher: Matcher, isFinished: bool, queue: seq<string>)

  /** What one pull does: the bytes written (their number is the return value), or the call is
      still spinning on an empty queue. */
  datatype Outcome = Wrote(bytes: string) | WouldWait

  /** One server-sent event carrying a (JSON) payload. */
  function Event(payload: string): string {
    "data: " + payload + "\n\n"
  }

  /** An event frames its payload so that a client can cut it out again. */
  lemma EventFraming(payload: string)
    ensures var r := Event(payload);
      |r| == |payload| + 8 && r[..6] == "data: " && r[|r| - 2..] == "\n\n" && r[6..|r| - 2] == payload
  {
  }

  /** The payload written when the sentinel is reached: a completion chunk, then the literal
      end-of-stream event. */
  function FinalEvents(stopPayload: string): string {
    Event(stopPayload) + "data: [DONE]" + "\n\n"
  }

  /** The final payload is two events, the second carrying the sentinel. */
  lemma FinalEventsEndWithSentinel(stopPayload: string)
    ensures FinalEvents(stopPayload) == Event(stopPayload) + Event(Done)
  {
  }

  function Min(a: nat, b: nat): nat {
    if a < b then a else b
  }

  /** What a copy of `min(|s|, cap)` bytes leaves in the buffer. */
  function Truncate(s: string, cap: nat): (r: string)
    ensures |r| <= cap && r <= s
    ensures |s| <= cap ==> r == s
    ensures cap <= |s| ==> |r| == cap
  {
    s[..Min(|s|, cap)]
  }

  /** The pop loop of one pull: pops fragments while `handleMatch` suppresses them (the sentinel
      excepted), and returns the matcher, the rest of the queue and the fragment it stopped at. */
  function PopVisible(m: Matcher, q: seq<string>): (r: (Matcher, seq<string>, Option<string>))
    ensures |r.1| <= |q| && r.1 == q[|q| - |r.1|..]
    ensures r.2.None? ==> r.1 == []
    ensures r.2.Some? ==> |r.1| < |q| && r.2.value == q[|q| - |r.1| - 1]
    decreases |q|
  {
    if q == [] then (m, [], None)
    else
      var (m', suppressed) := Step(m, q[0]);
      if suppressed && q[0] != Done then PopVisible(m', q[1..]) else (m', q[1..], Some(q[0]))
  }

  /** One turn of the pop loop, seen from its specification. */
  lemma PopVisibleUnfold(m: Matcher, q: seq<string>)
    requires q != []
    ensures var (m', suppressed) := Step(m, q[0]);
      PopVisible(m, q) ==
        if suppressed && q[0] != Done then PopVisible(m', q[1..]) else (m', q[1..], Some(q[0]))
  {
  }

  /**
   * One call of `chunked_content_provider` with a buffer of `cap` bytes (`hasBuffer` false for a
   * null buffer). `render` gives the JSON chunk for a content fragment and `stopPayload` the JSON
   * chunk with finish reason "stop".
   */
  function Pull(c: Consumer, hasBuffer: bool, cap: nat, render: string -> string, stopPayload: string)
    : (r: (Consumer, Outcome))
    ensures r.1.Wrote? ==> |r.1.bytes| <= cap
    ensures !hasBuffer ==> r == (c.(isFinished := true), Wrote(""))
    // termination is idempotent: a finished session writes nothing and stays as it is
    ensures c.isFinished ==> r == (c, Wrote(""))
    ensures r.1.WouldWait? ==> r.0.queue == [] && !r.0.isFinished
    ensures |r.0.queue| <= |c.queue|
    ensures hasBuffer && !c.isFinished && r.1.Wrote? ==> |r.0.queue| < |c.queue|
  {
    if !hasBuffer then (c.(isFinished := true), Wrote(""))
    else if c.isFinished then (c, Wrote(""))
    else
      var (m, rest, popped) := PopVisible(c.matcher, c.queue);
      match popped
      case None => (Consumer(m, false, rest), WouldWait)
      case Some(raw) =>
        if raw == Done then (Consumer(m, true, rest), Wrote(Truncate(FinalEvents(stopPayload), cap)))
        else (Consumer(m.(prevText := raw), false, rest), Wrote(Truncate(Event(render(raw)), cap)))
  }

  // ------------------------------------------------ the stream as the client sees it

  /** Reference definition, fragment by fragment: the fragments of `q` a client receives, in
      order, up to the sentinel, when the consumer starts with matcher `m`. */
  function Visible(m: Matcher, q: seq<string>): seq<string>
    decreases |q|
  {
    if q == [] then []
    else
      var (m', suppressed) := Step(m, q[0]);
      if suppressed && q[0] != Done then Visible(m', q[1..])
      else if q[0] == Done then []
      else [q[0]] + Visible(m'.(prevText := q[0]), q[1..])
  }

  /** The consumer's matcher after it has taken every fragment of `q` (which holds no sentinel). */
  function Settled(m: Matcher, q: seq<string>): Matcher
    decreases |q|
  {
    if q == [] then m
    else
      var (m', suppressed) := Step(m, q[0]);
      Settled(if suppressed then m' else m'.(prevText := q[0]), q[1..])
  }

  /** The fragments of `q` before the first sentinel. */
  function BeforeDone(q: seq<string>): seq<string>
    decreases |q|
  {
    if q == [] || q[0] == Done then [] else [q[0]] + BeforeDone(q[1..])
  }

  lemma {:induction false} BeforeDoneNoSentinel(q: seq<string>)
    requires Done !in q
    ensures BeforeDone(q) == q
    decreases |q|
  {
    if q != [] {
      BeforeDoneNoSentinel(q[1..]);
    }
  }

  /** The pop loop agrees with the reference: it stops at the next visible fragment. */
  lemma {:induction false} PopVisibleAgrees(m: Matcher, q: seq<string>)
    ensures var (m', rest, popped) := PopVisible(m, q);
      (popped.None? || popped == Some(Done) ==> Visible(m, q) == []) &&
      (popped.Some? && popped.value != Done ==>
        Visible(m, q) == [popped.value] + Visible(m'.(prevText := popped.value), rest))
    decreases |q|
  {
    if q != [] {
      var (m', suppressed) := Step(m, q[0]);
      if suppressed && q[0] != Done {
        PopVisibleAgrees(m', q[1..]);
      }
    }
  }

  /** Each pull on a live session writes the next fragment the client is due, in queue order;
      when none is due it either waits or ends the stream. */
  lemma PullDeliversNextVisible(c: Consumer, cap: nat, render: string -> string, stopPayload: string)
    requires !c.isFinished
    ensures var (c', o) := Pull(c, true, cap, render, stopPayload);
      var v := Visible(c.matcher, c.queue);
      (v != [] ==> o == Wrote(Truncate(Event(render(v[0])), cap)) && !c'.isFinished &&
                   Visible(c'.matcher, c'.queue) == v[1..]) &&
      (v == [] && Done in c.queue ==> c'.isFinished && o == Wrote(Truncate(FinalEvents(stopPayload), cap))) &&
      (v == [] && Done !in c.queue ==> o.WouldWait?)
  {
    PopVisibleAgrees(c.matcher, c.queue);
    if Done in c.queue {
      PopVisibleReachesSentinel(c.matcher, c.queue);
    }
  }

  /** The pop loop never runs dry while the sentinel is queued: it stops at the sentinel at the
      latest. */
  lemma {:induction false} PopVisibleReachesSentinel(m: Matcher, q: seq<string>)
    requires Done in q
    ensures PopVisible(m, q).2.Some?
    decreases |q|
  {
    PopVisibleUnfold(m, q);
    if q[0] != Done {
      PopVisibleReachesSentinel(Step(m, q[0]).0, q[1..]);
    }
  }

  /** When the pop loop runs dry, its matcher is the one the whole queue leaves behind. */
  lemma {:induction false} PopVisibleSettles(m: Matcher, q: seq<string>)
    ensures PopVisible(m, q).2.None? ==> PopVisible(m, q).0 == Settled(m, q)
    decreases |q|
  {
    if q != [] {
      var (m', suppressed) := Step(m, q[0]);
      PopVisibleUnfold(m, q);
      if suppressed && q[0] != Done {
        PopVisibleSettles(m', q[1..]);
      }
    }
  }

  /** When the pop loop stops at a fragment, fragments pushed behind the queue do not change
      where it stops. */
  lemma {:induction false} PopVisibleAppend(m: Matcher, q: seq<string>, r: seq<string>)
    requires PopVisible(m, q).2.Some?
    ensures var (m', rest, popped) := PopVisible(m, q);
      PopVisible(m, q + r) == (m', rest + r, popped)
    decreases |q|
  {
    assert (q + r)[0] == q[0];
    assert (q + r)[1..] == q[1..] + r;
    var (m', suppressed) := Step(m, q[0]);
    PopVisibleUnfold(m, q);
    PopVisibleUnfold(m, q + r);
    if suppressed && q[0] != Done {
      PopVisibleAppend(m', q[1..], r);
    }
  }

  /** A pull commutes with later pushes: whatever is pushed behind the queue, the client is due
      the fragment written now followed by what the new state is due. With nothing due, the pull
      ends the session if the sentinel is queued, and otherwise waits. */
  lemma PullThenPush(c: Consumer, cap: nat, render: string -> string, stopPayload: string, r: seq<string>)
    requires !c.isFinished
    ensures var (c', o) := Pull(c, true, cap, render, stopPayload);
      var v := Visible(c.matcher, c.queue);
      (Done !in c.queue ==> Done !in c'.queue) &&
      (Done in c'.queue + r ==> Done in c.queue + r) &&
      (v != [] ==>
         !c'.isFinished && o == Wrote(Truncate(Event(render(v[0])), cap)) &&
         Visible(c.matcher, c.queue + r) == [v[0]] + Visible(c'.matcher, c'.queue + r)) &&
      (v == [] && Done in c.queue ==>
         c'.isFinished && o == Wrote(Truncate(FinalEvents(stopPayload), cap)) &&
         Visible(c.matcher, c.queue + r) == []) &&
      (v == [] && Done !in c.queue ==>
         !c'.isFinished && o.WouldWait? &&
         Visible(c.matcher, c.queue + r) == Visible(c'.matcher, c'.queue + r))
  {
    var (m, q) := (c.matcher, c.queue);
    var (m', rest, popped) := PopVisible(m, q);
    PopVisibleAgrees(m, q);
    SuffixKeepsSentinel(q, rest, r);
    if Done in q {
      PopVisibleReachesSentinel(m, q);
    }
    if popped.None? {
      PopVisibleSettles(m, q);
      VisibleAppend(m, q, r);
      assert rest + r == r;
    } else {
      assert popped.value in q;
      PopVisibleAppend(m, q, r);
      PopVisibleAgrees(m, q + r);
    }
  }

  /** What remains of the queue after a pop loop holds the sentinel only if the queue did. */
  lemma SuffixKeepsSentinel(q: seq<string>, rest: seq<string>, r: seq<string>)
    requires |rest| <= |q| && rest == q[|q| - |rest|..]
    ensures Done in rest + r ==> Done in q + r
    ensures Done !in q ==> Done !in rest
  {
    if Done in rest + r {
      var k :| 0 <= k < |rest + r| && (rest + r)[k] == Done;
      if k < |rest| {
        assert (q + r)[|q| - |rest| + k] == Done;
      } else {
        assert (q + r)[|q| + k - |rest|] == Done;
      }
    }
  }

  /** A schedule of the two sides of a session: the producer pushes a fragment, or the consumer
      is pulled once. */
  datatype Action = Push(fragment: string) | Take

  /** The fragments a schedule pushes, in order. */
  function Pushed(actions: seq<Action>): (r: seq<string>)
    ensures |r| <= |actions|
    decreases |actions|
  {
    if actions == [] then []
    else (if actions[0].Push? then [actions[0].fragment] else []) + Pushed(actions[1..])
  }

  /** The consumer after a schedule, and the outcome of each of its pulls. */
  function Run(c: Consumer, actions: seq<Action>, cap: nat, render: string -> string, stopPayload: string)
    : (r: (Consumer, seq<Outcome>))
    ensures |r.1| <= |actions|
    decreases |actions|
  {
    if actions == [] then (c, [])
    else if actions[0].Push? then
      Run(c.(queue := c.queue + [actions[0].fragment]), actions[1..], cap, render, stopPayload)
    else
      var (c1, o) := Pull(c, true, cap, render, stopPayload);
      var (cf, os) := Run(c1, actions[1..], cap, render, stopPayload);
      (cf, [o] + os)
  }

  /** The bytes of the pulls that wrote something. */
  function Written(os: seq<Outcome>): (r: seq<string>)
    ensures |r| <= |os|
    decreases |os|
  {
    if os == [] then [] else (if os[0].Wrote? then [os[0].bytes] else []) + Written(os[1..])
  }

  /** The events a client receives for fragments `fs`. */
  function Rendered(fs: seq<string>, cap: nat, render: string -> string): (r: seq<string>)
    ensures |r| == |fs|
    decreases |fs|
  {
    if fs == [] then [] else [Truncate(Event(render(fs[0])), cap)] + Rendered(fs[1..], cap, render)
  }

  lemma WrittenCons(o: Outcome, os: seq<Outcome>)
    ensures Written([o] + os) == (if o.Wrote? then [o.bytes] else []) + Written(os)
  {
    assert ([o] + os)[0] == o && ([o] + os)[1..] == os;
  }

  /** The client's share of a schedule while the session is live: the events `w` written so far
      render, in order, the first of the fragments `v` it is due, and the consumer still owes the
      rest. */
  ghost predicate DeliveredPrefix(v: seq<string>, cf: Consumer, w: seq<string>, cap: nat, render: string -> string) {
    |w| <= |v| && w == Rendered(v[..|w|], cap, render) && Visible(cf.matcher, cf.queue) == v[|w|..]
  }

  /** The client's share of a schedule once the session has finished: the events of all the
      fragments `v` it was due, then the final payload, then only empty writes. */
  ghost predicate DeliveredAll(v: seq<string>, w: seq<string>, cap: nat, render: string -> string, stopPayload: string) {
    |v| < |w| && w[..|v|] == Rendered(v, cap, render) && w[|v|] == Truncate(FinalEvents(stopPayload), cap) &&
    forall i :: |v| < i < |w| ==> w[i] == ""
  }

  /** A pull that writes the fragment due now extends the client's share by its event. */
  lemma DeliveredCons(v0: string, v1: seq<string>, cf: Consumer, w1: seq<string>, cap: nat, render: string -> string)
    requires DeliveredPrefix(v1, cf, w1, cap, render)
    ensures DeliveredPrefix([v0] + v1, cf, [Truncate(Event(render(v0)), cap)] + w1, cap, render)
  {
    var v, k := [v0] + v1, |w1|;
    assert v[..k + 1][0] == v0 && v[..k + 1][1..] == v1[..k];
    assert v[k + 1..] == v1[k..];
  }

  /** The same, for a schedule that goes on to finish the session. */
  lemma DeliveredAllCons(v0: string, v1: seq<string>, w1: seq<string>, cap: nat, render: string -> string,
                         stopPayload: string)
    requires DeliveredAll(v1, w1, cap, render, stopPayload)
    ensures DeliveredAll([v0] + v1, [Truncate(Event(render(v0)), cap)] + w1, cap, render, stopPayload)
  {
    var v, w, k := [v0] + v1, [Truncate(Event(render(v0)), cap)] + w1, |v1|;
    assert v[0] == v0 && v[1..] == v1;
    assert w[..k + 1] == [w[0]] + w1[..k];
    assert w[k + 1] == w1[k];
    forall i | k + 1 < i < |w| ensures w[i] == "" {
      assert w[i] == w1[i - 1];
    }
  }

  /** A pull that finds nothing due but the sentinel writes the final payload first. */
  lemma DeliveredAllNow(w1: seq<string>, cap: nat, render: string -> string, stopPayload: string)
    requires forall i :: 0 <= i < |w1| ==> w1[i] == ""
    ensures DeliveredAll([], [Truncate(FinalEvents(stopPayload), cap)] + w1, cap, render, stopPayload)
  {
    var w := [Truncate(FinalEvents(stopPayload), cap)] + w1;
    forall i | 0 < i < |w| ensures w[i] == "" {
      assert w[i] == w1[i - 1];
    }
  }

  /** A finished session stays finished, and every later pull writes nothing. */
  lemma {:induction false} RunFinished(c: Consumer, actions: seq<Action>, cap: nat, render: string -> string,
                                       stopPayload: string)
    requires c.isFinished
    ensures Run(c, actions, cap, render, stopPayload).0.isFinished
    ensures var w := Written(Run(c, actions, cap, render, stopPayload).1);
      forall i :: 0 <= i < |w| ==> w[i] == ""
    decreases |actions|
  {
    if actions != [] {
      var rest := actions[1..];
      if actions[0].Push? {
        RunFinished(c.(queue := c.queue + [actions[0].fragment]), rest, cap, render, stopPayload);
      } else {
        RunTake(c, actions, cap, render, stopPayload);
        RunFinished(c, rest, cap, render, stopPayload);
        var os := Run(c, rest, cap, render, stopPayload).1;
        WrittenCons(Wrote(""), os);
        var w := Written([Wrote("")] + os);
        forall i | 0 < i < |w| ensures w[i] == "" {
          assert w[i] == Written(os)[i - 1];
        }
      }
    }
  }

  /**
   * However pushes and pulls interleave (one buffer size throughout), the client receives the
   * fragments it is due for everything pushed, in order. While the session is live, it has
   * received the events of a prefix of them and the rest is still due. Once it has finished,
   * a sentinel was pushed and the client has received the events of all of them, then the
   * final payload, then only empty writes.
   */
  lemma {:induction false} Interleaving(c: Consumer, actions: seq<Action>, cap: nat, render: string -> string,
                                        stopPayload: string)
    requires !c.isFinished
    ensures var r := Run(c, actions, cap, render, stopPayload);
      var q := c.queue + Pushed(actions);
      (!r.0.isFinished ==> DeliveredPrefix(Visible(c.matcher, q), r.0, Written(r.1), cap, render)) &&
      (r.0.isFinished ==> Done in q && DeliveredAll(Visible(c.matcher, q), Written(r.1), cap, render, stopPayload))
    decreases |actions|, 1
  {
    if actions == [] {
      assert c.queue + [] == c.queue;
    } else if actions[0].Push? {
      InterleavingPush(c, actions, cap, render, stopPayload);
    } else {
      InterleavingTake(c, actions, cap, render, stopPayload);
    }
  }

  /** The schedule starts with a push: the fragment joins the queue and the rest of the schedule
      runs from there. */
  lemma {:induction false} InterleavingPush(c: Consumer, actions: seq<Action>, cap: nat, render: string -> string,
                                            stopPayload: string)
    requires actions != [] && actions[0].Push? && !c.isFinished
    ensures var r := Run(c, actions, cap, render, stopPayload);
      var q := c.queue + Pushed(actions);
      (!r.0.isFinished ==> DeliveredPrefix(Visible(c.matcher, q), r.0, Written(r.1), cap, render)) &&
      (r.0.isFinished ==> Done in q && DeliveredAll(Visible(c.matcher, q), Written(r.1), cap, render, stopPayload))
    decreases |actions|, 0
  {
    var s, rest := actions[0].fragment, actions[1..];
    var c1 := c.(queue := c.queue + [s]);
    RunPush(c, actions, cap, render, stopPayload);
    Interleaving(c1, rest, cap, render, stopPayload);
  }

  lemma RunPush(c: Consumer, actions: seq<Action>, cap: nat, render: string -> string, stopPayload: string)
    requires actions != [] && actions[0].Push?
    ensures var c1 := c.(queue := c.queue + [actions[0].fragment]);
      (Done !in c.queue && Done !in Pushed(actions) ==> Done !in c1.queue && Done !in Pushed(actions[1..])) &&
      c.queue + Pushed(actions) == c1.queue + Pushed(actions[1..]) &&
      Run(c, actions, cap, render, stopPayload) == Run(c1, actions[1..], cap, render, stopPayload)
  {
    var s, rest := actions[0].fragment, actions[1..];
    assert Pushed(actions) == [s] + Pushed(rest);
    assert c.queue + ([s] + Pushed(rest)) == (c.queue + [s]) + Pushed(rest);
  }

  lemma RunTake(c: Consumer, actions: seq<Action>, cap: nat, render: string -> string, stopPayload: string)
    requires actions != [] && actions[0].Take?
    ensures var (c1, o) := Pull(c, true, cap, render, stopPayload);
      var r := Run(c1, actions[1..], cap, render, stopPayload);
      Pushed(actions) == Pushed(actions[1..]) &&
      Run(c, actions, cap, render, stopPayload) == (r.0, [o] + r.1)
  {
  }

  /** The schedule starts with a pull: it writes the fragment due now, the final payload, or
      nothing, and the rest of the schedule owes the remainder. */
  lemma {:induction false} InterleavingTake(c: Consumer, actions: seq<Action>, cap: nat, render: string -> string,
                                            stopPayload: string)
    requires actions != [] && actions[0].Take? && !c.isFinished
    ensures var r := Run(c, actions, cap, render, stopPayload);
      var q := c.queue + Pushed(actions);
      (!r.0.isFinished ==> DeliveredPrefix(Visible(c.matcher, q), r.0, Written(r.1), cap, render)) &&
      (r.0.isFinished ==> Done in q && DeliveredAll(Visible(c.matcher, q), Written(r.1), cap, render, stopPayload))
    decreases |actions|, 0
  {
    var rest, pushed := actions[1..], Pushed(actions[1..]);
    var (c1, o) := Pull(c, true, cap, render, stopPayload);
    var (cf, os1) := Run(c1, rest, cap, render, stopPayload);
    RunTake(c, actions, cap, render, stopPayload);
    PullThenPush(c, cap, render, stopPayload, pushed);
    var v, w1 := Visible(c.matcher, c.queue + pushed), Written(os1);
    WrittenCons(o, os1);
    if c1.isFinished {
      RunFinished(c1, rest, cap, render, stopPayload);
      assert v == [] && o == Wrote(Truncate(FinalEvents(stopPayload), cap));
      DeliveredAllNow(w1, cap, render, stopPayload);
    } else {
      Interleaving(c1, rest, cap, render, stopPayload);
      var v1 := Visible(c1.matcher, c1.queue + pushed);
      if o.Wrote? {
        var v0 := Visible(c.matcher, c.queue)[0];
        assert v == [v0] + v1 && o.bytes == Truncate(Event(render(v0)), cap);
        if cf.isFinished {
          DeliveredAllCons(v0, v1, w1, cap, render, stopPayload);
        } else {
          DeliveredCons(v0, v1, cf, w1, cap, render);
        }
      } else {
        assert v == v1 && Written([o] + os1) == w1;
      }
    }
  }

  /** Fragments are never reordered: the client sees a subsequence of the queue. */
  lemma {:induction false} VisibleIsSubsequence(m: Matcher, q: seq<string>)
    ensures IsSubsequence(Visible(m, q), q)
    decreases |q|
  {
    if q != [] {
      var (m', suppressed) := Step(m, q[0]);
      if suppressed && q[0] != Done {
        VisibleIsSubsequence(m', q[1..]);
        SubsequenceOfTail(Visible(m, q), q);
      } else if q[0] != Done {
        VisibleIsSubsequence(m'.(prevText := q[0]), q[1..]);
        assert Visible(m, q)[1..] == Visible(m'.(prevText := q[0]), q[1..]);
      }
    }
  }

  /** Whatever the producer pushes later does not change what the client sees of earlier
      fragments. */
  lemma {:induction false} VisibleAppend(m: Matcher, q: seq<string>, r: seq<string>)
    requires Done !in q
    ensures Visible(m, q + r) == Visible(m, q) + Visible(Settled(m, q), r)
    decreases |q|
  {
    if q == [] {
      assert q + r == r;
    } else {
      assert (q + r)[0] == q[0];
      assert (q + r)[1..] == q[1..] + r;
      var (m', suppressed) := Step(m, q[0]);
      VisibleAppend(if suppressed then m' else m'.(prevText := q[0]), q[1..], r);
    }
  }

  /** With no match open and no '<' in sight, every fragment up to the sentinel reaches the client. */
  lemma {:induction false} VisiblePlain(m: Matcher, q: seq<string>)
    requires m.progress == 0
    requires forall i :: 0 <= i < |q| ==> '<' !in q[i]
    ensures Visible(m, q) == BeforeDone(q)
    ensures Done !in q ==> Settled(m, q).progress == 0
    decreases |q|
  {
    if q != [] {
      VisiblePlain(m.(prevText := q[0]), q[1..]);
    }
  }

  /** Once the marker has been matched, every later fragment up to the sentinel reaches the client. */
  lemma {:induction false} VisibleAfterComplete(m: Matcher, q: seq<string>)
    requires IsComplete(m)
    ensures Visible(m, q) == BeforeDone(q)
    decreases |q|
  {
    if q != [] {
      VisibleAfterComplete(m.(prevText := q[0]), q[1..]);
    }
  }

  /** Fragments the matcher suppresses one after another never reach the client. */
  lemma {:induction false} VisibleAllSuppressed(m: Matcher, q: seq<string>)
    requires Done !in q
    requires forall i :: 0 <= i < |q| ==> Decisions(m, q)[i]
    ensures Visible(m, q) == []
    ensures Settled(m, q) == Feed(m, q)
    decreases |q|
  {
    if q != [] {
      assert Decisions(m, q)[0] == Step(m, q[0]).1;
      assert forall i :: 0 <= i < |q| - 1 ==> Decisions(Step(m, q[0]).0, q[1..])[i] == Decisions(m, q)[i + 1];
      VisibleAllSuppressed(Step(m, q[0]).0, q[1..]);
    }
  }

  /** From any incomplete state, the consumer hides the marker's seven pieces and then lets
      everything through up to the sentinel. */
  lemma MarkerThenRest(m: Matcher, after: seq<string>)
    requires !IsComplete(m)
    ensures Visible(m, StopSequence + after) == BeforeDone(after)
  {
    assert Done !in StopSequence;
    FeedStopSequence(m);
    VisibleAllSuppressed(m, StopSequence);
    VisibleAppend(m, StopSequence, after);
    VisibleAfterComplete(Settled(m, StopSequence), after);
  }

  /** The stop marker, arriving as its seven pieces, is hidden from the client; text before it is
      streamed, and so is text after it, because a complete matcher lets everything through. */
  lemma MarkerIsHidden(before: seq<string>, after: seq<string>)
    requires Done !in before
    requires forall i :: 0 <= i < |before| ==> '<' !in before[i]
    ensures Visible(Fresh, before + StopSequence + after) == before + BeforeDone(after)
  {
    assert (before + StopSequence) + after == before + (StopSequence + after);
    VisibleAppend(Fresh, before, StopSequence + after);
    VisiblePlain(Fresh, before);
    BeforeDoneNoSentinel(before);
    MarkerThenRest(Settled(Fresh, before), after);
  }

  /** A fragment that opens a match which then breaks is lost, while the fragment that breaks the
      match is streamed. */
  lemma FalseStartLosesFragment()
    ensures Visible(Fresh, ["a<b", "c", Done]) == ["c"]
  {
    var q := ["a<b", "c", Done];
    assert '<' in q[0] by { assert q[0][1] == '<'; }
    assert Step(Fresh, q[0]) == (Matcher(1, q[0]), true);
    assert Step(Matcher(1, q[0]), "c") == (Fresh, false);
    assert q[1..] == ["c", Done] && q[1..][1..] == [Done];
    assert Visible(Fresh.(prevText := "c"), [Done]) == [];
    assert Visible(Matcher(1, q[0]), q[1..]) == ["c"];
  }

  /** The sentinel is in-band: generated text equal to "[DONE]" ends the stream early. */
  lemma GeneratedSentinelEndsStream(rest: seq<string>)
    ensures Visible(Fresh, ["[DONE]"] + rest) == []
  {
  }

  /** While decoded texts only grow and the latest carries no '<', no pushed delta carries one. */
  lemma ProduceHasNoOpen(texts: seq<string>)
    requires texts != [] && Growing(texts)
    requires '<' !in texts[|texts| - 1]
    ensures forall i :: 0 <= i < |Produce(0, texts)| ==> '<' !in Produce(0, texts)[i]
  {
    var p := Produce(0, texts);
    ProduceWithin(0, texts);
    forall i | 0 <= i < |p| ensures '<' !in p[i] {
      assert p[i] in p;
    }
  }

  /** End to end: while decoded texts only grow, carry no '<' and no delta happens to be the
      sentinel, the client receives exactly the final text. */
  lemma StreamReassemblesText(texts: seq<string>)
    requires texts != [] && Growing(texts)
    requires '<' !in texts[|texts| - 1]
    requires Done !in Produce(0, texts)
    ensures Concat(Visible(Fresh, Produce(0, texts) + [Done])) == texts[|texts| - 1]
  {
    var p := Produce(0, texts);
    ProduceHasNoOpen(texts);
    VisiblePlain(Fresh, p);
    BeforeDoneNoSentinel(p);
    assert Visible(Fresh, p) == p;
    VisibleAppend(Fresh, p, [Done]);
    assert Visible(Settled(Fresh, p), [Done]) == [];
    assert Visible(Fresh, p + [Done]) == p;
    ProduceReassembles("", texts);
    assert "" + Concat(p) == Concat(p);
  }

  /** With no match open, a pull takes a fragment without '<' off the front of the queue and writes
      it. */
  lemma PullPlainFragment(m: Matcher, raw: string, rest: seq<string>, cap: nat, render: string -> string,
                          stopPayload: string)
    requires m.progress == 0 && '<' !in raw && raw != Done
    ensures Pull(Consumer(m, false, [raw] + rest), true, cap, render, stopPayload) ==
      (Consumer(m.(prevText := raw), false, rest), Wrote(Truncate(Event(render(raw)), cap)))
  {
    var q := [raw] + rest;
    assert q[0] == raw && q[1..] == rest;
    PopVisibleUnfold(m, q);
  }

  /** A pull that reaches the sentinel writes the final payload and ends the session. */
  lemma PullSentinel(m: Matcher, rest: seq<string>, cap: nat, render: string -> string, stopPayload: string)
    ensures Pull(Consumer(m, false, [Done] + rest), true, cap, render, stopPayload) ==
      (Consumer(Step(m, Done).0, true, rest), Wrote(Truncate(FinalEvents(stopPayload), cap)))
  {
    var q := [Done] + rest;
    assert q[0] == Done && q[1..] == rest;
    PopVisibleUnfold(m, q);
  }

  /** A producer that pushes "a", "b" and the sentinel, and a consumer pulled four times: the
      "a" event, the "b" event, the final payload, then nothing. */
  lemma ThreeFragmentsScenario(cap: nat, render: string -> string, stopPayload: string)
    ensures var c0 := Consumer(Fresh, false, ["a", "b", Done]);
      var (c1, o1) := Pull(c0, true, cap, render, stopPayload);
      var (c2, o2) := Pull(c1, true, cap, render, stopPayload);
      var (c3, o3) := Pull(c2, true, cap, render, stopPayload);
      var (c4, o4) := Pull(c3, true, cap, render, stopPayload);
      o1 == Wrote(Truncate(Event(render("a")), cap)) &&
      o2 == Wrote(Truncate(Event(render("b")), cap)) &&
      o3 == Wrote(Truncate(FinalEvents(stopPayload), cap)) &&
      o4 == Wrote("") && c4.isFinished
  {
    assert ["a", "b", Done] == ["a"] + ["b", Done] && ["b", Done] == ["b"] + [Done] && [Done] == [Done] + [];
    assert '<' !in "a" && '<' !in "b";
    PullPlainFragment(Fresh, "a", ["b", Done], cap, render, stopPayload);
    PullPlainFragment(Fresh.(prevText := "a"), "b", [Done], cap, render, stopPayload);
    PullSentinel(Fresh.(prevText := "b"), [], cap, render, stopPayload);
  }
}

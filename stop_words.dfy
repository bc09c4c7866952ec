/**
 * The stop-sequence state machine of tensorrtllm.cc: `inferenceState::sequence`,
 * `stopWordMatchLen`, `reset`, `isComplete` and `handleMatch`, as a value-level transition
 * function. The class in inference_state.dfy runs the same transitions on its fields.
 */
module StopWords {

  /** The ChatML end-of-turn marker "<|im_end|>" as the tokenizer splits it. */
  const StopSequence: seq<string> := ["<", "|", "im", "_", "end", "|", ">"]

  /** The matcher's part of the session state: how much of the marker has been seen, and the last
      fragment recorded. */
  datatype Matcher = Matcher(progress: nat, prevText: string)

  /** The state of a new session, and the state `reset()` returns to. */
  const Fresh: Matcher := Matcher(0, "")

  /** `isComplete`: the whole marker has been seen. The source tests `>=`; on the states the
      matcher can reach, whose progress never passes the marker's length, that is equality. */
  predicate IsComplete(m: Matcher)
    ensures m.progress <= |StopSequence| ==> (IsComplete(m) <==> m.progress == |StopSequence|)
  {
    m.progress >= |StopSequence|
  }

  /** `handleMatch`: the matcher after seeing `raw`, and whether `raw` is suppressed. */
  function Step(m: Matcher, raw: string): (r: (Matcher, bool))
    // once the whole marker has been seen, every fragment is let through and nothing changes
    ensures IsComplete(m) ==> r == (m, false)
    // at the start, any fragment containing '<' opens a match
    ensures m.progress == 0 ==> (r.1 <==> '<' in raw)
    ensures m.progress == 0 && '<' in raw ==> r.0 == Matcher(1, raw)
    ensures m.progress == 0 && '<' !in raw ==> r.0 == m
    // in the middle of a match, the expected piece advances it by exactly one
    ensures 0 < m.progress < |StopSequence| && raw == StopSequence[m.progress] ==>
      r == (Matcher(m.progress + 1, raw), true)
    // any other piece either restarts the match on "<" or abandons it and is let through
    ensures 0 < m.progress < |StopSequence| && raw != StopSequence[m.progress] && raw == "<" ==>
      r == (Matcher(1, raw), true)
    ensures 0 < m.progress < |StopSequence| && raw != StopSequence[m.progress] && raw != "<" ==>
      r == (Fresh, false)
    // a suppressed fragment always leaves a match open and is recorded
    ensures r.1 ==> 0 < r.0.progress && r.0.prevText == raw
    ensures m.progress <= |StopSequence| ==> r.0.progress <= |StopSequence|
  {
    if IsComplete(m) then (m, false)
    else if m.progress == 0 then
      if '<' in raw then (Matcher(m.progress + 1, raw), true) else (m, false)
    else if raw == StopSequence[m.progress] then (Matcher(m.progress + 1, raw), true)
    else if m.progress > 0 && raw == StopSequence[0] then (Matcher(1, raw), true)
    else (Fresh, false)
  }

  /** The matcher after `handleMatch` has seen each fragment of `xs` in turn. */
  function Feed(m: Matcher, xs: seq<string>): (r: Matcher)
    ensures m.progress <= |StopSequence| ==> r.progress <= |StopSequence|
    decreases |xs|
  {
    if xs == [] then m else Feed(Step(m, xs[0]).0, xs[1..])
  }

  /** The answers `handleMatch` gives to each fragment of `xs` in turn (true: suppress). */
  function Decisions(m: Matcher, xs: seq<string>): (r: seq<bool>)
    ensures |r| == |xs|
    decreases |xs|
  {
    if xs == [] then [] else [Step(m, xs[0]).1] + Decisions(Step(m, xs[0]).0, xs[1..])
  }

  lemma {:induction false} FeedAppend(m: Matcher, a: seq<string>, b: seq<string>)
    ensures Feed(m, a + b) == Feed(Feed(m, a), b)
    decreases |a|
  {
    if a == [] {
      assert a + b == b;
    } else {
      assert (a + b)[0] == a[0];
      assert (a + b)[1..] == a[1..] + b;
      FeedAppend(Step(m, a[0]).0, a[1..], b);
    }
  }

  /** A complete matcher is inert: it never changes and suppresses nothing. */
  lemma {:induction false} FeedComplete(m: Matcher, xs: seq<string>)
    requires IsComplete(m)
    ensures Feed(m, xs) == m
    ensures forall i :: 0 <= i < |xs| ==> !Decisions(m, xs)[i]
    decreases |xs|
  {
    if xs != [] {
      FeedComplete(m, xs[1..]);
    }
  }

  /** Once a match is open at piece `p`, the marker's remaining pieces are all suppressed and
      complete it. */
  lemma {:induction false} FeedRestOfMarker(p: nat, x: string)
    requires 1 <= p <= |StopSequence|
    ensures IsComplete(Feed(Matcher(p, x), StopSequence[p..]))
    ensures forall i :: 0 <= i < |StopSequence| - p ==> Decisions(Matcher(p, x), StopSequence[p..])[i]
    decreases |StopSequence| - p
  {
    if p < |StopSequence| {
      var rest := StopSequence[p..];
      assert rest[0] == StopSequence[p] && rest[1..] == StopSequence[p + 1..];
      var m' := Matcher(p + 1, StopSequence[p]);
      assert Step(Matcher(p, x), rest[0]) == (m', true);
      FeedRestOfMarker(p + 1, StopSequence[p]);
      assert Decisions(Matcher(p, x), rest) == [true] + Decisions(m', rest[1..]);
    }
  }

  /** A fragment that opens a match, followed by the marker's pieces 1 .. 6, is suppressed
      throughout and completes the match. */
  lemma OpenThenRest(m: Matcher, x: string)
    requires Step(m, x) == (Matcher(1, x), true)
    ensures IsComplete(Feed(m, [x] + StopSequence[1..]))
    ensures forall i :: 0 <= i < |StopSequence| ==> Decisions(m, [x] + StopSequence[1..])[i]
  {
    var xs := [x] + StopSequence[1..];
    assert xs[0] == x && xs[1..] == StopSequence[1..];
    FeedRestOfMarker(1, x);
    assert Feed(m, xs) == Feed(Matcher(1, x), StopSequence[1..]);
    assert Decisions(m, xs) == [true] + Decisions(Matcher(1, x), StopSequence[1..]);
  }

  /** From any incomplete state, the marker's seven pieces are all suppressed and complete it. */
  lemma FeedStopSequence(m: Matcher)
    requires !IsComplete(m)
    ensures IsComplete(Feed(m, StopSequence))
    ensures forall i :: 0 <= i < |StopSequence| ==> Decisions(m, StopSequence)[i]
  {
    assert Step(m, "<") == (Matcher(1, "<"), true) by {
      assert '<' in "<" by { assert "<"[0] == '<'; }
    }
    assert StopSequence == ["<"] + StopSequence[1..];
    OpenThenRest(m, "<");
  }

  /** At the start of a match, a longer fragment that merely contains '<', followed by the
      marker's other six pieces, completes it as well. */
  lemma CompletesFromOpeningFragment(m: Matcher, x: string)
    requires m.progress == 0 && '<' in x
    ensures IsComplete(Feed(m, [x] + StopSequence[1..]))
    ensures forall i :: 0 <= i < |StopSequence| ==> Decisions(m, [x] + StopSequence[1..])[i]
  {
    OpenThenRest(m, x);
  }

  /** Whatever came before, a stream that contains the marker as consecutive fragments leaves
      the matcher complete. */
  lemma CompletesOnStopSequence(m: Matcher, before: seq<string>, after: seq<string>)
    ensures IsComplete(Feed(m, before + StopSequence + after))
  {
    FeedAppend(m, before + StopSequence, after);
    FeedAppend(m, before, StopSequence);
    var m0 := Feed(m, before);
    if IsComplete(m0) {
      FeedComplete(m0, StopSequence);
    } else {
      FeedStopSequence(m0);
    }
    FeedComplete(Feed(m0, StopSequence), after);
  }

  /** After `xs` from a fresh session, a progress `p` below completion means the last `p`
      fragments are one containing '<' followed by the marker's pieces 1 .. p-1. */
  ghost predicate Tracks(xs: seq<string>, p: nat) {
    p < |StopSequence| && p <= |xs| &&
    (p > 0 ==> '<' in xs[|xs| - p] && xs[|xs| - p + 1..] == StopSequence[1..p])
  }

  /** Some fragment containing '<' is followed at once by the marker's other six pieces. */
  ghost predicate SeenMarker(xs: seq<string>) {
    exists i :: 0 <= i && i + |StopSequence| <= |xs| && '<' in xs[i] &&
      xs[i + 1..i + |StopSequence|] == StopSequence[1..]
  }

  lemma SeenMarkerExtends(ys: seq<string>, x: string)
    requires SeenMarker(ys)
    ensures SeenMarker(ys + [x])
  {
    var i :| 0 <= i && i + |StopSequence| <= |ys| && '<' in ys[i] &&
      ys[i + 1..i + |StopSequence|] == StopSequence[1..];
    var xs := ys + [x];
    assert xs[i] == ys[i];
    assert xs[i + 1..i + |StopSequence|] == ys[i + 1..i + |StopSequence|];
  }

  lemma TracksOpen(ys: seq<string>, x: string)
    requires '<' in x
    ensures Tracks(ys + [x], 1)
  {
    var xs := ys + [x];
    assert xs[|xs| - 1] == x;
    assert xs[|xs| - 1 + 1..] == [] == StopSequence[1..1];
  }

  lemma TracksAdvance(ys: seq<string>, x: string, p: nat)
    requires 0 < p < |StopSequence| && Tracks(ys, p) && x == StopSequence[p]
    ensures p + 1 < |StopSequence| ==> Tracks(ys + [x], p + 1)
    ensures p + 1 == |StopSequence| ==> SeenMarker(ys + [x])
  {
    var xs := ys + [x];
    assert xs[|xs| - (p + 1)] == ys[|ys| - p];
    assert xs[|xs| - p..] == ys[|ys| - p + 1..] + [x];
    assert StopSequence[1..p + 1] == StopSequence[1..p] + [StopSequence[p]];
    if p + 1 == |StopSequence| {
      var i := |xs| - |StopSequence|;
      assert xs[i + 1..i + |StopSequence|] == xs[|xs| - p..];
      assert '<' in xs[i] && xs[i + 1..i + |StopSequence|] == StopSequence[1..];
    }
  }

  lemma {:induction false} FeedTracks(xs: seq<string>)
    ensures var m := Feed(Fresh, xs);
      if IsComplete(m) then SeenMarker(xs) else Tracks(xs, m.progress)
    decreases |xs|
  {
    if xs != [] {
      var ys, x := xs[..|xs| - 1], xs[|xs| - 1];
      assert xs == ys + [x];
      FeedAppend(Fresh, ys, [x]);
      FeedTracks(ys);
      var m := Feed(Fresh, ys);
      assert Feed(m, [x]) == Step(m, x).0;
      var p := m.progress;
      if IsComplete(m) {
        SeenMarkerExtends(ys, x);
      } else if p == 0 {
        if '<' in x {
          TracksOpen(ys, x);
        }
      } else if x == StopSequence[p] {
        TracksAdvance(ys, x, p);
      } else if x == "<" {
        TracksOpen(ys, x);
      }
    }
  }

  /** Conversely, a fresh matcher completes only once the marker has gone by, its first piece
      possibly embedded in a longer fragment. */
  lemma CompleteOnlyAfterMarker(xs: seq<string>)
    requires IsComplete(Feed(Fresh, xs))
    ensures SeenMarker(xs)
  {
    FeedTracks(xs);
  }

  /** The converse fails: a second '<' inside a longer fragment abandons the open match instead
      of restarting it, so the marker can go by while the matcher stays at the start. */
  lemma SeenMarkerWithoutCompletion()
    ensures var xs := ["<", "a<"] + StopSequence[1..];
      SeenMarker(xs) && !IsComplete(Feed(Fresh, xs))
  {
    var xs := ["<", "a<"] + StopSequence[1..];
    assert '<' in xs[1] by { assert xs[1][1] == '<'; }
    assert xs[2..2 + |StopSequence| - 1] == StopSequence[1..];
    assert Step(Fresh, "<") == (Matcher(1, "<"), true) by {
      assert '<' in "<" by { assert "<"[0] == '<'; }
    }
    assert Step(Matcher(1, "<"), "a<") == (Fresh, false);
    assert Feed(Fresh, xs) == Feed(Fresh, StopSequence[1..]) by {
      assert xs[1..][1..] == StopSequence[1..];
    }
    NoOpenStaysFresh(StopSequence[1..]);
  }

  /** Fragments none of which contains '<' leave a fresh matcher where it is. */
  lemma {:induction false} NoOpenStaysFresh(xs: seq<string>)
    requires forall i :: 0 <= i < |xs| ==> '<' !in xs[i]
    ensures Feed(Fresh, xs) == Fresh
    decreases |xs|
  {
    if xs != [] {
      NoOpenStaysFresh(xs[1..]);
    }
  }
}

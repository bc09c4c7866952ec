/**
 * `inferenceState` of tensorrtllm.cc: the state one streaming session shares between the
 * generation thread (producer) and the HTTP chunk provider (consumer), with the operations that
 * change it in place. Each method is proved to follow the value-level functions of the
 * StopWords and Streaming modules, about which the properties are proved.
 */
module Inference {
  import opened StopWords
  import opened Streaming
  import opened RemoveIds

  /** The `memcpy` of the first `n` characters of `s` into `buf`. */
  method CopyOut(buf: array<char>, s: string, n: nat)
    requires n <= |s| && n <= buf.Length
    modifies buf
    ensures buf[..n] == s[..n] && buf[n..] == old(buf[n..])
  {
    forall i | 0 <= i < n {
      buf[i] := s[i];
    }
  }

  class InferenceState {
    /** Characters of the decoded text already pushed. */
    var prevPos: int
    /** Last fragment recorded by the matcher or emitted by the consumer. */
    var prevText: string
    var isFinished: bool
    /** Fragments pushed by the producer and not yet taken by the consumer, oldest first. */
    var textsToStream: seq<string>
    /** How many pieces of the stop sequence have been matched. */
    var stopWordMatchLen: nat

    ghost predicate Valid()
      reads this
    {
      stopWordMatchLen <= |StopSequence|
    }

    /** The matcher part of the state. */
    function MatchState(): Matcher
      reads this
    {
      Matcher(stopWordMatchLen, prevText)
    }

    /** The consumer's view of the state. */
    function ConsumerState(): Consumer
      reads this
    {
      Consumer(MatchState(), isFinished, textsToStream)
    }

    constructor ()
      ensures Valid()
      ensures prevPos == 0 && MatchState() == Fresh && !isFinished && textsToStream == []
    {
      prevPos := 0;
      prevText := "";
      isFinished := false;
      textsToStream := [];
      stopWordMatchLen := 0;
    }

    /** `reset`: forgets any partial match. */
    method Reset()
      modifies this`stopWordMatchLen, this`prevText
      ensures Valid()
      ensures MatchState() == Fresh
    {
      stopWordMatchLen := 0;
      prevText := "";
    }

    /** `isComplete`: the whole stop sequence has been matched. */
    predicate IsComplete()
      reads this
      ensures IsComplete() <==> StopWords.IsComplete(MatchState())
    {
      stopWordMatchLen >= |StopSequence|
    }

    /** `handleMatch`: advances the matcher over `rawText`; true means "suppress this fragment". */
    method HandleMatch(rawText: string) returns (suppress: bool)
      requires Valid()
      modifies this`stopWordMatchLen, this`prevText
      ensures Valid()
      ensures (MatchState(), suppress) == Step(old(MatchState()), rawText)
    {
      if IsComplete() {
        return false;
      }
      if stopWordMatchLen == 0 {
        if '<' in rawText {
          stopWordMatchLen := stopWordMatchLen + 1;
          prevText := rawText;
          return true;
        }
      } else if rawText == StopSequence[stopWordMatchLen] {
        stopWordMatchLen := stopWordMatchLen + 1;
        prevText := rawText;
        return true;
      } else if stopWordMatchLen > 0 && rawText == StopSequence[0] {
        stopWordMatchLen := 1;
        prevText := rawText;
        return true;
      } else {
        Reset();
        return false;
      }
      return false;
    }

    /**
     * The body of the `onTokenGenerated` callback: drops the prompt's `inputLen` ids from the
     * engine's output, strips the padding id 0, decodes the rest with the tokenizer's `decode`,
     * pushes what is new since the cursor and moves the cursor to the end of the text; on the
     * final step it then pushes the sentinel.
     */
    method OnTokenGenerated(outputIds: seq<int>, inputLen: nat, finished: bool, decode: seq<int> -> string)
      requires Valid() && inputLen <= |outputIds|
      modifies this`prevPos, this`textsToStream
      ensures Valid()
      ensures var text := decode(Without(outputIds[inputLen..], 0));
        prevPos == |text| &&
        textsToStream == old(textsToStream) + Delta(old(prevPos), text) + (if finished then [Done] else [])
    {
      var generated := outputIds[inputLen..];
      var ids := new int[|generated|](i requires 0 <= i < |generated| => generated[i]);
      assert ids[..] == generated;
      var len := RemoveId(ids, 0);
      var text := decode(ids[..len]);
      if 0 <= prevPos < |text| {
        var stringTok := text[prevPos..];
        textsToStream := textsToStream + [stringTok];
      } else if prevPos >= |text| {
        prevPos := |text|;
      }
      prevPos := |text|;
      if finished {
        textsToStream := textsToStream + [Done];
        return;
      }
    }

    /**
     * `chunked_content_provider`: one pull by the HTTP layer with buffer `buf` (null once the
     * connection is closed) of `nBuffSize` bytes. Returns the number of bytes written, or
     * `waiting` when the call would keep spinning on an empty queue; calling again resumes it.
     * `render` is the JSON chunk for a content fragment, `stopPayload` the one with finish
     * reason "stop".
     */
    method ChunkedContentProvider(buf: array?<char>, nBuffSize: nat, render: string -> string, stopPayload: string)
      returns (waiting: bool, count: nat)
      requires Valid()
      requires buf != null ==> nBuffSize <= buf.Length
      modifies this`isFinished, this`textsToStream, this`stopWordMatchLen, this`prevText, buf
      ensures Valid()
      ensures var (after, outcome) := Pull(old(ConsumerState()), buf != null, nBuffSize, render, stopPayload);
        ConsumerState() == after &&
        waiting == outcome.WouldWait? &&
        (outcome.Wrote? ==> count == |outcome.bytes|) &&
        (buf != null && outcome.Wrote? ==>
           buf[..count] == outcome.bytes && buf[count..] == old(buf[count..])) &&
        (buf != null && outcome.WouldWait? ==> buf[..] == old(buf[..]))
    {
      if buf == null {
        isFinished := true;
        return false, 0;
      }
      if isFinished {
        return false, 0;
      }
      ghost var c0 := ConsumerState();
      ghost var m0, q0 := MatchState(), textsToStream;
      while textsToStream != []
        invariant Valid() && !isFinished
        invariant PopVisible(MatchState(), textsToStream) == PopVisible(m0, q0)
        invariant buf[..] == old(buf[..])
        decreases |textsToStream|
      {
        ghost var m, q := MatchState(), textsToStream;
        var rawText := textsToStream[0];
        textsToStream := textsToStream[1..];
        var suppress := HandleMatch(rawText);
        ghost var step := Step(m, rawText);
        assert MatchState() == step.0 && suppress == step.1 && textsToStream == q[1..];
        PopVisibleUnfold(m, q);
        if suppress && rawText != Done {
          assert PopVisible(m, q) == PopVisible(MatchState(), textsToStream);
          continue;
        }
        assert PopVisible(m0, q0) == (MatchState(), textsToStream, Some(rawText));
        if rawText == Done {
          var str := FinalEvents(stopPayload);
          var nRead := Min(|str|, nBuffSize);
          CopyOut(buf, str, nRead);
          isFinished := true;
          assert Pull(c0, true, nBuffSize, render, stopPayload) == (ConsumerState(), Wrote(str[..nRead]));
          return false, nRead;
        }
        var textToStream := Event(render(rawText));
        var bytesToWrite := Min(nBuffSize, |textToStream|);
        CopyOut(buf, textToStream, bytesToWrite);
        prevText := rawText;
        assert Pull(c0, true, nBuffSize, render, stopPayload) == (ConsumerState(), Wrote(textToStream[..bytesToWrite]));
        return false, bytesToWrite;
      }
      assert Pull(c0, true, nBuffSize, render, stopPayload) == (ConsumerState(), WouldWait);
      return true, 0;
    }
  }
}

/**
 * The request side of `tensorrtllm::chat_completion` (tensorrtllm.cc): the prompt built from
 * the chat messages, the integers derived for generation, and the new session state.
 */
module ChatCompletion {
  import opened Inference
  import opened StopWords

  datatype Message = Message(role: string, content: string)

  /** The prompt markers the controller is configured with (`pre_prompt`, `user_prompt`,
      `ai_prompt`, `system_prompt`). */
  datatype Prompts = Prompts(pre: string, user: string, ai: string, system: string)

  /** The integer sampling settings: `randomSeed`, `topK` and `minLength`. */
  datatype SamplingInts = SamplingInts(randomSeed: nat, topK: nat, minLength: int)

  /** The marker put before a non-system message: the role's configured marker, or for an
      unknown role the role name itself. */
  function Marker(p: Prompts, role: string): string {
    if role == "user" then p.user else if role == "assistant" then p.ai else role
  }

  /** The non-system messages, each as marker then content, in message order. */
  function Turns(p: Prompts, messages: seq<Message>): string
    decreases |messages|
  {
    if messages == [] then ""
    else
      var last := messages[|messages| - 1];
      Turns(p, messages[..|messages| - 1]) +
        (if last.role == "system" then "" else Marker(p, last.role) + last.content)
  }

  /** The system messages, each as system marker then content, the latest first. */
  function SystemBlock(p: Prompts, messages: seq<Message>): string
    decreases |messages|
  {
    if messages == [] then ""
    else
      var last := messages[|messages| - 1];
      (if last.role == "system" then p.system + last.content else "") +
        SystemBlock(p, messages[..|messages| - 1])
  }

  /** The prompt-building loop of `chat_completion`: starting from `pre_prompt`, appends each
      message, except that a system message goes in front of everything so far; then appends the
      assistant marker. */
  method FormatInput(p: Prompts, messages: seq<Message>) returns (formatted: string)
    ensures formatted == SystemBlock(p, messages) + p.pre + Turns(p, messages) + p.ai
  {
    formatted := p.pre;
    ghost var sys, turns := "", "";
    assert messages[..0] == [];
    for i := 0 to |messages|
      invariant sys == SystemBlock(p, messages[..i]) && turns == Turns(p, messages[..i])
      invariant formatted == sys + p.pre + turns
    {
      var message := messages[i];
      Advance(p, messages, i, sys, turns);
      var inputRole := message.role;
      var role: string;
      if inputRole == "user" {
        role := p.user;
        var content := message.content;
        formatted := formatted + role + content;
      } else if inputRole == "assistant" {
        role := p.ai;
        var content := message.content;
        formatted := formatted + role + content;
      } else if inputRole == "system" {
        role := p.system;
        var content := message.content;
        formatted := role + content + formatted;
      } else {
        role := inputRole;
        var content := message.content;
        formatted := formatted + role + content;
      }
      sys, turns := SystemBlock(p, messages[..i + 1]), Turns(p, messages[..i + 1]);
    }
    assert messages[..|messages|] == messages;
    formatted := formatted + p.ai;
  }

  /** One turn of the prompt-building loop: a system message goes in front of the text built so
      far, any other message after it, and either way the text stays system block, pre-prompt,
      turns. */
  lemma Advance(p: Prompts, messages: seq<Message>, i: nat, sys: string, turns: string)
    requires i < |messages| && sys == SystemBlock(p, messages[..i]) && turns == Turns(p, messages[..i])
    ensures var m := messages[i];
      var sys', turns' := SystemBlock(p, messages[..i + 1]), Turns(p, messages[..i + 1]);
      (m.role == "system" ==> p.system + m.content + (sys + p.pre + turns) == sys' + p.pre + turns') &&
      (m.role != "system" ==> sys + p.pre + turns + Marker(p, m.role) + m.content == sys' + p.pre + turns')
  {
    var m := messages[i];
    OneMore(p, messages, i);
    if m.role == "system" {
      assert p.system + m.content + (sys + p.pre + turns) == (p.system + m.content + sys) + p.pre + turns;
    } else {
      var x, y := Marker(p, m.role), m.content;
      assert sys + p.pre + turns + x + y == sys + p.pre + (turns + (x + y));
    }
  }

  /** Taking one more message into account. */
  lemma OneMore(p: Prompts, messages: seq<Message>, i: nat)
    requires i < |messages|
    ensures var m := messages[i];
      SystemBlock(p, messages[..i + 1]) ==
        (if m.role == "system" then p.system + m.content else "") + SystemBlock(p, messages[..i]) &&
      Turns(p, messages[..i + 1]) ==
        Turns(p, messages[..i]) + (if m.role == "system" then "" else Marker(p, m.role) + m.content)
  {
    assert messages[..i + 1][..i] == messages[..i];
  }

  lemma {:induction false} TurnsAppend(p: Prompts, a: seq<Message>, b: seq<Message>)
    ensures Turns(p, a + b) == Turns(p, a) + Turns(p, b)
    decreases |b|
  {
    if b == [] {
      assert a + b == a;
    } else {
      var b' := b[..|b| - 1];
      assert (a + b)[..|a + b| - 1] == a + b';
      assert (a + b)[|a + b| - 1] == b[|b| - 1];
      TurnsAppend(p, a, b');
    }
  }

  lemma {:induction false} SystemBlockAppend(p: Prompts, a: seq<Message>, b: seq<Message>)
    ensures SystemBlock(p, a + b) == SystemBlock(p, b) + SystemBlock(p, a)
    decreases |b|
  {
    if b == [] {
      assert a + b == a;
    } else {
      var b' := b[..|b| - 1];
      assert (a + b)[..|a + b| - 1] == a + b';
      assert (a + b)[|a + b| - 1] == b[|b| - 1];
      SystemBlockAppend(p, a, b');
    }
  }

  /** A later system message is placed before an earlier one, and both before all other text;
      other messages keep their order. */
  lemma SystemGoesFirst(p: Prompts, before: seq<Message>, content: string, after: seq<Message>)
    ensures var messages := before + [Message("system", content)] + after;
      SystemBlock(p, messages) == SystemBlock(p, after) + p.system + content + SystemBlock(p, before) &&
      Turns(p, messages) == Turns(p, before) + Turns(p, after)
  {
    var s := [Message("system", content)];
    var sa, sb, ta := SystemBlock(p, after), SystemBlock(p, before), Turns(p, before);
    SingleSystemMessage(p, content);
    SystemBlockAppend(p, before, s);
    SystemBlockAppend(p, before + s, after);
    assert sa + (p.system + content + sb) == sa + p.system + content + sb;
    TurnsAppend(p, before, s);
    TurnsAppend(p, before + s, after);
    assert ta + "" == ta;
  }

  lemma SingleSystemMessage(p: Prompts, content: string)
    ensures SystemBlock(p, [Message("system", content)]) == p.system + content
    ensures Turns(p, [Message("system", content)]) == ""
  {
    assert [Message("system", content)][..0] == [];
  }

  /** Without system messages the prompt is the pre-prompt, the turns in order, then the
      assistant marker. */
  lemma {:induction false} NoSystemBlock(p: Prompts, messages: seq<Message>)
    requires forall i :: 0 <= i < |messages| ==> messages[i].role != "system"
    ensures SystemBlock(p, messages) == ""
    decreases |messages|
  {
    if messages != [] {
      NoSystemBlock(p, messages[..|messages| - 1]);
    }
  }

  /** The system message's content is prefixed, not appended. */
  lemma SystemThenUserScenario()
    ensures var p := Prompts("", "<<USR>>", "<<AST>>", "<<SYS>>");
      var messages := [Message("system", "S"), Message("user", "U")];
      SystemBlock(p, messages) + p.pre + Turns(p, messages) + p.ai == "<<SYS>>S" + "<<USR>>U" + "<<AST>>"
  {
    var p := Prompts("", "<<USR>>", "<<AST>>", "<<SYS>>");
    var messages := [Message("system", "S"), Message("user", "U")];
    assert messages[..1] == [Message("system", "S")];
    assert messages[..1][..0] == [];
  }

  /**
   * `chat_completion` up to starting generation: builds the prompt, encodes it with the
   * tokenizer's `encode`, derives the integer sampling settings and creates the session state.
   * `outputLen` is `max_tokens` minus the prompt length, used as the minimum length; a value of 0
   * or less is not rejected.
   */
  method StartCompletion(p: Prompts, messages: seq<Message>, maxTokens: int, encode: string -> seq<int>)
    returns (state: InferenceState, inputIds: seq<int>, outputLen: int, sampling: SamplingInts)
    ensures inputIds == encode(SystemBlock(p, messages) + p.pre + Turns(p, messages) + p.ai)
    ensures outputLen == maxTokens - |inputIds|
    ensures sampling == SamplingInts(42, 40, outputLen)
    ensures fresh(state) && state.Valid()
    ensures state.prevPos == 0 && state.MatchState() == Fresh && !state.isFinished && state.textsToStream == []
  {
    var formattedInput := FormatInput(p, messages);
    state := new InferenceState();
    inputIds := encode(formattedInput);
    var inputLen := |inputIds|;
    outputLen := maxTokens - inputLen;
    sampling := SamplingInts(42, 40, outputLen);
  }
}

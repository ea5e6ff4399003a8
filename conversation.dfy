/** The chat page's conversation state: the ordered message list shown in the
    chat pane and the text buffer behind the input box, with the three event
    handlers that change them. The hosted language model is not part of the
    model: each dispatch receives it as an oracle from prompt to outcome. */
module Conversation {

  /** One turn of the conversation, authored by the user or by the bot. */
  datatype Message = Message(text: string, isBot: bool)

  /** What the external model call yields: its full text, or any failure
      (network error, API error, unreadable response) collapsed into one case. */
  datatype Outcome = Success(text: string) | Failure

  /** The bot greeting the conversation is seeded with. */
  const Greeting: string := "Hi, I am ChatGPT, a state-of-the-art language model developed by OpenAI. I am designed to understand and generate human-like text based on the input I receive. You can ask me questions, have conversations, seek information, or even request assistance with various tasks. Just let me know how I can help you!"

  /** The fixed bot text shown when a dispatch fails. */
  const ErrorText: string := "Error occurred while fetching response from AI."

  /** The key name that makes a key-down event submit the input box. */
  const EnterKey: string := "Enter"

  /** The labels of the two preset-query buttons, each sent as the query. */
  const PresetQueries: seq<string> := ["What is Programming?", "How to use an API?"]

  /** A value that may be absent, as a DOM property read can be `undefined`. */
  datatype Option<T> = None | Some(value: T)

  /** Where inside a preset-query button a click lands: on the button itself
      or on the icon image drawn inside it. */
  datatype ClickTarget = ButtonBody | ButtonIcon

  /** The query the preset handler reads as written: the `value` of the
      element the click landed on. The button carries its label as value;
      the icon has no `value`, so the read is `undefined` (`None`). */
  function TargetValue(button: nat, target: ClickTarget): Option<string>
    requires button < |PresetQueries|
  {
    match target
    case ButtonBody => Some(PresetQueries[button])
    case ButtonIcon => None
  }

  /** A click on either preset button's icon reads no query at all. */
  lemma IconClickReadsNoQuery()
    ensures forall b :: 0 <= b < |PresetQueries| ==> TargetValue(b, ButtonIcon) == None
  {
  }

  /** The query a preset button evidently means to send: its own label,
      wherever inside the button the click lands (the button the handler is
      attached to, rather than the element clicked). */
  function ButtonValue(button: nat, target: ClickTarget): (q: string)
    requires button < |PresetQueries|
    ensures q in PresetQueries
    ensures TargetValue(button, target).Some? ==> q == TargetValue(button, target).value
  {
    PresetQueries[button]
  }

  /** With the button's own value, a click on the icon sends the same query
      as a click on the rest of the button. */
  lemma IconClickSendsLabel(button: nat)
    requires button < |PresetQueries|
    ensures ButtonValue(button, ButtonIcon) == ButtonValue(button, ButtonBody) == PresetQueries[button]
  {
  }

  /** The bot message a dispatch appends once the model call has resolved. */
  function Reply(outcome: Outcome): Message
  {
    match outcome
    case Success(text) => Message(text, true)
    case Failure => Message(ErrorText, true)
  }

  /** The two messages one dispatch of `query` appends: the question, then the answer. */
  function Exchange(query: string, outcome: Outcome): seq<Message>
  {
    [Message(query, false), Reply(outcome)]
  }

  /** The number of messages in `h` whose author is the bot (`bot`) or the user (`!bot`). */
  function Authored(h: seq<Message>, bot: bool): nat
  {
    if h == [] then 0
    else Authored(h[..|h| - 1], bot) + (if h[|h| - 1].isBot == bot then 1 else 0)
  }

  /** Every message has exactly one author: the user and bot counts add up to the length. */
  lemma {:induction false} AuthorsPartition(h: seq<Message>)
    ensures Authored(h, true) + Authored(h, false) == |h|
    decreases |h|
  {
    if h != [] {
      AuthorsPartition(h[..|h| - 1]);
    }
  }

  /** The shape every reachable conversation has: the greeting, followed by
      pairs of a user message and the one bot message that answers it. */
  ghost predicate Turns(h: seq<Message>)
  {
    && |h| % 2 == 1
    && h[0] == Message(Greeting, true)
    && forall i :: 1 <= i < |h| ==> h[i].isBot == (i % 2 == 0)
  }

  /** A dispatch keeps the conversation in shape, whatever it asks and whatever comes back. */
  lemma ExchangeKeepsTurns(h: seq<Message>, query: string, outcome: Outcome)
    requires Turns(h)
    ensures Turns(h + Exchange(query, outcome))
  {
  }

  /** Appending a user message and then a bot message adds one to each count. */
  lemma {:induction false} PairCounts(h: seq<Message>, question: Message, answer: Message)
    requires !question.isBot && answer.isBot
    ensures Authored(h + [question, answer], true) == Authored(h, true) + 1
    ensures Authored(h + [question, answer], false) == Authored(h, false) + 1
  {
    var h1 := h + [question];
    var h2 := h + [question, answer];
    assert h2[..|h2| - 1] == h1;
    assert h1[..|h1| - 1] == h;
  }

  /** In a conversation of this shape there is one bot message more than user
      messages: every question got exactly one answer, and the greeting is extra. */
  lemma {:induction false} TurnsCounts(h: seq<Message>)
    requires Turns(h)
    ensures Authored(h, false) == |h| / 2
    ensures Authored(h, true) == Authored(h, false) + 1
    decreases |h|
  {
    if |h| == 1 {
      assert h[..0] == [];
    } else {
      var p := h[..|h| - 2];
      assert Turns(p) by {
        assert forall i :: 1 <= i < |p| ==> p[i] == h[i];
      }
      TurnsCounts(p);
      assert h == p + [h[|h| - 2], h[|h| - 1]];
      PairCounts(p, h[|h| - 2], h[|h| - 1]);
    }
  }

  /** The state the chat page holds for its lifetime. Loading the page (and
      "New Chat", which reloads it) constructs a fresh session. */
  class Session {
    /** Every message shown so far, in display order. */
    var aiOutput: seq<Message>
    /** The not-yet-submitted contents of the input box. */
    var input: string
    /** How many dispatches (free-text or preset) have run. */
    ghost var dispatches: nat

    ghost predicate Valid()
      reads this
    {
      Turns(aiOutput) && |aiOutput| == 2 * dispatches + 1
    }

    constructor ()
      ensures Valid()
      ensures aiOutput == [Message(Greeting, true)]
      ensures input == ""
      ensures dispatches == 0
    {
      aiOutput := [Message(Greeting, true)];
      input := "";
      dispatches := 0;
    }

    /** Typing in the input box replaces the buffer and nothing else. */
    method SetInput(text: string)
      requires Valid()
      modifies this`input
      ensures Valid()
      ensures input == text
    {
      input := text;
    }

    /** Free-text submission: records the buffer as the user's question,
        clears the buffer before the model answers, sends the recorded
        question to the model and appends its one reply. */
    method SendRequest(api: string -> Outcome)
      requires Valid()
      modifies this
      ensures Valid()
      ensures old(aiOutput) < aiOutput
      ensures aiOutput == old(aiOutput) + Exchange(old(input), api(old(input)))
      ensures input == ""
      ensures dispatches == old(dispatches) + 1
    {
      var query := input;
      ExchangeKeepsTurns(aiOutput, query, api(query));
      aiOutput := aiOutput + [Message(query, false)];
      input := "";
      var outcome := api(query);
      aiOutput := aiOutput + [Reply(outcome)];
      dispatches := dispatches + 1;
    }

    /** A key-down in the input box: Enter submits exactly as the send
        button does; any other key changes nothing. */
    method HandleEnter(key: string, api: string -> Outcome)
      requires Valid()
      modifies this
      ensures Valid()
      ensures key == EnterKey ==>
                && aiOutput == old(aiOutput) + Exchange(old(input), api(old(input)))
                && input == ""
                && dispatches == old(dispatches) + 1
      ensures key != EnterKey ==>
                && aiOutput == old(aiOutput)
                && input == old(input)
                && dispatches == old(dispatches)
    {
      if key == EnterKey {
        SendRequest(api);
      }
    }

    /** A preset-query button: the same two appends as a free-text
        submission of `query`, but the input buffer is left alone. */
    method HandleQuery(query: string, api: string -> Outcome)
      requires Valid()
      modifies this
      ensures Valid()
      ensures old(aiOutput) < aiOutput
      ensures aiOutput == old(aiOutput) + Exchange(query, api(query))
      ensures input == old(input)
      ensures dispatches == old(dispatches) + 1
    {
      ExchangeKeepsTurns(aiOutput, query, api(query));
      aiOutput := aiOutput + [Message(query, false)];
      var outcome := api(query);
      aiOutput := aiOutput + [Reply(outcome)];
      dispatches := dispatches + 1;
    }

    /** A click on preset button `button`, anywhere inside it: dispatches
        that button's label through `HandleQuery`. */
    method ClickPreset(button: nat, target: ClickTarget, api: string -> Outcome)
      requires Valid()
      requires button < |PresetQueries|
      modifies this
      ensures Valid()
      ensures aiOutput == old(aiOutput) + Exchange(PresetQueries[button], api(PresetQueries[button]))
      ensures input == old(input)
      ensures dispatches == old(dispatches) + 1
    {
      HandleQuery(ButtonValue(button, target), api);
    }
  }

  /** In any reachable session, the number of bot answers equals the number
      of dispatches plus the greeting, and each dispatch left one user message. */
  lemma DispatchesAnswered(s: Session)
    requires s.Valid()
    ensures Authored(s.aiOutput, false) == s.dispatches
    ensures Authored(s.aiOutput, true) == s.dispatches + 1
  {
    TurnsCounts(s.aiOutput);
  }

  /** Clicking a preset button on a new page and typing the same text into
      the input box and submitting it leave the same conversation. */
  method PresetMatchesTyped(query: string, api: string -> Outcome)
    returns (typed: seq<Message>, clicked: seq<Message>)
    ensures typed == clicked
    ensures typed == [Message(Greeting, true), Message(query, false), Reply(api(query))]
  {
    var a := new Session();
    a.SetInput(query);
    a.SendRequest(api);
    var b := new Session();
    b.HandleQuery(query, api);
    typed, clicked := a.aiOutput, b.aiOutput;
  }
}

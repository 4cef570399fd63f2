/**
  The chat session of the component: a message log that only grows, the
  text being typed, and a loading flag that admits at most one request in
  flight.  `sendMessage` is split at its one suspension point: `Submit`
  is the synchronous part up to the network call and returns the request
  it would send, and `Resolve` is everything after the call settles, with
  the call's result abstracted as an `Outcome`.
*/
module Session {
  import opened JsText
  import Languages

  datatype Message = Message(text: string, isUser: bool, language: string)

  /** The fixed reply shown in place of an answer when anything goes wrong. */
  const Apology: string :=
    "I apologize, but I encountered an error. Please check your API key configuration or try again later."

  /**
    How the completion call settled: a successful response with or without
    `choices[0].message.content`, a response with a non-success status, or
    an exception (network failure, unreadable body).
  */
  datatype Outcome = Completed(content: Option<string>) | Rejected(status: int) | Thrown

  /** The call succeeded with non-empty content; every other outcome raises inside the `try`. */
  predicate Answered(o: Outcome) {
    o.Completed? && o.content.Some? && o.content.value != ""
  }

  /** The assistant's text for an outcome: the content when there is some, the apology otherwise. */
  function ReplyText(o: Outcome): (r: string)
    ensures Answered(o) ==> r == o.content.value
    ensures !Answered(o) ==> r == Apology
    ensures r != ""
  {
    if Answered(o) then o.content.value else Apology
  }

  /** The body of the completion request; the credential and headers are not part of this model. */
  datatype Request = Request(
    model: string,
    systemPrompt: string,
    userContent: string,
    temperature: real,
    maxTokens: int,
    frequencyPenalty: real,
    presencePenalty: real)

  /** The request sent for `input` written in `language`: the language's instructions, then the input as it was typed. */
  function RequestFor(input: string, language: string): (r: Request)
    ensures r.systemPrompt == Languages.SystemPromptForLanguage(language)
    ensures r.userContent == input
    ensures r.maxTokens == 4000 && r.temperature == 0.1
  {
    Request("google/gemini-2.5-flash-preview-05-20", Languages.SystemPromptForLanguage(language), input,
            0.1, 4000, 0.1, 0.1)
  }

  /** The greeting every session opens with: the English welcome message, tagged English. */
  function WelcomeEntry(): Message {
    Message(Languages.WelcomeOf(Languages.English), false, "english")
  }

  /** The opening greeting is what the welcome lookup gives for the tag "english". */
  lemma WelcomeEntryIsLookup()
    ensures WelcomeEntry().text == Languages.WelcomeMessage("english")
    ensures WelcomeEntry().language == Languages.TagOf(Languages.English)
  {
    Languages.ResolveTagOf(Languages.English);
  }

  /**
    The shape of every log a session can reach: the greeting, then user
    and assistant messages alternating, each user message non-blank, each
    answer in its question's language, and a request in flight exactly when
    the last message is the user's.
  */
  predicate WellFormedLog(log: seq<Message>, loading: bool) {
    && |log| >= 1
    && log[0] == WelcomeEntry()
    && Alternates(log)
    && QuestionsNonBlank(log)
    && AnswersInQuestionLanguage(log)
    && (loading <==> |log| % 2 == 0)
  }

  /** The opening log is well formed and not loading. */
  lemma WelcomeLogWellFormed()
    ensures WellFormedLog([WelcomeEntry()], false)
    ensures !WellFormedLog([WelcomeEntry()], true)
  {
  }

  /** The three per-message conditions of a well-formed log; a question is never all whitespace. */
  predicate Alternates(log: seq<Message>) {
    forall i :: 0 <= i < |log| ==> (log[i].isUser <==> i % 2 == 1)
  }

  predicate QuestionsNonBlank(log: seq<Message>) {
    forall i :: 0 <= i < |log| && log[i].isUser ==> !AllSpace(log[i].text)
  }

  predicate AnswersInQuestionLanguage(log: seq<Message>) {
    forall i :: 1 <= i < |log| ==> AnswerFollows(log, i)
  }

  /** The message at `i`, when it is an answer, is in the language of the message before it. */
  predicate AnswerFollows(log: seq<Message>, i: nat)
    requires 1 <= i < |log|
  {
    !log[i].isUser ==> log[i].language == log[i - 1].language
  }

  /** Appending a non-blank user message to an idle log gives a loading log. */
  lemma AskKeepsShape(log: seq<Message>, text: string, language: string)
    requires WellFormedLog(log, false) && !AllSpace(text)
    ensures WellFormedLog(log + [Message(text, true, language)], true)
  {
    AppendKeeps(log, false, Message(text, true, language));
  }

  /** Appending the answer, in the question's language, to a loading log gives an idle log. */
  lemma AnswerKeepsShape(log: seq<Message>, text: string)
    requires WellFormedLog(log, true)
    ensures WellFormedLog(log + [Message(text, false, log[|log| - 1].language)], false)
  {
    AppendKeeps(log, true, Message(text, false, log[|log| - 1].language));
  }

  /**
    Appending a question to an idle log, or an answer in the question's
    language to a loading log, keeps the log well formed and flips loading.
  */
  lemma AppendKeeps(log: seq<Message>, loading: bool, m: Message)
    requires WellFormedLog(log, loading)
    requires m.isUser <==> !loading
    requires m.isUser ==> !AllSpace(m.text)
    requires !m.isUser ==> m.language == log[|log| - 1].language
    ensures WellFormedLog(log + [m], !loading)
  {
    var log' := log + [m];
    assert |log'| == |log| + 1;
    Parity(|log|);
    assert !loading <==> |log'| % 2 == 0;
    AlternatesAppend(log, m);
    QuestionsAppend(log, m);
    AnswersAppend(log, m);
    assert log'[0] == log[0];
    assert log'[0] == WelcomeEntry();
    assert Alternates(log') && QuestionsNonBlank(log') && AnswersInQuestionLanguage(log');
  }

  lemma Parity(n: nat)
    ensures n % 2 == 0 || n % 2 == 1
    ensures (n + 1) % 2 == 0 <==> n % 2 == 1
  {
  }

  lemma AlternatesAppend(log: seq<Message>, m: Message)
    requires Alternates(log) && (m.isUser <==> |log| % 2 == 1)
    ensures Alternates(log + [m])
  {
    var log' := log + [m];
    forall i | 0 <= i < |log'| ensures log'[i].isUser <==> i % 2 == 1 {
      if i < |log| { assert log'[i] == log[i]; }
    }
  }

  lemma QuestionsAppend(log: seq<Message>, m: Message)
    requires QuestionsNonBlank(log) && (m.isUser ==> !AllSpace(m.text))
    ensures QuestionsNonBlank(log + [m])
  {
    var log' := log + [m];
    forall i | 0 <= i < |log'| && log'[i].isUser ensures !AllSpace(log'[i].text) {
      if i < |log| { assert log'[i] == log[i]; }
    }
  }

  lemma AnswersAppend(log: seq<Message>, m: Message)
    requires AnswersInQuestionLanguage(log) && |log| >= 1
    requires !m.isUser ==> m.language == log[|log| - 1].language
    ensures AnswersInQuestionLanguage(log + [m])
  {
    var log' := log + [m];
    forall i | 1 <= i < |log'| ensures AnswerFollows(log', i) {
      assert log'[i - 1] == log[i - 1];
      if i < |log| { assert AnswerFollows(log, i) && log'[i] == log[i]; }
    }
  }

  /** A well-formed idle log is the greeting followed by complete question and answer pairs. */
  lemma IdleLogIsPairs(log: seq<Message>)
    requires WellFormedLog(log, false)
    ensures |log| % 2 == 1
    ensures forall k :: 0 <= k < |log| / 2 ==>
      log[2 * k + 1].isUser && !log[2 * k + 2].isUser && log[2 * k + 2].language == log[2 * k + 1].language
  {
    var n := |log| / 2;
    assert |log| == 2 * n + 1;
    forall k | 0 <= k < n
      ensures log[2 * k + 1].isUser && !log[2 * k + 2].isUser && log[2 * k + 2].language == log[2 * k + 1].language
    {
      PairAt(log, k);
    }
  }

  /** The messages at `2k + 1` and `2k + 2` are a question and its answer. */
  lemma PairAt(log: seq<Message>, k: nat)
    requires Alternates(log) && AnswersInQuestionLanguage(log) && 2 * k + 2 < |log|
    ensures log[2 * k + 1].isUser && !log[2 * k + 2].isUser && log[2 * k + 2].language == log[2 * k + 1].language
  {
    var i, j := 2 * k + 1, 2 * k + 2;
    assert i % 2 == 1 && j % 2 == 0;
    assert log[i].isUser && !log[j].isUser;
    assert AnswerFollows(log, j);
  }

  class Chat {
    var messages: seq<Message>
    var input: string
    var isLoading: bool
    /** The language detected for the message awaiting its answer. */
    var pendingLanguage: string

    predicate Valid()
      reads this
    {
      && WellFormedLog(messages, isLoading)
      && (isLoading ==> pendingLanguage == messages[|messages| - 1].language)
      && (isLoading ==> input == "")
    }

    /** A new session: the English greeting, nothing typed, nothing in flight. */
    constructor()
      ensures Valid()
      ensures messages == [WelcomeEntry()] && input == "" && !isLoading
    {
      messages := [WelcomeEntry()];
      input := "";
      isLoading := false;
      pendingLanguage := "english";
    }

    /**
      Typing replaces the input; nothing else changes.  The input field is
      disabled while a request is in flight, so typing needs an idle session.
    */
    method SetInput(text: string)
      requires Valid() && !isLoading
      modifies this
      ensures Valid()
      ensures input == text
      ensures messages == old(messages) && isLoading == old(isLoading) && pendingLanguage == old(pendingLanguage)
    {
      input := text;
    }

    /** Whether a send goes ahead: something other than whitespace typed and no request in flight. */
    predicate CanSend()
      reads this
    {
      !isLoading && Trim(input) != ""
    }

    /** The send button is disabled exactly when a send would be refused. */
    function SendDisabled(): (r: bool)
      reads this
      ensures r <==> !CanSend()
    {
      isLoading || Trim(input) == ""
    }

    /**
      The synchronous part of `sendMessage`.  A refused send changes nothing
      and sends nothing.  Otherwise the input, untrimmed, is logged as the
      user's message in the detected language, the input is cleared, the
      session starts loading, and the request for that input is returned.
      `guesses` is the detector's ranked output for the input.
    */
    method Submit(guesses: seq<string>) returns (request: Option<Request>)
      requires Valid()
      modifies this
      ensures Valid()
      ensures !old(CanSend()) ==> request == None
      ensures !old(CanSend()) ==>
        messages == old(messages) && input == old(input) && isLoading == old(isLoading)
        && pendingLanguage == old(pendingLanguage)
      ensures old(CanSend()) ==>
        var language := Languages.DetectLanguage(old(input), guesses);
        && messages == old(messages) + [Message(old(input), true, language)]
        && input == "" && isLoading && pendingLanguage == language
        && request == Some(RequestFor(old(input), language))
    {
      if Trim(input) == "" || isLoading {
        return None;
      }
      var text := input;
      var language := Languages.DetectLanguage(text, guesses);
      AskKeepsShape(messages, text, language);
      messages := messages + [Message(text, true, language)];
      input := "";
      isLoading := true;
      pendingLanguage := language;
      request := Some(RequestFor(text, language));
    }

    /**
      Everything after the call settles: exactly one assistant message, in
      the language of the message it answers, holding the reply or the
      apology; then loading ends.  The input, cleared by the send and
      locked since, is still empty.
    */
    method Resolve(outcome: Outcome)
      requires Valid() && isLoading
      modifies this
      ensures Valid() && !isLoading
      ensures messages == old(messages) + [Message(ReplyText(outcome), false, old(pendingLanguage))]
      ensures input == "" && pendingLanguage == old(pendingLanguage)
    {
      var reply := ReplyText(outcome);
      var log := messages;
      assert WellFormedLog(log, true) && pendingLanguage == log[|log| - 1].language;
      AnswerKeepsShape(log, reply);
      messages := log + [Message(reply, false, pendingLanguage)];
      isLoading := false;
      assert WellFormedLog(messages, isLoading);
    }
  }

  /** The placeholder of the input field: the one of the language detected in what is typed so far. */
  function Placeholder(input: string, guesses: seq<string>): (r: string)
    ensures r != ""
    ensures r == Languages.ConfigOf(Languages.Resolve(Languages.DetectLanguage(input, guesses))).placeholder
  {
    var tag := Languages.DetectLanguage(input, guesses);
    var c := Languages.LanguageConfigFor(tag);
    Languages.PlaceholderPresent(Languages.Resolve(tag));
    if c.placeholder != "" then c.placeholder else Languages.LanguageConfigFor("english").placeholder
  }

  /** An empty input field shows the English placeholder. */
  lemma EmptyInputPlaceholder(guesses: seq<string>)
    ensures Placeholder("", guesses) == Languages.ConfigOf(Languages.English).placeholder
  {
  }

  /**
    A session whose first request fails: after typing, sending and the
    call being rejected, the log is the greeting, the message as typed,
    and the apology in the message's language, and nothing is loading.
  */
  method FailedRequest(text: string, guesses: seq<string>, status: int)
    returns (log: seq<Message>, loading: bool)
    requires Trim(text) != ""
    ensures loading == false
    ensures log == [WelcomeEntry(),
                    Message(text, true, Languages.DetectLanguage(text, guesses)),
                    Message(Apology, false, Languages.DetectLanguage(text, guesses))]
  {
    var language := Languages.DetectLanguage(text, guesses);
    var chat := new Chat();
    chat.SetInput(text);
    assert chat.CanSend();
    var request := chat.Submit(guesses);
    assert chat.messages == [WelcomeEntry(), Message(text, true, language)];
    chat.Resolve(Rejected(status));
    assert ReplyText(Rejected(status)) == Apology;
    log, loading := chat.messages, chat.isLoading;
  }

  /**
    A refused send leaves the session as it was: typing only whitespace
    and sending adds nothing to the log.
  */
  method BlankSendIgnored(spaces: string, guesses: seq<string>)
    returns (log: seq<Message>, loading: bool, sent: bool)
    requires AllSpace(spaces)
    ensures log == [WelcomeEntry()] && !loading && !sent
  {
    var chat := new Chat();
    chat.SetInput(spaces);
    var request := chat.Submit(guesses);
    log, loading, sent := chat.messages, chat.isLoading, request.Some?;
  }
}

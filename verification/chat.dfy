/**
 The chat component's conversation logic: an append-only list of
 role-tagged messages, the text box, and a loading flag, stepped by the
 send handler. The handler's one network call is split into two pure
 steps: `Submit` (everything before the request, and the request's
 message list) and `Settle` (everything once the request has succeeded or
 failed). The provider's answer is an input, `Outcome`.
 */
module Chat {
  import opened Options
  import opened Text

  /** The two roles a message can carry. */
  datatype Role = User | Assistant

  /** One chat message. */
  datatype Message = Message(role: Role, content: string)

  /** The component state: the history, the text box and the loading flag. */
  datatype State = State(messages: seq<Message>, input: string, loading: bool)

  /** How the completion request ended: the reply text, or any failure
      (a non-ok status, a network error, an unreadable body). */
  datatype Outcome = Ok(content: string) | Err

  /** The state after the synchronous part of the send handler, and the
      message list of the request it issued, if it issued one. */
  datatype Sent = Sent(state: State, payload: Option<seq<Message>>)

  /** The state on mount: no messages, an empty box, not loading. */
  const Initial := State([], "", false)

  /** Typing into the box replaces its text and nothing else. */
  function Edit(s: State, text: string): (r: State)
    ensures r.input == text && r.messages == s.messages && r.loading == s.loading
  {
    s.(input := text)
  }

  /** The synchronous part of `handleSendMessage`. Blank input does nothing
      and sends nothing. Otherwise the trimmed text is appended as a user
      message, the box is cleared, loading is set, and the request carries
      the whole prior history followed by that message. */
  function Submit(s: State): (r: Sent)
    ensures IsBlank(s.input) <==> r.payload.None?
    ensures IsBlank(s.input) ==> r.state == s
    ensures !IsBlank(s.input) ==>
      && r.state.messages == s.messages + [Message(User, Trim(s.input))]
      && r.state.input == ""
      && r.state.loading
      && r.payload == Some(r.state.messages)
  {
    if IsBlank(s.input) then Sent(s, None)
    else
      var userMessage := Message(User, Trim(s.input));
      Sent(State(s.messages + [userMessage], "", true), Some(s.messages + [userMessage]))
  }

  /** The asynchronous part of `handleSendMessage`, once the request has
      settled: a reply is appended as an assistant message, a failure
      appends nothing, and loading is cleared either way. */
  function Settle(s: State, o: Outcome): (r: State)
    ensures !r.loading && r.input == s.input
    ensures o.Ok? ==> r.messages == s.messages + [Message(Assistant, o.content)]
    ensures o.Err? ==> r.messages == s.messages
  {
    match o
    case Ok(content) => State(s.messages + [Message(Assistant, content)], s.input, false)
    case Err => s.(loading := false)
  }

  /** The Send button is enabled when nothing is loading and the box holds
      more than white space. */
  predicate CanSend(s: State): (r: bool)
    ensures r <==> !s.loading && exists k :: 0 <= k < |s.input| && !IsSpace(s.input[k])
  {
    TrimEmptyIffAllSpace(s.input);
    !s.loading && !IsBlank(s.input)
  }

  /** Clicking Send: a disabled button does nothing. */
  function PressSend(s: State): (r: Sent)
    ensures CanSend(s) ==> r == Submit(s)
    ensures !CanSend(s) ==> r == Sent(s, None)
  {
    if CanSend(s) then Submit(s) else Sent(s, None)
  }

  /** A key press in the box: Enter without Shift runs the send handler
      directly, with no check of the loading flag; any other key does
      nothing to this state. */
  function KeyDown(s: State, key: string, shiftKey: bool): (r: Sent)
    ensures key == "Enter" && !shiftKey ==> r == Submit(s)
    ensures !(key == "Enter" && !shiftKey) ==> r == Sent(s, None)
  {
    if key == "Enter" && !shiftKey then Submit(s) else Sent(s, None)
  }

  // ---------------------------------------------------------------------
  // One exchange: submit, then settle the request it issued

  /** Send `text` and settle the request with `o`. A blank text issues no
      request, so nothing settles. */
  function Exchange(s: State, text: string, o: Outcome): (r: State)
    ensures IsBlank(text) ==> r == Edit(s, text)
    ensures !IsBlank(text) ==> !r.loading && r.input == ""
    ensures !IsBlank(text) && o.Ok? ==>
      r.messages == s.messages + [Message(User, Trim(text)), Message(Assistant, o.content)]
    ensures !IsBlank(text) && o.Err? ==> r.messages == s.messages + [Message(User, Trim(text))]
  {
    var sent := Submit(Edit(s, text));
    if sent.payload.None? then sent.state else Settle(sent.state, o)
  }

  /** Submitting and then settling: a success leaves the history as before
      plus the user message and the reply, ending in the reply; a failure
      keeps the user message as the last entry. Loading ends cleared and
      the request carried the history up to the user message. */
  lemma SubmitThenSettle(s: State, o: Outcome)
    requires !IsBlank(s.input)
    ensures var sent := Submit(s);
      var r := Settle(sent.state, o);
      && sent.payload == Some(s.messages + [Message(User, Trim(s.input))])
      && !r.loading
      && r.input == ""
      && (o.Ok? ==> r.messages == s.messages + [Message(User, Trim(s.input)), Message(Assistant, o.content)])
      && (o.Ok? ==> r.messages[|r.messages| - 1] == Message(Assistant, o.content))
      && (o.Err? ==> r.messages == sent.payload.value)
      && (o.Err? ==> r.messages[|r.messages| - 1] == Message(User, Trim(s.input)))
  {
  }

  /** The Send button is enabled exactly when nothing is loading and the
      send handler would issue a request. */
  lemma CanSendIffSubmits(s: State)
    ensures CanSend(s) <==> !s.loading && Submit(s).payload.Some?
  {
  }

  /** While nothing is loading, clicking Send and pressing Enter do the same
      thing; while loading, the button does nothing. */
  lemma SendPathsAgreeWhenIdle(s: State)
    ensures !s.loading ==> PressSend(s) == KeyDown(s, "Enter", false)
    ensures s.loading ==> PressSend(s).payload.None?
  {
  }

  /** The Enter path does not consult the loading flag: with a request in
      flight and more text typed, Enter issues a second request carrying
      the new text, where the disabled button issues none. */
  lemma EnterIgnoresLoading(s: State)
    requires s.loading && !IsBlank(s.input)
    ensures !CanSend(s) && PressSend(s).payload.None?
    ensures KeyDown(s, "Enter", false).payload == Some(s.messages + [Message(User, Trim(s.input))])
    ensures KeyDown(s, "Enter", false).state.loading
  {
  }

  /** A successful exchange from the mount state with "Hello". */
  lemma HelloExample()
    ensures Exchange(Initial, "Hello", Ok("Hi there")) ==
      State([Message(User, "Hello"), Message(Assistant, "Hi there")], "", false)
  {
    var hello := "Hello";
    assert !IsSpace(hello[0]) && !IsSpace(hello[4]);
    assert TrimStart(hello) == hello;
    assert TrimEnd(hello) == hello;
    assert !IsBlank(hello);
    var sent := Submit(Edit(Initial, hello));
    assert sent.state == State([Message(User, hello)], "", true);
    assert sent.payload.Some?;
  }

  /** White space alone sends nothing, whatever the provider would say. */
  lemma BlankExample(o: Outcome)
    ensures Submit(Edit(Initial, "   ")).payload.None?
    ensures Exchange(Initial, "   ", o) == State([], "   ", false)
  {
    assert TrimStart("   ") == [];
  }

  // ---------------------------------------------------------------------
  // A conversation: a sequence of exchanges

  /** What the user types and how the request it causes ends. */
  datatype Turn = Turn(text: string, outcome: Outcome)

  /** Run the turns in order, each settling before the next is sent. */
  function Converse(s: State, turns: seq<Turn>): (r: State)
    decreases |turns|
  {
    if turns == [] then s
    else Converse(Exchange(s, turns[0].text, turns[0].outcome), turns[1..])
  }

  /** Messages added by the turns: none for blank text, the user message
      for a failed request, and the reply too for a successful one. */
  function Growth(turns: seq<Turn>): (n: nat)
    decreases |turns|
  {
    if turns == [] then 0
    else TurnGrowth(turns[0]) + Growth(turns[1..])
  }

  /** Every assistant message answers the user message just before it. */
  predicate RepliesFollowUsers(msgs: seq<Message>) {
    forall i :: 0 <= i < |msgs| && msgs[i].role == Assistant ==> 0 < i && msgs[i - 1].role == User
  }

  /** Every user message holds trimmed, non-empty text. */
  predicate UserTextTrimmed(msgs: seq<Message>) {
    forall i :: 0 <= i < |msgs| && msgs[i].role == User ==>
      msgs[i].content != [] && Trim(msgs[i].content) == msgs[i].content
  }

  /** The history of a conversation in which every request succeeded:
      user and assistant strictly alternate, starting with the user, and
      no question is left unanswered. */
  predicate Alternating(msgs: seq<Message>) {
    && |msgs| % 2 == 0
    && forall i :: 0 <= i < |msgs| ==> msgs[i].role == (if i % 2 == 0 then User else Assistant)
  }

  /** Appending a trimmed, non-empty user message keeps both invariants. */
  lemma AppendUserKeepsInvariants(msgs: seq<Message>, text: string)
    requires RepliesFollowUsers(msgs) && UserTextTrimmed(msgs)
    requires text != [] && Trim(text) == text
    ensures RepliesFollowUsers(msgs + [Message(User, text)])
    ensures UserTextTrimmed(msgs + [Message(User, text)])
  {
  }

  /** Appending a reply right after a user message keeps both invariants. */
  lemma AppendReplyKeepsInvariants(msgs: seq<Message>, content: string)
    requires RepliesFollowUsers(msgs) && UserTextTrimmed(msgs)
    requires |msgs| > 0 && msgs[|msgs| - 1].role == User
    ensures RepliesFollowUsers(msgs + [Message(Assistant, content)])
    ensures UserTextTrimmed(msgs + [Message(Assistant, content)])
  {
  }

  /** One exchange keeps both history invariants, whatever the outcome. */
  lemma ExchangeKeepsInvariants(s: State, text: string, o: Outcome)
    requires RepliesFollowUsers(s.messages) && UserTextTrimmed(s.messages)
    ensures RepliesFollowUsers(Exchange(s, text, o).messages)
    ensures UserTextTrimmed(Exchange(s, text, o).messages)
  {
    if !IsBlank(text) {
      var user := s.messages + [Message(User, Trim(text))];
      TrimIdempotent(text);
      AppendUserKeepsInvariants(s.messages, Trim(text));
      if o.Ok? {
        AppendReplyKeepsInvariants(user, o.content);
        assert Exchange(s, text, o).messages == user + [Message(Assistant, o.content)];
      }
    }
  }

  /** Any sequence of exchanges keeps both history invariants. */
  lemma {:induction false} ConverseKeepsInvariants(s: State, turns: seq<Turn>)
    requires RepliesFollowUsers(s.messages) && UserTextTrimmed(s.messages)
    ensures RepliesFollowUsers(Converse(s, turns).messages)
    ensures UserTextTrimmed(Converse(s, turns).messages)
    decreases |turns|
  {
    if turns != [] {
      ExchangeKeepsInvariants(s, turns[0].text, turns[0].outcome);
      ConverseKeepsInvariants(Exchange(s, turns[0].text, turns[0].outcome), turns[1..]);
    }
  }

  /** A question and its answer appended to an alternating history keep
      it alternating. */
  lemma AppendPairAlternates(msgs: seq<Message>, question: string, answer: string)
    requires Alternating(msgs)
    ensures Alternating(msgs + [Message(User, question), Message(Assistant, answer)])
  {
  }

  /** When every request succeeds, the history keeps alternating user,
      assistant, user, assistant. */
  lemma {:induction false} ConverseAlternates(s: State, turns: seq<Turn>)
    requires Alternating(s.messages)
    requires forall k :: 0 <= k < |turns| ==> turns[k].outcome.Ok?
    ensures Alternating(Converse(s, turns).messages)
    decreases |turns|
  {
    if turns != [] {
      var t := turns[0];
      var next := Exchange(s, t.text, t.outcome);
      if !IsBlank(t.text) {
        AppendPairAlternates(s.messages, Trim(t.text), t.outcome.content);
      }
      ConverseAlternates(next, turns[1..]);
    }
  }

  /** Messages one turn adds: none for blank text, the user message for a
      failed request, and the reply too for a successful one. */
  function TurnGrowth(t: Turn): (n: nat) {
    if IsBlank(t.text) then 0 else if t.outcome.Ok? then 2 else 1
  }

  /** One exchange keeps the history as a prefix and adds exactly the
      messages of its turn. */
  lemma ExchangeAppends(s: State, t: Turn)
    requires !s.loading
    ensures var r := Exchange(s, t.text, t.outcome);
      && |r.messages| == |s.messages| + TurnGrowth(t)
      && r.messages[..|s.messages|] == s.messages
      && !r.loading
  {
  }

  /** The history only grows at its end, by exactly the messages the turns
      add, and nothing is left loading. */
  lemma {:induction false} ConverseAppends(s: State, turns: seq<Turn>)
    requires !s.loading
    ensures var r := Converse(s, turns);
      && |r.messages| == |s.messages| + Growth(turns)
      && r.messages[..|s.messages|] == s.messages
      && !r.loading
    decreases |turns|
  {
    if turns != [] {
      var next := Exchange(s, turns[0].text, turns[0].outcome);
      ExchangeAppends(s, turns[0]);
      ConverseAppends(next, turns[1..]);
      var r := Converse(next, turns[1..]);
      assert Converse(s, turns) == r;
      assert Growth(turns) == TurnGrowth(turns[0]) + Growth(turns[1..]);
      assert r.messages[..|s.messages|] == r.messages[..|next.messages|][..|s.messages|];
    }
  }
}

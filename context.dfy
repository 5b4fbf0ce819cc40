/** The conversation context sent with every chat request (main.py): the
    system prompt, the user and assistant texts of the most recent stored
    turns, oldest first, and the new user message. */
module Context {

  /** One stored exchange: what the user wrote, the raw reply, and when. */
  datatype Turn = Turn(user: string, assistant: string, timestamp: string)

  datatype Role = System | User | Assistant

  datatype Message = Message(role: Role, content: string)

  /** How many stored turns the context carries at most. */
  const WindowSize: nat := 10

  function Min(a: nat, b: nat): nat {
    if a <= b then a else b
  }

  /** `conversations[-10:]`: the last `WindowSize` turns, or all of them
      when there are fewer. */
  function Recent(conversations: seq<Turn>): (r: seq<Turn>)
    ensures |r| == Min(|conversations|, WindowSize)
    ensures forall k :: 0 <= k < |r| ==> r[k] == conversations[|conversations| - |r| + k]
  {
    conversations[|conversations| - Min(|conversations|, WindowSize)..]
  }

  /** The user and assistant entries of a list of turns, in order. */
  function TurnMessages(turns: seq<Turn>): seq<Message> {
    if turns == [] then []
    else
      var last := turns[|turns| - 1];
      TurnMessages(turns[..|turns| - 1]) + [Message(User, last.user), Message(Assistant, last.assistant)]
  }

  /** The message list a chat request carries. */
  function ContextWindow(prompt: string, conversations: seq<Turn>, message: string): seq<Message> {
    [Message(System, prompt)] + TurnMessages(Recent(conversations)) + [Message(User, message)]
  }

  /** Each turn contributes a user entry and then an assistant entry, in
      the order of the turns. */
  lemma {:induction false} TurnMessagesAt(turns: seq<Turn>)
    ensures |TurnMessages(turns)| == 2 * |turns|
    ensures forall k :: 0 <= k < |turns| ==>
              TurnMessages(turns)[2 * k] == Message(User, turns[k].user)
              && TurnMessages(turns)[2 * k + 1] == Message(Assistant, turns[k].assistant)
  {
    if turns != [] {
      var init := turns[..|turns| - 1];
      TurnMessagesAt(init);
      var ms := TurnMessages(turns);
      forall k | 0 <= k < |turns|
        ensures ms[2 * k] == Message(User, turns[k].user)
        ensures ms[2 * k + 1] == Message(Assistant, turns[k].assistant)
      {
        if k < |init| {
          assert turns[k] == init[k];
        }
      }
    }
  }

  /** The shape of the context: `2 * min(n, 10) + 2` entries, the system
      prompt first, the new message last, and between them the user and
      assistant texts of the last `min(n, 10)` turns, oldest first. */
  lemma ContextWindowShape(prompt: string, conversations: seq<Turn>, message: string)
    ensures var w := Min(|conversations|, WindowSize);
            var r := ContextWindow(prompt, conversations, message);
            |r| == 2 * w + 2
            && r[0] == Message(System, prompt)
            && r[|r| - 1] == Message(User, message)
            && forall k :: 0 <= k < w ==>
                 r[1 + 2 * k] == Message(User, conversations[|conversations| - w + k].user)
                 && r[2 + 2 * k] == Message(Assistant, conversations[|conversations| - w + k].assistant)
  {
    var recent := Recent(conversations);
    TurnMessagesAt(recent);
    Framed(Message(System, prompt), TurnMessages(recent), Message(User, message));
  }

  lemma Framed(first: Message, middle: seq<Message>, last: Message)
    ensures var r := [first] + middle + [last];
            |r| == |middle| + 2 && r[0] == first && r[|r| - 1] == last
            && forall i :: 0 <= i < |middle| ==> r[i + 1] == middle[i]
  {
  }

  /** Turns older than the last `WindowSize` have no effect on the context. */
  lemma OlderTurnsIgnored(prompt: string, older: seq<Turn>, recent: seq<Turn>, message: string)
    requires |recent| >= WindowSize
    ensures ContextWindow(prompt, older + recent, message) == ContextWindow(prompt, recent, message)
  {
    var all := older + recent;
    assert all[|all| - WindowSize..] == recent[|recent| - WindowSize..];
  }

  /** The loop of `chat` that builds the message list: the system entry,
      then a user and an assistant entry for each recent turn, then the new
      message. */
  method BuildContext(prompt: string, conversations: seq<Turn>, message: string)
    returns (messages: seq<Message>)
    ensures messages == ContextWindow(prompt, conversations, message)
  {
    messages := [Message(System, prompt)];
    var recent := Recent(conversations);
    var i := 0;
    while i < |recent|
      invariant 0 <= i <= |recent|
      invariant messages == [Message(System, prompt)] + TurnMessages(recent[..i])
    {
      var conv := recent[i];
      assert recent[..i + 1][..i] == recent[..i];
      messages := messages + [Message(User, conv.user)];
      messages := messages + [Message(Assistant, conv.assistant)];
      i := i + 1;
    }
    assert recent[..i] == recent;
    messages := messages + [Message(User, message)];
  }
}

/** The chat history kept beside the streaming chat (`useCustomChat`, and the
    same code inline in the `Chat` component): the list of past chats, the
    active one, and the messages on screen. New chat ids (`Date.now()`) are
    parameters; the messages come from the streaming collaborator. */
module ChatHook {
  import opened Js

  datatype Message = Message(role: JsString, content: JsString)

  datatype Chat = Chat(id: JsString, title: JsString, messages: seq<Message>)

  const TitleLength: nat := 20

  predicate IsUser(m: Message) {
    m.role == "user"
  }

  /** The title every new chat gets: "New Chat " and the count it will make. */
  function NewChatTitle(historyLength: nat): (t: JsString)
    ensures |t| > 9 && t[..9] == "New Chat "
    ensures var digits := t[9..];
      && (forall i :: 0 <= i < |digits| ==> IsDigit(digits[i]))
      && DecimalValue(digits) == historyLength + 1
      && digits[0] != '0'
  {
    DecimalRoundTrip(historyLength + 1);
    assert ("New Chat " + NatToString(historyLength + 1))[9..] == NatToString(historyLength + 1);
    "New Chat " + NatToString(historyLength + 1)
  }

  /** A message's content cut to a title: the first 20 code units and "..."
      when longer, the content itself otherwise. */
  function Truncated(content: JsString): (t: JsString)
    ensures |content| > TitleLength ==>
      |t| == TitleLength + 3 && t[..TitleLength] == content[..TitleLength] && t[TitleLength..] == "..."
    ensures |content| <= TitleLength ==> t == content
  {
    if |content| > TitleLength then content[..TitleLength] + "..." else content
  }

  /** `getTitleFromMessages`: from the first user message if there is one,
      else the new-chat title for the current history length. */
  function TitleFromMessages(msgs: seq<Message>, historyLength: nat): (t: JsString)
    ensures (forall i :: 0 <= i < |msgs| ==> !IsUser(msgs[i])) ==> t == NewChatTitle(historyLength)
    ensures forall k :: 0 <= k < |msgs| && IsUser(msgs[k]) && (forall j :: 0 <= j < k ==> !IsUser(msgs[j])) ==>
      t == Truncated(msgs[k].content)
  {
    match FindFirst(msgs, IsUser)
    case Some(i) => Truncated(msgs[i].content)
    case None => NewChatTitle(historyLength)
  }

  /** Once a user message exists, later messages never change the title. */
  lemma TitleStableUnderAppend(msgs: seq<Message>, more: seq<Message>, historyLength: nat)
    requires exists i :: 0 <= i < |msgs| && IsUser(msgs[i])
    ensures TitleFromMessages(msgs + more, historyLength) == TitleFromMessages(msgs, historyLength)
  {
    FindFirstAppend(msgs, more, IsUser);
  }

  /** The `map` in the history effect: the chats with id `active` take the
      messages and title, every other chat is left as it was. */
  function WithActiveUpdated(history: seq<Chat>, active: JsString, msgs: seq<Message>, title: JsString): (r: seq<Chat>)
    ensures |r| == |history|
    ensures forall i :: 0 <= i < |r| ==> r[i].id == history[i].id
    ensures forall i :: 0 <= i < |r| && history[i].id != active ==> r[i] == history[i]
    ensures forall i :: 0 <= i < |r| && history[i].id == active ==>
      r[i].messages == msgs && r[i].title == title
  {
    seq(|history|, i requires 0 <= i < |history| =>
      if history[i].id == active then history[i].(messages := msgs, title := title) else history[i])
  }

  /** An active id no chat has leaves the history untouched. */
  lemma UpdateAbsentIsIdentity(history: seq<Chat>, active: JsString, msgs: seq<Message>, title: JsString)
    requires forall i :: 0 <= i < |history| ==> history[i].id != active
    ensures WithActiveUpdated(history, active, msgs, title) == history
  {
  }

  /** Running the update again with the same inputs changes nothing more. */
  lemma UpdateIdempotent(history: seq<Chat>, active: JsString, msgs: seq<Message>, title: JsString)
    ensures var once := WithActiveUpdated(history, active, msgs, title);
      WithActiveUpdated(once, active, msgs, title) == once
  {
  }

  function ChatId(c: Chat): JsString {
    c.id
  }

  /** Prepending a chat with a fresh id keeps the ids unique. */
  lemma PrependFreshKeepsIdsDistinct(history: seq<Chat>, c: Chat)
    requires IdsDistinct(history, ChatId)
    requires forall i :: 0 <= i < |history| ==> history[i].id != c.id
    ensures IdsDistinct([c] + history, ChatId)
  {
  }

  /** JavaScript truthiness of `activeChat`: null and "" are false. */
  predicate IsSet(active: Option<JsString>) {
    active.Some? && active.value != ""
  }

  class ChatState {
    var activeChat: Option<JsString>
    var chatHistory: seq<Chat>
    var messages: seq<Message>

    constructor()
      ensures activeChat == None && chatHistory == [] && messages == []
    {
      activeChat := None;
      chatHistory := [];
      messages := [];
    }

    /** `setMessages` of the streaming collaborator: the messages on screen. */
    method SetMessages(msgs: seq<Message>)
      modifies this`messages
      ensures messages == msgs
    {
      messages := msgs;
    }

    /** `handleNewChat`: a chat with id `newId`, no messages and the next
        numbered title goes in front; it becomes active and the screen clears. */
    method HandleNewChat(newId: JsString)
      modifies this
      ensures chatHistory == [Chat(newId, NewChatTitle(|old(chatHistory)|), [])] + old(chatHistory)
      ensures activeChat == Some(newId) && messages == []
    {
      var newChat := Chat(newId, NewChatTitle(|chatHistory|), []);
      chatHistory := [newChat] + chatHistory;
      activeChat := Some(newId);
      messages := [];
    }

    /** The effect on `[messages, activeChat]`: with an active chat and some
        messages, the active chat's entry takes them and a title derived
        from them; otherwise nothing happens. */
    method SyncHistory()
      modifies this`chatHistory
      ensures IsSet(activeChat) && |messages| > 0 ==>
        chatHistory == WithActiveUpdated(old(chatHistory), activeChat.value, messages,
                                         TitleFromMessages(messages, |old(chatHistory)|))
      ensures !(IsSet(activeChat) && |messages| > 0) ==> chatHistory == old(chatHistory)
    {
      if IsSet(activeChat) && |messages| > 0 {
        var title := TitleFromMessages(messages, |chatHistory|);
        chatHistory := WithActiveUpdated(chatHistory, activeChat.value, messages, title);
      }
    }

    /** The mount effect: with no chats yet, start one. */
    method Mount(newId: JsString)
      modifies this
      ensures |old(chatHistory)| == 0 ==>
        && chatHistory == [Chat(newId, NewChatTitle(0), [])]
        && activeChat == Some(chatHistory[0].id) && messages == []
      ensures |old(chatHistory)| > 0 ==>
        chatHistory == old(chatHistory) && activeChat == old(activeChat) && messages == old(messages)
    {
      if |chatHistory| == 0 {
        HandleNewChat(newId);
      }
    }

    /** `loadChat`: the id becomes active whatever it is; the messages are
        replaced by those of the first chat with that id, if there is one. */
    method LoadChat(chatId: JsString)
      modifies this`activeChat, this`messages
      ensures activeChat == Some(chatId)
      ensures forall k ::
                (0 <= k < |chatHistory| && chatHistory[k].id == chatId
                 && (forall j :: 0 <= j < k ==> chatHistory[j].id != chatId)) ==>
                messages == chatHistory[k].messages
      ensures (forall k :: 0 <= k < |chatHistory| ==> chatHistory[k].id != chatId) ==>
                messages == old(messages)
    {
      activeChat := Some(chatId);
      var found := FindFirst(chatHistory, (c: Chat) => c.id == chatId);
      if found.Some? {
        messages := chatHistory[found.value].messages;
      }
    }
  }

  /** A session: mount, receive a long first question and an answer, start
      a second chat, and switch back to the first. */
  method Session(question: JsString, answer: JsString)
    requires |question| > TitleLength
  {
    var chat := new ChatState();
    chat.Mount("1");
    assert chat.chatHistory == [Chat("1", NewChatTitle(0), [])];
    var msgs := [Message("user", question), Message("assistant", answer)];
    chat.SetMessages(msgs);
    chat.SyncHistory();
    assert chat.chatHistory[0].title == question[..TitleLength] + "...";
    chat.HandleNewChat("2");
    assert |chat.chatHistory| == 2 && chat.chatHistory[1].id == "1";
    assert chat.chatHistory[0].id == "2" != "1" && chat.chatHistory[1].messages == msgs;
    chat.LoadChat("1");
    assert chat.chatHistory[1].id == "1" && forall j :: 0 <= j < 1 ==> chat.chatHistory[j].id != "1";
    assert chat.messages == msgs;
  }
}

/** The page's mutable `state` object and the handlers that update it in place.
    Each method performs its handler's steps on the fields and promises that
    the new state is the matching transition of module Session applied to the
    old one; the lemmas there say what the transitions mean. Rendering,
    persistence and dialogs are not modelled: a dialog's answer and the
    provider's outcome are parameters, and the clock's id is a fresh parameter. */
module Store {
  import opened Text
  import opened Session
  import Provider

  class ChatStore {
    var apiKey: string
    var chats: seq<Chat>
    var activeChatId: Option<string>
    /** Every id ever handed to a chat; a new chat's id must not be in it. */
    ghost var issued: set<string>

    /** The state as `saveState` would write it. */
    function State(): AppState
      reads this
    {
      AppState(apiKey, chats, activeChatId)
    }

    /** The invariant between handlers, except that the list may be empty. */
    ghost predicate Tracked()
      reads this
    {
      && Consistent(State())
      && forall i :: 0 <= i < |chats| ==> chats[i].id in issued
    }

    /** The invariant between handlers: at least one chat is listed. */
    ghost predicate Valid()
      reads this
    {
      Tracked() && |chats| > 0
    }

    /** Page load: the saved state with its defaults, then a first chat if
        none was saved. */
    constructor Load(saved: AppState, firstId: string)
      requires Consistent(saved) && !Listed(saved.chats, firstId)
      ensures Valid() && State() == Loaded(saved, firstId)
      ensures issued == (set i | 0 <= i < |saved.chats| :: saved.chats[i].id)
                        + (if |saved.chats| == 0 then {firstId} else {})
    {
      apiKey := saved.apiKey;
      chats := saved.chats;
      activeChatId := if saved.activeChatId == Some("") then None else saved.activeChatId;
      issued := set i | 0 <= i < |saved.chats| :: saved.chats[i].id;
      new;
      LoadRestores(saved, firstId);
      if |chats| == 0 {
        NewChat(firstId);
      }
    }

    /** The new-chat button. */
    method NewChat(id: string)
      requires Tracked() && id !in issued
      modifies this
      ensures Valid() && State() == WithNewChat(old(State()), id)
      ensures issued == old(issued) + {id}
    {
      NewChatInvariants(State(), id);
      var title := NewChatTitle(|chats|);
      chats := chats + [Chat(id, title, [])];
      activeChatId := Some(id);
      issued := issued + {id};
    }

    /** A click on sidebar entry `idx`. */
    method Activate(idx: nat)
      requires Valid() && idx < |chats|
      modifies this
      ensures Valid() && State() == WithActive(old(State()), idx)
      ensures issued == old(issued)
    {
      ActivateSelects(State(), idx);
      activeChatId := Some(chats[idx].id);
    }

    /** The rename button of entry `idx`; `answer` is what `prompt()` returned. */
    method Rename(idx: nat, answer: Option<string>)
      requires Valid() && idx < |chats|
      modifies this
      ensures Valid() && State() == WithTitle(old(State()), idx, answer)
      ensures LogsGrow(old(State()), State()) && issued == old(issued)
    {
      RenameInvariants(State(), idx, answer);
      if answer.Some? {
        var newName := Trim(answer.value);
        if newName != [] {
          chats := chats[idx := chats[idx].(title := newName)];
        }
      }
    }

    /** The delete button of entry `idx`; `confirmed` is what `confirm()`
        returned, and `freshId` the id of the replacement chat created when
        the list becomes empty. */
    method Delete(idx: nat, confirmed: bool, freshId: string)
      requires Valid() && idx < |chats| && freshId !in issued
      modifies this
      ensures Valid() && State() == AfterDelete(old(State()), idx, confirmed, freshId)
      ensures LogsGrow(old(State()), State())
      ensures issued == old(issued) + (if confirmed && |old(chats)| == 1 then {freshId} else {})
    {
      if !confirmed {
        return;
      }
      ghost var before := State();
      ClearedInvariants(before, idx);
      DeleteInvariants(before, idx, confirmed, freshId);
      var victim := chats[idx];
      chats := chats[..idx] + chats[idx + 1..];
      if activeChatId == Some(victim.id) {
        if |chats| > 0 {
          activeChatId := Some(chats[Neighbour(idx)].id);
        } else {
          activeChatId := None;
        }
      }
      assert State() == Cleared(before, idx);
      if |chats| == 0 {
        NewChat(freshId);
      }
    }

    /** The save-key button; `input` is the key field's value. */
    method SaveKey(input: string)
      requires Valid()
      modifies this
      ensures Valid() && State() == WithKey(old(State()), input)
      ensures issued == old(issued)
    {
      SaveKeyStores(State(), input);
      apiKey := Trim(input);
    }

    /** The first half of the send handler, up to the request: the three
        guards, then the user message. A `Submitted` status carries the chat
        the reply belongs to and the prompt to send. */
    method SubmitPrompt(input: string) returns (status: SendStatus)
      requires Valid()
      modifies this
      ensures Valid() && status == SubmitStatus(old(State()), input)
      ensures State() == AfterSubmit(old(State()), input)
      ensures LogsGrow(old(State()), State()) && issued == old(issued)
    {
      SubmitInvariants(State(), input);
      var text := Trim(input);
      if text == [] {
        return EmptyPrompt;
      }
      if apiKey == [] {
        return MissingKey;
      }
      var found := FindChat(chats, activeChatId);
      if found.None? {
        return NoActiveChat;
      }
      var i := found.value;
      var chat := chats[i];
      chats := chats[i := chat.(messages := chat.messages + [Message(User, text)])];
      status := Submitted(chat.id, text);
    }

    /** The second half, once the request has produced `outcome`: the reply
        goes to the chat captured in the first half, if it is still listed. */
    method DeliverReply(chatId: string, outcome: Provider.Outcome)
      requires Valid()
      modifies this
      ensures Valid() && State() == AfterDeliver(old(State()), chatId, outcome)
      ensures LogsGrow(old(State()), State()) && issued == old(issued)
    {
      var reply := Provider.ReplyText(outcome);
      ghost var after := AppendMessage(State(), chatId, Message(Bot, reply));
      AppendMessageGrowsLog(State(), chatId, Message(Bot, reply));
      var found := FindChat(chats, Some(chatId));
      if found.Some? {
        var i := found.value;
        chats := chats[i := chats[i].(messages := chats[i].messages + [Message(Bot, reply)])];
        assert forall k :: 0 <= k < |chats| ==> chats[k].id == old(chats)[k].id;
      }
      assert State() == after;
    }

    /** The whole send handler with nothing happening during the request: it
        changes nothing when a guard fails, and otherwise appends the user's
        trimmed text and then the reply to the active chat alone. */
    method Send(input: string, outcome: Provider.Outcome) returns (status: SendStatus)
      requires Valid()
      modifies this
      ensures Valid() && status == SubmitStatus(old(State()), input)
      ensures State() == AfterSend(old(State()), input, outcome)
      ensures !status.Submitted? ==> State() == old(State())
      ensures status.Submitted? ==>
        && apiKey == old(apiKey) && activeChatId == old(activeChatId)
        && |chats| == |old(chats)|
        && forall j :: 0 <= j < |chats| ==>
             chats[j] == if Some(old(chats)[j].id) == activeChatId
                         then old(chats)[j].(messages := old(chats)[j].messages
                                + [Message(User, status.prompt), Message(Bot, Provider.ReplyText(outcome))])
                         else old(chats)[j]
      ensures issued == old(issued)
    {
      ghost var before := State();
      SendAppendsExchange(before, input, outcome);
      status := SubmitPrompt(input);
      if status.Submitted? {
        DeliverReply(status.chatId, outcome);
      }
      assert State() == AfterSend(before, input, outcome);
    }
  }
}

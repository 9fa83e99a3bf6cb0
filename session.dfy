/** The application state of the chat client as a value, and each handler's
    effect on it as a function from the old state to the new one. The class
    in module Store performs these transitions in place; the lemmas here say
    what each transition promises. */
module Session {
  import opened Text
  import Provider

  datatype Option<T> = None | Some(value: T)

  datatype Sender = User | Bot

  /** One chat bubble; appended to a log and never changed afterwards. */
  datatype Message = Message(sender: Sender, text: string)

  datatype Chat = Chat(id: string, title: string, messages: seq<Message>)

  /** The persisted `state` object: the API key, the chats in sidebar order
      and the id of the chat shown (null when none is). */
  datatype AppState = AppState(apiKey: string, chats: seq<Chat>, activeChatId: Option<string>)

  predicate Listed(chats: seq<Chat>, id: string) {
    exists i :: 0 <= i < |chats| && chats[i].id == id
  }

  predicate UniqueIds(chats: seq<Chat>) {
    forall i, j :: 0 <= i < j < |chats| ==> chats[i].id != chats[j].id
  }

  /** The store's invariant: chat ids are unique, and the active id is null or
      the id of a listed chat. */
  predicate Consistent(st: AppState) {
    && UniqueIds(st.chats)
    && (st.activeChatId.Some? ==> Listed(st.chats, st.activeChatId.value))
  }

  /** Every chat of `st` that is still listed in `st'` kept its old log as a
      prefix of its new one: message logs are append-only. */
  predicate LogsGrow(st: AppState, st': AppState) {
    forall i, j :: 0 <= i < |st.chats| && 0 <= j < |st'.chats| && st.chats[i].id == st'.chats[j].id
      ==> st.chats[i].messages <= st'.chats[j].messages
  }

  /** `chats.find(c => c.id === id)`, as an index: the first chat whose id is
      `id`; a null id matches no chat. */
  function FindChat(chats: seq<Chat>, id: Option<string>): (r: Option<nat>)
    ensures r.Some? ==> r.value < |chats| && Some(chats[r.value].id) == id
    ensures r.Some? ==> forall j :: 0 <= j < r.value ==> Some(chats[j].id) != id
    ensures r.None? <==> forall j :: 0 <= j < |chats| ==> Some(chats[j].id) != id
  {
    if chats == [] then None
    else if Some(chats[0].id) == id then Some(0)
    else match FindChat(chats[1..], id)
      case None => None
      case Some(i) => Some(i + 1)
  }

  /** With unique ids, looking up a listed chat's id finds that very chat. */
  lemma FindListed(chats: seq<Chat>, i: nat)
    requires UniqueIds(chats) && i < |chats|
    ensures FindChat(chats, Some(chats[i].id)) == Some(i)
  {
  }

  /** The sidebar's "active" marking: entry i is marked when its id is the
      active id. */
  function ActiveMarks(st: AppState): (r: seq<bool>)
    ensures |r| == |st.chats|
  {
    seq(|st.chats|, i requires 0 <= i < |st.chats| => Some(st.chats[i].id) == st.activeChatId)
  }

  /** In a consistent state the sidebar marks at most one entry, marks one
      exactly when there is an active id, and the marked entry is the chat that
      `find` returns, whose messages are the ones shown. */
  lemma OneMarkedEntry(st: AppState)
    requires Consistent(st)
    ensures forall i, j :: 0 <= i < |st.chats| && 0 <= j < |st.chats| && ActiveMarks(st)[i] && ActiveMarks(st)[j] ==> i == j
    ensures (exists i :: 0 <= i < |st.chats| && ActiveMarks(st)[i]) <==> st.activeChatId.Some?
    ensures forall i :: 0 <= i < |st.chats| ==> (ActiveMarks(st)[i] <==> FindChat(st.chats, st.activeChatId) == Some(i))
  {
    forall i | 0 <= i < |st.chats|
      ensures ActiveMarks(st)[i] <==> FindChat(st.chats, st.activeChatId) == Some(i)
    {
      if ActiveMarks(st)[i] {
        FindListed(st.chats, i);
      }
    }
    if st.activeChatId.Some? {
      var k :| 0 <= k < |st.chats| && st.chats[k].id == st.activeChatId.value;
      assert ActiveMarks(st)[k];
    }
  }

  // ----- New chat -----

  /** The default title of the chat created when `count` chats exist:
      "Chat " followed by the decimal numeral of count + 1. */
  function NewChatTitle(count: nat): (r: string)
    ensures |r| > 5 && r[..5] == "Chat " && r[5] != '0'
    ensures (forall i :: 5 <= i < |r| ==> IsDigit(r[i])) && DecimalValue(r[5..]) == count + 1
  {
    DecimalRoundTrip(count + 1);
    var r := "Chat " + NatToDecimal(count + 1);
    assert r[5..] == NatToDecimal(count + 1);
    r
  }

  /** Two different chat counts give two different default titles. */
  lemma NewChatTitleInjective(m: nat, n: nat)
    requires NewChatTitle(m) == NewChatTitle(n)
    ensures m == n
  {
    assert NewChatTitle(m)[5..] == NewChatTitle(n)[5..];
  }

  function WithNewChat(st: AppState, id: string): AppState {
    st.(chats := st.chats + [Chat(id, NewChatTitle(|st.chats|), [])], activeChatId := Some(id))
  }

  /** New chat appends exactly one empty chat with the given id and the next
      default title, makes it active, and leaves every earlier chat as it was. */
  lemma NewChatAppends(st: AppState, id: string)
    ensures var r := WithNewChat(st, id);
      && |r.chats| == |st.chats| + 1
      && r.chats[..|st.chats|] == st.chats
      && r.chats[|st.chats|] == Chat(id, NewChatTitle(|st.chats|), [])
      && r.activeChatId == Some(id) && r.apiKey == st.apiKey
  {
  }

  /** Given a fresh id, new chat keeps the invariant and the logs. */
  lemma NewChatInvariants(st: AppState, id: string)
    requires UniqueIds(st.chats) && !Listed(st.chats, id)
    ensures Consistent(WithNewChat(st, id)) && LogsGrow(st, WithNewChat(st, id))
  {
    var r := WithNewChat(st, id);
    assert r.chats[|st.chats|].id == id;
  }

  // ----- Activate -----

  function WithActive(st: AppState, idx: nat): AppState
    requires idx < |st.chats|
  {
    st.(activeChatId := Some(st.chats[idx].id))
  }

  /** Activating a chat changes only the active id, which then names that
      chat, and keeps the invariant. */
  lemma ActivateSelects(st: AppState, idx: nat)
    requires Consistent(st) && idx < |st.chats|
    ensures var r := WithActive(st, idx);
      && r.chats == st.chats && r.apiKey == st.apiKey
      && FindChat(r.chats, r.activeChatId) == Some(idx)
      && Consistent(r) && LogsGrow(st, r)
  {
    FindListed(st.chats, idx);
  }

  // ----- Rename -----

  /** `prompt()` yields null (None) when dismissed; a non-blank answer,
      trimmed, becomes the title. */
  function WithTitle(st: AppState, idx: nat, input: Option<string>): AppState
    requires idx < |st.chats|
  {
    if input.None? || Trim(input.value) == [] then st
    else st.(chats := st.chats[idx := st.chats[idx].(title := Trim(input.value))])
  }

  /** Rename does nothing for a dismissed or blank answer; otherwise it changes
      only the title of chat `idx`, to the trimmed answer. */
  lemma RenameTitles(st: AppState, idx: nat, input: Option<string>)
    requires idx < |st.chats|
    ensures input.None? || AllSpace(input.value) ==> WithTitle(st, idx, input) == st
    ensures input.Some? && !AllSpace(input.value) ==>
      var r := WithTitle(st, idx, input);
      && r.apiKey == st.apiKey && r.activeChatId == st.activeChatId
      && |r.chats| == |st.chats|
      && r.chats[idx].title == Trim(input.value) && r.chats[idx].title != []
      && (forall j :: 0 <= j < |st.chats| ==> r.chats[j].id == st.chats[j].id && r.chats[j].messages == st.chats[j].messages)
      && (forall j :: 0 <= j < |st.chats| && j != idx ==> r.chats[j] == st.chats[j])
  {
    if input.Some? {
      TrimEmptyIff(input.value);
    }
  }

  /** Changing one chat's title keeps the invariant and every log. */
  lemma RetitleInvariants(st: AppState, idx: nat, title: string)
    requires Consistent(st) && idx < |st.chats|
    ensures var r := st.(chats := st.chats[idx := st.chats[idx].(title := title)]);
      Consistent(r) && LogsGrow(st, r)
  {
    var r := st.(chats := st.chats[idx := st.chats[idx].(title := title)]);
    assert forall j :: 0 <= j < |st.chats| ==> r.chats[j].id == st.chats[j].id && r.chats[j].messages == st.chats[j].messages;
    if st.activeChatId.Some? {
      var k :| 0 <= k < |st.chats| && st.chats[k].id == st.activeChatId.value;
      assert r.chats[k].id == st.activeChatId.value;
    }
  }

  lemma RenameInvariants(st: AppState, idx: nat, input: Option<string>)
    requires Consistent(st) && idx < |st.chats|
    ensures Consistent(WithTitle(st, idx, input)) && LogsGrow(st, WithTitle(st, idx, input))
  {
    if input.Some? {
      RetitleInvariants(st, idx, Trim(input.value));
    }
  }

  // ----- Delete -----

  /** `Math.max(0, idx - 1)`: the previous sibling, or the new first chat. */
  function Neighbour(idx: nat): nat {
    if idx > 0 then idx - 1 else 0
  }

  /** `chats.splice(idx, 1)` */
  function RemoveAt(chats: seq<Chat>, idx: nat): (r: seq<Chat>)
    requires idx < |chats|
    ensures |r| == |chats| - 1
  {
    chats[..idx] + chats[idx + 1..]
  }

  /** Removing one entry keeps the others in their order. */
  lemma RemoveAtKeepsOrder(chats: seq<Chat>, idx: nat)
    requires idx < |chats|
    ensures forall j :: 0 <= j < |chats| - 1 ==> RemoveAt(chats, idx)[j] == chats[if j < idx then j else j + 1]
  {
    var r := RemoveAt(chats, idx);
    forall j | 0 <= j < |chats| - 1 ensures r[j] == chats[if j < idx then j else j + 1] {
      if j < idx {
        assert r[j] == chats[..idx][j];
      } else {
        assert r[j] == chats[idx + 1..][j - idx];
      }
    }
  }

  /** The list after `splice(idx, 1)` and the choice of the new active id,
      before any replacement chat is created. */
  function Cleared(st: AppState, idx: nat): AppState
    requires idx < |st.chats|
  {
    var rest := RemoveAt(st.chats, idx);
    var active :=
      if st.activeChatId == Some(st.chats[idx].id) then
        (if |rest| > 0 then Some(rest[Neighbour(idx)].id) else None)
      else st.activeChatId;
    st.(chats := rest, activeChatId := active)
  }

  /** The delete handler: `confirmed` is the answer to `confirm()`, and
      `freshId` the id a replacement chat gets if the list becomes empty. */
  function AfterDelete(st: AppState, idx: nat, confirmed: bool, freshId: string): AppState
    requires idx < |st.chats|
  {
    if !confirmed then st
    else
      var cleared := Cleared(st, idx);
      if |cleared.chats| == 0 then WithNewChat(cleared, freshId) else cleared
  }

  /** Declining the confirmation changes nothing. When other chats remain,
      delete removes exactly entry `idx` and keeps the rest in order; if the
      deleted chat was active its neighbour becomes active, otherwise the
      active id stays. */
  lemma DeleteRemovesEntry(st: AppState, idx: nat, confirmed: bool, freshId: string)
    requires idx < |st.chats|
    ensures !confirmed ==> AfterDelete(st, idx, confirmed, freshId) == st
    ensures confirmed && |st.chats| > 1 ==>
      var r := AfterDelete(st, idx, confirmed, freshId);
      && r.apiKey == st.apiKey
      && |r.chats| == |st.chats| - 1
      && (forall j :: 0 <= j < |r.chats| ==> r.chats[j] == st.chats[if j < idx then j else j + 1])
      && (st.activeChatId == Some(st.chats[idx].id) ==>
            Neighbour(idx) < |r.chats| && r.activeChatId == Some(r.chats[Neighbour(idx)].id))
      && (st.activeChatId != Some(st.chats[idx].id) ==> r.activeChatId == st.activeChatId)
  {
    RemoveAtKeepsOrder(st.chats, idx);
  }

  /** Deleting the only chat leaves exactly one chat: a fresh, active, empty
      "Chat 1". */
  lemma DeleteLastChat(st: AppState, idx: nat, freshId: string)
    requires |st.chats| == 1 && idx == 0
    ensures var r := AfterDelete(st, idx, true, freshId);
      && r.chats == [Chat(freshId, "Chat 1", [])]
      && r.activeChatId == Some(freshId) && r.apiKey == st.apiKey
  {
    assert NatToDecimal(1) == "1";
    assert NewChatTitle(0) == "Chat 1";
    assert RemoveAt(st.chats, 0) == [];
  }

  lemma RemoveAtUnique(chats: seq<Chat>, idx: nat)
    requires UniqueIds(chats) && idx < |chats|
    ensures UniqueIds(RemoveAt(chats, idx))
  {
    var rest := RemoveAt(chats, idx);
    RemoveAtKeepsOrder(chats, idx);
    forall a, b | 0 <= a < b < |rest| ensures rest[a].id != rest[b].id {
      assert rest[a] == chats[if a < idx then a else a + 1];
      assert rest[b] == chats[if b < idx then b else b + 1];
    }
  }

  /** A listed id other than the removed entry's stays listed. */
  lemma RemoveAtKeepsListed(chats: seq<Chat>, idx: nat, id: string)
    requires idx < |chats| && Listed(chats, id) && chats[idx].id != id
    ensures Listed(RemoveAt(chats, idx), id)
  {
    RemoveAtKeepsOrder(chats, idx);
    var k :| 0 <= k < |chats| && chats[k].id == id;
    var k' := if k < idx then k else k - 1;
    assert RemoveAt(chats, idx)[k'] == chats[k];
  }

  lemma RemoveAtLogsGrow(st: AppState, idx: nat, st': AppState)
    requires UniqueIds(st.chats) && idx < |st.chats| && st'.chats == RemoveAt(st.chats, idx)
    ensures LogsGrow(st, st')
  {
    RemoveAtKeepsOrder(st.chats, idx);
    forall a, b | 0 <= a < |st.chats| && 0 <= b < |st'.chats| && st.chats[a].id == st'.chats[b].id
      ensures st.chats[a].messages <= st'.chats[b].messages
    {
      var k := if b < idx then b else b + 1;
      assert st'.chats[b] == st.chats[k];
      assert a == k;
    }
  }

  /** Removing the entry and choosing the new active id keeps the invariant
      and every surviving log, and keeps the other entries in order. */
  lemma ClearedInvariants(st: AppState, idx: nat)
    requires Consistent(st) && idx < |st.chats|
    ensures var c := Cleared(st, idx);
      && Consistent(c) && LogsGrow(st, c)
      && |c.chats| == |st.chats| - 1
      && forall j :: 0 <= j < |c.chats| ==> c.chats[j] == st.chats[if j < idx then j else j + 1]
  {
    var c := Cleared(st, idx);
    RemoveAtUnique(st.chats, idx);
    RemoveAtKeepsOrder(st.chats, idx);
    if c.activeChatId.Some? && st.activeChatId != Some(st.chats[idx].id) {
      RemoveAtKeepsListed(st.chats, idx, c.activeChatId.value);
    }
    RemoveAtLogsGrow(st, idx, c);
  }

  /** Given a fresh replacement id, delete keeps the invariant and the logs,
      and never leaves the list empty. */
  lemma DeleteInvariants(st: AppState, idx: nat, confirmed: bool, freshId: string)
    requires Consistent(st) && idx < |st.chats| && !Listed(st.chats, freshId)
    ensures var r := AfterDelete(st, idx, confirmed, freshId);
      Consistent(r) && LogsGrow(st, r) && |r.chats| > 0
  {
    if confirmed {
      var c := Cleared(st, idx);
      ClearedInvariants(st, idx);
      if |c.chats| == 0 {
        NewChatInvariants(c, freshId);
        assert WithNewChat(c, freshId).chats == [Chat(freshId, NewChatTitle(0), [])];
      }
    }
  }

  // ----- Save key -----

  function WithKey(st: AppState, input: string): AppState {
    st.(apiKey := Trim(input))
  }

  /** Saving the key stores the trimmed input and touches nothing else; the
      stored key is blank-free at both ends and saving it again is a no-op. */
  lemma SaveKeyStores(st: AppState, input: string)
    ensures var r := WithKey(st, input);
      && r.chats == st.chats && r.activeChatId == st.activeChatId
      && r.apiKey == Trim(input)
      && WithKey(r, r.apiKey) == r
      && (Consistent(st) ==> Consistent(r))
  {
    TrimIdempotent(input);
  }

  // ----- Send -----

  /** How the send handler ends: one of its three early returns, or the user
      message appended to chat `chatId` with the request issued for `prompt`. */
  datatype SendStatus =
    | EmptyPrompt
    | MissingKey
    | NoActiveChat
    | Submitted(chatId: string, prompt: string)

  /** The three guards of the send handler, in order. */
  function SubmitStatus(st: AppState, input: string): (r: SendStatus)
    ensures r == EmptyPrompt <==> AllSpace(input)
    ensures r == MissingKey <==> !AllSpace(input) && st.apiKey == []
    ensures r == NoActiveChat <==>
      !AllSpace(input) && st.apiKey != [] && FindChat(st.chats, st.activeChatId).None?
    ensures r.Submitted? ==>
      && r.prompt == Trim(input) && r.prompt != []
      && Some(r.chatId) == st.activeChatId && Listed(st.chats, r.chatId)
  {
    TrimEmptyIff(input);
    var text := Trim(input);
    if text == [] then EmptyPrompt
    else if st.apiKey == [] then MissingKey
    else match FindChat(st.chats, st.activeChatId)
      case None => NoActiveChat
      case Some(i) => Submitted(st.chats[i].id, text)
  }

  /** `chat.messages.push(m)` on the chat whose id is `chatId`, if listed. */
  function AppendMessage(st: AppState, chatId: string, m: Message): AppState {
    match FindChat(st.chats, Some(chatId))
    case None => st
    case Some(i) => st.(chats := st.chats[i := st.chats[i].(messages := st.chats[i].messages + [m])])
  }

  /** With unique ids, appending touches only the log of the chat with that id,
      which grows by `m`, and keeps the invariant; an unlisted id changes
      nothing. */
  lemma AppendMessageGrowsLog(st: AppState, chatId: string, m: Message)
    requires UniqueIds(st.chats)
    ensures var r := AppendMessage(st, chatId, m);
      && r.apiKey == st.apiKey && r.activeChatId == st.activeChatId
      && |r.chats| == |st.chats|
      && (forall j :: 0 <= j < |st.chats| ==>
            r.chats[j] == if st.chats[j].id == chatId
                          then st.chats[j].(messages := st.chats[j].messages + [m])
                          else st.chats[j])
      && (!Listed(st.chats, chatId) ==> r == st)
      && UniqueIds(r.chats)
      && (Consistent(st) ==> Consistent(r))
      && LogsGrow(st, r)
  {
    var r := AppendMessage(st, chatId, m);
    match FindChat(st.chats, Some(chatId))
    case None =>
    case Some(i) =>
      assert forall j :: 0 <= j < |st.chats| ==> r.chats[j].id == st.chats[j].id;
      if st.activeChatId.Some? && Listed(st.chats, st.activeChatId.value) {
        var k :| 0 <= k < |st.chats| && st.chats[k].id == st.activeChatId.value;
        assert r.chats[k].id == st.activeChatId.value;
      }
  }

  /** The first half of the send handler: the user message is appended. */
  function AfterSubmit(st: AppState, input: string): AppState {
    match SubmitStatus(st, input)
    case Submitted(chatId, text) => AppendMessage(st, chatId, Message(User, text))
    case _ => st
  }

  /** The second half, after the request: the bot message goes to the chat
      captured before the request, if it is still listed. */
  function AfterDeliver(st: AppState, chatId: string, o: Provider.Outcome): AppState {
    AppendMessage(st, chatId, Message(Bot, Provider.ReplyText(o)))
  }

  /** Both halves with nothing in between. */
  function AfterSend(st: AppState, input: string, o: Provider.Outcome): AppState {
    match SubmitStatus(st, input)
    case Submitted(chatId, _) => AfterDeliver(AfterSubmit(st, input), chatId, o)
    case _ => st
  }

  /** Send changes nothing when a guard fails; otherwise the active chat's log
      grows by the user's trimmed text and then the reply, and every other
      chat, the key and the active id stay as they were. */
  lemma SendAppendsExchange(st: AppState, input: string, o: Provider.Outcome)
    requires UniqueIds(st.chats)
    ensures !SubmitStatus(st, input).Submitted? ==> AfterSend(st, input, o) == st
    ensures SubmitStatus(st, input).Submitted? ==>
      var s := SubmitStatus(st, input);
      var r := AfterSend(st, input, o);
      && r.apiKey == st.apiKey && r.activeChatId == st.activeChatId
      && |r.chats| == |st.chats|
      && (forall j :: 0 <= j < |st.chats| ==>
            r.chats[j] == if Some(st.chats[j].id) == st.activeChatId
                          then st.chats[j].(messages := st.chats[j].messages
                                 + [Message(User, s.prompt), Message(Bot, Provider.ReplyText(o))])
                          else st.chats[j])
  {
    var s := SubmitStatus(st, input);
    if s.Submitted? {
      var u := Message(User, s.prompt);
      var b := Message(Bot, Provider.ReplyText(o));
      var mid := AppendMessage(st, s.chatId, u);
      assert AfterSubmit(st, input) == mid;
      AppendMessageGrowsLog(st, s.chatId, u);
      var r := AppendMessage(mid, s.chatId, b);
      assert AfterSend(st, input, o) == r;
      AppendMessageGrowsLog(mid, s.chatId, b);
      forall j | 0 <= j < |st.chats|
        ensures r.chats[j] == if Some(st.chats[j].id) == st.activeChatId
                              then st.chats[j].(messages := st.chats[j].messages + [u, b])
                              else st.chats[j]
      {
        assert mid.chats[j].id == st.chats[j].id;
        if st.chats[j].id == s.chatId {
          assert st.chats[j].messages + [u] + [b] == st.chats[j].messages + [u, b];
        }
      }
    }
  }

  /** Submitting keeps the invariant and only appends. */
  lemma SubmitInvariants(st: AppState, input: string)
    requires Consistent(st)
    ensures Consistent(AfterSubmit(st, input)) && LogsGrow(st, AfterSubmit(st, input))
  {
    var s := SubmitStatus(st, input);
    if s.Submitted? {
      AppendMessageGrowsLog(st, s.chatId, Message(User, s.prompt));
    }
  }

  // ----- Load -----

  /** The load-time defaults (`activeChatId ||= null` turns an empty id into
      null), then the on-load rule that at least one chat exists. */
  function Loaded(saved: AppState, firstId: string): AppState {
    var st := saved.(activeChatId := if saved.activeChatId == Some("") then None else saved.activeChatId);
    if |st.chats| == 0 then WithNewChat(st, firstId) else st
  }

  /** A consistent saved state loads as a consistent state with at least one
      chat, and reloading a saved non-empty state reproduces it, every message
      log included. */
  lemma LoadRestores(saved: AppState, firstId: string)
    requires Consistent(saved) && !Listed(saved.chats, firstId)
    ensures Consistent(Loaded(saved, firstId)) && |Loaded(saved, firstId).chats| > 0
    ensures |saved.chats| > 0 && saved.activeChatId != Some("") ==> Loaded(saved, firstId) == saved
  {
    var st := saved.(activeChatId := if saved.activeChatId == Some("") then None else saved.activeChatId);
    if |st.chats| == 0 {
      NewChatInvariants(st, firstId);
    }
  }
}

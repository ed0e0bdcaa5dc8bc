/**
 * Private chats between the current user and other participants (`ChatService`).
 * Messages live in one table keyed by message id; a chat lists the ids of its messages in
 * sending order, so a flag set through the table is seen through the chat as well.
 */
module Chats {
  import opened Errors
  import opened Sequences
  import opened LinkedMaps

  /** The user on whose behalf every message is sent. */
  const CurrentUserId := 1

  /** What the chat list shows for a chat none of whose messages is left. */
  const NoMessages := "нет сообщений"

  datatype Message = Message(
    id: int,
    chatId: int,
    senderId: int,
    text: string,
    timestamp: int,
    isRead: bool,
    isDeleted: bool)

  /** A chat with one participant; `messages` lists the ids of its messages in sending order. */
  datatype Chat = Chat(id: int, participantId: int, messages: seq<int>)

  function Timestamp(m: Message): int { m.timestamp }

  /** `findByParticipant`: the first chat, in iteration order, whose participant is `p`. */
  function FindByParticipant(cs: seq<Chat>, p: int): (r: Option<Chat>)
    ensures r.None? <==> forall i :: 0 <= i < |cs| ==> cs[i].participantId != p
    ensures r.Some? ==> r.value.participantId == p
    ensures r.Some? ==> exists i :: 0 <= i < |cs| && cs[i] == r.value && FirstWith(cs, p, i)
  {
    if cs == [] then None
    else if cs[0].participantId == p then Some(cs[0])
    else
      var r := FindByParticipant(cs[1..], p);
      assert r.Some? ==> exists i :: 0 <= i < |cs| && cs[i] == r.value && FirstWith(cs, p, i) by {
        if r.Some? {
          var i :| 0 <= i < |cs[1..]| && cs[1..][i] == r.value && FirstWith(cs[1..], p, i);
          assert cs[i + 1] == r.value;
          forall j | 0 <= j < i + 1 ensures cs[j].participantId != p {
            if j > 0 {
              assert cs[j] == cs[1..][j - 1];
            }
          }
        }
      }
      r
  }

  /** No chat before position `i` of `cs` has participant `p`. */
  ghost predicate FirstWith(cs: seq<Chat>, p: int, i: int)
    requires 0 <= i <= |cs|
  {
    forall j :: 0 <= j < i ==> cs[j].participantId != p
  }

  /** Every id of `ids` is a key of `table`. */
  ghost predicate AllStored(ids: seq<int>, table: map<int, Message>) {
    forall i :: 0 <= i < |ids| ==> ids[i] in table
  }

  /** The stored messages under `ids`, in that order. */
  function Resolve(ids: seq<int>, table: map<int, Message>): (ms: seq<Message>)
    requires AllStored(ids, table)
    ensures |ms| == |ids|
    ensures forall i :: 0 <= i < |ids| ==> ms[i] == table[ids[i]]
  {
    if ids == [] then [] else [table[ids[0]]] + Resolve(ids[1..], table)
  }

  /** A message the chat still shows: not deleted. */
  predicate IsVisible(m: Message) { !m.isDeleted }

  /** A message still to be read: neither read nor deleted. */
  predicate IsUnread(m: Message) { !m.isRead && !m.isDeleted }

  /** `any { !it.isRead && !it.isDeleted }`. */
  predicate HasUnread(ms: seq<Message>) {
    exists i :: 0 <= i < |ms| && IsUnread(ms[i])
  }

  /**
   * `filterNot { it.isDeleted }.maxByOrNull { it.timestamp }`: the position of the first
   * message that is not deleted and has the greatest timestamp among those, or -1 when every
   * message is deleted.
   */
  function LatestIndex(ms: seq<Message>): (k: int)
    ensures -1 <= k < |ms|
    ensures k == -1 <==> forall i :: 0 <= i < |ms| ==> ms[i].isDeleted
    ensures k != -1 ==> !ms[k].isDeleted
    ensures k != -1 ==> forall i :: 0 <= i < |ms| && !ms[i].isDeleted ==> ms[i].timestamp <= ms[k].timestamp
    ensures k != -1 ==> forall i :: 0 <= i < k && !ms[i].isDeleted ==> ms[i].timestamp < ms[k].timestamp
  {
    if ms == [] then -1
    else
      var last := |ms| - 1;
      var k := LatestIndex(ms[..last]);
      assert forall i :: 0 <= i < last ==> ms[..last][i] == ms[i];
      if ms[last].isDeleted then k
      else if k == -1 || ms[k].timestamp < ms[last].timestamp then last
      else k
  }

  /** `lastNonDeletedMessage`: the text of the latest message not deleted, or NoMessages. */
  function LastNonDeletedMessage(ms: seq<Message>): (text: string)
    ensures (forall i :: 0 <= i < |ms| ==> ms[i].isDeleted) ==> text == NoMessages
    ensures (exists i :: 0 <= i < |ms| && !ms[i].isDeleted) ==>
      exists i :: 0 <= i < |ms| && ms[i].text == text && IsFirstLatest(ms, i)
  {
    var k := LatestIndex(ms);
    if k == -1 then NoMessages else ms[k].text
  }

  /** No message of `ms` that is not deleted is newer than `ms[i]`. */
  ghost predicate IsLatest(ms: seq<Message>, i: int)
    requires 0 <= i < |ms|
  {
    forall j :: 0 <= j < |ms| && !ms[j].isDeleted ==> ms[j].timestamp <= ms[i].timestamp
  }

  /**
   * `ms[i]` is the message `maxByOrNull` picks among those not deleted: not deleted, no other
   * one newer, and every earlier one older.
   */
  ghost predicate IsFirstLatest(ms: seq<Message>, i: int)
    requires 0 <= i < |ms|
  {
    && !ms[i].isDeleted
    && IsLatest(ms, i)
    && forall j :: 0 <= j < i && !ms[j].isDeleted ==> ms[j].timestamp < ms[i].timestamp
  }

  /** Every message id listed by a chat of `cs` is a key of `table`. */
  ghost predicate ChatsStored(cs: seq<Chat>, table: map<int, Message>) {
    forall i :: 0 <= i < |cs| ==> AllStored(cs[i].messages, table)
  }

  /** `count { it.messages.any { unread } }` over the chats `cs`. */
  function CountUnread(cs: seq<Chat>, table: map<int, Message>): (n: nat)
    requires ChatsStored(cs, table)
    ensures n <= |cs|
  {
    if cs == [] then 0
    else (if HasUnread(Resolve(cs[0].messages, table)) then 1 else 0) + CountUnread(cs[1..], table)
  }

  /** The ids of the chats among `cs` that hold an unread message. */
  ghost function UnreadIdsOf(cs: seq<Chat>, table: map<int, Message>): (s: set<int>)
    requires ChatsStored(cs, table)
    ensures forall x :: x in s ==> exists i :: 0 <= i < |cs| && cs[i].id == x && HasUnread(Resolve(cs[i].messages, table))
    ensures forall i :: 0 <= i < |cs| && HasUnread(Resolve(cs[i].messages, table)) ==> cs[i].id in s
  {
    if cs == [] then {}
    else
      var rest := UnreadIdsOf(cs[1..], table);
      assert forall x :: x in rest ==> exists i :: 0 <= i < |cs| && cs[i].id == x && HasUnread(Resolve(cs[i].messages, table)) by {
        forall x | x in rest ensures exists i :: 0 <= i < |cs| && cs[i].id == x && HasUnread(Resolve(cs[i].messages, table)) {
          var i :| 0 <= i < |cs[1..]| && cs[1..][i].id == x && HasUnread(Resolve(cs[1..][i].messages, table));
          assert cs[i + 1] == cs[1..][i];
        }
      }
      assert forall i :: 1 <= i < |cs| ==> cs[i] == cs[1..][i - 1];
      (if HasUnread(Resolve(cs[0].messages, table)) then {cs[0].id} else {}) + rest
  }

  /** Counting chats with an unread message counts their ids, when no two chats share an id. */
  lemma {:induction false} CountUnreadIsSetSize(cs: seq<Chat>, table: map<int, Message>)
    requires ChatsStored(cs, table)
    requires forall i, j :: 0 <= i < j < |cs| ==> cs[i].id != cs[j].id
    ensures CountUnread(cs, table) == |UnreadIdsOf(cs, table)|
  {
    if cs != [] {
      var tail := cs[1..];
      CountUnreadIsSetSize(tail, table);
      assert forall i :: 0 <= i < |tail| ==> tail[i].id != cs[0].id;
      assert cs[0].id !in UnreadIdsOf(tail, table);
    }
  }

  /** No two chats of `chats` share a participant. */
  ghost predicate UniqueParticipants(chats: map<int, Chat>) {
    forall a, b :: a in chats && b in chats && chats[a].participantId == chats[b].participantId ==> a == b
  }

  /** Every message id `c` lists is stored and names `c`. */
  ghost predicate OwnsItsMessages(c: Chat, table: map<int, Message>) {
    forall i :: 0 <= i < |c.messages| ==> c.messages[i] in table && table[c.messages[i]].chatId == c.id
  }

  /** Every stored message is listed by the chat it names. */
  ghost predicate MessagesListedByChat(chats: map<int, Chat>, table: map<int, Message>) {
    forall k :: k in table ==> table[k].chatId in chats && k in chats[table[k].chatId].messages
  }

  /**
   * The state `ChatService` keeps: both tables are stored under their own ids, issued by the
   * counters; no two chats share a participant; chats and the message table agree on which
   * message belongs to which chat.
   */
  ghost predicate Consistent(chats: LinkedMap<Chat>, messages: LinkedMap<Message>, nextChatId: int, nextMessageId: int) {
    && chats.Valid() && messages.Valid()
    && 1 <= nextChatId && 1 <= nextMessageId
    && (forall id :: id in chats.entries ==> chats.entries[id].id == id && 1 <= id < nextChatId)
    && (forall id :: id in messages.entries ==> messages.entries[id].id == id && 1 <= id < nextMessageId)
    && UniqueParticipants(chats.entries)
    && (forall id :: id in chats.entries ==> OwnsItsMessages(chats.entries[id], messages.entries))
    && MessagesListedByChat(chats.entries, messages.entries)
  }

  /** The ids of the chats of `chats` holding an unread message. */
  ghost function UnreadIds(chats: map<int, Chat>, table: map<int, Message>): set<int>
    requires forall id :: id in chats ==> AllStored(chats[id].messages, table)
  {
    set id | id in chats && HasUnread(Resolve(chats[id].messages, table))
  }

  /** Listing the chats of a map in key order finds the same chats with unread messages. */
  lemma SameUnreadIds(vs: seq<Chat>, chats: map<int, Chat>, keys: seq<int>, table: map<int, Message>)
    requires |vs| == |keys|
    requires forall i :: 0 <= i < |vs| ==> keys[i] in chats && vs[i] == chats[keys[i]] && vs[i].id == keys[i]
    requires forall k :: k in chats ==> k in keys
    requires forall k :: k in chats ==> OwnsItsMessages(chats[k], table)
    ensures ChatsStored(vs, table)
    ensures forall k :: k in chats ==> AllStored(chats[k].messages, table)
    ensures UnreadIdsOf(vs, table) == UnreadIds(chats, table)
  {
    assert ChatsStored(vs, table) by {
      forall i | 0 <= i < |vs| ensures AllStored(vs[i].messages, table) {
        assert OwnsItsMessages(chats[keys[i]], table);
      }
    }
    forall k | k in chats ensures AllStored(chats[k].messages, table) {
      assert OwnsItsMessages(chats[k], table);
    }
    forall x | x in UnreadIds(chats, table) ensures x in UnreadIdsOf(vs, table) {
      var i :| 0 <= i < |keys| && keys[i] == x;
      assert vs[i].id == x;
    }
    forall x | x in UnreadIdsOf(vs, table) ensures x in UnreadIds(chats, table) {
      var i :| 0 <= i < |vs| && vs[i].id == x;
      assert vs[i] == chats[x];
    }
  }

  /** Taking one more element of `s` adds its id. */
  lemma IdsOfStep(s: seq<Message>, i: int)
    requires 0 <= i < |s|
    ensures IdsOf(s[..i + 1]) == IdsOf(s[..i]) + {s[i].id}
  {
    assert s[..i + 1] == s[..i] + [s[i]];
  }

  /** The table with the messages under `ids` marked read. */
  function MarkRead(table: map<int, Message>, ids: set<int>): (t: map<int, Message>)
  {
    map k | k in table :: if k in ids then table[k].(isRead := true) else table[k]
  }

  /** The ids of `ms`. */
  function IdsOf(ms: seq<Message>): (ids: set<int>)
  {
    set i | 0 <= i < |ms| :: ms[i].id
  }

  /** The ids of the stored messages naming chat `id`. */
  ghost function MessagesOfChat(table: map<int, Message>, id: int): set<int> {
    set k | k in table && table[k].chatId == id
  }

  /** `take(n)` for a count that is not negative. */
  function Take<T>(s: seq<T>, n: nat): (r: seq<T>)
    ensures |r| == if n < |s| then n else |s|
    ensures r <= s
  {
    if n < |s| then s[..n] else s
  }

  /** `ms` as they look once marked read. */
  function MarkedRead(ms: seq<Message>): (r: seq<Message>)
  {
    seq(|ms|, i requires 0 <= i < |ms| => ms[i].(isRead := true))
  }

  /**
   * Reading every message of chat `id` that is not deleted takes that chat, and only that
   * chat, off the set of chats with unread messages.
   */
  lemma ReadingChatClearsIt(chats: map<int, Chat>, table: map<int, Message>, id: int, read: set<int>)
    requires forall c :: c in chats ==> OwnsItsMessages(chats[c], table) && chats[c].id == c
    requires id in chats
    requires forall k :: k in read ==> k in table && table[k].chatId == id
    requires forall k :: k in chats[id].messages && k in table && !table[k].isDeleted ==> k in read
    ensures forall c :: c in chats ==> AllStored(chats[c].messages, MarkRead(table, read))
    ensures UnreadIds(chats, MarkRead(table, read)) == UnreadIds(chats, table) - {id}
  {
    var after := MarkRead(table, read);
    forall c | c in chats
      ensures HasUnread(Resolve(chats[c].messages, after)) <==> c != id && HasUnread(Resolve(chats[c].messages, table))
    {
      var ids := chats[c].messages;
      var before, now := Resolve(ids, table), Resolve(ids, after);
      assert OwnsItsMessages(chats[c], table);
      if c == id {
        forall i | 0 <= i < |now| ensures now[i].isRead || now[i].isDeleted {
          var k := ids[i];
          assert k in table && now[i] == after[k];
          if k !in read {
            assert k in chats[id].messages;
            assert table[k].isDeleted;
          }
        }
      } else {
        forall i | 0 <= i < |ids| ensures now[i] == before[i] {
          var k := ids[i];
          assert k in table && table[k].chatId == c;
          assert k !in read;
          assert now[i] == after[k] == table[k];
        }
        assert now == before;
      }
    }
  }

  /** Opening a chat for a participant without one keeps the state consistent. */
  lemma OpenChatKeepsConsistent(chats: LinkedMap<Chat>, messages: LinkedMap<Message>, nc: int, nm: int, p: int)
    requires Consistent(chats, messages, nc, nm)
    requires forall id :: id in chats.entries ==> chats.entries[id].participantId != p
    ensures Consistent(chats.Put(nc, Chat(nc, p, [])), messages, nc + 1, nm)
  {
    assert nc !in chats.entries;
  }

  /** Storing a new message under the next id and listing it in its chat keeps the state consistent. */
  lemma AddMessageKeepsConsistent(chats: LinkedMap<Chat>, messages: LinkedMap<Message>, nc: int, nm: int, c: Chat, m: Message)
    requires Consistent(chats, messages, nc, nm)
    requires c.id in chats.entries && chats.entries[c.id] == c
    requires m.id == nm && m.chatId == c.id
    ensures Consistent(chats.Put(c.id, c.(messages := c.messages + [nm])), messages.Put(nm, m), nc, nm + 1)
  {
    assert nm !in messages.entries;
    var chats', table' := chats.Put(c.id, c.(messages := c.messages + [nm])).entries, messages.Put(nm, m).entries;
    forall id | id in chats' ensures OwnsItsMessages(chats'[id], table') {
      assert OwnsItsMessages(chats.entries[id], messages.entries);
    }
    forall k | k in table' ensures table'[k].chatId in chats' && k in chats'[table'[k].chatId].messages {
      if k != nm {
        assert k in chats.entries[messages.entries[k].chatId].messages;
      }
    }
  }

  /** Replacing a stored message by one with the same id and chat keeps the state consistent. */
  lemma ReplaceMessageKeepsConsistent(chats: LinkedMap<Chat>, messages: LinkedMap<Message>, nc: int, nm: int, m: Message)
    requires Consistent(chats, messages, nc, nm)
    requires m.id in messages.entries && messages.entries[m.id].chatId == m.chatId
    ensures Consistent(chats, messages.Put(m.id, m), nc, nm)
  {
    var table' := messages.Put(m.id, m).entries;
    forall id | id in chats.entries ensures OwnsItsMessages(chats.entries[id], table') {
      assert OwnsItsMessages(chats.entries[id], messages.entries);
    }
  }

  /** Marking messages read keeps the state consistent. */
  lemma MarkReadKeepsConsistent(chats: LinkedMap<Chat>, messages: LinkedMap<Message>, nc: int, nm: int, ids: set<int>)
    requires Consistent(chats, messages, nc, nm)
    ensures Consistent(chats, LinkedMap(messages.keys, MarkRead(messages.entries, ids)), nc, nm)
  {
    var table' := MarkRead(messages.entries, ids);
    forall id | id in chats.entries ensures OwnsItsMessages(chats.entries[id], table') {
      assert OwnsItsMessages(chats.entries[id], messages.entries);
    }
  }

  /** Removing a chat together with every message naming it keeps the state consistent. */
  lemma RemoveChatKeepsConsistent(chats: LinkedMap<Chat>, messages: LinkedMap<Message>, nc: int, nm: int, id: int)
    requires Consistent(chats, messages, nc, nm)
    ensures Consistent(chats.Remove(id), messages.RemoveKeys(MessagesOfChat(messages.entries, id)), nc, nm)
  {
    var chats', table' := chats.Remove(id).entries, messages.RemoveKeys(MessagesOfChat(messages.entries, id)).entries;
    forall c | c in chats' ensures OwnsItsMessages(chats'[c], table') {
      assert OwnsItsMessages(chats.entries[c], messages.entries);
    }
  }

  class ChatService {
    var chats: LinkedMap<Chat>
    var messages: LinkedMap<Message>
    var nextChatId: int
    var nextMessageId: int

    ghost predicate Valid()
      reads this
    {
      Consistent(chats, messages, nextChatId, nextMessageId)
    }

    constructor ()
      ensures Valid()
      ensures chats == Empty() && messages == Empty() && nextChatId == 1 && nextMessageId == 1
    {
      chats := Empty();
      messages := Empty();
      nextChatId := 1;
      nextMessageId := 1;
    }

    /** `chats.findByParticipant(p)`: the chat of `p`, which is the only one. */
    function FindChat(p: int): (r: Option<Chat>)
      reads this
      requires Valid()
      ensures r.None? <==> forall id :: id in chats.entries ==> chats.entries[id].participantId != p
      ensures r.Some? ==> r.value.id in chats.entries && chats.entries[r.value.id] == r.value
      ensures r.Some? ==> r.value.participantId == p
      ensures r.Some? ==> forall id :: id in chats.entries && chats.entries[id].participantId == p ==> id == r.value.id
    {
      var vs := chats.Values();
      var r := FindByParticipant(vs, p);
      assert r.Some? ==> r.value.id in chats.entries && chats.entries[r.value.id] == r.value by {
        if r.Some? {
          var i :| 0 <= i < |vs| && vs[i] == r.value && FirstWith(vs, p, i);
          var id := chats.keys[i];
          assert id in chats.entries && vs[i] == chats.entries[id];
        }
      }
      r
    }

    /** `hasChat`: whether some chat has `p` as its participant. */
    function HasChat(p: int): (b: bool)
      reads this
      requires Valid()
      ensures b <==> exists id :: id in chats.entries && chats.entries[id].participantId == p
    {
      FindChat(p).Some?
    }

    /** `getChats`: every chat exactly once, in creation order. */
    function GetChats(): (r: seq<Chat>)
      reads this
      requires Valid()
      ensures |r| == |chats.entries| == |chats.keys|
      ensures forall i :: 0 <= i < |r| ==> r[i].id == chats.keys[i] && r[i] == chats.entries[chats.keys[i]]
      ensures forall c :: c in r <==> c.id in chats.entries && chats.entries[c.id] == c
      ensures forall i, j :: 0 <= i < j < |r| ==> r[i].id != r[j].id
    {
      chats.SizeIsKeyCount();
      var vs := chats.Values();
      assert forall i :: 0 <= i < |vs| ==> vs[i].id == chats.keys[i] by {
        forall i | 0 <= i < |vs| ensures vs[i].id == chats.keys[i] {
          var id := chats.keys[i];
          assert id in chats.entries && vs[i] == chats.entries[id];
        }
      }
      vs
    }

    /** The messages of chat `id`, in sending order. */
    function ChatMessages(id: int): (ms: seq<Message>)
      reads this
      requires Valid() && id in chats.entries
      ensures |ms| == |chats.entries[id].messages|
      ensures forall i :: 0 <= i < |ms| ==> ms[i].chatId == id
      ensures forall i :: 0 <= i < |ms| ==> ms[i].id in messages.entries && messages.entries[ms[i].id] == ms[i]
      ensures forall i :: 0 <= i < |ms| ==> ms[i].id == chats.entries[id].messages[i]
    {
      var c := chats.entries[id];
      assert OwnsItsMessages(c, messages.entries);
      var ms := Resolve(c.messages, messages.entries);
      assert forall i :: 0 <= i < |ms| ==> ms[i].id == c.messages[i] by {
        forall i | 0 <= i < |ms| ensures ms[i].id == c.messages[i] {
          var k := c.messages[i];
          assert k in messages.entries && ms[i] == messages.entries[k];
        }
      }
      ms
    }

    /** The ids of the chats holding an unread message. */
    ghost function UnreadChatIds(): set<int>
      reads this
      requires Valid()
    {
      assert forall id :: id in chats.entries ==> OwnsItsMessages(chats.entries[id], messages.entries);
      UnreadIds(chats.entries, messages.entries)
    }

    /** `getUnreadChatsCount`: how many chats hold a message neither read nor deleted. */
    function GetUnreadChatsCount(): (n: nat)
      reads this
      requires Valid()
      ensures n == |UnreadChatIds()|
      ensures n <= |chats.entries|
    {
      var vs := GetChats();
      SameUnreadIds(vs, chats.entries, chats.keys, messages.entries);
      CountUnreadIsSetSize(vs, messages.entries);
      CountUnread(vs, messages.entries)
    }

    /** `getLastMessages`: for each chat, in creation order, the latest text not deleted. */
    function GetLastMessages(): (r: seq<string>)
      reads this
      requires Valid()
      ensures |r| == |chats.keys|
      ensures forall i :: 0 <= i < |r| ==> r[i] == LastNonDeletedMessage(ChatMessages(chats.keys[i]))
    {
      LastTexts(GetChats())
    }

    /** The latest text not deleted of each chat of `cs`. */
    function LastTexts(cs: seq<Chat>): (r: seq<string>)
      reads this
      requires Valid()
      requires forall i :: 0 <= i < |cs| ==> cs[i].id in chats.entries
      ensures |r| == |cs|
      ensures forall i :: 0 <= i < |cs| ==> r[i] == LastNonDeletedMessage(ChatMessages(cs[i].id))
    {
      if cs == [] then []
      else
        var rest := LastTexts(cs[1..]);
        assert forall i :: 1 <= i < |cs| ==> cs[1..][i - 1] == cs[i];
        [LastNonDeletedMessage(ChatMessages(cs[0].id))] + rest
    }

    /** The messages of chat `id` that are not deleted, in sending order. */
    function VisibleMessages(id: int): (ms: seq<Message>)
      reads this
      requires Valid() && id in chats.entries
      ensures forall m :: m in ms <==> m in ChatMessages(id) && !m.isDeleted
    {
      Filter(ChatMessages(id), IsVisible)
    }

    /** The visible messages keep the sending order, each once: they are the `filter` of the chat's messages. */
    lemma VisibleInSendingOrder(id: int)
      requires Valid() && id in chats.entries
      ensures IsFilterOf(VisibleMessages(id), ChatMessages(id), IsVisible)
    {
      FilterIsFilterOf(ChatMessages(id), IsVisible);
    }

    /** `getUnreadMessages`: the messages of `p`'s chat neither read nor deleted; ChatNotFound without one. */
    function GetUnreadMessages(p: int): (r: Result<seq<Message>>)
      reads this
      requires Valid()
      ensures r.Err? <==> FindChat(p).None?
      ensures r.Err? ==> r.error == ChatNotFound
      ensures r.Ok? ==> forall m :: m in r.value <==>
        m in ChatMessages(FindChat(p).value.id) && !m.isRead && !m.isDeleted
      ensures r.Ok? ==> IsFilterOf(r.value, ChatMessages(FindChat(p).value.id), IsUnread)
    {
      match FindChat(p)
      case None => Err(ChatNotFound)
      case Some(c) =>
        FilterIsFilterOf(ChatMessages(c.id), IsUnread);
        Ok(Filter(ChatMessages(c.id), IsUnread))
    }

    /**
     * `sendMessage`: stores a new unread message under the next message id in the chat of
     * `p`, opening that chat under the next chat id when `p` has none.
     */
    method SendMessage(p: int, text: string, now: int) returns (m: Message)
      requires Valid()
      modifies this
      ensures Valid()
      ensures m == Message(old(nextMessageId), m.chatId, CurrentUserId, text, now, false, false)
      ensures m.id !in old(messages.entries) && messages == old(messages).Put(m.id, m)
      ensures nextMessageId == old(nextMessageId) + 1
      ensures old(FindChat(p)).Some? ==>
        var c := old(FindChat(p)).value;
        && m.chatId == c.id
        && chats == old(chats).Put(c.id, c.(messages := c.messages + [m.id]))
        && nextChatId == old(nextChatId)
      ensures old(FindChat(p)).None? ==>
        && m.chatId == old(nextChatId) && m.chatId !in old(chats.entries)
        && chats == old(chats).Put(m.chatId, Chat(m.chatId, p, [m.id]))
        && nextChatId == old(nextChatId) + 1
      ensures m.chatId in chats.entries && FindChat(p) == Some(chats.entries[m.chatId])
    {
      var found := FindChat(p);
      var chat: Chat;
      if found.Some? {
        chat := found.value;
      } else {
        chat := Chat(nextChatId, p, []);
        OpenChatKeepsConsistent(chats, messages, nextChatId, nextMessageId, p);
        PutTwice(chats, chat.id, chat, chat.(messages := [nextMessageId]));
        nextChatId := nextChatId + 1;
        chats := chats.Put(chat.id, chat);
      }
      m := Message(nextMessageId, chat.id, CurrentUserId, text, now, false, false);
      AddMessageKeepsConsistent(chats, messages, nextChatId, nextMessageId, chat, m);
      assert found.None? ==> chat.messages + [m.id] == [m.id];
      nextMessageId := nextMessageId + 1;
      messages := messages.Put(m.id, m);
      chats := chats.Put(chat.id, chat.(messages := chat.messages + [m.id]));
      FindChatOf(p, chat.id);
    }

    /** The chat stored for `p` is the one `FindChat(p)` finds. */
    lemma FindChatOf(p: int, id: int)
      requires Valid() && id in chats.entries && chats.entries[id].participantId == p
      ensures FindChat(p) == Some(chats.entries[id])
    {
    }

    /**
     * `filterNot { it.isDeleted }.sortedByDescending { it.timestamp }.take(count)` on chat
     * `id`: its `count` newest messages that are not deleted, newest first, ties in sending
     * order.
     */
    function Newest(id: int, count: nat): (ms: seq<Message>)
      reads this
      requires Valid() && id in chats.entries
      ensures |ms| == if count < |VisibleMessages(id)| then count else |VisibleMessages(id)|
      ensures exists sorted :: StableSortDescendingOf(sorted, VisibleMessages(id), Timestamp) && ms == Take(sorted, count)
      ensures Descending(ms, Timestamp)
      ensures forall i :: 0 <= i < |ms| ==> ms[i] in VisibleMessages(id)
      ensures forall m :: m in VisibleMessages(id) && m !in ms ==>
        forall i :: 0 <= i < |ms| ==> m.timestamp <= ms[i].timestamp
      ensures count >= |VisibleMessages(id)| ==> multiset(ms) == multiset(VisibleMessages(id))
    {
      var visible := VisibleMessages(id);
      var sorted := SortByDescending(visible, Timestamp);
      SortByDescendingIsStableSort(visible, Timestamp);
      assert |sorted| == |visible| by {
        assert |multiset(sorted)| == |multiset(visible)|;
      }
      var shown := Take(sorted, count);
      ShownAreNewest(visible, sorted, shown, count);
      shown
    }

    /** Each message `Newest` shows is the stored message under its own id. */
    lemma NewestAreStored(id: int, count: nat)
      requires Valid() && id in chats.entries
      ensures forall i :: 0 <= i < |Newest(id, count)| ==>
        Newest(id, count)[i].id in messages.entries && messages.entries[Newest(id, count)[i].id] == Newest(id, count)[i]
    {
      var shown := Newest(id, count);
      forall i | 0 <= i < |shown| ensures shown[i].id in messages.entries && messages.entries[shown[i].id] == shown[i] {
        assert shown[i] in ChatMessages(id);
      }
    }

    /** Once all of chat `id`'s visible messages are shown, every one of its messages not deleted is among them. */
    lemma ShowingAllCoversChat(id: int, count: nat)
      requires Valid() && id in chats.entries
      requires count >= |VisibleMessages(id)|
      ensures forall k :: k in IdsOf(Newest(id, count)) ==> k in messages.entries && messages.entries[k].chatId == id
      ensures forall k :: k in chats.entries[id].messages && k in messages.entries && !messages.entries[k].isDeleted ==>
        k in IdsOf(Newest(id, count))
    {
      var shown := Newest(id, count);
      var chat := chats.entries[id];
      forall k | k in IdsOf(shown) ensures k in messages.entries && messages.entries[k].chatId == id {
        var i :| 0 <= i < |shown| && shown[i].id == k;
        assert shown[i] in ChatMessages(id);
      }
      forall k | k in chat.messages && k in messages.entries && !messages.entries[k].isDeleted
        ensures k in IdsOf(shown)
      {
        var j :| 0 <= j < |chat.messages| && chat.messages[j] == k;
        var m := ChatMessages(id)[j];
        assert m.id == k;
        assert m in VisibleMessages(id);
        assert m in multiset(shown);
        var i :| 0 <= i < |shown| && shown[i] == m;
        assert shown[i].id in IdsOf(shown);
      }
    }

    /**
     * `getMessages`: ChatNotFound without a chat for `p`, IllegalArgument for a negative
     * count; otherwise the Newest messages of that chat, each marked read in the table.
     * Reading every visible message takes the chat off the chats with unread messages.
     */
    method GetMessages(p: int, count: int) returns (r: Result<seq<Message>>)
      requires Valid()
      modifies this
      ensures Valid()
      ensures old(FindChat(p)).None? ==> r == Err(ChatNotFound) && unchanged(this)
      ensures old(FindChat(p)).Some? && count < 0 ==> r == Err(IllegalArgument) && unchanged(this)
      ensures old(FindChat(p)).Some? && count >= 0 ==>
        var id := old(FindChat(p)).value.id;
        var shown := old(Newest(id, count));
        && r == Ok(MarkedRead(shown))
        && chats == old(chats) && nextChatId == old(nextChatId) && nextMessageId == old(nextMessageId)
        && messages == LinkedMap(old(messages.keys), MarkRead(old(messages.entries), IdsOf(shown)))
        && (count >= old(|VisibleMessages(id)|) ==> UnreadChatIds() == old(UnreadChatIds()) - {id})
    {
      var found := FindChat(p);
      if found.None? {
        return Err(ChatNotFound);
      }
      if count < 0 {
        return Err(IllegalArgument);
      }
      var id := found.value.id;
      var shown := Newest(id, count);
      NewestAreStored(id, count);
      if count >= |VisibleMessages(id)| {
        ShowingAllCoversChat(id, count);
        ReadingChatClearsIt(chats.entries, messages.entries, id, IdsOf(shown));
      }
      var out := MarkAllRead(shown);
      r := Ok(out);
    }

    /**
     * `onEach { it.isRead = true }.toList()`: marks each of `shown` read, in order, and
     * returns them as marked.
     */
    method MarkAllRead(shown: seq<Message>) returns (out: seq<Message>)
      requires Valid()
      requires forall i :: 0 <= i < |shown| ==> shown[i].id in messages.entries && messages.entries[shown[i].id] == shown[i]
      modifies this
      ensures Valid()
      ensures out == MarkedRead(shown)
      ensures messages == LinkedMap(old(messages.keys), MarkRead(old(messages.entries), IdsOf(shown)))
      ensures chats == old(chats) && nextChatId == old(nextChatId) && nextMessageId == old(nextMessageId)
    {
      ghost var table := messages.entries;
      MarkReadKeepsConsistent(chats, messages, nextChatId, nextMessageId, IdsOf(shown));
      out := [];
      var i := 0;
      while i < |shown|
        invariant 0 <= i <= |shown|
        invariant out == MarkedRead(shown[..i])
        invariant messages.Valid()
        invariant messages == LinkedMap(old(messages.keys), MarkRead(table, IdsOf(shown[..i])))
        invariant chats == old(chats) && nextChatId == old(nextChatId) && nextMessageId == old(nextMessageId)
      {
        var m := shown[i];
        ReadOneMore(table, shown, i);
        messages := messages.Put(m.id, m.(isRead := true));
        out := out + [m.(isRead := true)];
        i := i + 1;
      }
      assert shown[..i] == shown;
    }

    /** `deleteMessage`: flags the message deleted, again if it already was; MessageNotFound without one. */
    method DeleteMessage(messageId: int) returns (r: Result<bool>)
      requires Valid()
      modifies this
      ensures Valid()
      ensures messageId !in old(messages.entries) ==> r == Err(MessageNotFound) && unchanged(this)
      ensures messageId in old(messages.entries) ==>
        && r == Ok(true)
        && messages == old(messages).Put(messageId, old(messages.entries[messageId]).(isDeleted := true))
        && chats == old(chats) && nextChatId == old(nextChatId) && nextMessageId == old(nextMessageId)
    {
      if messageId !in messages.entries {
        return Err(MessageNotFound);
      }
      var m := messages.entries[messageId];
      ReplaceMessageKeepsConsistent(chats, messages, nextChatId, nextMessageId, m.(isDeleted := true));
      messages := messages.Put(messageId, m.(isDeleted := true));
      r := Ok(true);
    }

    /** `editMessage`: replaces the text; MessageNotFound for an unknown or a deleted message. */
    method EditMessage(messageId: int, newText: string) returns (r: Result<bool>)
      requires Valid()
      modifies this
      ensures Valid()
      ensures messageId !in old(messages.entries) || old(messages.entries[messageId].isDeleted) ==>
        r == Err(MessageNotFound) && unchanged(this)
      ensures messageId in old(messages.entries) && !old(messages.entries[messageId].isDeleted) ==>
        && r == Ok(true)
        && messages == old(messages).Put(messageId, old(messages.entries[messageId]).(text := newText))
        && chats == old(chats) && nextChatId == old(nextChatId) && nextMessageId == old(nextMessageId)
    {
      if messageId !in messages.entries {
        return Err(MessageNotFound);
      }
      var m := messages.entries[messageId];
      if m.isDeleted {
        return Err(MessageNotFound);
      }
      ReplaceMessageKeepsConsistent(chats, messages, nextChatId, nextMessageId, m.(text := newText));
      messages := messages.Put(messageId, m.(text := newText));
      r := Ok(true);
    }

    /**
     * `deleteChat`: removes the chat of `p` and every message naming it; ChatNotFound without
     * one. Afterwards `p` has no chat.
     */
    method DeleteChat(p: int) returns (r: Result<bool>)
      requires Valid()
      modifies this
      ensures Valid()
      ensures old(FindChat(p)).None? ==> r == Err(ChatNotFound) && unchanged(this)
      ensures old(FindChat(p)).Some? ==>
        var id := old(FindChat(p)).value.id;
        && r == Ok(true)
        && chats == old(chats).Remove(id)
        && messages == old(messages).RemoveKeys(MessagesOfChat(old(messages.entries), id))
        && nextChatId == old(nextChatId) && nextMessageId == old(nextMessageId)
      ensures FindChat(p).None?
    {
      var found := FindChat(p);
      if found.None? {
        return Err(ChatNotFound);
      }
      var id := found.value.id;
      ghost var before := messages;
      RemoveChatKeepsConsistent(chats, messages, nextChatId, nextMessageId, id);
      var vs := messages.Values();
      var doomed := Filter(vs, (m: Message) => m.chatId == id);
      DoomedIds(before, id, doomed);
      RemoveAll(doomed);
      chats := chats.Remove(id);
      r := Ok(true);
    }

    /** `forEach { messages.remove(it.id) }`: removes the messages of `doomed` one by one. */
    method RemoveAll(doomed: seq<Message>)
      requires messages.Valid()
      modifies this
      ensures messages == old(messages).RemoveKeys(IdsOf(doomed))
      ensures chats == old(chats) && nextChatId == old(nextChatId) && nextMessageId == old(nextMessageId)
    {
      ghost var before := messages;
      assert before.RemoveKeys(IdsOf(doomed[..0])) == before by {
        assert IdsOf(doomed[..0]) == {};
        assert before.entries - {} == before.entries;
      }
      var i := 0;
      while i < |doomed|
        invariant 0 <= i <= |doomed|
        invariant messages == before.RemoveKeys(IdsOf(doomed[..i]))
        invariant chats == old(chats)
        invariant nextChatId == old(nextChatId) && nextMessageId == old(nextMessageId)
      {
        RemoveKeysTwice(before, IdsOf(doomed[..i]), {doomed[i].id});
        IdsOfStep(doomed, i);
        messages := messages.Remove(doomed[i].id);
        i := i + 1;
      }
      assert doomed[..i] == doomed;
    }

    /** `clear`: no chats, no messages, both counters back to 1. */
    method Clear()
      modifies this
      ensures Valid()
      ensures chats == Empty() && messages == Empty() && nextChatId == 1 && nextMessageId == 1
    {
      chats := Empty();
      messages := Empty();
      nextChatId := 1;
      nextMessageId := 1;
    }
  }

  /** Marking the next shown message read extends both the table update and the returned list by one. */
  lemma ReadOneMore(table: map<int, Message>, shown: seq<Message>, i: int)
    requires 0 <= i < |shown|
    requires shown[i].id in table && table[shown[i].id] == shown[i]
    ensures MarkRead(table, IdsOf(shown[..i]))[shown[i].id := shown[i].(isRead := true)]
      == MarkRead(table, IdsOf(shown[..i + 1]))
    ensures MarkedRead(shown[..i + 1]) == MarkedRead(shown[..i]) + [shown[i].(isRead := true)]
  {
    IdsOfStep(shown, i);
  }

  /** The messages gathered for removal are exactly those naming chat `id`. */
  lemma DoomedIds(m: LinkedMap<Message>, id: int, doomed: seq<Message>)
    requires m.Valid()
    requires forall k :: k in m.entries ==> m.entries[k].id == k
    requires forall i :: 0 <= i < |doomed| ==> doomed[i] in m.Values() && doomed[i].chatId == id
    requires forall i :: 0 <= i < |m.Values()| && m.Values()[i].chatId == id ==> m.Values()[i] in doomed
    ensures IdsOf(doomed) == MessagesOfChat(m.entries, id)
  {
    var vs := m.Values();
    forall k | k in IdsOf(doomed) ensures k in MessagesOfChat(m.entries, id) {
      var i :| 0 <= i < |doomed| && doomed[i].id == k;
      var j :| 0 <= j < |vs| && vs[j] == doomed[i];
      var key := m.keys[j];
      assert key in m.entries && vs[j] == m.entries[key];
    }
    forall k | k in MessagesOfChat(m.entries, id) ensures k in IdsOf(doomed) {
      var x := m.entries[k];
      var j :| 0 <= j < |m.keys| && m.keys[j] == k;
      assert vs[j] == x;
      var i :| 0 <= i < |doomed| && doomed[i] == x;
    }
  }

  /**
   * The first `count` of the messages sorted newest first are visible messages, in that
   * order, at least as new as every visible message left out.
   */
  lemma ShownAreNewest(visible: seq<Message>, sorted: seq<Message>, shown: seq<Message>, count: nat)
    requires StableSortDescendingOf(sorted, visible, Timestamp) && multiset(sorted) == multiset(visible)
    requires shown == Take(sorted, count)
    ensures Descending(shown, Timestamp)
    ensures forall i :: 0 <= i < |shown| ==> shown[i] in visible
    ensures forall m :: m in visible && m !in shown ==> forall i :: 0 <= i < |shown| ==> m.timestamp <= shown[i].timestamp
    ensures count >= |visible| ==> multiset(shown) == multiset(visible)
  {
    assert |sorted| == |visible| by {
      assert |multiset(sorted)| == |multiset(visible)|;
    }
    var n := if count < |sorted| then count else |sorted|;
    assert shown == sorted[..n];
    forall i | 0 <= i < |shown| ensures shown[i] in visible {
      assert shown[i] in multiset(sorted);
    }
    forall m | m in visible && m !in shown
      ensures forall i :: 0 <= i < |shown| ==> m.timestamp <= shown[i].timestamp
    {
      assert m in multiset(sorted);
      PrefixOfDescendingIsGreatest(sorted, Timestamp, n, m);
    }
  }

  /** Once a chat is deleted its participant has no chat, and its messages are gone even by id. */
  method DeletedChatForgetsMessages(s: ChatService, p: int, messageId: int)
    returns (deleted: Result<bool>, after: Result<bool>)
    requires s.Valid() && s.FindChat(p).Some?
    requires messageId in s.messages.entries && s.messages.entries[messageId].chatId == s.FindChat(p).value.id
    modifies s
    ensures deleted == Ok(true) && after == Err(MessageNotFound)
    ensures s.Valid() && !s.HasChat(p)
  {
    deleted := s.DeleteChat(p);
    after := s.DeleteMessage(messageId);
  }

  /** Two messages sent at the same instant keep their sending order when sorted newest first. */
  lemma TiedPairKeepsSendingOrder(a: Message, b: Message)
    requires a.timestamp == b.timestamp
    ensures SortByDescending([a, b], Timestamp) == [a, b]
  {
    assert [a, b][1..] == [b];
    assert SortBy([b], Negated(Timestamp)) == [b] by {
      assert [b][1..] == [];
    }
  }

  /** `clear`, then two messages to participant 2 at the same instant. */
  method TwoMessagesToOne(s: ChatService, now: int) returns (m1: Message, m2: Message)
    modifies s
    ensures s.Valid()
    ensures m1 == Message(1, 1, CurrentUserId, "first", now, false, false)
    ensures m2 == Message(2, 1, CurrentUserId, "second", now, false, false)
    ensures s.chats.entries == map[1 := Chat(1, 2, [1, 2])]
    ensures s.messages.entries == map[1 := m1, 2 := m2]
    ensures s.nextChatId == 2 && s.nextMessageId == 3
  {
    m1 := FirstMessageAfterClear(s, 2, "first", now);
    assert 1 in s.chats.entries && s.chats.entries[1].participantId == 2;
    assert s.FindChat(2) == Some(Chat(1, 2, [1]));
    m2 := s.SendMessage(2, "second", now);
    assert [1] + [m2.id] == [1, 2];
  }

  /** `clear`, then one message to `p`: message 1 opens chat 1 for `p`. */
  method FirstMessageAfterClear(s: ChatService, p: int, text: string, now: int) returns (m: Message)
    modifies s
    ensures s.Valid()
    ensures m == Message(1, 1, CurrentUserId, text, now, false, false)
    ensures s.chats.entries == map[1 := Chat(1, p, [1])]
    ensures s.messages.entries == map[1 := m]
    ensures s.nextChatId == 2 && s.nextMessageId == 2
  {
    s.Clear();
    assert s.FindChat(p).None?;
    m := s.SendMessage(p, text, now);
  }

  /** After `clear`, messages are numbered 1, 2, 3 and chats 1, 2 in the order they are made. */
  method NumberingAfterClear(s: ChatService, now: int) returns (m1: Message, m2: Message, m3: Message)
    modifies s
    ensures m1.id == 1 && m2.id == 2 && m3.id == 3
    ensures m1.chatId == 1 && m2.chatId == 1 && m3.chatId == 2
  {
    m1, m2 := TwoMessagesToOne(s, now);
    assert s.FindChat(3).None?;
    m3 := s.SendMessage(3, "third", now);
  }

  /** `clear`, then one message each to participants 2 and 3. */
  method OneMessageEachToTwo(s: ChatService, now: int) returns (a: Message, b: Message)
    modifies s
    ensures s.Valid()
    ensures a.chatId == 1 && b.chatId == 2
    ensures s.chats.entries == map[1 := Chat(1, 2, [1]), 2 := Chat(2, 3, [2])]
    ensures s.messages.entries == map[1 := a, 2 := b]
    ensures s.nextChatId == 3 && s.nextMessageId == 3
    ensures !a.isRead && !a.isDeleted && !b.isRead && !b.isDeleted
  {
    s.Clear();
    assert s.FindChat(2).None?;
    a := s.SendMessage(2, "to 2", now);
    assert s.chats.entries == map[1 := Chat(1, 2, [1])];
    assert s.FindChat(3).None?;
    b := s.SendMessage(3, "to 3", now);
  }

  /** Two chats, each holding one unread message, are both unread. */
  lemma TwoUnreadChats(chats: map<int, Chat>, table: map<int, Message>, a: Message, b: Message)
    requires chats == map[1 := Chat(1, 2, [1]), 2 := Chat(2, 3, [2])] && table == map[1 := a, 2 := b]
    requires !a.isRead && !a.isDeleted && !b.isRead && !b.isDeleted
    ensures forall id :: id in chats ==> AllStored(chats[id].messages, table)
    ensures UnreadIds(chats, table) == {1, 2}
  {
    assert Resolve([1], table)[0] == a;
    assert Resolve([2], table)[0] == b;
  }

  /** `clear`, then one message each to participants 2, 3 and 4: chats 1, 2 and 3 in that order. */
  method OneMessageEachToThree(s: ChatService, now: int) returns (a: Message, b: Message, c: Message)
    modifies s
    ensures s.Valid()
    ensures a.chatId == 1 && b.chatId == 2 && c.chatId == 3
    ensures s.chats.entries == map[1 := Chat(1, 2, [1]), 2 := Chat(2, 3, [2]), 3 := Chat(3, 4, [3])]
    ensures s.messages.entries == map[1 := a, 2 := b, 3 := c]
    ensures !a.isRead && !a.isDeleted && !b.isRead && !b.isDeleted && !c.isRead && !c.isDeleted
  {
    a, b := OneMessageEachToTwo(s, now);
    assert s.FindChat(4).None?;
    c := s.SendMessage(4, "to 4", now);
  }

  /** Three chats, each holding one unread message, are all unread. */
  lemma ThreeUnreadChats(chats: map<int, Chat>, table: map<int, Message>, a: Message, b: Message, c: Message)
    requires chats == map[1 := Chat(1, 2, [1]), 2 := Chat(2, 3, [2]), 3 := Chat(3, 4, [3])]
    requires table == map[1 := a, 2 := b, 3 := c]
    requires !a.isRead && !a.isDeleted && !b.isRead && !b.isDeleted && !c.isRead && !c.isDeleted
    ensures forall id :: id in chats ==> AllStored(chats[id].messages, table)
    ensures UnreadIds(chats, table) == {1, 2, 3}
  {
    assert Resolve([1], table)[0] == a;
    assert Resolve([2], table)[0] == b;
    assert Resolve([3], table)[0] == c;
  }

  /** Three fresh chats with one message each make an unread count of three. */
  method ThreeUnreadCount(s: ChatService, now: int) returns (n: nat)
    modifies s
    ensures n == 3
  {
    var a, b, c := OneMessageEachToThree(s, now);
    ThreeUnreadChats(s.chats.entries, s.messages.entries, a, b, c);
    assert s.UnreadChatIds() == {1, 2, 3};
    assert |{1, 2, 3}| == 3 by {
      assert {1, 2, 3} == {1, 2} + {3};
    }
    n := s.GetUnreadChatsCount();
  }

  /** Two fresh chats, one message each, make an unread count of two. */
  method TwoUnreadCount(s: ChatService, now: int) returns (n: nat)
    modifies s
    ensures n == 2
    ensures s.Valid() && s.chats.entries == map[1 := Chat(1, 2, [1]), 2 := Chat(2, 3, [2])]
  {
    var a, b := OneMessageEachToTwo(s, now);
    TwoUnreadChats(s.chats.entries, s.messages.entries, a, b);
    assert s.UnreadChatIds() == {1, 2};
    assert |{1, 2}| == 2 by {
      assert {1, 2} == {1} + {2};
    }
    n := s.GetUnreadChatsCount();
  }

  /** Two fresh chats both count as unread; reading each of them in full leaves none unread. */
  method ReadingEveryChat(s: ChatService, now: int) returns (before: nat, after: nat)
    modifies s
    ensures before == 2 && after == 0
  {
    before := TwoUnreadCount(s, now);
    ReadBothChats(s);
    after := s.GetUnreadChatsCount();
  }

  /** Reading chats 1 and 2 in full, when they are all there is, leaves no chat unread. */
  method ReadBothChats(s: ChatService)
    requires s.Valid() && s.chats.entries.Keys == {1, 2}
    requires s.chats.entries[1].participantId == 2 && s.chats.entries[2].participantId == 3
    requires |s.chats.entries[1].messages| <= 10 && |s.chats.entries[2].messages| <= 10
    modifies s
    ensures s.Valid() && s.UnreadChatIds() == {}
  {
    ReadWholeChat(s, 2, 1);
    ReadWholeChat(s, 3, 2);
    assert s.UnreadChatIds() <= s.chats.entries.Keys;
  }

  /** `getMessages(p, 10)` on a chat of at most ten messages takes it off the unread chats. */
  method ReadWholeChat(s: ChatService, p: int, id: int)
    requires s.Valid() && id in s.chats.entries && s.chats.entries[id].participantId == p
    requires |s.chats.entries[id].messages| <= 10
    modifies s
    ensures s.Valid() && s.chats == old(s.chats)
    ensures s.UnreadChatIds() == old(s.UnreadChatIds()) - {id}
  {
    assert s.FindChat(p).value.id == id;
    var r := s.GetMessages(p, 10);
  }

  /**
   * Of two messages sent at the same instant, reading one reads the first sent; the second
   * is then the only unread message of the chat.
   */
  method SimultaneousMessages(s: ChatService, now: int)
    returns (m1: Message, m2: Message, shown: Result<seq<Message>>, unread: Result<seq<Message>>)
    modifies s
    ensures shown == Ok([m1.(isRead := true)])
    ensures unread == Ok([m2])
  {
    m1, m2 := TwoMessagesToOne(s, now);
    shown := ReadOneOfTied(s, m1, m2);
    var after := [m1.(isRead := true), m2];
    assert s.ChatMessages(1) == after;
    assert s.FindChat(2) == Some(Chat(1, 2, [1, 2]));
    unread := s.GetUnreadMessages(2);
    FilterOfIsUnique(unread.value, after, IsUnread);
    assert after[1..] == [m2] && [m2][1..] == [];
    assert Filter(after, IsUnread) == [m2];
  }

  /** `getMessages(2, 1)` on a chat holding two messages with equal timestamps reads the first. */
  method ReadOneOfTied(s: ChatService, m1: Message, m2: Message) returns (shown: Result<seq<Message>>)
    requires s.Valid()
    requires s.chats.entries == map[1 := Chat(1, 2, [1, 2])] && s.messages.entries == map[1 := m1, 2 := m2]
    requires m1.timestamp == m2.timestamp && !m1.isDeleted && !m2.isDeleted
    modifies s
    ensures s.Valid() && s.chats == old(s.chats)
    ensures shown == Ok([m1.(isRead := true)])
    ensures s.messages.entries == map[1 := m1.(isRead := true), 2 := m2]
  {
    NewestOfTiedPair(s, m1, m2);
    assert MarkedRead([m1]) == [m1.(isRead := true)];
    assert IdsOf([m1]) == {1};
    ghost var table := s.messages.entries;
    s.FindChatOf(2, 1);
    shown := s.GetMessages(2, 1);
    MarkFirstOfTwo(table, m1, m2);
  }

  /** Of two messages with equal timestamps in chat 1, the newest one is the first sent. */
  lemma NewestOfTiedPair(s: ChatService, m1: Message, m2: Message)
    requires s.Valid()
    requires s.chats.entries == map[1 := Chat(1, 2, [1, 2])] && s.messages.entries == map[1 := m1, 2 := m2]
    requires m1.timestamp == m2.timestamp && !m1.isDeleted && !m2.isDeleted
    ensures s.Newest(1, 1) == [m1]
  {
    assert s.ChatMessages(1) == [m1, m2];
    assert s.VisibleMessages(1) == [m1, m2] by {
      assert [m1, m2][1..] == [m2];
    }
    TiedPairKeepsSendingOrder(m1, m2);
  }

  /** Marking message 1 read in a table of messages 1 and 2. */
  lemma MarkFirstOfTwo(table: map<int, Message>, m1: Message, m2: Message)
    requires table == map[1 := m1, 2 := m2]
    ensures MarkRead(table, {1}) == map[1 := m1.(isRead := true), 2 := m2]
  {
  }
}

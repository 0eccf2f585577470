/**
 * The chat tables and what the chat endpoints compute from them: which chats
 * a user is in and with whom, the search create_chat makes for an existing
 * chat, the summaries get_chats lists, the read-on-fetch update of
 * get_messages and the order it returns messages in.
 */
module Chats {
  import opened Common
  import opened Models
  import opened Schemas
  import Sorting

  /** The users of the two participant rows of the k-th chat. */
  function Members(participants: seq<Participant>, k: nat): set<nat>
    requires 2 * k + 1 < |participants|
  {
    {participants[2 * k].userId, participants[2 * k + 1].userId}
  }

  /**
   * The chat tables as create_chat leaves them: chat ids are unique; the k-th
   * chat owns exactly the participant rows 2k and 2k+1, which were inserted
   * with it; and no two chats have the same members.
   */
  predicate ChatsValid(chats: seq<Chat>, participants: seq<Participant>)
  {
    (forall i, j :: 0 <= i < j < |chats| ==> chats[i].id != chats[j].id) &&
    |participants| == 2 * |chats| &&
    (forall r :: 0 <= r < |participants| ==> participants[r].chatId == chats[r / 2].id) &&
    (forall i, j :: 0 <= i < j < |chats| ==> Members(participants, i) != Members(participants, j))
  }

  /** Every participant row names a user of the user table. */
  predicate ParticipantsKnown(users: seq<User>, participants: seq<Participant>)
  {
    forall r :: 0 <= r < |participants| ==> HasUserId(users, participants[r].userId)
  }

  lemma KnownMember(users: seq<User>, participants: seq<Participant>, chatId: string, u: nat)
    requires ParticipantsKnown(users, participants)
    requires Participant(chatId, u) in participants
    ensures HasUserId(users, u)
  {
    var r :| 0 <= r < |participants| && participants[r] == Participant(chatId, u);
  }

  /** A participant row of a chat belongs to that chat's pair of rows. */
  lemma MemberOfChat(chats: seq<Chat>, participants: seq<Participant>, k: nat, u: nat)
    requires ChatsValid(chats, participants) && k < |chats|
    requires Participant(chats[k].id, u) in participants
    ensures u in Members(participants, k)
  {
    var r :| 0 <= r < |participants| && participants[r] == Participant(chats[k].id, u);
    assert chats[r / 2].id == chats[k].id;
    assert r / 2 == k;
  }

  /** The position of the chat a participant row refers to. */
  lemma ChatOf(chats: seq<Chat>, participants: seq<Participant>, chatId: string, u: nat) returns (k: nat)
    requires ChatsValid(chats, participants)
    requires Participant(chatId, u) in participants
    ensures k < |chats| && chats[k].id == chatId && u in Members(participants, k)
  {
    var r :| 0 <= r < |participants| && participants[r] == Participant(chatId, u);
    k := r / 2;
    MemberOfChat(chats, participants, k, u);
  }

  /** At most one chat contains any given pair of distinct users. */
  lemma {:induction false} AtMostOneChatPerPair(chats: seq<Chat>, participants: seq<Participant>,
                                               a: nat, b: nat, c1: string, c2: string)
    requires ChatsValid(chats, participants) && a != b
    requires Participant(c1, a) in participants && Participant(c1, b) in participants
    requires Participant(c2, a) in participants && Participant(c2, b) in participants
    ensures c1 == c2
  {
    var k1 := ChatOf(chats, participants, c1, a);
    MemberOfChat(chats, participants, k1, b);
    var k2 := ChatOf(chats, participants, c2, a);
    MemberOfChat(chats, participants, k2, b);
    assert Members(participants, k1) == {a, b} == Members(participants, k2);
  }

  /**
   * The search create_chat makes: among `callerId`'s participant rows from
   * position `from` on, in table order, the first whose chat also has a row
   * for `recipientId`.
   */
  function ExistingChat(participants: seq<Participant>, callerId: nat, recipientId: nat, from: nat): (r: Option<string>)
    requires from <= |participants|
    ensures r.Some? ==> Participant(r.value, callerId) in participants[from..]
    ensures r.Some? ==> Participant(r.value, recipientId) in participants
    ensures r.None? ==> forall c :: Participant(c, callerId) in participants[from..] ==>
      Participant(c, recipientId) !in participants
    decreases |participants| - from
  {
    if from == |participants| then None
    else
      var row := participants[from];
      assert participants[from..] == [row] + participants[from + 1..];
      if row.userId == callerId && Participant(row.chatId, recipientId) in participants then Some(row.chatId)
      else ExistingChat(participants, callerId, recipientId, from + 1)
  }

  /** When a chat contains both of two distinct users, the search from either side finds exactly it. */
  lemma {:induction false} ExistingChatFindsThePair(chats: seq<Chat>, participants: seq<Participant>,
                                                    a: nat, b: nat, c: string)
    requires ChatsValid(chats, participants) && a != b
    requires Participant(c, a) in participants && Participant(c, b) in participants
    ensures ExistingChat(participants, a, b, 0) == Some(c)
  {
    assert participants[0..] == participants;
    var r := ExistingChat(participants, a, b, 0);
    if r.None? {
      assert false;
    }
    AtMostOneChatPerPair(chats, participants, a, b, r.value, c);
  }

  /**
   * Asked for a chat with themselves, a user gets back a chat of theirs
   * whenever they have any: the caller's own row satisfies the recipient test.
   */
  lemma {:induction false} SelfLookup(participants: seq<Participant>, a: nat)
    ensures ExistingChat(participants, a, a, 0).Some? <==> exists c :: Participant(c, a) in participants
  {
    assert participants[0..] == participants;
    if c :| Participant(c, a) in participants {
      assert Participant(c, a) in participants[0..];
    }
  }

  /**
   * Adding a chat with rows for the caller and the recipient, when the search
   * found none, keeps the chat tables valid: in particular no two chats get
   * the same members (also when the recipient is the caller).
   */
  lemma {:induction false} NewChatKeepsValid(chats: seq<Chat>, participants: seq<Participant>,
                                             a: nat, b: nat, chat: Chat)
    requires ChatsValid(chats, participants)
    requires ExistingChat(participants, a, b, 0).None?
    requires forall k :: 0 <= k < |chats| ==> chats[k].id != chat.id
    ensures ChatsValid(chats + [chat], participants + [Participant(chat.id, a), Participant(chat.id, b)])
  {
    var chats' := chats + [chat];
    var participants' := participants + [Participant(chat.id, a), Participant(chat.id, b)];
    var n := |chats|;
    assert participants[0..] == participants;
    forall i, j | 0 <= i < j < |chats'| ensures chats'[i].id != chats'[j].id {
      assert chats'[i] == chats[i];
      if j < n {
        assert chats'[j] == chats[j];
      }
    }
    forall r | 0 <= r < |participants'| ensures participants'[r].chatId == chats'[r / 2].id {
      if r < |participants| {
        assert participants'[r] == participants[r];
      }
    }
    forall i, j | 0 <= i < j < |chats'| ensures Members(participants', i) != Members(participants', j) {
      assert participants'[2 * i] == participants[2 * i] && participants'[2 * i + 1] == participants[2 * i + 1];
      assert Members(participants', i) == Members(participants, i);
      if j < n {
        assert participants'[2 * j] == participants[2 * j] && participants'[2 * j + 1] == participants[2 * j + 1];
        assert Members(participants', j) == Members(participants, j);
      } else {
        assert Members(participants', j) == {a, b};
      }
    }
  }

  /**
   * Once a chat between two distinct users has been added, the search finds
   * it from either side: asking again, in either direction, returns it.
   */
  lemma {:induction false} NewChatFoundFromEitherSide(chats: seq<Chat>, participants: seq<Participant>,
                                                      a: nat, b: nat, chat: Chat)
    requires ChatsValid(chats, participants) && a != b
    requires ExistingChat(participants, a, b, 0).None?
    requires forall k :: 0 <= k < |chats| ==> chats[k].id != chat.id
    ensures var participants' := participants + [Participant(chat.id, a), Participant(chat.id, b)];
      ExistingChat(participants', a, b, 0) == Some(chat.id) &&
      ExistingChat(participants', b, a, 0) == Some(chat.id)
  {
    var participants' := participants + [Participant(chat.id, a), Participant(chat.id, b)];
    NewChatKeepsValid(chats, participants, a, b, chat);
    assert participants'[|participants|] == Participant(chat.id, a);
    assert participants'[|participants| + 1] == Participant(chat.id, b);
    ExistingChatFindsThePair(chats + [chat], participants', a, b, chat.id);
    ExistingChatFindsThePair(chats + [chat], participants', b, a, chat.id);
  }

  /**
   * The user ids of chat `chatId`'s rows other than the caller's:
   * `filter(chat_id == chatId, user_id != callerId).all()`.
   */
  function OthersIn(participants: seq<Participant>, chatId: string, callerId: nat): (r: seq<nat>)
    ensures forall u :: u in r <==> u != callerId && Participant(chatId, u) in participants
  {
    if participants == [] then []
    else
      var row := participants[0];
      assert participants == [row] + participants[1..];
      (if row.chatId == chatId && row.userId != callerId then [row.userId] else [])
        + OthersIn(participants[1..], chatId, callerId)
  }

  /** `db.query(Message).filter(Message.chat_id == chatId).all()`, in table order. */
  function ChatMessages(messages: seq<Message>, chatId: string): (r: seq<Message>)
    ensures forall m :: m in r <==> m in messages && m.chatId == chatId
    ensures forall m :: multiset(r)[m] == if m.chatId == chatId then multiset(messages)[m] else 0
  {
    if messages == [] then []
    else
      assert messages == [messages[0]] + messages[1..];
      (if messages[0].chatId == chatId then [messages[0]] else []) + ChatMessages(messages[1..], chatId)
  }

  /** A message of `chatId` someone other than `reader` sent, that is not yet read. */
  predicate UnreadFor(m: Message, chatId: string, reader: nat)
  {
    m.chatId == chatId && m.senderId != reader && !m.read
  }

  ghost predicate HasUnread(messages: seq<Message>, chatId: string, reader: nat)
  {
    exists m :: m in messages && UnreadFor(m, chatId, reader)
  }

  /** The `count()` of get_chats' unread query. */
  function CountUnread(messages: seq<Message>, chatId: string, reader: nat): (n: nat)
    ensures n <= |messages|
    ensures n > 0 <==> HasUnread(messages, chatId, reader)
  {
    if messages == [] then 0
    else
      assert messages == [messages[0]] + messages[1..];
      (if UnreadFor(messages[0], chatId, reader) then 1 else 0) + CountUnread(messages[1..], chatId, reader)
  }

  function Time(m: Message): int { m.timestamp }

  /**
   * `order_by(Message.timestamp.desc()).first()` on a chat's messages: the
   * newest message of the chat, and of several equally new ones the one
   * inserted first.
   */
  function LastMessage(messages: seq<Message>, chatId: string): (r: Option<Message>)
    ensures r.None? <==> forall m :: m in messages ==> m.chatId != chatId
    ensures r.Some? ==> r.value in messages && r.value.chatId == chatId
    ensures r.Some? ==> forall m :: m in messages && m.chatId == chatId ==> m.timestamp <= r.value.timestamp
  {
    if messages == [] then None
    else
      var m := messages[0];
      var rest := LastMessage(messages[1..], chatId);
      assert messages == [m] + messages[1..];
      if m.chatId == chatId && (rest.None? || rest.value.timestamp <= m.timestamp) then Some(m) else rest
  }

  /** The summary get_chats builds for one chat, whose other member is `otherId`. */
  function Summary(users: seq<User>, messages: seq<Message>, chatId: string, callerId: nat, otherId: nat): ChatView
    requires HasUserId(users, otherId)
  {
    var other := UserById(users, otherId);
    var last := LastMessage(messages, chatId);
    ChatView(
      chatId,
      NatToString(other.id),
      other.name,
      if last.Some? then Some(last.value.content) else None,
      if last.Some? then Some(last.value.timestamp) else None,
      CountUnread(messages, chatId, callerId) > 0)
  }

  /**
   * The chat list of get_chats after its loop has visited the first `n`
   * participant rows: one summary for each of the caller's rows whose chat
   * has another member, in table order.
   */
  function ChatList(users: seq<User>, participants: seq<Participant>, messages: seq<Message>,
                    callerId: nat, n: nat): seq<ChatView>
    requires n <= |participants| && ParticipantsKnown(users, participants)
  {
    if n == 0 then []
    else
      var before := ChatList(users, participants, messages, callerId, n - 1);
      var row := participants[n - 1];
      if row.userId != callerId then before
      else
        var others := OthersIn(participants, row.chatId, callerId);
        if others == [] then before
        else
          KnownMember(users, participants, row.chatId, others[0]);
          before + [Summary(users, messages, row.chatId, callerId, others[0])]
  }

  ghost function ChatIds(list: seq<ChatView>): set<string>
  {
    set s | s in list :: s.id
  }

  /** The chats get_chats lists: the caller is in them and so is someone else. */
  ghost predicate SharedChat(participants: seq<Participant>, chatId: string, callerId: nat)
  {
    Participant(chatId, callerId) in participants &&
    exists u :: u != callerId && Participant(chatId, u) in participants
  }

  lemma {:induction false} ChatListIdsUpTo(users: seq<User>, participants: seq<Participant>, messages: seq<Message>,
                                           callerId: nat, n: nat)
    requires n <= |participants| && ParticipantsKnown(users, participants)
    ensures forall c :: c in ChatIds(ChatList(users, participants, messages, callerId, n)) <==>
      Participant(c, callerId) in participants[..n] && SharedChat(participants, c, callerId)
  {
    if n > 0 {
      ChatListIdsUpTo(users, participants, messages, callerId, n - 1);
      assert participants[..n] == participants[..n - 1] + [participants[n - 1]];
      var row := participants[n - 1];
      if row.userId == callerId {
        var others := OthersIn(participants, row.chatId, callerId);
        if others != [] {
          assert others[0] in others;
        }
      }
    }
  }

  /**
   * Coverage of get_chats: a chat is listed exactly when the caller has a
   * participant row in it and some other user does too.
   */
  lemma ChatListCoverage(users: seq<User>, participants: seq<Participant>, messages: seq<Message>,
                         callerId: nat, c: string)
    requires ParticipantsKnown(users, participants)
    ensures c in ChatIds(ChatList(users, participants, messages, callerId, |participants|)) <==>
      SharedChat(participants, c, callerId)
  {
    ChatListIdsUpTo(users, participants, messages, callerId, |participants|);
    assert participants[..|participants|] == participants;
  }

  /** Two rows of the same user in the same chat are that chat's only rows. */
  lemma SoloChat(chats: seq<Chat>, participants: seq<Participant>, r: nat, t: nat, u: nat)
    requires ChatsValid(chats, participants) && r < t < |participants| && participants[r] == participants[t]
    requires Participant(participants[r].chatId, u) in participants
    ensures u == participants[r].userId
  {
    assert chats[r / 2].id == chats[t / 2].id;
    var k := r / 2;
    assert t / 2 == k;
    assert Members(participants, k) == {participants[r].userId};
    MemberOfChat(chats, participants, k, u);
  }

  predicate DistinctIds(list: seq<ChatView>)
  {
    forall i, j :: 0 <= i < j < |list| ==> list[i].id != list[j].id
  }

  lemma AppendDistinct(list: seq<ChatView>, s: ChatView)
    requires DistinctIds(list) && s.id !in ChatIds(list)
    ensures DistinctIds(list + [s])
  {
    var list' := list + [s];
    forall i, j | 0 <= i < j < |list'| ensures list'[i].id != list'[j].id {
      assert list'[i] == list[i];
      if j < |list| {
        assert list'[j] == list[j];
      }
    }
  }

  /** A chat listed after `n` rows has a row of the caller's among those `n`. */
  lemma OwnEarlierRow(users: seq<User>, participants: seq<Participant>, messages: seq<Message>,
                      callerId: nat, n: nat, c: string) returns (r: nat)
    requires n <= |participants| && ParticipantsKnown(users, participants)
    requires c in ChatIds(ChatList(users, participants, messages, callerId, n))
    ensures r < n && participants[r] == Participant(c, callerId)
  {
    ChatListIdsUpTo(users, participants, messages, callerId, n);
    r :| 0 <= r < n && participants[..n][r] == Participant(c, callerId);
  }

  /**
   * When the loop reaches one of the caller's rows whose chat has another
   * member, that chat is not yet in the list: the caller's only earlier row
   * in it would make the caller its sole member.
   */
  lemma {:induction false} NotYetListed(users: seq<User>, chats: seq<Chat>, participants: seq<Participant>,
                                        messages: seq<Message>, callerId: nat, n: nat, u: nat)
    requires 0 < n <= |participants| && ParticipantsKnown(users, participants) && ChatsValid(chats, participants)
    requires participants[n - 1].userId == callerId && u != callerId
    requires Participant(participants[n - 1].chatId, u) in participants
    ensures participants[n - 1].chatId !in ChatIds(ChatList(users, participants, messages, callerId, n - 1))
  {
    var c := participants[n - 1].chatId;
    if c in ChatIds(ChatList(users, participants, messages, callerId, n - 1)) {
      var r := OwnEarlierRow(users, participants, messages, callerId, n - 1, c);
      SoloChat(chats, participants, r, n - 1, u);
      assert false;
    }
  }

  /** A chat is never listed twice: with valid chat tables the ids in the list are distinct. */
  lemma {:induction false} ChatListDistinct(users: seq<User>, chats: seq<Chat>, participants: seq<Participant>,
                                            messages: seq<Message>, callerId: nat, n: nat)
    requires n <= |participants| && ParticipantsKnown(users, participants) && ChatsValid(chats, participants)
    ensures DistinctIds(ChatList(users, participants, messages, callerId, n))
  {
    if n > 0 {
      ChatListDistinct(users, chats, participants, messages, callerId, n - 1);
      DistinctStep(users, chats, participants, messages, callerId, n);
    }
  }

  /** One more visited row keeps the listed chat ids distinct. */
  lemma DistinctStep(users: seq<User>, chats: seq<Chat>, participants: seq<Participant>,
                     messages: seq<Message>, callerId: nat, n: nat)
    requires 0 < n <= |participants| && ParticipantsKnown(users, participants) && ChatsValid(chats, participants)
    requires DistinctIds(ChatList(users, participants, messages, callerId, n - 1))
    ensures DistinctIds(ChatList(users, participants, messages, callerId, n))
  {
    var row := participants[n - 1];
    var others := OthersIn(participants, row.chatId, callerId);
    if row.userId == callerId && others != [] {
      TakeRow(users, participants, messages, callerId, n);
      NotYetListed(users, chats, participants, messages, callerId, n, others[0]);
      AppendDistinct(ChatList(users, participants, messages, callerId, n - 1),
                     Summary(users, messages, row.chatId, callerId, others[0]));
    }
  }

  /** What a summary promises about its chat, whose other member is `other`. */
  ghost predicate DescribesChat(users: seq<User>, participants: seq<Participant>, messages: seq<Message>,
                                callerId: nat, s: ChatView, other: nat)
  {
    // the recipient is another member of the chat
    other != callerId && Participant(s.id, other) in participants && HasUserId(users, other) &&
    s.recipientId == NatToString(other) && s.recipientName == UserById(users, other).name &&
    // unread iff some message of the chat from someone else is not read
    (s.unread <==> HasUnread(messages, s.id, callerId)) &&
    // the last message is absent exactly when the chat has none ...
    (s.lastMessage.None? <==> forall m :: m in messages ==> m.chatId != s.id) &&
    (s.lastMessage.None? <==> s.lastMessageTime.None?) &&
    // ... and otherwise is a message of the chat no other message of which is later
    (s.lastMessage.Some? ==> exists m :: m in messages && Latest(messages, s, m))
  }

  /** `m` is a message of the summary's chat, shown as its last one, and no message of the chat is later. */
  ghost predicate Latest(messages: seq<Message>, s: ChatView, m: Message)
  {
    m.chatId == s.id && s.lastMessage == Some(m.content) && s.lastMessageTime == Some(m.timestamp) &&
    forall m' :: m' in messages && m'.chatId == s.id ==> m'.timestamp <= m.timestamp
  }

  /** The summary of a chat the caller shares with `otherId` describes that chat. */
  lemma SummaryCorrect(users: seq<User>, participants: seq<Participant>, messages: seq<Message>,
                       callerId: nat, chatId: string, otherId: nat)
    requires otherId != callerId && Participant(chatId, otherId) in participants && HasUserId(users, otherId)
    ensures DescribesChat(users, participants, messages, callerId, Summary(users, messages, chatId, callerId, otherId), otherId)
  {
    var s := Summary(users, messages, chatId, callerId, otherId);
    var last := LastMessage(messages, chatId);
    if last.Some? {
      assert last.value in messages && Latest(messages, s, last.value);
    }
  }

  /** A row that is not the caller's, or whose chat has no one else, adds nothing to the list. */
  lemma SkipRow(users: seq<User>, participants: seq<Participant>, messages: seq<Message>, callerId: nat, n: nat, s: ChatView)
    requires 0 < n <= |participants| && ParticipantsKnown(users, participants)
    requires participants[n - 1].userId != callerId || OthersIn(participants, participants[n - 1].chatId, callerId) == []
    requires s in ChatList(users, participants, messages, callerId, n)
    ensures s in ChatList(users, participants, messages, callerId, n - 1)
  {
  }

  /** A row of the caller's in a chat with someone else adds that chat's summary. */
  lemma TakeRow(users: seq<User>, participants: seq<Participant>, messages: seq<Message>, callerId: nat, n: nat)
    requires 0 < n <= |participants| && ParticipantsKnown(users, participants)
    requires participants[n - 1].userId == callerId && OthersIn(participants, participants[n - 1].chatId, callerId) != []
    ensures var other := OthersIn(participants, participants[n - 1].chatId, callerId)[0];
      other != callerId && Participant(participants[n - 1].chatId, other) in participants && HasUserId(users, other) &&
      ChatList(users, participants, messages, callerId, n) ==
        ChatList(users, participants, messages, callerId, n - 1) + [Summary(users, messages, participants[n - 1].chatId, callerId, other)]
  {
    var others := OthersIn(participants, participants[n - 1].chatId, callerId);
    assert others[0] in others;
    KnownMember(users, participants, participants[n - 1].chatId, others[0]);
  }

  /** The `k`-th participant row is one of the caller's, in a chat with someone else, and `s` is that chat's summary. */
  ghost predicate ListedFrom(users: seq<User>, participants: seq<Participant>, messages: seq<Message>,
                             callerId: nat, k: nat, s: ChatView)
    requires k < |participants|
  {
    var row := participants[k];
    var others := OthersIn(participants, row.chatId, callerId);
    row.userId == callerId && others != [] && HasUserId(users, others[0]) &&
    s == Summary(users, messages, row.chatId, callerId, others[0])
  }

  /** Each summary of the chat list comes from one of the rows visited. */
  lemma {:induction false} ListedRow(users: seq<User>, participants: seq<Participant>, messages: seq<Message>,
                                     callerId: nat, n: nat, s: ChatView) returns (k: nat)
    requires n <= |participants| && ParticipantsKnown(users, participants)
    requires s in ChatList(users, participants, messages, callerId, n)
    ensures k < n && ListedFrom(users, participants, messages, callerId, k, s)
  {
    LastRowOrEarlier(users, participants, messages, callerId, n, s);
    if s in ChatList(users, participants, messages, callerId, n - 1) {
      k := ListedRow(users, participants, messages, callerId, n - 1, s);
    } else {
      k := n - 1;
    }
  }

  /** A summary listed after `n` rows was listed before the last of them, or comes from it. */
  lemma LastRowOrEarlier(users: seq<User>, participants: seq<Participant>, messages: seq<Message>,
                         callerId: nat, n: nat, s: ChatView)
    requires 0 < n <= |participants| && ParticipantsKnown(users, participants)
    requires s in ChatList(users, participants, messages, callerId, n)
    ensures s in ChatList(users, participants, messages, callerId, n - 1) ||
            ListedFrom(users, participants, messages, callerId, n - 1, s)
  {
    var row := participants[n - 1];
    if row.userId == callerId && OthersIn(participants, row.chatId, callerId) != [] {
      TakeRow(users, participants, messages, callerId, n);
    } else {
      SkipRow(users, participants, messages, callerId, n, s);
    }
  }

  /** Every summary in the chat list names the other member, the unread flag and the latest message correctly. */
  lemma ChatListContents(users: seq<User>, participants: seq<Participant>, messages: seq<Message>,
                         callerId: nat, n: nat, s: ChatView)
    requires n <= |participants| && ParticipantsKnown(users, participants)
    requires s in ChatList(users, participants, messages, callerId, n)
    ensures exists other: nat :: DescribesChat(users, participants, messages, callerId, s, other)
  {
    var k := ListedRow(users, participants, messages, callerId, n, s);
    var chatId := participants[k].chatId;
    var others := OthersIn(participants, chatId, callerId);
    assert others[0] in others;
    SummaryCorrect(users, participants, messages, callerId, chatId, others[0]);
  }

  /**
   * The read-on-fetch update of get_messages: every message of `chatId` that
   * someone other than `reader` sent and that is unread becomes read.
   */
  function MarkRead(messages: seq<Message>, chatId: string, reader: nat): (r: seq<Message>)
    ensures |r| == |messages|
  {
    seq(|messages|, i requires 0 <= i < |messages| =>
      if UnreadFor(messages[i], chatId, reader) then messages[i].(read := true) else messages[i])
  }

  /**
   * After the update, every message of the chat from someone other than the
   * reader is read; read flags only go from false to true; nothing but the
   * flag changes; the reader's own messages and other chats' messages keep
   * their flag.
   */
  lemma MarkReadEffect(messages: seq<Message>, chatId: string, reader: nat)
    ensures var after := MarkRead(messages, chatId, reader);
      forall i :: 0 <= i < |messages| ==>
        (after[i].chatId == chatId && after[i].senderId != reader ==> after[i].read) &&
        (messages[i].read ==> after[i].read) &&
        after[i].(read := messages[i].read) == messages[i] &&
        (messages[i].chatId != chatId || messages[i].senderId == reader ==> after[i] == messages[i])
  {
  }

  /** Fetching twice changes nothing the first fetch did not. */
  lemma MarkReadIdempotent(messages: seq<Message>, chatId: string, reader: nat)
    ensures MarkRead(MarkRead(messages, chatId, reader), chatId, reader) == MarkRead(messages, chatId, reader)
  {
  }

  /** A fetch leaves no unread message of the chat for the reader. */
  lemma NoUnreadAfterFetch(messages: seq<Message>, chatId: string, reader: nat)
    ensures CountUnread(MarkRead(messages, chatId, reader), chatId, reader) == 0
  {
  }

  /** The messages get_messages returns: the chat's messages by ascending timestamp. */
  function ChatHistory(messages: seq<Message>, chatId: string): (r: seq<Message>)
    ensures Sorting.SortedBy(r, Time)
    ensures multiset(r) == multiset(ChatMessages(messages, chatId))
    ensures forall m :: m in r ==> m in messages && m.chatId == chatId
  {
    var mine := ChatMessages(messages, chatId);
    var r := Sorting.SortBy(mine, Time);
    assert forall m :: m in r ==> m in mine by {
      forall m | m in r ensures m in mine { Sorting.SortByKeepsRows(mine, Time, m); }
    }
    r
  }

  /** The history holds exactly the chat's messages, oldest first. */
  lemma ChatHistoryContents(messages: seq<Message>, chatId: string, m: Message)
    ensures m in ChatHistory(messages, chatId) <==> m in messages && m.chatId == chatId
    ensures var h := ChatHistory(messages, chatId);
      forall i, j :: 0 <= i < j < |h| ==> h[i].timestamp <= h[j].timestamp
  {
    Sorting.SortByKeepsRows(ChatMessages(messages, chatId), Time, m);
    var h := ChatHistory(messages, chatId);
    forall i, j | 0 <= i < j < |h| ensures h[i].timestamp <= h[j].timestamp {
      assert Time(h[i]) <= Time(h[j]);
    }
  }

  /** A message as get_messages and send_message return it; its sender is a known user. */
  function View(users: seq<User>, m: Message): MessageView
    requires HasUserId(users, m.senderId)
  {
    MessageView(m.id, m.chatId, NatToString(m.senderId), UserById(users, m.senderId).name,
                m.content, m.messageType, m.mediaUrl, m.timestamp, m.read)
  }
}

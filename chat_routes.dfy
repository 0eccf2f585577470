/**
 * The chat endpoints: listing the caller's chats, opening a chat with a user
 * by username, fetching a chat's messages (which marks them read), sending a
 * message, and the media upload gate. Every handler runs for an
 * authenticated caller, a user of the user table.
 */
module ChatRoutes {
  import opened Common
  import opened Models
  import opened Schemas
  import opened Store
  import opened Chats
  import opened LoggingService
  import MediaService

  const RecipientNotFound: string := "Recipient not found"
  const NotParticipant: string := "Chat not found or you're not a participant"

  /** The chat list of get_chats, built by its loop over the caller's participant rows. */
  method ListChatSummaries(db: Database, callerId: nat) returns (list: seq<ChatView>)
    requires db.Valid()
    ensures list == ChatList(db.users, db.participants, db.messages, callerId, |db.participants|)
    ensures DistinctIds(list)
    ensures forall c :: c in ChatIds(list) <==> SharedChat(db.participants, c, callerId)
  {
    list := [];
    var i := 0;
    while i < |db.participants|
      invariant 0 <= i <= |db.participants|
      invariant list == ChatList(db.users, db.participants, db.messages, callerId, i)
    {
      var row := db.participants[i];
      if row.userId == callerId {
        var others := OthersIn(db.participants, row.chatId, callerId);
        if others != [] {
          assert others[0] in others;
          KnownMember(db.users, db.participants, row.chatId, others[0]);
          list := list + [Summary(db.users, db.messages, row.chatId, callerId, others[0])];
        }
      }
      i := i + 1;
    }
    ChatListDistinct(db.users, db.chats, db.participants, db.messages, callerId, i);
    forall c ensures c in ChatIds(list) <==> SharedChat(db.participants, c, callerId) {
      ChatListCoverage(db.users, db.participants, db.messages, callerId, c);
    }
  }

  /** `get_chats`: the caller's chat list, and a log row counting it. */
  method GetChats(db: Database, caller: User, now: int) returns (r: Reply<seq<ChatView>>)
    requires db.Valid() && caller in db.users
    modifies db`logs
    ensures db.Valid()
    ensures r == Ok(ChatList(db.users, db.participants, db.messages, caller.id, |db.participants|))
    ensures db.logs == old(db.logs) + [NewLog(old(db.logs), "Retrieved " + NatToString(|r.data|) + " chats", caller.id, now)]
  {
    var list := ListChatSummaries(db, caller.id);
    var _ := LogActivity(db, "Retrieved " + NatToString(|list|) + " chats", caller.id, now);
    r := Ok(list);
  }

  /** create_chat's search loop over the caller's participant rows. */
  method FindExistingChat(db: Database, callerId: nat, recipientId: nat) returns (r: Option<string>)
    ensures r == ExistingChat(db.participants, callerId, recipientId, 0)
  {
    var i := 0;
    while i < |db.participants|
      invariant 0 <= i <= |db.participants|
      invariant ExistingChat(db.participants, callerId, recipientId, i) == ExistingChat(db.participants, callerId, recipientId, 0)
    {
      var row := db.participants[i];
      if row.userId == callerId && Participant(row.chatId, recipientId) in db.participants {
        return Some(row.chatId);
      }
      i := i + 1;
    }
    return None;
  }

  /** The chat create_chat returns: the recipient and no message yet. */
  function Opened(chatId: string, recipient: User): ChatView
  {
    ChatView(chatId, NatToString(recipient.id), recipient.name, None, None, false)
  }

  /**
   * `create_chat`: the recipient is looked up by username. If the caller
   * already shares a chat with the recipient that chat is returned and
   * nothing is written; otherwise a chat with the fresh id and two
   * participant rows, caller first, are inserted and the creation is logged.
   */
  method CreateChat(db: Database, caller: User, username: string, freshId: string, now: int) returns (r: Reply<ChatView>)
    requires db.Valid() && caller in db.users
    requires forall k :: 0 <= k < |db.chats| ==> db.chats[k].id != freshId
    modifies db`chats, db`participants, db`logs
    ensures db.Valid()
    ensures FindBy(db.users, UsernameColumn, username).None? ==>
      r == Refused(RecipientNotFound) &&
      db.chats == old(db.chats) && db.participants == old(db.participants) && db.logs == old(db.logs)
    ensures FindBy(db.users, UsernameColumn, username).Some? ==>
      var recipient := FindBy(db.users, UsernameColumn, username).value;
      match ExistingChat(old(db.participants), caller.id, recipient.id, 0)
      case Some(c) =>
        r == Ok(Opened(c, recipient)) &&
        db.chats == old(db.chats) && db.participants == old(db.participants) && db.logs == old(db.logs)
      case None =>
        r == Ok(Opened(freshId, recipient)) &&
        db.chats == old(db.chats) + [Chat(freshId, now)] &&
        db.participants == old(db.participants) + [Participant(freshId, caller.id), Participant(freshId, recipient.id)] &&
        db.logs == old(db.logs) + [NewLog(old(db.logs), "Created new chat with " + recipient.username, caller.id, now)]
  {
    var found := FindBy(db.users, UsernameColumn, username);
    if found.None? {
      return Refused(RecipientNotFound);
    }
    var recipient := found.value;
    var existing := FindExistingChat(db, caller.id, recipient.id);
    if existing.Some? {
      return Ok(Opened(existing.value, recipient));
    }
    var chat := Chat(freshId, now);
    NewChatKeepsValid(db.chats, db.participants, caller.id, recipient.id, chat);
    assert HasUserId(db.users, caller.id) && HasUserId(db.users, recipient.id);
    db.chats := db.chats + [chat];
    db.participants := db.participants + [Participant(freshId, caller.id), Participant(freshId, recipient.id)];
    var _ := LogActivity(db, "Created new chat with " + recipient.username, caller.id, now);
    r := Ok(Opened(freshId, recipient));
  }

  /**
   * Two users opening a chat with each other, one after the other, get the
   * same chat: the second call finds the chat the first one created.
   */
  method OpenFromBothSides(db: Database, a: User, b: User, freshId1: string, freshId2: string, now: int)
    returns (first: Reply<ChatView>, second: Reply<ChatView>)
    requires db.Valid() && a in db.users && b in db.users && a.id != b.id
    requires forall k :: 0 <= k < |db.chats| ==> db.chats[k].id != freshId1 && db.chats[k].id != freshId2
    requires freshId1 != freshId2
    modifies db`chats, db`participants, db`logs
    ensures first.Ok? && second.Ok? && first.data.id == second.data.id
    ensures first.data.recipientName == b.name && second.data.recipientName == a.name
  {
    FindByUnique(db.users, UsernameColumn, b);
    FindByUnique(db.users, UsernameColumn, a);
    ghost var chats0, participants0 := db.chats, db.participants;
    first := CreateChat(db, a, b.username, freshId1, now);
    FindByUnique(db.users, UsernameColumn, a);
    second := CreateChat(db, b, a.username, freshId2, now);
    match ExistingChat(participants0, a.id, b.id, 0)
    case Some(c) =>
      ExistingChatFindsThePair(chats0, participants0, b.id, a.id, c);
    case None =>
      NewChatFoundFromEitherSide(chats0, participants0, a.id, b.id, Chat(freshId1, now));
  }

  /** Marking a chat's messages read keeps each message's key and sender. */
  lemma MarkReadKeepsMessagesValid(users: seq<User>, messages: seq<Message>, chatId: string, reader: nat)
    requires MessagesValid(users, messages)
    ensures MessagesValid(users, MarkRead(messages, chatId, reader))
  {
    MarkReadEffect(messages, chatId, reader);
  }

  /** get_messages' loop setting `read` on every unread message of the chat from someone else. */
  method MarkChatRead(db: Database, chatId: string, reader: nat)
    requires db.Valid()
    modifies db`messages
    ensures db.Valid()
    ensures db.messages == MarkRead(old(db.messages), chatId, reader)
  {
    ghost var before := db.messages;
    var i := 0;
    while i < |db.messages|
      invariant 0 <= i <= |db.messages| == |before|
      invariant forall k :: 0 <= k < i ==> db.messages[k] == MarkRead(before, chatId, reader)[k]
      invariant forall k :: i <= k < |db.messages| ==> db.messages[k] == before[k]
    {
      if UnreadFor(db.messages[i], chatId, reader) {
        db.messages := db.messages[i := db.messages[i].(read := true)];
      }
      i := i + 1;
    }
    MarkReadKeepsMessagesValid(db.users, before, chatId, reader);
  }

  /** get_messages' response loop: each message with its sender's name looked up. */
  method BuildMessageList(db: Database, history: seq<Message>) returns (views: seq<MessageView>)
    requires forall m :: m in history ==> HasUserId(db.users, m.senderId)
    ensures |views| == |history|
    ensures forall i :: 0 <= i < |history| ==> views[i] == View(db.users, history[i])
  {
    views := [];
    var i := 0;
    while i < |history|
      invariant 0 <= i <= |history| && |views| == i
      invariant forall k :: 0 <= k < i ==> views[k] == View(db.users, history[k])
    {
      views := views + [View(db.users, history[i])];
      i := i + 1;
    }
  }

  /**
   * `get_messages`: for a participant, marks the chat's messages from others
   * read, logs how many messages the chat has, and returns them oldest first
   * with their read flags as updated; anyone else is refused and nothing is
   * written.
   */
  method GetMessages(db: Database, caller: User, chatId: string, now: int) returns (r: Reply<seq<MessageView>>)
    requires db.Valid() && caller in db.users
    modifies db`messages, db`logs
    ensures db.Valid()
    ensures Participant(chatId, caller.id) !in db.participants ==>
      r == Refused(NotParticipant) && db.messages == old(db.messages) && db.logs == old(db.logs)
    ensures Participant(chatId, caller.id) in db.participants ==>
      var count := |ChatMessages(old(db.messages), chatId)|;
      var history := ChatHistory(db.messages, chatId);
      db.messages == MarkRead(old(db.messages), chatId, caller.id) &&
      db.logs == old(db.logs) + [NewLog(old(db.logs), "Retrieved " + NatToString(count) + " messages from chat " + chatId, caller.id, now)] &&
      r.Ok? && |r.data| == |history| &&
      forall i :: 0 <= i < |history| ==> r.data[i] == View(db.users, history[i])
  {
    if Participant(chatId, caller.id) !in db.participants {
      return Refused(NotParticipant);
    }
    var count := |ChatMessages(db.messages, chatId)|;
    MarkChatRead(db, chatId, caller.id);
    var _ := LogActivity(db, "Retrieved " + NatToString(count) + " messages from chat " + chatId, caller.id, now);
    var history := ChatHistory(db.messages, chatId);
    var views := BuildMessageList(db, history);
    r := Ok(views);
  }

  /** The row send_message inserts: unread, stamped with the current time. */
  function Posted(request: SendMessageRequest, senderId: nat, messageId: string, now: int): Message
  {
    Message(messageId, request.chatId, senderId, request.content, request.messageType, request.mediaUrl, now, false)
  }

  /**
   * `send_message`: a participant's message is inserted with the fresh id,
   * logged, and returned under the caller's name; anyone else is refused and
   * nothing is written.
   */
  method SendMessage(db: Database, caller: User, request: SendMessageRequest, freshId: string, now: int)
    returns (r: Reply<MessageView>)
    requires db.Valid() && caller in db.users
    requires forall k :: 0 <= k < |db.messages| ==> db.messages[k].id != freshId
    modifies db`messages, db`logs
    ensures db.Valid()
    ensures Participant(request.chatId, caller.id) !in db.participants ==>
      r == Refused(NotParticipant) && db.messages == old(db.messages) && db.logs == old(db.logs)
    ensures Participant(request.chatId, caller.id) in db.participants ==>
      var message := Posted(request, caller.id, freshId, now);
      db.messages == old(db.messages) + [message] &&
      db.logs == old(db.logs) + [NewLog(old(db.logs), "Sent " + request.messageType + " to chat " + request.chatId, caller.id, now)] &&
      r == Ok(View(db.users, message)) && r.data.senderName == caller.name && r.data.senderId == NatToString(caller.id)
  {
    if Participant(request.chatId, caller.id) !in db.participants {
      return Refused(NotParticipant);
    }
    var message := Posted(request, caller.id, freshId, now);
    assert HasUserId(db.users, caller.id);
    db.messages := db.messages + [message];
    var _ := LogActivity(db, "Sent " + request.messageType + " to chat " + request.chatId, caller.id, now);
    UserByOwnId(db.users, caller);
    r := Ok(View(db.users, message));
  }

  /** `str()` of the AttributeError raised by `None.startswith`. */
  const NoContentType: string := "'NoneType' object has no attribute 'startswith'"
  const OnlyImageOrVideo: string := "Only image and video files are allowed"

  /**
   * What upload_media answers for a file of `size` bytes with the given
   * content type (absent when the client sent none): only image and video
   * files are passed on to save_media. Every exception raised on the way is
   * caught and re-raised as a 500 whose detail is the exception's text, which
   * for an HTTPException is "{status}: {detail}".
   */
  function UploadMediaResult(contentType: Option<string>, size: nat, fileId: string): (r: Reply<MediaUpload>)
    ensures r.Ok? <==> (contentType.Some? && size <= MediaService.MaxFileSize &&
                        MediaService.Classify(contentType.value) in {Some(MediaService.Image), Some(MediaService.Video)})
    ensures r.Ok? ==>
      r.data.messageType == MediaService.KindName(MediaService.Classify(contentType.value).value) &&
      MediaService.SaveMedia(size, contentType.value, fileId) == Ok(r.data.mediaUrl)
    ensures !r.Ok? ==> r.Raised? && r.status == 500
    ensures contentType.Some? && MediaService.Classify(contentType.value) !in {Some(MediaService.Image), Some(MediaService.Video)} ==>
      r == Raised(500, "400: " + OnlyImageOrVideo)
  {
    match contentType
    case None => Raised(500, NoContentType)
    case Some(t) =>
      var fileType := if MediaService.StartsWith(t, "image/") then Some("image")
                      else if MediaService.StartsWith(t, "video/") then Some("video")
                      else None;
      if fileType.None? then Raised(500, "400: " + OnlyImageOrVideo)
      else
        var saved := MediaService.SaveMedia(size, t, fileId);
        if saved.Ok? then Ok(MediaUpload(saved.data, fileType.value))
        else Raised(500, "500: " + saved.detail)
  }

  /** An audio file is turned away by the upload gate whatever its size, before save_media sees it. */
  lemma AudioRejectedBeforeSave(contentType: string, size: nat, fileId: string)
    requires MediaService.StartsWith(contentType, "audio/")
    ensures UploadMediaResult(Some(contentType), size, fileId) == Raised(500, "400: " + OnlyImageOrVideo)
    ensures MediaService.SaveMedia(size, contentType, fileId).Ok? <==> size <= MediaService.MaxFileSize
  {
  }

  /** An oversized image or video is refused with save_media's detail inside the 500. */
  lemma OversizedUpload(contentType: string, size: nat, fileId: string)
    requires MediaService.Classify(contentType) in {Some(MediaService.Image), Some(MediaService.Video)}
    requires size > MediaService.MaxFileSize
    ensures UploadMediaResult(Some(contentType), size, fileId) == Raised(500, "500: " + MediaService.SizeMessage)
  {
  }

  /** `upload_media`: the answer above, and a log row naming the file type when the upload succeeds. */
  method UploadMedia(db: Database, caller: User, contentType: Option<string>, size: nat, fileId: string, now: int)
    returns (r: Reply<MediaUpload>)
    requires db.Valid() && caller in db.users
    modifies db`logs
    ensures db.Valid()
    ensures r == UploadMediaResult(contentType, size, fileId)
    ensures r.Ok? ==> db.logs == old(db.logs) + [NewLog(old(db.logs), "Uploaded " + r.data.messageType, caller.id, now)]
    ensures !r.Ok? ==> db.logs == old(db.logs)
  {
    r := UploadMediaResult(contentType, size, fileId);
    if r.Ok? {
      var _ := LogActivity(db, "Uploaded " + r.data.messageType, caller.id, now);
    }
  }
}

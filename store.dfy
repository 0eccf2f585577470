/**
 * The application's database as one mutable object: a table per model, each
 * a sequence of rows in insertion order, and the integrity the database
 * schema enforces (primary keys, unique columns, the foreign keys of chat
 * rows and messages) as the invariant every handler keeps.
 */
module Store {
  import opened Models
  import Chats

  /** Primary keys of a keyed table are distinct. */
  predicate DistinctLogIds(logs: seq<ActivityLog>)
  {
    forall i, j :: 0 <= i < j < |logs| ==> logs[i].id != logs[j].id
  }

  predicate DistinctEntryIds(entries: seq<DataEntry>)
  {
    forall i, j :: 0 <= i < j < |entries| ==> entries[i].id != entries[j].id
  }

  /** Message ids are distinct and every message's sender is a user. */
  predicate MessagesValid(users: seq<User>, messages: seq<Message>)
  {
    (forall i, j :: 0 <= i < j < |messages| ==> messages[i].id != messages[j].id) &&
    (forall m :: m in messages ==> HasUserId(users, m.senderId))
  }

  predicate StoreValid(users: seq<User>, entries: seq<DataEntry>, logs: seq<ActivityLog>,
                       chats: seq<Chat>, participants: seq<Participant>, messages: seq<Message>)
  {
    UsersValid(users) &&
    DistinctEntryIds(entries) &&
    DistinctLogIds(logs) &&
    Chats.ChatsValid(chats, participants) &&
    Chats.ParticipantsKnown(users, participants) &&
    MessagesValid(users, messages)
  }

  /**
   * Changing users without changing their keys keeps every foreign key to the
   * user table satisfied.
   */
  lemma SameKeysKeepReferences(users: seq<User>, users': seq<User>, participants: seq<Participant>, messages: seq<Message>)
    requires |users| == |users'| && forall i :: 0 <= i < |users| ==> users'[i].id == users[i].id
    requires Chats.ParticipantsKnown(users, participants) && MessagesValid(users, messages)
    ensures Chats.ParticipantsKnown(users', participants) && MessagesValid(users', messages)
  {
    forall id: int | HasUserId(users, id) ensures HasUserId(users', id) {
      var u :| u in users && u.id == id;
      var i :| 0 <= i < |users| && users[i] == u;
      assert users'[i] in users';
    }
  }

  /** Adding a user keeps every foreign key to the user table satisfied. */
  lemma NewUserKeepsReferences(users: seq<User>, u: User, participants: seq<Participant>, messages: seq<Message>)
    requires Chats.ParticipantsKnown(users, participants) && MessagesValid(users, messages)
    ensures Chats.ParticipantsKnown(users + [u], participants) && MessagesValid(users + [u], messages)
  {
    forall id: int | HasUserId(users, id) ensures HasUserId(users + [u], id) {
      var v :| v in users && v.id == id;
      assert v in users + [u];
    }
  }

  class Database {
    var users: seq<User>
    var entries: seq<DataEntry>
    var reports: seq<Report>
    var logs: seq<ActivityLog>
    var chats: seq<Chat>
    var participants: seq<Participant>
    var messages: seq<Message>

    ghost predicate Valid()
      reads this
    {
      StoreValid(users, entries, logs, chats, participants, messages)
    }

    /** A freshly created schema: every table empty. */
    constructor ()
      ensures Valid()
      ensures users == [] && entries == [] && reports == [] && logs == []
      ensures chats == [] && participants == [] && messages == []
    {
      users, entries, reports, logs := [], [], [], [];
      chats, participants, messages := [], [], [];
    }
  }
}

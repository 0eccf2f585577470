/**
 * The rows of the application's tables (users, data entries, activity logs,
 * reports, chats, chat participants and messages) and the user lookups the
 * handlers issue against the user table.
 *
 * Tables are sequences in insertion order; `query(...).first()` is the
 * earliest matching row in that order. Integer primary keys are assigned as
 * one more than the largest key present.
 */
module Models {
  import opened Common
  import Crypto

  datatype User = User(
    id: nat,
    name: string,
    username: string,
    email: string,
    hashedPassword: Crypto.Digest,
    role: string,
    disease: Option<string>,
    dateOfBirth: Option<int>,
    placeOfBirth: Option<string>)

  /** A column value of a data entry; `Null` is what an explicit JSON null writes. */
  datatype FieldValue = Text(s: string) | Number(n: int) | Null

  /** A data entry: its three string and eight integer columns by column name. */
  datatype DataEntry = DataEntry(id: nat, fields: map<string, FieldValue>, ownerId: nat)

  datatype ActivityLog = ActivityLog(id: nat, action: string, timestamp: int, userId: nat)

  datatype Report = Report(id: nat, timestamp: int, values: seq<int>, userId: nat)

  datatype Chat = Chat(id: string, createdAt: int)

  /** A row of the chat_participants table: user `userId` takes part in chat `chatId`. */
  datatype Participant = Participant(chatId: string, userId: nat)

  datatype Message = Message(
    id: string,
    chatId: string,
    senderId: nat,
    content: string,
    messageType: string,
    mediaUrl: Option<string>,
    timestamp: int,
    read: bool)

  /** The two unique user columns an identifier is looked up by. */
  datatype Column = EmailColumn | UsernameColumn

  function ColumnValue(u: User, column: Column): string
  {
    match column
    case EmailColumn => u.email
    case UsernameColumn => u.username
  }

  /** Usernames and emails are unique (and so are the primary keys). */
  predicate UsersValid(users: seq<User>)
  {
    forall i, j :: 0 <= i < j < |users| ==>
      users[i].id != users[j].id &&
      users[i].username != users[j].username &&
      users[i].email != users[j].email
  }

  /** `db.query(User).filter(column == value).first()`. */
  function FindBy(users: seq<User>, column: Column, value: string): (r: Option<User>)
    ensures r.Some? ==> r.value in users && ColumnValue(r.value, column) == value
    ensures r.None? ==> forall u :: u in users ==> ColumnValue(u, column) != value
  {
    if users == [] then None
    else if ColumnValue(users[0], column) == value then Some(users[0])
    else FindBy(users[1..], column, value)
  }

  /** With unique columns, looking a user up by its own email or username finds that user. */
  lemma FindByUnique(users: seq<User>, column: Column, u: User)
    requires UsersValid(users) && u in users
    ensures FindBy(users, column, ColumnValue(u, column)) == Some(u)
  {
    var r := FindBy(users, column, ColumnValue(u, column));
    var i :| 0 <= i < |users| && users[i] == r.value;
    var j :| 0 <= j < |users| && users[j] == u;
    assert ColumnValue(users[i], column) == ColumnValue(users[j], column);
  }

  predicate HasUserId(users: seq<User>, id: int)
  {
    exists u :: u in users && u.id == id
  }

  /** The position of the first user with primary key `id`. */
  function UserIndex(users: seq<User>, id: int): (k: nat)
    requires HasUserId(users, id)
    ensures k < |users| && users[k].id == id
    ensures forall j :: 0 <= j < k ==> users[j].id != id
  {
    if users[0].id == id then 0
    else
      assert HasUserId(users[1..], id) by {
        var u :| u in users && u.id == id;
        assert u in users[1..];
      }
      1 + UserIndex(users[1..], id)
  }

  /** `db.query(User).filter(User.id == id).first()` for a key that is present. */
  function UserById(users: seq<User>, id: int): (u: User)
    requires HasUserId(users, id)
    ensures u in users && u.id == id
  {
    users[UserIndex(users, id)]
  }

  /** With unique keys, a user's own key finds that user. */
  lemma UserByOwnId(users: seq<User>, u: User)
    requires UsersValid(users) && u in users
    ensures UserById(users, u.id) == u
  {
    var i := UserIndex(users, u.id);
    var j :| 0 <= j < |users| && users[j] == u;
    assert users[i].id == users[j].id;
  }

  /** `db.query(User).filter(User.id == id).first()`. */
  function FindById(users: seq<User>, id: int): (r: Option<User>)
    ensures r.Some? <==> HasUserId(users, id)
    ensures r.Some? ==> r.value == UserById(users, id)
  {
    if HasUserId(users, id) then Some(UserById(users, id)) else None
  }

  /** The key an autoincrement column gives the next row: one more than every key present. */
  function NextId(ids: seq<nat>): (r: nat)
    ensures 1 <= r
    ensures forall i :: 0 <= i < |ids| ==> ids[i] < r
  {
    if ids == [] then 1
    else
      var rest := NextId(ids[1..]);
      assert forall i :: 1 <= i < |ids| ==> ids[i] == ids[1..][i - 1];
      if ids[0] < rest then rest else ids[0] + 1
  }

  function UserIds(users: seq<User>): (ids: seq<nat>)
    ensures |ids| == |users| && forall i :: 0 <= i < |users| ==> ids[i] == users[i].id
  {
    seq(|users|, i requires 0 <= i < |users| => users[i].id)
  }

  function LogIds(logs: seq<ActivityLog>): (ids: seq<nat>)
    ensures |ids| == |logs| && forall i :: 0 <= i < |logs| ==> ids[i] == logs[i].id
  {
    seq(|logs|, i requires 0 <= i < |logs| => logs[i].id)
  }
}

/**
 * The registry of the bot's users: a JSON object kept in one file, mapping
 * the decimal spelling of each Telegram user id to what was recorded when
 * that user first arrived. The file is an input (what it held before the
 * call); registering returns the object it writes, and the clock reading
 * is a parameter.
 */
module UserManager {
  import opened Optional
  import opened Text

  /** The fields of a Telegram user the registry reads; the three names may be absent. */
  datatype TelegramUser = TelegramUser(
    id: int,
    firstName: Option<string>,
    lastName: Option<string>,
    username: Option<string>)

  /** The record stored for a user. */
  datatype UserRecord = UserRecord(
    id: int,
    firstName: string,
    lastName: string,
    username: string,
    registeredAt: string)

  type Users = map<string, UserRecord>

  /** The users file as the loader finds it. */
  datatype UsersFile =
    | Missing                // no file on disk
    | Undecodable            // the file exists, is UTF-8, and is not valid JSON
    | Stored(users: Users)   // a decoded JSON object

  /** `load_users`: the stored object, or the empty object when the file is missing or undecodable. */
  function LoadUsers(f: UsersFile): (r: Users)
    ensures f.Stored? ==> r == f.users
    ensures !f.Stored? ==> r == map[]
  {
    if f.Stored? then f.users else map[]
  }

  /** `str(user.id)`: the key a user is filed under. */
  function Key(id: int): string
  {
    IntStr(id)
  }

  /** Different users are filed under different keys. */
  lemma KeyInjective(a: int, b: int)
    requires a != b
    ensures Key(a) != Key(b)
  {
    if Key(a) == Key(b) {
      IntStrInjective(a, b);
    }
  }

  /** Python's `name or ""`: an absent name is recorded as the empty string. */
  function OrEmpty(name: Option<string>): string
  {
    match name
    case None => []
    case Some(s) => s
  }

  /** The record `register_user` stores for a newcomer seen at time `now`. */
  function NewRecord(user: TelegramUser, now: string): (r: UserRecord)
    ensures r.id == user.id && r.registeredAt == now
    ensures user.firstName.None? ==> r.firstName == []
    ensures user.lastName.None? ==> r.lastName == []
    ensures user.username.None? ==> r.username == []
  {
    UserRecord(user.id, OrEmpty(user.firstName), OrEmpty(user.lastName), OrEmpty(user.username), now)
  }

  /** `is_new_user`: no record is filed under the user's key. */
  function IsNewUser(f: UsersFile, id: int): (r: bool)
    ensures !f.Stored? ==> r
    ensures f.Stored? ==> (r <==> forall k :: k in f.users ==> k != Key(id))
  {
    Key(id) !in LoadUsers(f)
  }

  /** `get_total_users`: the number of records. */
  function GetTotalUsers(f: UsersFile): (r: nat)
    ensures !f.Stored? ==> r == 0
    ensures f.Stored? ==> r == |f.users.Keys|
  {
    |LoadUsers(f)|
  }

  /** Every record is filed under the key of its own id, as `register_user` files it. */
  ghost predicate Consistent(users: Users)
  {
    forall k :: k in users ==> Key(users[k].id) == k
  }

  /**
   * In a consistently filed registry, a user is new exactly when no record
   * carries the user's id.
   */
  lemma NewMeansNoRecord(users: Users, id: int)
    requires Consistent(users)
    ensures IsNewUser(Stored(users), id) <==> forall k :: k in users ==> users[k].id != id
  {
    if !IsNewUser(Stored(users), id) {
      assert users[Key(id)].id == id by {
        var rec := users[Key(id)];
        if rec.id != id {
          KeyInjective(rec.id, id);
        }
      }
    }
  }

  /** A missing or undecodable file holds nobody: every user is new and the total is zero. */
  lemma NobodyWithoutFile(f: UsersFile, id: int)
    requires !f.Stored?
    ensures IsNewUser(f, id) && GetTotalUsers(f) == 0
  {
  }

  /** The object after registering `user`: unchanged when the key is taken, otherwise with one record added. */
  function Registered(users: Users, user: TelegramUser, now: string): (r: Users)
    ensures Key(user.id) in r
    ensures r.Keys == users.Keys + {Key(user.id)}
    ensures forall k :: k in users ==> r[k] == users[k]
    ensures Key(user.id) !in users ==> r[Key(user.id)] == NewRecord(user, now)
    ensures |r| == |users| + (if Key(user.id) in users then 0 else 1)
  {
    var key := Key(user.id);
    if key in users then users else users[key := NewRecord(user, now)]
  }

  /**
   * `register_user`: a known user is reported as not new, with the current
   * total, and nothing is saved; a newcomer's record is added and saved, and
   * the total counts it.
   */
  method RegisterUser(f: UsersFile, user: TelegramUser, now: string)
    returns (isNew: bool, total: nat, saved: Option<Users>)
    ensures isNew <==> IsNewUser(f, user.id)
    ensures !isNew ==> saved == None && total == GetTotalUsers(f)
    ensures isNew ==> saved == Some(Registered(LoadUsers(f), user, now))
    ensures isNew ==> total == GetTotalUsers(f) + 1
  {
    var users := LoadUsers(f);
    var userId := IntStr(user.id);
    if userId in users {
      return false, |users|, None;
    }
    users := users[userId := UserRecord(
      user.id,
      OrEmpty(user.firstName),
      OrEmpty(user.lastName),
      OrEmpty(user.username),
      now)];
    return true, |users|, Some(users);
  }

  /** Once registered and saved, a user is no longer new, whatever the file held before. */
  lemma RegisteredNotNew(f: UsersFile, user: TelegramUser, now: string)
    ensures !IsNewUser(Stored(Registered(LoadUsers(f), user, now)), user.id)
  {
  }

  /** Registering keeps the registry consistently filed. */
  lemma RegisteredConsistent(users: Users, user: TelegramUser, now: string)
    requires Consistent(users)
    ensures Consistent(Registered(users, user, now))
  {
  }

  /** Registering the same user again changes nothing, whatever the time. */
  lemma RegisterIdempotent(users: Users, user: TelegramUser, now: string, later: string)
    ensures Registered(Registered(users, user, now), user, later) == Registered(users, user, now)
  {
  }

  /**
   * Registering one user never touches another: a different user who was new
   * stays new, and one who was known keeps the record.
   */
  lemma RegisterOthersUntouched(f: UsersFile, user: TelegramUser, now: string, other: int)
    requires other != user.id
    ensures var after := Stored(Registered(LoadUsers(f), user, now));
      && IsNewUser(after, other) == IsNewUser(f, other)
      && (Key(other) in LoadUsers(f) ==> LoadUsers(after)[Key(other)] == LoadUsers(f)[Key(other)])
  {
    KeyInjective(user.id, other);
  }

  /** Two newcomers with different ids registered one after the other both count. */
  lemma TwoNewcomers(f: UsersFile, a: TelegramUser, b: TelegramUser, now: string, later: string)
    requires a.id != b.id && IsNewUser(f, a.id) && IsNewUser(f, b.id)
    ensures var after := Stored(Registered(Registered(LoadUsers(f), a, now), b, later));
      && !IsNewUser(after, a.id) && !IsNewUser(after, b.id)
      && GetTotalUsers(after) == GetTotalUsers(f) + 2
  {
    KeyInjective(a.id, b.id);
  }
}

/**
 * Registration, login and the admin check of auth.py.
 *
 * Registration changes the store and is a method of `AuthManager`; login, the admin
 * check and password hashing only read, and are functions of the users table.
 */
module Auth {
  import opened Wrappers
  import opened Crypto
  import opened Storage

  const AdminRole := "admin"

  /** The user_data dictionary that login_user hands back. */
  datatype UserData = UserData(
    id: int,
    username: string,
    role: string,
    publicKey: Option<string>,
    privateKey: Option<string>)

  datatype RegisterReply = Registered | UsernameExists | RegistrationFailed
  {
    predicate Success() { Registered? }

    function Message(): string {
      match this
      case Registered => "User registered successfully"
      case UsernameExists => "Username already exists"
      case RegistrationFailed => "Registration failed"
    }
  }

  datatype LoginReply = LoggedIn(user: UserData) | UserNotFound | InvalidPassword
  {
    predicate Success() { LoggedIn? }

    function Message(): string {
      match this
      case LoggedIn(_) => "Login successful"
      case UserNotFound => "User not found"
      case InvalidPassword => "Invalid password"
    }

    function Data(): Option<UserData> {
      if LoggedIn? then Some(user) else None
    }
  }

  /** str.encode(): the UTF-8 bytes of one Unicode scalar value. */
  function Utf8Char(ch: char): bytes {
    var v := ch as int;
    if v < 0x80 then [v as byte]
    else if v < 0x800 then [(0xC0 + v / 0x40) as byte, (0x80 + v % 0x40) as byte]
    else if v < 0x10000 then
      [(0xE0 + v / 0x1000) as byte, (0x80 + v / 0x40 % 0x40) as byte, (0x80 + v % 0x40) as byte]
    else
      [(0xF0 + v / 0x40000) as byte, (0x80 + v / 0x1000 % 0x40) as byte,
       (0x80 + v / 0x40 % 0x40) as byte, (0x80 + v % 0x40) as byte]
  }

  function Utf8Encode(s: string): bytes {
    if s == [] then [] else Utf8Char(s[0]) + Utf8Encode(s[1..])
  }

  /** hash_password: the hex SHA-256 digest of the UTF-8 encoded password. */
  function HashPassword(c: Primitives, password: string): (h: string)
    requires HashSound(c)
    ensures |h| == 2 * DigestLength && IsLowerHex(h)
  {
    CalculateDataHash(c, Utf8Encode(password))
  }

  function ToUserData(row: User): UserData {
    UserData(row.id, row.username, row.role, row.publicKey, row.privateKey)
  }

  /** login_user: look the name up, then compare the stored hash with the password's hash. */
  function LoginUser(c: Primitives, users: seq<User>, username: string, password: string): (reply: LoginReply)
    requires HashSound(c)
    ensures reply == UserNotFound <==> forall u | u in users :: u.username != username
    ensures reply.LoggedIn? ==>
      exists u | u in users :: u.username == username && u.passwordHash == HashPassword(c, password) && reply.user == ToUserData(u)
    ensures reply == InvalidPassword ==>
      exists u | u in users :: u.username == username && u.passwordHash != HashPassword(c, password)
  {
    match GetUser(users, username)
    case None => UserNotFound
    case Some(row) =>
      if row.passwordHash == HashPassword(c, password) then LoggedIn(ToUserData(row))
      else InvalidPassword
  }

  /** is_admin: user data is present and its role is 'admin'. */
  function IsAdmin(userData: Option<UserData>): bool {
    userData.Some? && userData.value.role == AdminRole
  }

  /** After a successful registration, login succeeds exactly with a password whose
      SHA-256 digest is that of the registered one, and yields the new row's id and role. */
  lemma LoginAfterRegister(c: Primitives, users: seq<User>, row: User, password: string, attempt: string)
    requires HashSound(c)
    requires GetUser(users, row.username).None?
    requires row.passwordHash == HashPassword(c, password)
    ensures var reply := LoginUser(c, users + [row], row.username, attempt);
      && (reply.LoggedIn? <==> c.sha256(Utf8Encode(attempt)) == c.sha256(Utf8Encode(password)))
      && (reply.LoggedIn? ==> reply.user.id == row.id && reply.user.role == row.role)
      && (!reply.LoggedIn? ==> reply == InvalidPassword)
  {
    assert GetUser(users + [row], row.username) == Some(row);
    DataHashesEqual(c, Utf8Encode(attempt), Utf8Encode(password));
  }

  /** The admin check on login's user data holds exactly when login succeeded for a row
      whose role is 'admin'. */
  lemma AdminAfterLogin(c: Primitives, users: seq<User>, username: string, password: string)
    requires HashSound(c)
    ensures IsAdmin(LoginUser(c, users, username, password).Data()) <==>
      && LoginUser(c, users, username, password).LoggedIn?
      && GetUser(users, username).value.role == AdminRole
  {
  }

  class AuthManager {
    const db: Database
    const primitives: Primitives

    constructor (db: Database, primitives: Primitives)
      ensures this.db == db && this.primitives == primitives
    {
      this.db := db;
      this.primitives := primitives;
    }

    /** register_user: refuse a taken name, otherwise add a row holding the password's
        hash (never the password) with the given role, 'user' by default. */
    method RegisterUser(username: string, password: string, role: string := DefaultRole)
      returns (reply: RegisterReply)
      requires db.Valid() && HashSound(primitives)
      modifies db
      ensures db.Valid()
      ensures reply.Success() <==> GetUser(old(db.users), username).None?
      ensures !reply.Success() ==>
        reply == UsernameExists && db.users == old(db.users) && db.userSeq == old(db.userSeq)
      ensures reply.Success() ==>
        && db.userSeq == old(db.userSeq) + 1
        && db.users == old(db.users) + [User(db.userSeq, username, HashPassword(primitives, password), role, None, None)]
      ensures db.documents == old(db.documents) && db.shares == old(db.shares)
      ensures db.documentSeq == old(db.documentSeq)
    {
      if GetUser(db.users, username).Some? {
        return UsernameExists;
      }
      var passwordHash := HashPassword(primitives, password);
      var ok := db.AddUser(username, passwordHash, role);
      if ok {
        reply := Registered;
      } else {
        reply := RegistrationFailed;
      }
    }
  }
}

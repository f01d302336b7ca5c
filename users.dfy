/** Accounts (Backend/models/User.js) and the opaque credentials issued to them. */
module Users {
  import opened Common

  datatype Role = Student | Secretary

  /** The stored text of a role, as the schema's enum spells it. */
  function RoleName(r: Role): string
  {
    match r
    case Student => "student"
    case Secretary => "secretary"
  }

  /** The schema's role enum: a text outside it fails validation at save. */
  function ParseRole(s: string): (r: Option<Role>)
    ensures r.Some? <==> s == "student" || s == "secretary"
    ensures r.Some? ==> RoleName(r.value) == s
  {
    if s == "student" then Some(Student)
    else if s == "secretary" then Some(Secretary)
    else None
  }

  /** The schema's default role; no handler of this model relies on it, since
      registration must name a role. */
  const DEFAULT_ROLE: Role := Student

  newtype byte = x: int | 0 <= x < 256

  /** The UTF-8 encoding of one Unicode scalar value. */
  function Utf8Char(c: char): (r: seq<byte>)
    ensures 1 <= |r| <= 4
    ensures (c as int < 0x80) <==> |r| == 1
  {
    var v := c as int;
    if v < 0x80 then [v as byte]
    else if v < 0x800 then [(0xC0 + v / 0x40) as byte, (0x80 + v % 0x40) as byte]
    else if v < 0x10000 then
      [(0xE0 + v / 0x1000) as byte, (0x80 + (v / 0x40) % 0x40) as byte, (0x80 + v % 0x40) as byte]
    else
      [(0xF0 + v / 0x40000) as byte, (0x80 + (v / 0x1000) % 0x40) as byte,
       (0x80 + (v / 0x40) % 0x40) as byte, (0x80 + v % 0x40) as byte]
  }

  /** The UTF-8 encoding of a string, as bcrypt reads a password. */
  function Utf8(s: string): (r: seq<byte>)
    ensures |s| <= |r| <= 4 * |s|
    decreases |s|
  {
    if |s| == 0 then [] else Utf8Char(s[0]) + Utf8(s[1..])
  }

  /** bcrypt's key schedule reads exactly this many bytes of a password. */
  const BCRYPT_MAX_BYTES: nat := 72

  /** The 72 bytes bcrypt's key schedule reads from the byte string `b`:
      `b` followed by one NUL byte, repeated cyclically. */
  function Schedule(b: seq<byte>): (r: seq<byte>)
    ensures |r| == BCRYPT_MAX_BYTES
    ensures forall i :: 0 <= i < |r| ==> r[i] == (b + [0])[i % (|b| + 1)]
  {
    var c := b + [0];
    seq(BCRYPT_MAX_BYTES, i requires 0 <= i < BCRYPT_MAX_BYTES => c[i % |c|])
  }

  /** What bcrypt reads of a password: the schedule of its UTF-8 bytes (the
      NUL byte is the `$2a$`/`$2b$` convention). */
  function PasswordKey(password: string): (r: seq<byte>)
    ensures |r| == BCRYPT_MAX_BYTES
    ensures forall i :: 0 <= i < |r| ==>
      r[i] == (Utf8(password) + [0])[i % (|Utf8(password)| + 1)]
  {
    Schedule(Utf8(password))
  }

  lemma ModBelow(i: nat, n: nat)
    requires i < n
    ensures i % n == i
  {
  }

  /** A password of at least 72 bytes is read as exactly its first 72 bytes. */
  lemma LongPasswordKey(password: string)
    requires |Utf8(password)| >= BCRYPT_MAX_BYTES
    ensures PasswordKey(password) == Utf8(password)[..BCRYPT_MAX_BYTES]
  {
    var k, b := PasswordKey(password), Utf8(password);
    forall i | 0 <= i < BCRYPT_MAX_BYTES
      ensures k[i] == b[i]
    {
      ModBelow(i, |b| + 1);
      assert (b + [0])[i] == b[i];
    }
  }

  /** `password` with no U+0000 in it: its UTF-8 encoding has no zero byte. */
  predicate NulFree(password: string)
  {
    forall i :: 0 <= i < |password| ==> password[i] != 0 as char
  }

  lemma {:induction false} Utf8NoZeroByte(s: string)
    requires NulFree(s)
    ensures forall j :: 0 <= j < |Utf8(s)| ==> Utf8(s)[j] != 0
    decreases |s|
  {
    if |s| > 0 {
      assert NulFree(s[1..]) by {
        assert forall i :: 0 <= i < |s| - 1 ==> s[1..][i] == s[i + 1];
      }
      Utf8NoZeroByte(s[1..]);
      var h, t := Utf8Char(s[0]), Utf8(s[1..]);
      assert forall j :: 0 <= j < |h| ==> h[j] != 0;
      forall j | 0 <= j < |h| + |t|
        ensures (h + t)[j] != 0
      {
        if j >= |h| { assert (h + t)[j] == t[j - |h|]; }
      }
    }
  }

  /** The cyclic schedules of two different zero-free byte strings shorter
      than 72 bytes differ, at the first place the strings (or their
      terminating NUL bytes) differ. */
  lemma CyclicKeysDiffer(p: seq<byte>, e: seq<byte>)
    requires |p| < BCRYPT_MAX_BYTES && |e| < BCRYPT_MAX_BYTES && p != e
    requires forall j :: 0 <= j < |p| ==> p[j] != 0
    requires forall j :: 0 <= j < |e| ==> e[j] != 0
    ensures Schedule(p) != Schedule(e)
  {
    var kp, ke := Schedule(p), Schedule(e);
    if |p| < |e| {
      ModBelow(|p|, |p| + 1);
      ModBelow(|p|, |e| + 1);
      assert kp[|p|] == (p + [0])[|p|] == 0;
      assert ke[|p|] == (e + [0])[|p|] == e[|p|];
    } else if |e| < |p| {
      ModBelow(|e|, |e| + 1);
      ModBelow(|e|, |p| + 1);
      assert ke[|e|] == (e + [0])[|e|] == 0;
      assert kp[|e|] == (p + [0])[|e|] == p[|e|];
    } else {
      var j :| 0 <= j < |p| && p[j] != e[j];
      ModBelow(j, |p| + 1);
      assert kp[j] == (p + [0])[j] == p[j];
      assert ke[j] == (e + [0])[j] == e[j];
    }
  }

  /** For passwords without U+0000 whose encodings fit before the appended
      NUL byte, bcrypt tells different encodings apart: the key is exact. */
  lemma ShortKeysDiffer(password: string, entered: string)
    requires NulFree(password) && NulFree(entered)
    requires |Utf8(password)| < BCRYPT_MAX_BYTES && |Utf8(entered)| < BCRYPT_MAX_BYTES
    requires Utf8(password) != Utf8(entered)
    ensures PasswordKey(password) != PasswordKey(entered)
  {
    Utf8NoZeroByte(password);
    Utf8NoZeroByte(entered);
    CyclicKeysDiffer(Utf8(password), Utf8(entered));
  }

  /** An embedded U+0000 is where the key stops being exact: "a" is read as
      `61 00` repeated, and so is "a\u0000a". */
  lemma NulPasswordCollides()
    ensures PasswordKey("a") == PasswordKey("a\0a")
    ensures Utf8("a") != Utf8("a\0a")
  {
    var x, y := Utf8("a"), Utf8("a\0a");
    assert x == [0x61];
    assert y == [0x61, 0, 0x61];
    var kx, ky := PasswordKey("a"), PasswordKey("a\0a");
    forall i | 0 <= i < BCRYPT_MAX_BYTES
      ensures kx[i] == ky[i]
    {
      assert (i % 4) % 2 == i % 2;
    }
  }

  /** Stands for the bcrypt hash kept in `password` (the pre-save hook). The
      salt and the hash function are not modelled, only what bcrypt's compare
      decides: which entered passwords it accepts. */
  datatype Credential = Credential(key: seq<byte>)

  function HashPassword(password: string): Credential
  {
    Credential(PasswordKey(password))
  }

  /** `bcrypt.compare(entered, this.password)`. */
  predicate MatchPassword(c: Credential, entered: string)
  {
    c.key == PasswordKey(entered)
  }

  /** The hash of a password accepts exactly the passwords bcrypt's key
      schedule reads the same way, and always the password itself. */
  lemma MatchIffSameKey(password: string, entered: string)
    ensures MatchPassword(HashPassword(password), entered) <==> PasswordKey(entered) == PasswordKey(password)
    ensures MatchPassword(HashPassword(password), password)
  {
  }

  /** Two passwords that agree on their first 72 bytes are the same to bcrypt,
      whatever follows. */
  lemma LongPasswordsShareKey(password: string, entered: string)
    requires |Utf8(password)| >= BCRYPT_MAX_BYTES && |Utf8(entered)| >= BCRYPT_MAX_BYTES
    requires Utf8(entered)[..BCRYPT_MAX_BYTES] == Utf8(password)[..BCRYPT_MAX_BYTES]
    ensures MatchPassword(HashPassword(password), entered)
  {
    LongPasswordKey(password);
    LongPasswordKey(entered);
  }

  datatype User = User(id: nat, name: string, email: string, password: Credential, role: Role)

  function UserId(u: User): nat { u.id }
  function UserEmail(u: User): string { u.email }
  function UserRole(u: User): Role { u.role }

  /** The schema's `unique: true` on email. */
  ghost predicate EmailsUnique(users: seq<User>)
  {
    forall i, j :: 0 <= i < j < |users| ==> users[i].email != users[j].email
  }

  /** `User.findById`: the account with that id, if any. */
  function FindUser(users: seq<User>, id: nat): (r: Option<User>)
    ensures r.Some? ==> r.value in users && r.value.id == id
    ensures r.None? ==> forall u :: u in users ==> u.id != id
  {
    match IndexOf(users, UserId, id)
    case None => None
    case Some(i) => Some(users[i])
  }

  /** `User.findOne({ email })`. */
  function FindByEmail(users: seq<User>, email: string): (r: Option<User>)
    ensures r.Some? ==> r.value in users && r.value.email == email
    ensures r.None? ==> forall u :: u in users ==> u.email != email
  {
    match IndexOf(users, UserEmail, email)
    case None => None
    case Some(i) => Some(users[i])
  }

  /** The role of the caller looked up by id; `None` when no account has that id. */
  function CallerRole(users: seq<User>, id: nat): (r: Option<Role>)
    ensures r.Some? <==> exists u :: u in users && u.id == id
    ensures r.Some? ==> exists u :: u in users && u.id == id && u.role == r.value
  {
    match FindUser(users, id)
    case None => None
    case Some(u) => Some(u.role)
  }

  /** How many student accounts carry email `e`. */
  function StudentsWithEmail(users: seq<User>, e: string): nat
    decreases |users|
  {
    if |users| == 0 then 0
    else (if users[0].role == Student && users[0].email == e then 1 else 0) + StudentsWithEmail(users[1..], e)
  }

  /** `User.find({ role: 'student' }).map(u => u.email)`, in insertion order:
      one email per student account. */
  function StudentEmails(users: seq<User>): (r: seq<string>)
    ensures |r| <= |users|
    ensures forall e :: e in r <==> exists u :: u in users && u.role == Student && u.email == e
    ensures forall e :: multiset(r)[e] == StudentsWithEmail(users, e)
    decreases |users|
  {
    if |users| == 0 then []
    else
      var rest := StudentEmails(users[1..]);
      assert forall u :: u in users <==> u == users[0] || u in users[1..];
      if users[0].role == Student then [users[0].email] + rest else rest
  }

  /** The signed token `generateToken(id)` issues; signature and the 30-day
      expiry are not modelled, only whose id it carries. */
  datatype Token = Token(userId: nat)

  /** The `user` object returned by register and login. */
  datatype UserView = UserView(id: nat, name: string, email: string, role: string)

  function ViewOf(u: User): UserView
  {
    UserView(u.id, u.name, u.email, RoleName(u.role))
  }

  /** The answer of register and login: a token and the account, or an error. */
  datatype AuthReply = Authenticated(status: nat, token: Token, user: UserView) | Rejected(response: Response)
}

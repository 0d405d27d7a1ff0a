/** Login on salted SHA-256 password hashes, and what a successful login says about the password. */
module AuthService {
  import opened Sha256Spec
  import opened Sha256Collision
  import Code = Sha256

  datatype User = User(id: int, passwordHash: string, active: bool)

  /** An unknown user and a wrong password are answered alike. */
  datatype LoginError = InvalidCredentials | Deactivated

  datatype LoginResult = LoggedIn(token: seq<Byte>, user: User) | Refused(error: LoginError)

  /** The bytes of the salt, "academia_salt_". */
  const SALT: seq<Byte> :=
    [0x61, 0x63, 0x61, 0x64, 0x65, 0x6d, 0x69, 0x61, 0x5f, 0x73, 0x61, 0x6c, 0x74, 0x5f]

  lemma SaltSpells()
    ensures |SALT| == |"academia_salt_"|
    ensures forall i :: 0 <= i < |SALT| ==> SALT[i] as int == "academia_salt_"[i] as int
  {
  }

  const SHA: HashFunction := FIPS180.Hasher()

  function PasswordHash(password: seq<Byte>): string { SHA.Hash256(SALT + password) }

  class Service {
    var users: map<seq<Byte>, User>
    var sessions: map<seq<Byte>, int>

    method HashPassword(password: seq<Byte>) returns (h: string)
      ensures h == PasswordHash(password)
    {
      h := Code.Sha256(SALT + password);
    }

    /**
     login, with the random session token as a parameter. The lookup of the user and the INSERT of
     the session may fail without throwing: the one finds nobody, the other stores nothing.
     */
    method Login(username: seq<Byte>, password: seq<Byte>, token: seq<Byte>, lookupFails: bool, insertFails: bool)
      returns (r: LoginResult)
      modifies this`sessions
      ensures r.LoggedIn? <==>
        && !lookupFails && username in users && users[username].active
        && PasswordHash(password) == users[username].passwordHash
      ensures r.LoggedIn? ==> r == LoggedIn(token, users[username])
      ensures sessions ==
        if r.LoggedIn? && !insertFails then old(sessions)[token := users[username].id] else old(sessions)
      ensures r == Refused(Deactivated) <==> !lookupFails && username in users && !users[username].active
    {
      if lookupFails || username !in users {
        return Refused(InvalidCredentials);
      }
      var user := users[username];
      if !user.active {
        return Refused(Deactivated);
      }
      var hashed := HashPassword(password);
      if hashed != user.passwordHash {
        return Refused(InvalidCredentials);
      }
      if !insertFails {
        sessions := sessions[token := user.id];
      }
      return LoggedIn(token, user);
    }
  }

  /** Whoever passes the hash test for p0 typed p0, or exhibits a collision of the compression. */
  lemma PassingTheTest(p0: seq<Byte>, p: seq<Byte>) returns (i: nat, j: nat)
    requires |SALT + p0| < TWO_TO_THE_61 && |SALT + p| < TWO_TO_THE_61
    ensures PasswordHash(p) == PasswordHash(p0) ==>
      p == p0 || CollisionAt(SHA, Blocks(Pad(SALT + p)), i, Blocks(Pad(SALT + p0)), j)
  {
    assert (SALT + p)[|SALT|..] == p && (SALT + p0)[|SALT|..] == p0;
    i, j := FindCollision(SHA, SALT + p, SALT + p0);
  }
}

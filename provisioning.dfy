/**
 * Out-of-band creation of the admin account (setup_railway_admin.py): a
 * get-or-create on the users table keyed by username.
 */
module Provisioning {
  import opened Wrappers
  import opened Models
  import opened Forms
  import Routes

  /** A user with a fresh name and a fresh email can join the table without breaking its unique constraints. */
  lemma AppendUserKeepsUnique(users: seq<User>, u: User)
    requires UniqueUsers(users)
    requires FindUser(users, u.username).None? && !EmailTaken(users, u.email)
    ensures UniqueUsers(users + [u])
  {
    var s := users + [u];
    forall i, j | 0 <= i < j < |s| ensures s[i].username != s[j].username && s[i].email != s[j].email {
      if j == |users| {
        assert s[i] == users[i];
      } else {
        assert s[i] == users[i] && s[j] == users[j];
      }
    }
  }

  /**
   * `create_admin_user` (setup_railway_admin.py:5-30). An existing username answers
   * true and changes nothing. Otherwise one admin row with the given name, email and
   * the hash of the password is committed; the commit fails, answering false and
   * persisting nothing, when the store refuses it (`storeOk` false) or the email
   * already belongs to another user (the unique constraint of models.py:9).
   */
  method CreateAdminUser(db: Database, username: string, email: string, password: string,
                         hashPassword: string -> string, storeOk: bool)
    returns (ok: bool)
    requires db.Valid()
    modifies db
    ensures db.Valid()
    ensures FindUser(old(db.users), username).Some? ==> ok && db.users == old(db.users)
    ensures FindUser(old(db.users), username).None? ==> (ok <==> storeOk && !EmailTaken(old(db.users), email))
    ensures FindUser(old(db.users), username).None? && ok ==>
      db.users == old(db.users) + [User(username, email, hashPassword(password), true)]
    ensures !ok ==> db.users == old(db.users)
    ensures db.books == old(db.books) && db.analytics == old(db.analytics)
    ensures db.events == old(db.events) && db.nextBookId == old(db.nextBookId)
  {
    var existing := FindUser(db.users, username);
    if existing.Some? {
      return true;
    }
    var adminUser := User(username, email, hashPassword(password), true);
    if !storeOk || EmailTaken(db.users, email) {
      return false;
    }
    AppendUserKeepsUnique(db.users, adminUser);
    db.users := db.users + [adminUser];
    ok := true;
  }

  /** Appending a user makes that user the answer to a lookup of a name nobody had. */
  lemma FindAppendedUser(users: seq<User>, u: User)
    requires FindUser(users, u.username).None?
    ensures FindUser(users + [u], u.username) == Some(|users|)
  {
    var s := users + [u];
    var k := FindUser(s, u.username);
    assert s[|users|] == u;
  }

  /**
   * The account `create_admin_user` adds can log in with the password it was given,
   * provided the password check accepts the password against its own hash.
   */
  lemma ProvisionedAdminCanLogIn(users: seq<User>, username: string, email: string, password: string,
                                 hashPassword: string -> string, checkPassword: (string, string) -> bool)
    requires UniqueUsers(users) && FindUser(users, username).None? && !EmailTaken(users, email)
    requires username != "" && password != ""
    requires checkPassword(hashPassword(password), password)
    ensures var admin := User(username, email, hashPassword(password), true);
      Routes.Login(Routes.Anonymous, Some(LoginForm(username, password)), users + [admin], checkPassword)
        == Routes.LoggedIn(admin)
  {
    var admin := User(username, email, hashPassword(password), true);
    FindAppendedUser(users, admin);
    LoginFormRule(LoginForm(username, password));
  }
}

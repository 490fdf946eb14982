/**
 * Properties that relate several calls of UserService, or a call and the
 * store invariant: the database keeps uids, usernames and emails distinct,
 * and the service's own pre-checks keep it that way.
 */
module AccountProperties {
  import opened Wrappers
  import opened CharClasses
  import opened Legality
  import opened Accounts
  import opened UserService

  // ---------------------------------------------------------------------------
  // Login
  // ---------------------------------------------------------------------------

  /** Over a store with distinct keys, login succeeds exactly when some non-judger row matches both identifier and digest. */
  lemma LoginIff(s: Store, identifier: string, password: string)
    requires Valid(s)
    ensures IsAccountValid(s, identifier, password).isAccountValid <==>
      && identifier != ""
      && password != ""
      && exists u :: u in s.users && IdentifiedBy(u, identifier) && u.password == password && u.group.slug != JudgersSlug
  {
    if identifier != "" && password != "" {
      if u :| u in s.users && IdentifiedBy(u, identifier) && u.password == password && u.group.slug != JudgersSlug {
        SelectFindsStoredRow(s.users, u, IdentifierColumn(identifier));
      }
    }
  }

  /** A member of the "judgers" group cannot log in, whatever password is given. */
  lemma JudgersCannotLogIn(s: Store, u: User, identifier: string, password: string)
    requires Valid(s)
    requires u in s.users && u.group.slug == JudgersSlug
    requires IdentifiedBy(u, identifier)
    ensures !IsAccountValid(s, identifier, password).isAccountValid
    ensures !IsAccountValid(s, identifier, password).isSuccessful
  {
    SelectFindsStoredRow(s.users, u, IdentifierColumn(identifier));
  }

  // ---------------------------------------------------------------------------
  // Registration
  // ---------------------------------------------------------------------------

  lemma UsernameHasNoAt(u: string)
    requires IsUsernameLegal(u)
    ensures '@' !in u
  {
    UsernameLegalIff(u);
  }

  lemma EmailHasAt(e: string)
    requires IsEmailLegal(e)
    ensures '@' in e
  {
    var i := Span(e, EmailLocal);
    assert e[i] == '@';
  }

  /** A username already in the store is reported as taken and nothing is written. */
  lemma TakenUsernameIsRejected(
    s: Store, env: Collaborators, u: User, password: string, email: string,
    languageSlug: string, isCsrfTokenValid: bool, isAllowRegister: bool, registerTime: string)
    requires DefaultGroupSlug in s.groups
    requires u in s.users
    ensures var out := CreateUser(s, env, u.username, password, email, languageSlug, isCsrfTokenValid, isAllowRegister, registerTime);
      && out.result.isUsernameExists
      && !out.result.isSuccessful
      && out.store == s
  {
  }

  /** Registration keeps uids, usernames and emails distinct and every meta owner allocated. */
  lemma CreateUserPreservesValid(
    s: Store, env: Collaborators, username: string, password: string, email: string,
    languageSlug: string, isCsrfTokenValid: bool, isAllowRegister: bool, registerTime: string)
    requires Valid(s)
    requires DefaultGroupSlug in s.groups
    ensures Valid(CreateUser(s, env, username, password, email, languageSlug, isCsrfTokenValid, isAllowRegister, registerTime).store)
  {
    var out := CreateUser(s, env, username, password, email, languageSlug, isCsrfTokenValid, isAllowRegister, registerTime);
    if out.result.isSuccessful {
      var rows := out.store.users;
      var n := |s.users|;
      assert rows[..n] == s.users;
      forall i, j | 0 <= i < |rows| && 0 <= j < |rows| && i != j
        ensures rows[i].uid != rows[j].uid && rows[i].username != rows[j].username && rows[i].email != rows[j].email
      {
        if i < n && j < n {
          assert rows[i] == s.users[i] && rows[j] == s.users[j];
        } else if i == n {
          assert rows[j] == s.users[j] && rows[j] in s.users;
        } else {
          assert rows[i] == s.users[i] && rows[i] in s.users;
        }
      }
    }
  }

  /**
   * A successful registration leaves a user who logs in by username and by
   * email with the digest of the password, exactly when that digest is non-empty.
   */
  lemma RegisteredUserCanLogIn(
    s: Store, env: Collaborators, username: string, password: string, email: string,
    languageSlug: string, isCsrfTokenValid: bool, isAllowRegister: bool, registerTime: string)
    requires Valid(s)
    requires DefaultGroupSlug in s.groups
    requires CreateUser(s, env, username, password, email, languageSlug, isCsrfTokenValid, isAllowRegister, registerTime).result.isSuccessful
    ensures var t := CreateUser(s, env, username, password, email, languageSlug, isCsrfTokenValid, isAllowRegister, registerTime).store;
      && (IsAccountValid(t, username, env.digest(password)).isAccountValid <==> env.digest(password) != "")
      && (IsAccountValid(t, email, env.digest(password)).isAccountValid <==> env.digest(password) != "")
      && MetaOf(t, s.nextUid) == map[RegisterTimeKey := registerTime]
  {
    var t := CreateUser(s, env, username, password, email, languageSlug, isCsrfTokenValid, isAllowRegister, registerTime).store;
    CreateUserPreservesValid(s, env, username, password, email, languageSlug, isCsrfTokenValid, isAllowRegister, registerTime);
    var u := t.users[|s.users|];
    assert u in t.users;
    assert u.group.slug == DefaultGroupSlug;
    UsernameHasNoAt(username);
    EmailHasAt(email);
    assert IdentifiedBy(u, username) && IdentifiedBy(u, email);
    assert u.password == env.digest(password) && u.group.slug != JudgersSlug;
    LoginIff(t, username, env.digest(password));
    LoginIff(t, email, env.digest(password));
    assert s.nextUid !in s.metas;
  }

  // ---------------------------------------------------------------------------
  // Password change
  // ---------------------------------------------------------------------------

  /** With an empty old password the change succeeds exactly when the new password is legal and confirmed. */
  lemma EmptyOldPasswordSkipsCheck(env: Collaborators, user: User, newPassword: string, confirmPassword: string)
    ensures GetChangePasswordResult(env, user, "", newPassword, confirmPassword).isSuccessful <==>
      IsPasswordLegal(newPassword) && newPassword == confirmPassword
  {
  }

  lemma ChangePasswordPreservesValid(
    s: Store, env: Collaborators, user: User, oldPassword: string, newPassword: string, confirmPassword: string)
    requires Valid(s)
    requires user in s.users
    ensures Valid(ChangePassword(s, env, user, oldPassword, newPassword, confirmPassword).store)
  {
    var out := ChangePassword(s, env, user, oldPassword, newPassword, confirmPassword);
    if out.result.isSuccessful {
      RewritePreservesDistinctKeys(s.users, out.store.users, user, user.(password := env.digest(newPassword)));
    }
  }

  /**
   * The write-back takes every column from the caller's object, so an object
   * carrying another stored row's email copies that email into its own row:
   * a successful change then leaves two rows with the same email.
   */
  lemma StaleUserBreaksDistinctEmails(
    s: Store, env: Collaborators, a: User, b: User, oldPassword: string, newPassword: string, confirmPassword: string)
    requires Valid(s)
    requires a in s.users && b in s.users && a != b
    requires ChangePassword(s, env, a.(email := b.email), oldPassword, newPassword, confirmPassword).result.isSuccessful
    ensures var t := ChangePassword(s, env, a.(email := b.email), oldPassword, newPassword, confirmPassword).store;
      && !Valid(t)
      && exists i, j :: 0 <= i < |t.users| && 0 <= j < |t.users| && i != j && t.users[i].email == b.email && t.users[j].email == b.email
  {
    var t := ChangePassword(s, env, a.(email := b.email), oldPassword, newPassword, confirmPassword).store;
    var i :| 0 <= i < |s.users| && s.users[i] == a;
    var j :| 0 <= j < |s.users| && s.users[j] == b;
    assert i != j;
    assert a.uid != b.uid;
    assert t.users[i].email == b.email;
    assert t.users[j] == b;
  }

  /**
   * After a successful change the row holds the digest of the new password:
   * a further change of the stored row that submits the new password as the
   * old one then succeeds exactly when the next password is legal, and an
   * '@'-free username logs in with the digest exactly when the name and the
   * digest are non-empty and the user is not a judger.
   */
  lemma ChangedPasswordIsAccepted(
    s: Store, env: Collaborators, user: User, oldPassword: string, newPassword: string, confirmPassword: string,
    nextPassword: string)
    requires Valid(s)
    requires user in s.users
    requires ChangePassword(s, env, user, oldPassword, newPassword, confirmPassword).result.isSuccessful
    ensures var t := ChangePassword(s, env, user, oldPassword, newPassword, confirmPassword).store;
      && GetUserUsingUid(t, user.uid) == Some(user.(password := env.digest(newPassword)))
      && GetChangePasswordResult(env, GetUserUsingUid(t, user.uid).value, newPassword, nextPassword, nextPassword).isOldPasswordCorrect
      && (GetChangePasswordResult(env, GetUserUsingUid(t, user.uid).value, newPassword, nextPassword, nextPassword).isSuccessful <==>
            IsPasswordLegal(nextPassword))
      && ('@' !in user.username ==>
            (IsAccountValid(t, user.username, env.digest(newPassword)).isAccountValid <==>
               user.username != "" && env.digest(newPassword) != "" && user.group.slug != JudgersSlug))
  {
    var t := ChangePassword(s, env, user, oldPassword, newPassword, confirmPassword).store;
    var updated := user.(password := env.digest(newPassword));
    ChangePasswordPreservesValid(s, env, user, oldPassword, newPassword, confirmPassword);
    var i :| 0 <= i < |s.users| && s.users[i] == user;
    assert t.users[i] == updated;
    assert updated in t.users;
    SelectFindsStoredRow(t.users, updated, Username);
    if '@' !in user.username {
      LoginIff(t, user.username, env.digest(newPassword));
      assert IdentifiedBy(updated, user.username);
      if IsAccountValid(t, user.username, env.digest(newPassword)).isAccountValid {
        var v :| v in t.users && IdentifiedBy(v, user.username) && v.password == env.digest(newPassword) && v.group.slug != JudgersSlug;
        SameKeySameRow(t.users, v, updated);
      }
    }
  }

  // ---------------------------------------------------------------------------
  // Profile update
  // ---------------------------------------------------------------------------

  /** Rewriting the row of a stored user keeps keys distinct when its new username and email are not another row's. */
  lemma RewritePreservesDistinctKeys(before: seq<User>, after: seq<User>, stored: User, u: User)
    requires DistinctKeys(before)
    requires stored in before && u.uid == stored.uid
    requires Rewritten(before, after, u)
    requires forall v :: v in before && v != stored ==> v.username != u.username && v.email != u.email
    ensures DistinctKeys(after)
  {
    forall i, j | 0 <= i < |after| && 0 <= j < |after| && i != j
      ensures after[i].uid != after[j].uid && after[i].username != after[j].username && after[i].email != after[j].email
    {
      assert before[i] in before && before[j] in before;
      if before[i].uid == u.uid {
        SameKeySameRow(before, before[i], stored);
      }
      if before[j].uid == u.uid {
        SameKeySameRow(before, before[j], stored);
      }
    }
  }

  /** An upsert gives meta entries to no uid other than the one it writes. */
  lemma UpsertOwners(s: Store, uid: nat, key: string, value: string)
    ensures UpdateUserMeta(s, uid, key, value).metas.Keys <= s.metas.Keys + {uid}
  {
  }

  lemma UpdateProfilePreservesValid(
    s: Store, env: Collaborators, user: User, email: string,
    location: string, website: string, socialLinks: string, aboutMe: string)
    requires Valid(s)
    requires user in s.users
    ensures Valid(UpdateProfile(s, env, user, email, location, website, socialLinks, aboutMe).store)
  {
    var out := UpdateProfile(s, env, user, email, location, website, socialLinks, aboutMe);
    if out.result.isSuccessful {
      var u := user.(email := email);
      forall v | v in s.users && v != user
        ensures v.username != u.username && v.email != u.email
      {
        if v.username == u.username {
          SameKeySameRow(s.users, v, user);
        }
        if email == user.email && v.email == email {
          SameKeySameRow(s.users, v, user);
        }
      }
      RewritePreservesDistinctKeys(s.users, out.store.users, user, u);
      var i :| 0 <= i < |s.users| && s.users[i] == user;
      assert user.uid < s.nextUid by { assert s.users[i].uid < s.nextUid; }
      var p := Sanitize(env, location, website, socialLinks, aboutMe);
      var s0 := UpdateUser(s, u);
      var s1 := UpdateUserMeta(s0, user.uid, LocationKey, p.location);
      var s2 := UpdateUserMeta(s1, user.uid, WebsiteKey, p.website);
      var s3 := UpdateUserMeta(s2, user.uid, SocialLinksKey, p.socialLinks);
      var s4 := UpdateUserMeta(s3, user.uid, AboutMeKey, p.aboutMe);
      assert out.store == s4;
      UpsertOwners(s0, user.uid, LocationKey, p.location);
      UpsertOwners(s1, user.uid, WebsiteKey, p.website);
      UpsertOwners(s2, user.uid, SocialLinksKey, p.socialLinks);
      UpsertOwners(s3, user.uid, AboutMeKey, p.aboutMe);
      forall uid | uid in out.store.metas
        ensures uid < out.store.nextUid
      {
        assert uid in s.metas.Keys + {user.uid};
      }
    }
  }

  /**
   * After a successful profile update the new email logs the user in with the
   * stored digest exactly when that digest is non-empty and the user is not a judger.
   */
  lemma NewEmailLogsIn(
    s: Store, env: Collaborators, user: User, email: string,
    location: string, website: string, socialLinks: string, aboutMe: string)
    requires Valid(s)
    requires user in s.users
    requires UpdateProfile(s, env, user, email, location, website, socialLinks, aboutMe).result.isSuccessful
    ensures var t := UpdateProfile(s, env, user, email, location, website, socialLinks, aboutMe).store;
      IsAccountValid(t, email, user.password).isAccountValid <==> user.password != "" && user.group.slug != JudgersSlug
  {
    var t := UpdateProfile(s, env, user, email, location, website, socialLinks, aboutMe).store;
    var u := user.(email := email);
    UpdateProfilePreservesValid(s, env, user, email, location, website, socialLinks, aboutMe);
    var i :| 0 <= i < |s.users| && s.users[i] == user;
    assert t.users[i] == u;
    assert u in t.users;
    EmailHasAt(email);
    assert IdentifiedBy(u, email);
    LoginIff(t, email, user.password);
    if IsAccountValid(t, email, user.password).isAccountValid {
      var v :| v in t.users && IdentifiedBy(v, email) && v.password == user.password && v.group.slug != JudgersSlug;
      SameKeySameRow(t.users, v, u);
    }
  }

  /** Rows already rewritten to u stay as they are when rewritten to u again. */
  lemma RewriteIdempotent(before: seq<User>, t: Store, u: User)
    requires Rewritten(before, t.users, u)
    ensures UpdateUser(t, u) == t
  {
    var again := UpdateUser(t, u).users;
    assert |again| == |t.users|;
    forall i | 0 <= i < |t.users|
      ensures again[i] == t.users[i]
    {
    }
  }

  /** Writing a meta value the entry already has, or an empty value for an absent key, changes nothing. */
  lemma UpsertIdempotent(s: Store, uid: nat, key: string, value: string)
    requires key in MetaOf(s, uid) ==> MetaOf(s, uid)[key] == value
    requires key !in MetaOf(s, uid) ==> value == ""
    ensures UpdateUserMeta(s, uid, key, value) == s
  {
    var m := MetaOf(s, uid);
    if key in m {
      assert uid in s.metas;
      assert m[key := value] == m;
      assert s.metas[uid := m] == s.metas;
    }
  }

  /** Submitting the same profile again, for the user as the first call left it, succeeds and changes nothing. */
  lemma UpdateProfileIdempotent(
    s: Store, env: Collaborators, user: User, email: string,
    location: string, website: string, socialLinks: string, aboutMe: string)
    requires UpdateProfile(s, env, user, email, location, website, socialLinks, aboutMe).result.isSuccessful
    ensures var first := UpdateProfile(s, env, user, email, location, website, socialLinks, aboutMe);
      UpdateProfile(first.store, env, user.(email := email), email, location, website, socialLinks, aboutMe) == first
  {
    var first := UpdateProfile(s, env, user, email, location, website, socialLinks, aboutMe);
    var t := first.store;
    var u := user.(email := email);
    var p := Sanitize(env, location, website, socialLinks, aboutMe);
    var result := GetUpdateProfileResult(t, u, email, p);
    assert result == first.result;
    var t0 := UpdateUser(t, u);
    RewriteIdempotent(s.users, t, u);
    assert t0 == t;
    UpsertIdempotent(t, u.uid, LocationKey, p.location);
    UpsertIdempotent(t, u.uid, WebsiteKey, p.website);
    UpsertIdempotent(t, u.uid, SocialLinksKey, p.socialLinks);
    UpsertIdempotent(t, u.uid, AboutMeKey, p.aboutMe);
  }

}

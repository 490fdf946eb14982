/**
 * The use cases of UserService. Each one computes a record of named checks,
 * derives isSuccessful as a fixed conjunction of them, and writes to the
 * store only when isSuccessful holds. Every operation returns the result
 * record together with the store after the call.
 */
module UserService {
  import opened Wrappers
  import opened Legality
  import opened Accounts

  const DefaultGroupSlug := "users"
  const JudgersSlug := "judgers"
  const RegisterTimeKey := "RegisterTime"
  const LocationKey := "location"
  const WebsiteKey := "website"
  const SocialLinksKey := "socialLinks"
  const AboutMeKey := "aboutMe"
  const ProfileKeys: set<string> := {LocationKey, WebsiteKey, SocialLinksKey, AboutMeKey}
  const MaxLocationLength := 128
  const MaxAboutMeLength := 256

  /**
   * The library code the service calls: the MD5 hex digest, the HTML filter
   * and the sensitive-word filter. Nothing is assumed about them beyond being
   * functions.
   */
  datatype Collaborators = Collaborators(
    digest: string -> string,
    stripMarkup: string -> string,
    filterWords: string -> string)

  /** The result record of one call and the store after it. */
  datatype Step<R> = Step(result: R, store: Store)

  // ---------------------------------------------------------------------------
  // Lookups and existence checks
  // ---------------------------------------------------------------------------

  /** uid is a Java long; no stored row has a negative id, so such a lookup yields None (the mapper's null). */
  function GetUserUsingUid(s: Store, uid: int): (r: Option<User>)
    ensures r.Some? ==> r.value in s.users && r.value.uid == uid
    ensures r.None? <==> forall u :: u in s.users ==> u.uid != uid
    ensures uid < 0 ==> r.None?
  {
    SelectByUid(s.users, uid)
  }

  /** A login identifier names an e-mail address when it contains '@', a username otherwise. */
  function IdentifierColumn(identifier: string): Column {
    if '@' in identifier then Email else Username
  }

  predicate IdentifiedBy(u: User, identifier: string) {
    ColumnOf(u, IdentifierColumn(identifier)) == identifier
  }

  function GetUserUsingUsernameOrEmail(s: Store, identifier: string): (r: Option<User>)
    ensures r.Some? ==> r.value in s.users
    ensures r.Some? && '@' in identifier ==> r.value.email == identifier
    ensures r.Some? && '@' !in identifier ==> r.value.username == identifier
    ensures r.None? <==> forall u :: u in s.users ==> !IdentifiedBy(u, identifier)
  {
    SelectBy(s.users, IdentifierColumn(identifier), identifier)
  }

  function IsUsernameExists(s: Store, username: string): (r: bool)
    ensures r <==> exists u :: u in s.users && u.username == username
  {
    SelectBy(s.users, Username, username).Some?
  }

  /** The registration form of the check. */
  function IsEmailExists(s: Store, email: string): (r: bool)
    ensures r <==> exists u :: u in s.users && u.email == email
  {
    SelectBy(s.users, Email, email).Some?
  }

  /** The profile form of the check: keeping one's current address never counts as taken. */
  function IsEmailExistsForEdit(s: Store, currentEmail: string, email: string): (r: bool)
    ensures currentEmail == email ==> !r
    ensures currentEmail != email ==> (r <==> exists u :: u in s.users && u.email == email)
  {
    if currentEmail == email then false else IsEmailExists(s, email)
  }

  // ---------------------------------------------------------------------------
  // Login check
  // ---------------------------------------------------------------------------

  datatype LoginResult = LoginResult(
    isUsernameEmpty: bool,
    isPasswordEmpty: bool,
    isAccountValid: bool,
    isSuccessful: bool)

  /**
   * password is already a digest here and is compared with the stored one as
   * it is. Accounts of the "judgers" group never log in.
   */
  function IsAccountValid(s: Store, username: string, password: string): (r: LoginResult)
    ensures r.isUsernameEmpty <==> username == ""
    ensures r.isPasswordEmpty <==> password == ""
    ensures r.isSuccessful == r.isAccountValid
    ensures username == "" || password == "" ==> !r.isAccountValid
    ensures r.isAccountValid ==>
      exists u :: u in s.users && IdentifiedBy(u, username) && u.password == password && u.group.slug != JudgersSlug
  {
    var isUsernameEmpty := username == "";
    var isPasswordEmpty := password == "";
    var isAccountValid :=
      && !isUsernameEmpty
      && !isPasswordEmpty
      && match GetUserUsingUsernameOrEmail(s, username)
         case None => false
         case Some(u) => u.password == password && u.group.slug != JudgersSlug;
    LoginResult(isUsernameEmpty, isPasswordEmpty, isAccountValid, isAccountValid)
  }

  // ---------------------------------------------------------------------------
  // Registration
  // ---------------------------------------------------------------------------

  datatype CreationResult = CreationResult(
    isUsernameEmpty: bool,
    isUsernameLegal: bool,
    isUsernameExists: bool,
    isPasswordEmpty: bool,
    isPasswordLegal: bool,
    isEmailEmpty: bool,
    isEmailLegal: bool,
    isEmailExists: bool,
    isLanguageLegal: bool,
    isCsrfTokenValid: bool,
    isAllowRegister: bool,
    isSuccessful: bool)
  {
    /** The eleven named checks all pass. */
    predicate ChecksPass() {
      && !isUsernameEmpty && isUsernameLegal && !isUsernameExists
      && !isPasswordEmpty && isPasswordLegal
      && !isEmailEmpty && isEmailLegal && !isEmailExists
      && isLanguageLegal && isCsrfTokenValid && isAllowRegister
    }
  }

  /** password is the plaintext; language is the preferred language the slug resolved to, if any. */
  function GetUserCreationResult(
    s: Store, username: string, password: string, email: string,
    language: Option<Language>, isCsrfTokenValid: bool, isAllowRegister: bool): (r: CreationResult)
    ensures r.isSuccessful <==> r.ChecksPass()
    ensures r.isUsernameEmpty <==> username == ""
    ensures r.isUsernameLegal <==> UsernameShape(username)
    ensures r.isUsernameExists <==> exists u :: u in s.users && u.username == username
    ensures r.isPasswordEmpty <==> password == ""
    ensures r.isPasswordLegal <==> MinPasswordLength <= |password| <= MaxPasswordLength
    ensures r.isEmailEmpty <==> email == ""
    ensures r.isEmailLegal <==> |email| <= MaxEmailLength && EmailShape(email)
    ensures r.isEmailExists <==> exists u :: u in s.users && u.email == email
    ensures r.isLanguageLegal <==> language.Some?
    ensures r.isCsrfTokenValid == isCsrfTokenValid && r.isAllowRegister == isAllowRegister
    ensures r.isSuccessful <==>
      && username != "" && IsUsernameLegal(username) && (forall u :: u in s.users ==> u.username != username)
      && password != "" && IsPasswordLegal(password)
      && email != "" && IsEmailLegal(email) && (forall u :: u in s.users ==> u.email != email)
      && language.Some? && isCsrfTokenValid && isAllowRegister
  {
    UsernameLegalIff(username);
    EmailLegalIff(email);
    var r := CreationResult(
      username == "", IsUsernameLegal(username), IsUsernameExists(s, username),
      password == "", IsPasswordLegal(password),
      email == "", IsEmailLegal(email), IsEmailExists(s, email),
      language.Some?, isCsrfTokenValid, isAllowRegister,
      false);
    r.(isSuccessful := r.ChecksPass())
  }

  /**
   * Registers a user in the default group with the digest of the password,
   * then records registerTime (the caller's clock, already formatted) under
   * the "RegisterTime" meta key of the new uid.
   */
  function CreateUser(
    s: Store, env: Collaborators, username: string, password: string, email: string,
    languageSlug: string, isCsrfTokenValid: bool, isAllowRegister: bool, registerTime: string): (out: Step<CreationResult>)
    requires DefaultGroupSlug in s.groups
    ensures out.result == GetUserCreationResult(s, username, password, email, LanguageBySlug(s, languageSlug), isCsrfTokenValid, isAllowRegister)
    ensures !out.result.isSuccessful ==> out.store == s
    ensures out.result.isSuccessful ==>
      && languageSlug in s.languages
      && out.store.users == s.users + [User(s.nextUid, username, env.digest(password), email, s.groups[DefaultGroupSlug], s.languages[languageSlug])]
      && out.store.nextUid == s.nextUid + 1
      && MetaOf(out.store, s.nextUid) == MetaOf(s, s.nextUid)[RegisterTimeKey := registerTime]
      && (forall uid :: uid != s.nextUid ==> MetaOf(out.store, uid) == MetaOf(s, uid))
      && out.store.groups == s.groups
      && out.store.languages == s.languages
  {
    var group := GroupBySlug(s, DefaultGroupSlug).value;
    var language := LanguageBySlug(s, languageSlug);
    var result := GetUserCreationResult(s, username, password, email, language, isCsrfTokenValid, isAllowRegister);
    if !result.isSuccessful then
      Step(result, s)
    else
      var created := InsertUser(s, User(0, username, env.digest(password), email, group, language.value));
      Step(result, PutMeta(created, s.nextUid, RegisterTimeKey, registerTime))
  }

  // ---------------------------------------------------------------------------
  // Password change
  // ---------------------------------------------------------------------------

  datatype ChangePasswordResult = ChangePasswordResult(
    isOldPasswordCorrect: bool,
    isNewPasswordEmpty: bool,
    isNewPasswordLegal: bool,
    isConfirmPasswordMatched: bool,
    isSuccessful: bool)
  {
    predicate ChecksPass() {
      isOldPasswordCorrect && !isNewPasswordEmpty && isNewPasswordLegal && isConfirmPasswordMatched
    }
  }

  /** The three passwords are plaintext; user.password is the stored digest. */
  function GetChangePasswordResult(
    env: Collaborators, user: User, oldPassword: string, newPassword: string, confirmPassword: string): (r: ChangePasswordResult)
    ensures r.isSuccessful <==> r.ChecksPass()
    ensures oldPassword == "" ==> r.isOldPasswordCorrect
    ensures r.isOldPasswordCorrect <==> oldPassword == "" || env.digest(oldPassword) == user.password
    ensures r.isNewPasswordEmpty <==> newPassword == ""
    ensures r.isNewPasswordLegal <==> MinPasswordLength <= |newPassword| <= MaxPasswordLength
    ensures r.isConfirmPasswordMatched <==> newPassword == confirmPassword
    ensures r.isSuccessful <==>
      && (oldPassword == "" || env.digest(oldPassword) == user.password)
      && newPassword != ""
      && MinPasswordLength <= |newPassword| <= MaxPasswordLength
      && newPassword == confirmPassword
  {
    var r := ChangePasswordResult(
      IsOldPasswordCorrect(env.digest, user.password, oldPassword),
      newPassword == "",
      IsPasswordLegal(newPassword),
      newPassword == confirmPassword,
      false);
    r.(isSuccessful := r.ChecksPass())
  }

  /** On success the row of user.uid is written from user with the new digest. */
  function ChangePassword(
    s: Store, env: Collaborators, user: User, oldPassword: string, newPassword: string, confirmPassword: string): (out: Step<ChangePasswordResult>)
    ensures out.result == GetChangePasswordResult(env, user, oldPassword, newPassword, confirmPassword)
    ensures !out.result.isSuccessful ==> out.store == s
    ensures out.result.isSuccessful ==> Rewritten(s.users, out.store.users, user.(password := env.digest(newPassword)))
    ensures out.store.metas == s.metas && out.store.groups == s.groups
    ensures out.store.languages == s.languages && out.store.nextUid == s.nextUid
  {
    var result := GetChangePasswordResult(env, user, oldPassword, newPassword, confirmPassword);
    if !result.isSuccessful then
      Step(result, s)
    else
      Step(result, UpdateUser(s, user.(password := env.digest(newPassword))))
  }

  // ---------------------------------------------------------------------------
  // Meta upsert
  // ---------------------------------------------------------------------------

  /** key ends up holding value, except that an absent key with an empty value stays absent. */
  predicate UpsertedAt(before: Meta, after: Meta, key: string, value: string) {
    && (key in after <==> key in before || value != "")
    && (key in after ==> after[key] == value)
  }

  /** Outside keys, after has exactly the entries of before. */
  predicate AgreeExcept(before: Meta, after: Meta, keys: set<string>) {
    && (forall k :: k in before && k !in keys ==> k in after && after[k] == before[k])
    && (forall k :: k in after && k !in keys ==> k in before)
  }

  function UpdateUserMeta(s: Store, uid: nat, key: string, value: string): (r: Store)
    ensures UpsertedAt(MetaOf(s, uid), MetaOf(r, uid), key, value)
    ensures AgreeExcept(MetaOf(s, uid), MetaOf(r, uid), {key})
    ensures key !in MetaOf(s, uid) && value == "" ==> r == s
    ensures forall other :: other != uid ==> MetaOf(r, other) == MetaOf(s, other)
    ensures r.users == s.users && r.groups == s.groups && r.languages == s.languages && r.nextUid == s.nextUid
  {
    if key !in MetaOf(s, uid) && value == "" then s else PutMeta(s, uid, key, value)
  }

  // ---------------------------------------------------------------------------
  // Profile update
  // ---------------------------------------------------------------------------

  /** The four free-text profile fields after filtering. */
  datatype Profile = Profile(location: string, website: string, socialLinks: string, aboutMe: string)

  /** HTML filtering of every field, then sensitive-word filtering of aboutMe; done before any check. */
  function Sanitize(env: Collaborators, location: string, website: string, socialLinks: string, aboutMe: string): Profile {
    Profile(
      env.stripMarkup(location),
      env.stripMarkup(website),
      env.stripMarkup(socialLinks),
      env.filterWords(env.stripMarkup(aboutMe)))
  }

  datatype ProfileResult = ProfileResult(
    isEmailEmpty: bool,
    isEmailLegal: bool,
    isEmailExists: bool,
    isLocationLegal: bool,
    isWebsiteLegal: bool,
    isAboutMeLegal: bool,
    isSuccessful: bool)
  {
    predicate ChecksPass() {
      && !isEmailEmpty && isEmailLegal && !isEmailExists
      && isLocationLegal && isWebsiteLegal && isAboutMeLegal
    }
  }

  function GetUpdateProfileResult(s: Store, user: User, email: string, p: Profile): (r: ProfileResult)
    ensures r.isSuccessful <==> r.ChecksPass()
    ensures email == user.email ==> !r.isEmailExists
    ensures r.isSuccessful <==>
      && email != ""
      && IsEmailLegal(email)
      && (email == user.email || forall u :: u in s.users ==> u.email != email)
      && |p.location| <= MaxLocationLength
      && IsWebsiteLegal(p.website)
      && |p.aboutMe| <= MaxAboutMeLength
  {
    var r := ProfileResult(
      email == "",
      IsEmailLegal(email),
      IsEmailExistsForEdit(s, user.email, email),
      |p.location| <= MaxLocationLength,
      IsWebsiteLegal(p.website),
      |p.aboutMe| <= MaxAboutMeLength,
      false);
    r.(isSuccessful := r.ChecksPass())
  }

  /**
   * Each flag of a profile update reports its own check; the e-mail and
   * website flags are the languages of their patterns.
   */
  lemma ProfileFlags(s: Store, user: User, email: string, p: Profile)
    ensures var r := GetUpdateProfileResult(s, user, email, p);
      && (r.isEmailEmpty <==> email == "")
      && (r.isEmailLegal <==> |email| <= MaxEmailLength && EmailShape(email))
      && (r.isEmailExists <==> email != user.email && exists u :: u in s.users && u.email == email)
      && (r.isLocationLegal <==> |p.location| <= MaxLocationLength)
      && (r.isWebsiteLegal <==> p.website == "" || (|p.website| <= MaxWebsiteLength && WebsiteShape(p.website)))
      && (r.isAboutMeLegal <==> |p.aboutMe| <= MaxAboutMeLength)
  {
    EmailLegalIff(email);
    WebsiteLegalIff(p.website);
  }

  /** The four profile entries were each upserted and no other entry of the user changed. */
  predicate ProfileWritten(before: Meta, after: Meta, p: Profile) {
    && UpsertedAt(before, after, LocationKey, p.location)
    && UpsertedAt(before, after, WebsiteKey, p.website)
    && UpsertedAt(before, after, SocialLinksKey, p.socialLinks)
    && UpsertedAt(before, after, AboutMeKey, p.aboutMe)
    && AgreeExcept(before, after, ProfileKeys)
  }

  /** On success the row of user.uid is written from user with the new email, then the four entries are upserted. */
  function UpdateProfile(
    s: Store, env: Collaborators, user: User, email: string,
    location: string, website: string, socialLinks: string, aboutMe: string): (out: Step<ProfileResult>)
    ensures out.result == GetUpdateProfileResult(s, user, email, Sanitize(env, location, website, socialLinks, aboutMe))
    ensures !out.result.isSuccessful ==> out.store == s
    ensures out.result.isSuccessful ==>
      && Rewritten(s.users, out.store.users, user.(email := email))
      && ProfileWritten(MetaOf(s, user.uid), MetaOf(out.store, user.uid), Sanitize(env, location, website, socialLinks, aboutMe))
    ensures forall other :: other != user.uid ==> MetaOf(out.store, other) == MetaOf(s, other)
    ensures out.store.groups == s.groups && out.store.languages == s.languages && out.store.nextUid == s.nextUid
  {
    var p := Sanitize(env, location, website, socialLinks, aboutMe);
    var result := GetUpdateProfileResult(s, user, email, p);
    if !result.isSuccessful then
      Step(result, s)
    else
      var s0 := UpdateUser(s, user.(email := email));
      var s1 := UpdateUserMeta(s0, user.uid, LocationKey, p.location);
      var s2 := UpdateUserMeta(s1, user.uid, WebsiteKey, p.website);
      var s3 := UpdateUserMeta(s2, user.uid, SocialLinksKey, p.socialLinks);
      var s4 := UpdateUserMeta(s3, user.uid, AboutMeKey, p.aboutMe);
      Step(result, s4)
  }

}

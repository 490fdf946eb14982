/**
 * The account store the service reads and writes: the users table, the
 * per-user key/value meta table and the group and language reference data.
 *
 * The users table is a sequence of rows in insertion order; each row carries
 * its unique id, so the table is a map from uid to User that also remembers
 * the order rows were inserted in. Lookups return the first matching row,
 * which under Valid is the only one, or None where the mapper returns null.
 */
module Accounts {
  import opened Wrappers

  datatype UserGroup = UserGroup(userGroupId: nat, slug: string, name: string)

  datatype Language = Language(languageId: nat, slug: string, name: string)

  /** password always holds a digest, never the plaintext. */
  datatype User = User(
    uid: nat,
    username: string,
    password: string,
    email: string,
    group: UserGroup,
    preferLanguage: Language)

  /** One user's meta entries, metaKey to metaValue. */
  type Meta = map<string, string>

  datatype Store = Store(
    users: seq<User>,
    metas: map<nat, Meta>,
    groups: map<string, UserGroup>,
    languages: map<string, Language>,
    nextUid: nat)

  // ---------------------------------------------------------------------------
  // The database's own guarantees
  // ---------------------------------------------------------------------------

  /** uid is the primary key; username and email carry unique constraints. */
  predicate DistinctKeys(rows: seq<User>) {
    forall i, j :: 0 <= i < |rows| && 0 <= j < |rows| && i != j ==>
      && rows[i].uid != rows[j].uid
      && rows[i].username != rows[j].username
      && rows[i].email != rows[j].email
  }

  predicate Valid(s: Store) {
    && DistinctKeys(s.users)
    && (forall i :: 0 <= i < |s.users| ==> s.users[i].uid < s.nextUid)
    && (forall uid :: uid in s.metas ==> uid < s.nextUid)
    && (forall slug :: slug in s.groups ==> s.groups[slug].slug == slug)
  }

  /** Two rows of a table with distinct keys that share any key are the same row. */
  lemma SameKeySameRow(rows: seq<User>, u: User, v: User)
    requires DistinctKeys(rows)
    requires u in rows && v in rows
    requires u.uid == v.uid || u.username == v.username || u.email == v.email
    ensures u == v
  {
    var i :| 0 <= i < |rows| && rows[i] == u;
    var j :| 0 <= j < |rows| && rows[j] == v;
    if i != j {
      assert rows[i].uid != rows[j].uid;
    }
  }

  // ---------------------------------------------------------------------------
  // Lookups
  // ---------------------------------------------------------------------------

  datatype Column = Username | Email

  function ColumnOf(u: User, c: Column): string {
    match c
    case Username => u.username
    case Email => u.email
  }

  /** SELECT * FROM voj_users WHERE column = key. */
  function SelectBy(rows: seq<User>, c: Column, key: string): (r: Option<User>)
    ensures r.Some? ==> r.value in rows && ColumnOf(r.value, c) == key
    ensures r.None? ==> forall u :: u in rows ==> ColumnOf(u, c) != key
  {
    if |rows| == 0 then None
    else if ColumnOf(rows[0], c) == key then Some(rows[0])
    else SelectBy(rows[1..], c, key)
  }

  /** SELECT * FROM voj_users WHERE uid = uid; the id is a signed long, so a negative one finds nothing. */
  function SelectByUid(rows: seq<User>, uid: int): (r: Option<User>)
    ensures r.Some? ==> r.value in rows && r.value.uid == uid
    ensures r.None? ==> forall u :: u in rows ==> u.uid != uid
  {
    if |rows| == 0 then None
    else if rows[0].uid == uid then Some(rows[0])
    else SelectByUid(rows[1..], uid)
  }

  /** With distinct keys, looking a stored user up by any of its keys finds that user. */
  lemma SelectFindsStoredRow(rows: seq<User>, u: User, c: Column)
    requires DistinctKeys(rows)
    requires u in rows
    ensures SelectBy(rows, c, ColumnOf(u, c)) == Some(u)
    ensures SelectByUid(rows, u.uid) == Some(u)
  {
    var r := SelectBy(rows, c, ColumnOf(u, c));
    SameKeySameRow(rows, r.value, u);
    var q := SelectByUid(rows, u.uid);
    SameKeySameRow(rows, q.value, u);
  }

  function GroupBySlug(s: Store, slug: string): Option<UserGroup> {
    if slug in s.groups then Some(s.groups[slug]) else None
  }

  function LanguageBySlug(s: Store, slug: string): Option<Language> {
    if slug in s.languages then Some(s.languages[slug]) else None
  }

  /** The meta entries of one user; a user without any has the empty map. */
  function MetaOf(s: Store, uid: nat): Meta {
    if uid in s.metas then s.metas[uid] else map[]
  }

  // ---------------------------------------------------------------------------
  // Writes
  // ---------------------------------------------------------------------------

  /** INSERT INTO voj_users: the row gets the next generated uid. */
  function InsertUser(s: Store, u: User): (r: Store)
    ensures |r.users| == |s.users| + 1 && r.users[..|s.users|] == s.users
    ensures r.users[|s.users|].uid == s.nextUid && r.users[|s.users|] == u.(uid := s.nextUid)
    ensures (forall v :: v in s.users ==> v.uid < s.nextUid) ==>
      && (forall v :: v in s.users ==> v.uid != r.users[|s.users|].uid)
      && SelectByUid(r.users, s.nextUid) == Some(u.(uid := s.nextUid))
    ensures r.nextUid == s.nextUid + 1
    ensures r.metas == s.metas && r.groups == s.groups && r.languages == s.languages
  {
    var row := u.(uid := s.nextUid);
    assert row in s.users + [row];
    s.(users := s.users + [row], nextUid := s.nextUid + 1)
  }

  /** after is before with every row whose uid is u.uid replaced by u. */
  predicate Rewritten(before: seq<User>, after: seq<User>, u: User) {
    && |after| == |before|
    && forall i :: 0 <= i < |before| ==> after[i] == (if before[i].uid == u.uid then u else before[i])
  }

  /** What a rewrite keeps, drops and adds, stated over the rows rather than their positions. */
  lemma RewrittenRows(before: seq<User>, after: seq<User>, u: User)
    requires Rewritten(before, after, u)
    ensures forall v :: v in after ==> v == u || (v in before && v.uid != u.uid)
    ensures forall v :: v in before && v.uid != u.uid ==> v in after
    ensures (exists v :: v in before && v.uid == u.uid) ==> SelectByUid(after, u.uid) == Some(u)
  {
    forall v | v in before && v.uid != u.uid
      ensures v in after
    {
      var i :| 0 <= i < |before| && before[i] == v;
      assert after[i] == v;
    }
    if v :| v in before && v.uid == u.uid {
      var i :| 0 <= i < |before| && before[i] == v;
      assert after[i] == u;
      var found := SelectByUid(after, u.uid);
      var k :| 0 <= k < |after| && after[k] == found.value;
    }
  }

  /**
   * UPDATE voj_users SET ... WHERE uid = u.uid: all columns are written from u.
   * Afterwards the rows with u's id are u itself, every other row survives,
   * and an id that matches no row leaves the table as it was.
   */
  function UpdateUser(s: Store, u: User): (r: Store)
    ensures |r.users| == |s.users|
    ensures forall v :: v in r.users ==> v == u || (v in s.users && v.uid != u.uid)
    ensures forall v :: v in s.users && v.uid != u.uid ==> v in r.users
    ensures (exists v :: v in s.users && v.uid == u.uid) ==> SelectByUid(r.users, u.uid) == Some(u)
    ensures (forall v :: v in s.users ==> v.uid != u.uid) ==> r.users == s.users
    ensures r.metas == s.metas && r.groups == s.groups && r.languages == s.languages && r.nextUid == s.nextUid
  {
    var rows := seq(|s.users|, i requires 0 <= i < |s.users| => if s.users[i].uid == u.uid then u else s.users[i]);
    RewrittenRows(s.users, rows, u);
    s.(users := rows)
  }

  /** Writing one meta entry of one user, as both createUserMeta and updateUserMeta do. */
  function PutMeta(s: Store, uid: nat, key: string, value: string): (r: Store)
    ensures key in MetaOf(r, uid) && MetaOf(r, uid)[key] == value
    ensures forall k :: k in MetaOf(s, uid) && k != key ==> k in MetaOf(r, uid) && MetaOf(r, uid)[k] == MetaOf(s, uid)[k]
    ensures forall k :: k in MetaOf(r, uid) ==> k in MetaOf(s, uid) || k == key
    ensures forall other :: other != uid ==> MetaOf(r, other) == MetaOf(s, other)
    ensures r.users == s.users && r.groups == s.groups && r.languages == s.languages && r.nextUid == s.nextUid
  {
    s.(metas := s.metas[uid := MetaOf(s, uid)[key := value]])
  }

}

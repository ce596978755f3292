/**
  The persisted entities and the store that holds them. Every endpoint of
  the model is a pure function from a `Store` (plus the request and the
  current time in seconds) to a new `Store` and a reply.
 */
module Models {
  import opened Wrappers
  import opened Guids
  import Listing

  /**
    An account (`ApplicationUser`, an Identity user with a `Guid` key).
    `role` is the free-text `Role` column; `roles` is the Identity role
    membership read by `GetRolesAsync`, kept apart because the code keeps
    them apart. `normalizedEmail` is the key `FindByEmailAsync` searches;
    Identity sets it on creation, and writes that bypass the user manager do
    not update it.
   */
  datatype User = User(
    id: Guid,
    email: Option<string>,
    normalizedEmail: Option<string>,
    userName: Option<string>,
    fullName: Option<string>,
    role: string,
    emailConfirmed: bool,
    twoFactorEnabled: bool,
    lastLoginDate: Option<int>,
    roles: seq<string>)

  /** A one-time code (`OtpVerification`); `kind` is the `Type` column ("email" or "phone"). */
  datatype OtpRecord = OtpRecord(
    target: string,
    code: string,
    kind: string,
    verified: bool,
    expiresAt: int)

  /** An uploaded past-question paper. */
  datatype Document = Document(
    id: int,
    title: string,
    description: string,
    filePath: string,
    courseCode: string,
    uploader: string,
    uploadDate: int,
    year: int)

  /** One download of a document by a user (`DocumentDownload`). */
  datatype Download = Download(id: Guid, userId: Guid, documentId: int, downloadedAt: int)

  /** The database: the four tables the core reads and writes, in storage order. */
  datatype Store = Store(
    users: seq<User>,
    otps: seq<OtpRecord>,
    documents: seq<Document>,
    downloads: seq<Download>)

  /** A user as the controllers construct it, before Identity stores it. */
  function NewUser(id: Guid, email: string, fullName: Option<string>, role: string): User {
    User(id, Some(email), None, Some(email), fullName, role, false, false, None, [])
  }

  // ---------------------------------------------------------------- keys

  /** `Users.FindAsync(id)`: the row with that primary key. */
  function UserIndex(users: seq<User>, id: Guid): Option<nat> {
    Listing.FirstIndex(users, (u: User) => u.id == id)
  }

  /** `Documents.FindAsync(id)`. */
  function DocumentIndex(docs: seq<Document>, id: int): Option<nat> {
    Listing.FirstIndex(docs, (d: Document) => d.id == id)
  }

  predicate UserIdFree(users: seq<User>, id: Guid) {
    forall i :: 0 <= i < |users| ==> users[i].id != id
  }

  predicate UniqueUserIds(users: seq<User>) {
    forall i, j :: 0 <= i < j < |users| ==> users[i].id != users[j].id
  }

  /** Identity's unique-email rule, on the normalised key it enforces it on. */
  predicate UniqueNormalizedEmails(users: seq<User>) {
    forall i, j :: 0 <= i < j < |users| && users[i].normalizedEmail.Some?
      ==> users[i].normalizedEmail != users[j].normalizedEmail
  }

  predicate UniqueDocumentIds(docs: seq<Document>) {
    forall i, j :: 0 <= i < j < |docs| ==> docs[i].id != docs[j].id
  }

  /** What the database's keys and Identity's unique-email option guarantee. */
  predicate Valid(st: Store) {
    && UniqueUserIds(st.users)
    && UniqueNormalizedEmails(st.users)
    && UniqueDocumentIds(st.documents)
  }

  /** With unique keys, a user is found exactly at its own position. */
  lemma UserIndexOfMember(users: seq<User>, i: nat)
    requires UniqueUserIds(users) && i < |users|
    ensures UserIndex(users, users[i].id) == Some(i)
  {
  }

  /** Changing one user without touching ids or normalised e-mails keeps the keys unique. */
  lemma {:induction false} ReplaceKeepsKeys(users: seq<User>, i: nat, u: User)
    requires i < |users| && u.id == users[i].id && u.normalizedEmail == users[i].normalizedEmail
    requires UniqueUserIds(users) && UniqueNormalizedEmails(users)
    ensures UniqueUserIds(users[i := u]) && UniqueNormalizedEmails(users[i := u])
  {
    var s := users[i := u];
    assert forall k :: 0 <= k < |s| ==> s[k].id == users[k].id && s[k].normalizedEmail == users[k].normalizedEmail;
  }

  /** Removing a user keeps the keys unique. */
  lemma {:induction false} RemoveKeepsKeys(users: seq<User>, i: nat)
    requires i < |users| && UniqueUserIds(users) && UniqueNormalizedEmails(users)
    ensures UniqueUserIds(Listing.RemoveAt(users, i))
    ensures UniqueNormalizedEmails(Listing.RemoveAt(users, i))
  {
    var r := Listing.RemoveAt(users, i);
    forall a, b | 0 <= a < b < |r|
      ensures r[a].id != r[b].id
      ensures r[a].normalizedEmail.Some? ==> r[a].normalizedEmail != r[b].normalizedEmail
    {
      var a' := if a < i then a else a + 1;
      var b' := if b < i then b else b + 1;
      assert r[a] == users[a'] && r[b] == users[b'] && a' < b';
    }
  }
}

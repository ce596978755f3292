/**
  `SuperAdminController` (`api/superadmin`): table sizes, the raw user
  list, promotion, deletion, admin creation and document maintenance, all
  written straight to the database except the account creation.
 */
module SuperAdmin {
  import opened Wrappers
  import opened Text
  import opened Guids
  import opened Models
  import opened Identity
  import opened Listing
  import opened Http
  import opened Jwt
  import opened Users
  import opened Documents
  import Admins

  // ---------------------------------------------------------------- users

  datatype Totals = Totals(users: nat, documents: nat, downloads: nat)

  /** `GetStats`: the sizes of the user, document and download tables. */
  function GetStats(st: Store): (r: Totals)
    ensures r.users == |st.users| && r.documents == |st.documents| && r.downloads == |st.downloads|
  {
    Totals(|st.users|, |st.documents|, |st.downloads|)
  }

  /** `GetUsers`: every account, projected, in table order. */
  function GetUsers(users: seq<User>): (r: seq<UserDto>)
    ensures |r| == |users|
    ensures forall i :: 0 <= i < |users| ==> r[i] == Project(users[i])
  {
    ProjectAll(users)
  }

  /** The raw list is the paged listing with no filter and one page with room for everything. */
  lemma GetUsersIsWholeListing(users: seq<User>)
    ensures GetAllUsers(users, 1, |users| + 1, None, None) == Ok(PageResult(GetUsers(users), |users|, 1, |users| + 1))
  {
    GetAllUsersSpec(users, 1, |users| + 1, None, None);
    FilterAll(users, UserFilter(None, None));
    PageIsSlice(users, 1, |users| + 1);
    assert users[0..|users|] == users;
  }

  /**
    `PromoteToAdmin`: 404 for an unknown id; otherwise the account's `Role`
    field becomes "Admin" and nothing else changes, its membership included.
   */
  function PromoteToAdmin(st: Store, id: Guid): (r: Step<string>)
    ensures r.reply.Ok? || r.reply.NotFound?
    ensures r.reply.NotFound? <==> UserIdFree(st.users, id)
    ensures r.reply.NotFound? ==> r.store == st
    ensures r.reply.Ok? ==>
              exists i :: 0 <= i < |st.users| && st.users[i].id == id
                && r.store == st.(users := st.users[i := st.users[i].(role := Admins.AdminRole)])
  {
    var k := UserIndex(st.users, id);
    if k.None? then Step(st, NotFound)
    else Step(st.(users := st.users[k.value := st.users[k.value].(role := Admins.AdminRole)]), Ok("User promoted to Admin"))
  }

  /** A promoted account is then found by `GetAdmin`, and the keys stay unique. */
  lemma PromoteThenGetAdmin(st: Store, id: Guid)
    requires Valid(st) && !UserIdFree(st.users, id)
    ensures var r := PromoteToAdmin(st, id);
      Valid(r.store) && Admins.GetAdmin(r.store.users, id).Ok?
  {
    var k :| 0 <= k < |st.users| && st.users[k].id == id;
    UserIndexOfMember(st.users, k);
    ReplaceKeepsKeys(st.users, k, st.users[k].(role := Admins.AdminRole));
    var after := PromoteToAdmin(st, id).store.users;
    assert after[k].id == id && after[k].role == Admins.AdminRole;
  }

  /**
    Promotion does not reach the token: the membership is untouched, so a
    token issued afterwards carries the same role claims as one issued before.
   */
  lemma PromoteKeepsTokenRole(st: Store, id: Guid, i: nat, now: int, jti: Guid)
    requires i < |st.users| && PromoteToAdmin(st, id).reply.Ok?
    ensures var after := PromoteToAdmin(st, id).store.users;
      && i < |after|
      && GetRoles(after[i]) == GetRoles(st.users[i])
      && FindFirst(GenerateToken(after[i], GetRoles(after[i]), now, jti).claims, RoleClaim)
         == FindFirst(GenerateToken(st.users[i], GetRoles(st.users[i]), now, jti).claims, RoleClaim)
  {
    var after := PromoteToAdmin(st, id).store.users;
    TokenClaims(after[i], GetRoles(after[i]), now, jti);
    TokenClaims(st.users[i], GetRoles(st.users[i]), now, jti);
  }

  /** `DeleteUser`: removes the account with that id, or 404. */
  function DeleteUser(st: Store, id: Guid): (r: Step<UserDto>)
    ensures r.reply.NoContent? <==> !UserIdFree(st.users, id)
    ensures r.reply.NotFound? ==> r.store == st
    ensures UniqueUserIds(st.users) ==> forall u :: u in r.store.users <==> u in st.users && u.id != id
    ensures UniqueUserIds(st.users) ==> GetStats(r.store).users == GetStats(st).users - (if r.reply.NoContent? then 1 else 0)
  {
    assert UniqueUserIds(st.users) ==>
             && (forall u :: u in Users.DeleteUser(st.users, id).0 <==> u in st.users && u.id != id)
             && |Users.DeleteUser(st.users, id).0| == |st.users| - (if UserIdFree(st.users, id) then 0 else 1) by {
      if UniqueUserIds(st.users) {
        DeleteUserRemovesExactly(st.users, id);
      }
    }
    DeleteStep(st, id)
  }

  /** Some account holds exactly this e-mail (`AnyAsync(u => u.Email == email)`). */
  predicate EmailTaken(users: seq<User>, email: string) {
    exists j :: 0 <= j < |users| && users[j].email == Some(email)
  }

  /**
    `CreateAdmin`: 400 when an account holds exactly this e-mail; otherwise
    Identity creates the account with role "Admin" and grants "Admin".
   */
  function CreateAdmin(st: Store, email: string, fullName: string, password: string, newId: Guid): (r: Step<string>)
    requires UserIdFree(st.users, newId)
    ensures EmailTaken(st.users, email) ==> r == Step(st, BadRequest(EmailExists))
    ensures !r.reply.ServerError?
    ensures r.reply.Ok? || r.reply.BadRequest?
    ensures r.reply.BadRequest? ==> r.store == st
    ensures r.reply.Ok? <==>
              !EmailTaken(st.users, email)
              && CreateAsync(st.users, NewUser(newId, email, Some(fullName), Admins.AdminRole), password).Created?
    ensures r.reply.Ok? ==>
              && r.store == st.(users := st.users + [Stored(NewUser(newId, email, Some(fullName), Admins.AdminRole)).(roles := [Admins.AdminRole])])
  {
    if EmailTaken(st.users, email) then Step(st, BadRequest(EmailExists))
    else
      var u := NewUser(newId, email, Some(fullName), Admins.AdminRole);
      SeededRolesFound();
      var p := CreateWithRole(st.users, u, password, Admins.AdminRole);
      assert !p.ProvisionFault? && (p.Provisioned? <==> CreateAsync(st.users, u, password).Created?);
      Settle(st, p, Ok("Admin created successfully"))
  }

  /**
    The e-mail test here is exact, but Identity's is not: an e-mail known
    under another letter case passes the first test and is refused by
    Identity, so nothing is created either way.
   */
  lemma CaseVariantRefused(st: Store, email: string, fullName: string, password: string, newId: Guid, j: nat)
    requires UserIdFree(st.users, newId)
    requires j < |st.users| && st.users[j].normalizedEmail == Some(Upper(email))
    ensures var r := CreateAdmin(st, email, fullName, password, newId);
      r.reply.BadRequest? && r.store == st
  {
    FindByEmailSpec(st.users, email);
    CreateRejectsKnownEmail(st.users, NewUser(newId, email, Some(fullName), Admins.AdminRole), password);
  }

  // ---------------------------------------------------------------- documents

  /**
    `GetRecentDocuments`: the five newest documents (all of them when there
    are fewer), newest first, none listed more often than stored, and no
    document left out is newer than one returned.
   */
  function GetRecentDocuments(st: Store): (r: seq<RecentDocument>)
    ensures |r| == Min(5, |st.documents|)
    ensures forall i, j :: 0 <= i < j < |r| ==> r[i].uploadDate >= r[j].uploadDate
    ensures forall i :: 0 <= i < |r| ==> exists d :: d in st.documents && r[i] == Summarize(d)
    ensures SummarizesPart(r, st.documents)
    ensures forall d, i :: d in multiset(st.documents) - multiset(Newest(st.documents)) && 0 <= i < |r|
              ==> d.uploadDate <= r[i].uploadDate
  {
    Recent(st.documents)
  }

  /** The document `UpdateDocument` writes: four fields from the body, the rest kept. */
  function Revised(doc: Document, updated: Document): Document {
    doc.(title := updated.title, description := updated.description,
         courseCode := updated.courseCode, year := updated.year)
  }

  /** `UpdateDocument`: 404 for an unknown id; otherwise four fields of the stored document are overwritten. */
  function UpdateDocument(st: Store, id: int, updated: Document): (r: Step<string>)
    ensures r.reply.Ok? || r.reply.NotFound?
    ensures r.reply.NotFound? <==> forall j :: 0 <= j < |st.documents| ==> st.documents[j].id != id
    ensures r.reply.NotFound? ==> r.store == st
    ensures r.reply.Ok? ==>
              exists k :: 0 <= k < |st.documents| && st.documents[k].id == id
                && r.store == st.(documents := st.documents[k := Revised(st.documents[k], updated)])
  {
    var k := DocumentIndex(st.documents, id);
    if k.None? then Step(st, NotFound)
    else Step(st.(documents := st.documents[k.value := Revised(st.documents[k.value], updated)]),
              Ok("Document updated successfully."))
  }

  /**
    The revised document takes title, description, course code and year
    from the body and keeps its id, file, uploader and upload date, whatever
    the body says about those; document ids stay unique.
   */
  lemma UpdateDocumentFrame(st: Store, id: int, updated: Document, k: nat)
    requires UniqueDocumentIds(st.documents) && k < |st.documents| && st.documents[k].id == id
    ensures var r := UpdateDocument(st, id, updated).store.documents;
      && |r| == |st.documents|
      && r[k].title == updated.title && r[k].description == updated.description
      && r[k].courseCode == updated.courseCode && r[k].year == updated.year
      && r[k].id == id && r[k].filePath == st.documents[k].filePath
      && r[k].uploader == st.documents[k].uploader && r[k].uploadDate == st.documents[k].uploadDate
      && (forall j :: 0 <= j < |r| && j != k ==> r[j] == st.documents[j])
      && UniqueDocumentIds(r)
  {
    var r := UpdateDocument(st, id, updated).store.documents;
    assert DocumentIndex(st.documents, id) == Some(k);
    assert forall j :: 0 <= j < |r| ==> r[j].id == st.documents[j].id;
  }

  function NotOfDocument(id: int): Download -> bool {
    (d: Download) => d.documentId != id
  }

  function OfDocument(id: int): Download -> bool {
    (d: Download) => d.documentId == id
  }

  /**
    `DeleteDocument`: 404 for an unknown id; otherwise the document goes,
    and with it (the download's document key is required, so the database
    cascades) every download of it.
   */
  function DeleteDocument(st: Store, id: int): (r: Step<string>)
    ensures r.reply.NoContent? || r.reply.NotFound?
    ensures r.reply.NotFound? <==> forall j :: 0 <= j < |st.documents| ==> st.documents[j].id != id
    ensures r.reply.NotFound? ==> r.store == st
    ensures r.store.users == st.users && r.store.otps == st.otps
  {
    var k := DocumentIndex(st.documents, id);
    if k.None? then Step(st, NotFound)
    else Step(st.(documents := RemoveAt(st.documents, k.value),
                  downloads := Filter(st.downloads, NotOfDocument(id))), NoContent)
  }

  /**
    With unique document ids, deletion removes exactly that document, and
    exactly its downloads, keeping the order of the rest.
   */
  lemma DeleteDocumentExactly(st: Store, id: int)
    requires UniqueDocumentIds(st.documents)
    ensures var r := DeleteDocument(st, id);
      && (forall d :: d in r.store.documents <==> d in st.documents && d.id != id)
      && (forall x :: x in r.store.downloads <==> x in st.downloads && (r.reply.NotFound? || x.documentId != id))
      && IsSubsequence(r.store.downloads, st.downloads)
      && (r.reply.NoContent? ==> |r.store.downloads| == |st.downloads| - Count(st.downloads, OfDocument(id)))
      && UniqueDocumentIds(r.store.documents)
  {
    var r := DeleteDocument(st, id);
    var k := DocumentIndex(st.documents, id);
    if k.Some? {
      var docs := r.store.documents;
      forall d
        ensures d in docs <==> d in st.documents && d.id != id
      {
        if d in st.documents && d.id != id {
          var j :| 0 <= j < |st.documents| && st.documents[j] == d;
          if j < k.value {
            assert docs[j] == d;
          } else {
            assert docs[j - 1] == d;
          }
        }
      }
      forall a, b | 0 <= a < b < |docs|
        ensures docs[a].id != docs[b].id
      {
        var a' := if a < k.value then a else a + 1;
        var b' := if b < k.value then b else b + 1;
        assert docs[a] == st.documents[a'] && docs[b] == st.documents[b'];
      }
      FilterSpec(st.downloads, NotOfDocument(id));
      CountDisjoint(st.downloads, OfDocument(id), NotOfDocument(id));
    } else {
      SubsequenceRefl(st.downloads);
    }
  }
}

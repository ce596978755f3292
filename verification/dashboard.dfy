/**
  `DashboardService.GetStudentDashboardSummaryAsync` and the action of
  `DashboardController` that calls it with the caller's name-identifier claim.
 */
module Dashboard {
  import opened Wrappers
  import opened Text
  import opened Guids
  import opened Models
  import opened Identity
  import opened Listing
  import opened Http
  import opened Jwt
  import opened Documents
  import Auth

  /** One entry of `RecentUploads`. */
  datatype RecentUpload = RecentUpload(title: string, courseCode: string, year: int, uploadedBy: string)

  datatype Summary = Summary(totalDocuments: nat, recentUploads: seq<RecentUpload>, lastLogin: Option<int>)

  /** The service's three outcomes: `Guid.Parse` throws, no such user (`null`), or the summary. */
  datatype SummaryResult = MalformedId | NoSuchUser | Found(summary: Summary)

  function Upload(d: Document): RecentUpload {
    RecentUpload(d.title, d.courseCode, d.year, d.uploader)
  }

  function UploadAll(ds: seq<Document>): (r: seq<RecentUpload>)
    ensures |r| == |ds|
    ensures forall i :: 0 <= i < |ds| ==> r[i] == Upload(ds[i])
  {
    if |ds| == 0 then [] else [Upload(ds[0])] + UploadAll(ds[1..])
  }

  /**
    `GetStudentDashboardSummaryAsync(userId)`: the catalogue size, the five
    newest documents with their uploader, and the user's last sign-in.
   */
  function GetSummary(st: Store, userId: string): (r: SummaryResult)
    ensures r.MalformedId? <==> TryParse(Some(userId)).None?
    ensures r.NoSuchUser? <==> TryParse(Some(userId)).Some? && UserIdFree(st.users, TryParse(Some(userId)).value)
    ensures r.Found? ==>
              && r.summary.totalDocuments == |st.documents|
              && |r.summary.recentUploads| == Min(5, |st.documents|) == |Newest(st.documents)|
              && (forall i :: 0 <= i < |r.summary.recentUploads| ==>
                    Newest(st.documents)[i] in st.documents
                    && r.summary.recentUploads[i] == Upload(Newest(st.documents)[i]))
              && exists j :: 0 <= j < |st.users| && st.users[j].id == TryParse(Some(userId)).value
                   && r.summary.lastLogin == st.users[j].lastLoginDate
  {
    var id := TryParse(Some(userId));
    if id.None? then MalformedId
    else
      var k := UserIndex(st.users, id.value);
      if k.None? then NoSuchUser
      else
        NewestStored(st.documents);
        Found(Summary(|st.documents|, UploadAll(Newest(st.documents)), st.users[k.value].lastLoginDate))
  }

  /**
    `GetStudentSummary`: 401 without a name-identifier claim; a malformed
    one makes the service throw; otherwise 200 with the summary. For an
    unknown user the service returns `null`, and `Ok(null)` goes out as
    204 No Content, because the default output formatters treat a null
    value that way.
   */
  function GetStudentSummary(st: Store, claims: seq<Claim>): (r: Reply<Summary>)
    ensures r.Unauthorized? <==> IsNullOrEmpty(FindFirst(claims, NameIdentifierClaim))
    ensures r.ServerError? <==> !IsNullOrEmpty(FindFirst(claims, NameIdentifierClaim))
                                && TryParse(FindFirst(claims, NameIdentifierClaim)).None?
    ensures r.ServerError? ==> r.fault == GuidFormat
    ensures r.NoContent? <==> !IsNullOrEmpty(FindFirst(claims, NameIdentifierClaim))
                              && TryParse(FindFirst(claims, NameIdentifierClaim)).Some?
                              && UserIdFree(st.users, TryParse(FindFirst(claims, NameIdentifierClaim)).value)
    ensures r.Ok? || r.NoContent? || r.Unauthorized? || r.ServerError?
    ensures r.Ok? ==> r.body.totalDocuments == |st.documents|
    ensures r.Ok? ==> GetSummary(st, FindFirst(claims, NameIdentifierClaim).value) == Found(r.body)
  {
    var userId := FindFirst(claims, NameIdentifierClaim);
    if IsNullOrEmpty(userId) then Unauthorized
    else match GetSummary(st, userId.value)
      case MalformedId => ServerError(GuidFormat)
      case NoSuchUser => NoContent
      case Found(s) => Ok(s)
  }

  /**
    Signing in and then asking for the summary with the token just issued
    shows the sign-in time as the last login.
   */
  lemma SignInThenSummary(st: Store, i: nat, now: int, jti: Guid, echo: bool)
    requires UniqueUserIds(st.users) && i < |st.users|
    ensures var s := Auth.SignIn(st, i, now, jti, echo);
      var r := GetStudentSummary(s.store, s.reply.body.token.claims);
      r.Ok? && r.body.lastLogin == Some(now)
  {
    var s := Auth.SignIn(st, i, now, jti, echo);
    var stamped := st.users[i].(lastLoginDate := Some(now));
    var claims := s.reply.body.token.claims;
    assert claims == GenerateToken(stamped, GetRoles(stamped), now, jti).claims;
    TokenClaims(stamped, GetRoles(stamped), now, jti);
    FormatRoundTrip(stamped.id);
    assert |Format(stamped.id)| == 36;
    var users := s.store.users;
    assert forall j :: 0 <= j < |users| ==> users[j].id == st.users[j].id;
    UserIndexOfMember(users, i);
  }
}

/**
  `StudentDashboardController` (`api/student-dashboard`): the caller's
  download count, the catalogue size, the newest documents, and the logged
  download. The caller is read from the token's "id" claim; whether the
  file exists on disk is a parameter.
 */
module StudentDashboard {
  import opened Wrappers
  import opened Guids
  import opened Models
  import opened Listing
  import opened Http
  import opened Jwt
  import opened Documents

  /** `GetUserId`: the "id" claim parsed as a Guid; `None` is the "Invalid token" exception. */
  function GetUserId(claims: seq<Claim>): (r: Option<Guid>)
    ensures FindFirst(claims, "id").None? ==> r.None?
    ensures r.Some? ==> TryParse(FindFirst(claims, "id")) == r
  {
    TryParse(FindFirst(claims, "id"))
  }

  /** A token the service issued names its user. */
  lemma TokenNamesUser(user: User, roles: seq<string>, now: int, jti: Guid)
    ensures GetUserId(GenerateToken(user, roles, now, jti).claims) == Some(user.id)
  {
    TokenClaims(user, roles, now, jti);
    FormatRoundTrip(user.id);
  }

  function ByUser(uid: Guid): Download -> bool {
    (d: Download) => d.userId == uid
  }

  /** `GetDownloadCount`: the caller's download records, or the invalid-token fault. */
  function GetDownloadCount(st: Store, claims: seq<Claim>): (r: Reply<nat>)
    ensures r.ServerError? <==> GetUserId(claims).None?
    ensures r.ServerError? ==> r.fault == InvalidToken
    ensures r.Ok? || r.ServerError?
    ensures r.Ok? ==> r.body == |Positions(st.downloads, ByUser(GetUserId(claims).value))|
    ensures r.Ok? ==> r.body <= |st.downloads|
  {
    var uid := GetUserId(claims);
    if uid.None? then ServerError(InvalidToken)
    else
      CountIsCardinality(st.downloads, ByUser(uid.value));
      Ok(Count(st.downloads, ByUser(uid.value)))
  }

  /** `GetDocumentsCount`: the size of the catalogue. */
  function GetDocumentsCount(st: Store): nat {
    |st.documents|
  }

  /**
    `GetRecentDocuments`: the five newest documents (all of them when there
    are fewer), newest first, none listed more often than stored, and no
    document left out is newer than one returned.
   */
  function GetRecentDocuments(st: Store): (r: seq<RecentDocument>)
    ensures |r| == Min(5, |st.documents|)
    ensures forall i, j :: 0 <= i < j < |r| ==> r[i].uploadDate >= r[j].uploadDate
    ensures forall i :: 0 <= i < |r| ==> exists d :: d in st.documents && r[i] == Summarize(d)
    ensures SummarizesPart(r, st.documents)
    ensures forall d, i :: d in multiset(st.documents) - multiset(Newest(st.documents)) && 0 <= i < |r|
              ==> d.uploadDate <= r[i].uploadDate
  {
    Recent(st.documents)
  }

  /**
    `Download`: 404 for an unknown document, with nothing logged. Otherwise
    the caller is read from the token, the download is logged, and only
    then is the file looked for: a missing file answers 404 with the record
    already saved. The served body is the stored file name.
   */
  function DownloadDocument(st: Store, id: int, claims: seq<Claim>, fileExists: bool, newId: Guid, now: int)
    : (r: Step<string>)
    ensures (forall j :: 0 <= j < |st.documents| ==> st.documents[j].id != id) ==> r == Step(st, NotFound)
    ensures r.reply.ServerError? <==>
              (exists j :: 0 <= j < |st.documents| && st.documents[j].id == id) && GetUserId(claims).None?
    ensures r.reply.ServerError? ==> r.store == st && r.reply.fault == InvalidToken
    ensures r.reply.Ok? ==> fileExists
    ensures (exists j :: 0 <= j < |st.documents| && st.documents[j].id == id) && GetUserId(claims).Some? ==>
              && r.store == st.(downloads := st.downloads + [Download(newId, GetUserId(claims).value, id, now)])
              && (r.reply.Ok? <==> fileExists)
    ensures r.store != st ==>
              && GetUserId(claims).Some?
              && r.store == st.(downloads := st.downloads + [Download(newId, GetUserId(claims).value, id, now)])
              && (r.reply.Ok? <==> fileExists)
              && (r.reply.Ok? ==> exists d :: d in st.documents && d.id == id && r.reply.body == d.filePath)
  {
    var k := DocumentIndex(st.documents, id);
    if k.None? then Step(st, NotFound)
    else
      var doc := st.documents[k.value];
      var uid := GetUserId(claims);
      if uid.None? then Step(st, ServerError(InvalidToken))
      else
        var logged := st.(downloads := st.downloads + [Download(newId, uid.value, doc.id, now)]);
        Step(logged, if fileExists then Ok(doc.filePath) else NotFound)
  }

  /**
    For a caller holding an issued token and an existing document, the
    download is logged whether or not the file exists: the caller's count
    rises by one, everyone else's stays, and the catalogue is unchanged.
   */
  lemma DownloadIsCounted(st: Store, id: int, user: User, roles: seq<string>, issued: int, jti: Guid,
                          fileExists: bool, newId: Guid, now: int, other: Guid)
    requires exists j :: 0 <= j < |st.documents| && st.documents[j].id == id
    requires other != user.id
    ensures var claims := GenerateToken(user, roles, issued, jti).claims;
      var r := DownloadDocument(st, id, claims, fileExists, newId, now);
      && |r.store.downloads| == |st.downloads| + 1
      && GetDownloadCount(r.store, claims).Ok?
      && GetDownloadCount(r.store, claims).body == GetDownloadCount(st, claims).body + 1
      && Count(r.store.downloads, ByUser(other)) == Count(st.downloads, ByUser(other))
      && GetDocumentsCount(r.store) == GetDocumentsCount(st)
  {
    var claims := GenerateToken(user, roles, issued, jti).claims;
    TokenNamesUser(user, roles, issued, jti);
    var k := DocumentIndex(st.documents, id);
    var x := Download(newId, user.id, st.documents[k.value].id, now);
    assert DownloadDocument(st, id, claims, fileExists, newId, now).store.downloads == st.downloads + [x];
    CountAppend(st.downloads, x, ByUser(user.id));
    CountAppend(st.downloads, x, ByUser(other));
  }
}

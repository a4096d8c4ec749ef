/**
 * `QuestionService`: attachment naming, the paged keyword listing, the lookup by id,
 * and the operations that create, modify, delete and vote on a question. The clock
 * (`LocalDateTime.now()`) and the identifier generator (`UUID.randomUUID()`) are
 * parameters; writing the upload to disk is an update of the store's file map.
 */
module QuestionService {
  import opened Results
  import opened Domain
  import Text
  import opened QuestionRepository
  import opened Storage

  // ---------------------------------------------------------------------------
  // Attachment names

  predicate IsHexDigit(c: char)
  {
    '0' <= c <= '9' || 'a' <= c <= 'f'
  }

  /**
   * The 8-4-4-4-12 hexadecimal string form of a 128-bit identifier (section 3 of
   * RFC 4122), in the lower case `UUID.toString()` writes.
   */
  predicate IsCanonicalUuid(u: string)
  {
    |u| == 36 && forall i :: 0 <= i < |u| ==> UuidCharAt(u, i)
  }

  /** Position `i` holds a `-` at the four group boundaries and a hex digit elsewhere. */
  predicate UuidCharAt(u: string, i: nat)
    requires i < |u|
  {
    if i == 8 || i == 13 || i == 18 || i == 23 then u[i] == '-' else IsHexDigit(u[i])
  }

  /**
   * `extractExt`: the text after the last `.` of the name. When the name has no `.`,
   * `lastIndexOf` gives -1 and the "extension" is the whole name.
   */
  function ExtractExt(originalFilename: string): (ext: string)
    ensures '.' !in ext
    ensures |ext| <= |originalFilename|
    ensures originalFilename[|originalFilename| - |ext|..] == ext
    ensures '.' !in originalFilename ==> ext == originalFilename
    ensures '.' in originalFilename ==>
              |ext| < |originalFilename| && originalFilename[|originalFilename| - |ext| - 1] == '.'
  {
    originalFilename[Text.LastIndexOf(originalFilename, '.') + 1..]
  }

  /** A canonical identifier has no `.`. */
  lemma UuidHasNoDot(u: string)
    requires IsCanonicalUuid(u)
    ensures '.' !in u
  {
    forall i | 0 <= i < |u|
      ensures u[i] != '.'
    {
      assert UuidCharAt(u, i);
    }
  }

  /** Joining two dot-free names with a `.` leaves exactly one `.`, between them. */
  lemma JoinedHasOneDot(a: string, b: string)
    requires '.' !in a && '.' !in b
    ensures forall i :: 0 <= i < |a + "." + b| ==> ((a + "." + b)[i] == '.' <==> i == |a|)
  {
    var s := a + "." + b;
    forall i | 0 <= i < |s|
      ensures s[i] == '.' <==> i == |a|
    {
      if i < |a| {
        assert s[i] == a[i];
      } else if i > |a| {
        assert s[i] == b[i - |a| - 1];
      }
    }
  }

  /** `createStoreFileName`: the identifier, a `.`, and the extension of the original name. */
  function CreateStoreFileName(originalFilename: string, uuid: string): (name: string)
    ensures |name| == |uuid| + 1 + |ExtractExt(originalFilename)|
    ensures forall i :: 0 <= i < |uuid| ==> name[i] == uuid[i]
    ensures name[|uuid|] == '.'
    ensures forall i :: 0 <= i < |ExtractExt(originalFilename)| ==>
              name[|uuid| + 1 + i] == ExtractExt(originalFilename)[i]
  {
    uuid + "." + ExtractExt(originalFilename)
  }

  /**
   * The stored name has exactly one `.`, right after the identifier; so it has no `..`
   * segment whatever the original name was.
   */
  lemma StoreFileNameHasOneDot(originalFilename: string, uuid: string)
    requires IsCanonicalUuid(uuid)
    ensures var name := CreateStoreFileName(originalFilename, uuid);
      forall i :: 0 <= i < |name| ==> (name[i] == '.' <==> i == |uuid|)
  {
    UuidHasNoDot(uuid);
    JoinedHasOneDot(uuid, ExtractExt(originalFilename));
  }

  /** The stored name has the original's extension, verbatim. */
  lemma StoreFileNameKeepsExtension(originalFilename: string, uuid: string)
    requires IsCanonicalUuid(uuid)
    ensures ExtractExt(CreateStoreFileName(originalFilename, uuid)) == ExtractExt(originalFilename)
  {
    var name := CreateStoreFileName(originalFilename, uuid);
    var ext := ExtractExt(name);
    StoreFileNameHasOneDot(originalFilename, uuid);
    assert name[|uuid|] == '.';
    assert |ext| < |name| && name[|name| - |ext| - 1] == '.';
    assert |name| - |ext| - 1 == |uuid|;
  }

  /** Two uploads stored under different identifiers never share a stored name. */
  lemma StoreFileNamesDistinct(original1: string, uuid1: string, original2: string, uuid2: string)
    requires IsCanonicalUuid(uuid1) && IsCanonicalUuid(uuid2) && uuid1 != uuid2
    ensures CreateStoreFileName(original1, uuid1) != CreateStoreFileName(original2, uuid2)
  {
  }

  /** `photo.PNG` keeps `PNG`; a name without a dot is its own extension. */
  lemma ExtractExtExamples()
    ensures ExtractExt("photo.PNG") == "PNG"
    ensures ExtractExt("noext") == "noext"
    ensures ExtractExt("archive.tar.gz") == "gz"
    ensures ExtractExt("trailing.") == ""
  {
    assert "photo.PNG"[5] == '.';
    assert "archive.tar.gz"[11] == '.';
    assert "trailing."[8] == '.';
  }

  /** `getFullPath`: the attachment directory followed by the file name, unchecked. */
  function GetFullPath(fileDir: string, filename: string): (path: string)
    ensures |path| == |fileDir| + |filename|
    ensures path[..|fileDir|] == fileDir && path[|fileDir|..] == filename
  {
    fileDir + filename
  }

  /** Different file names in one directory give different paths. */
  lemma FullPathsDistinct(fileDir: string, filename1: string, filename2: string)
    requires filename1 != filename2
    ensures GetFullPath(fileDir, filename1) != GetFullPath(fileDir, filename2)
  {
  }

  // ---------------------------------------------------------------------------
  // Reads

  /** The page size `getList` always asks for. */
  const PageSize: nat := 10

  /** `getList`: page `page` of the keyword search, ten questions a page, newest first. */
  function GetList(db: Db, page: int, kw: string): (r: Result<Page, Error>)
    ensures r.Err? <==> page < 0 || page * PageSize > IntMax
    ensures page < 0 ==> r == Err(IllegalArgument)
    ensures page >= 0 && page * PageSize > IntMax ==> r == Err(OffsetTooLarge)
    ensures r.Ok? ==> r.value == FindAllByKeyword(db, kw, PageRequest(page, PageSize))
    ensures r.Ok? ==> |r.value.content| <= PageSize && r.value.number == page
  {
    if page < 0 then Err(IllegalArgument)
    else if page * PageSize > IntMax then Err(OffsetTooLarge)
    else Ok(FindAllByKeyword(db, kw, PageRequest(page, PageSize)))
  }

  /** Page `page` of a result order: at most `PageSize` items from `page * PageSize` on. */
  function PageOf(s: seq<QuestionId>, page: nat): seq<QuestionId>
  {
    Slice(s, page * PageSize, PageSize)
  }

  /** The questions on page `page` of the newest-first listing of the matches for `kw`. */
  function PageContent(db: Db, kw: string, page: nat): seq<QuestionId>
  {
    PageOf(Listing(db, Selected(db, kw)), page)
  }

  /** `getList` with a valid index returns exactly that page. */
  lemma GetListIsPage(db: Db, kw: string, page: nat)
    requires page * PageSize <= IntMax
    ensures GetList(db, page, kw).Ok? && GetList(db, page, kw).value.content == PageContent(db, kw, page)
  {
  }

  /** Question `id` is on page `page` whatever order the query for that page picks. */
  ghost predicate ShowsOnPage(db: Db, kw: string, id: QuestionId, page: nat)
  {
    forall s :: DatabaseOrder(db, Selected(db, kw), s) ==> id in PageOf(s, page)
  }

  /**
   * Every page request runs its own query, free to order equal dates its own way.
   * When the matches have distinct dates, each matching question has a page on which
   * it shows whatever order that page's query picks.
   */
  lemma MatchOnSomePage(db: Db, kw: string, id: QuestionId)
    requires id in db.questions && QuestionMatches(db, id, kw)
    requires DistinctDates(db, Selected(db, kw))
    ensures exists page: nat :: ShowsOnPage(db, kw, id, page)
  {
    var ids := Selected(db, kw);
    var all := Listing(db, ids);
    SelectedIff(db, kw, id);
    var i :| 0 <= i < |all| && all[i] == id;
    var page: nat := i / PageSize;
    assert PageOf(all, page)[i - page * PageSize] == id;
    forall s | DatabaseOrder(db, ids, s)
      ensures id in PageOf(s, page)
    {
      ListingUnique(db, ids, s);
    }
    assert ShowsOnPage(db, kw, id, page);
  }

  /**
   * When the matches have distinct dates, no question shows on two different pages,
   * even though each page comes from a query of its own.
   */
  lemma OnAtMostOnePage(db: Db, kw: string, id: QuestionId, s1: seq<QuestionId>, s2: seq<QuestionId>,
                        p1: nat, p2: nat)
    requires DistinctDates(db, Selected(db, kw))
    requires DatabaseOrder(db, Selected(db, kw), s1) && DatabaseOrder(db, Selected(db, kw), s2)
    requires id in PageOf(s1, p1) && id in PageOf(s2, p2)
    ensures p1 == p2
  {
    ListingUnique(db, Selected(db, kw), s1);
    ListingUnique(db, Selected(db, kw), s2);
    ListedOnOnePage(db, kw, id, p1, p2);
  }

  /** No question of the listing is on two of its pages. */
  lemma ListedOnOnePage(db: Db, kw: string, id: QuestionId, p1: nat, p2: nat)
    requires id in PageContent(db, kw, p1) && id in PageContent(db, kw, p2)
    ensures p1 == p2
  {
    var all := Listing(db, Selected(db, kw));
    ListingDistinct(db, Selected(db, kw));
    var c1, c2 := PageContent(db, kw, p1), PageContent(db, kw, p2);
    var k1 :| 0 <= k1 < |c1| && c1[k1] == id;
    var k2 :| 0 <= k2 < |c2| && c2[k2] == id;
    assert all[p1 * PageSize + k1] == all[p2 * PageSize + k2];
  }

  /** Nothing on a page is older than anything on a later page. */
  lemma EarlierPagesNewer(db: Db, kw: string, p1: nat, p2: nat, x: QuestionId, y: QuestionId)
    requires p1 < p2 && x in PageContent(db, kw, p1) && y in PageContent(db, kw, p2)
    ensures x in db.questions && y in db.questions
    ensures db.questions[x].createDate >= db.questions[y].createDate
  {
    var ids := Selected(db, kw);
    var all := Listing(db, ids);
    ListingNewestFirst(db, ids);
    var c1, c2 := PageContent(db, kw, p1), PageContent(db, kw, p2);
    var k1 :| 0 <= k1 < |c1| && c1[k1] == x;
    var k2 :| 0 <= k2 < |c2| && c2[k2] == y;
    assert p1 * PageSize + k1 < p2 * PageSize + k2;
    assert all[p1 * PageSize + k1] == x && all[p2 * PageSize + k2] == y;
  }

  /** A page past the last one is empty, not an error. */
  lemma PagePastEndIsEmpty(db: Db, kw: string, page: nat)
    requires page * PageSize >= |Selected(db, kw)|
    ensures PageContent(db, kw, page) == []
  {
  }

  /** A keyword that matches nothing gives an empty page and a total of zero. */
  lemma NoMatchEmptyPage(db: Db, kw: string, page: nat)
    requires forall id :: id in db.questions ==> !QuestionMatches(db, id, kw)
    ensures PageContent(db, kw, page) == [] && |Selected(db, kw)| == 0
  {
    SelectedAll(db, kw);
    assert Selected(db, kw) == {};
  }

  /** With the default keyword `""` the listing counts every question. */
  lemma EmptyKeywordListsAll(db: Db, page: nat)
    requires page * PageSize <= IntMax
    ensures GetList(db, page, "").Ok?
    ensures GetList(db, page, "").value.totalElements == |db.questions|
  {
    EmptyKeywordSelectsAll(db);
    assert Selected(db, "") == db.questions.Keys;
    assert |db.questions.Keys| == |db.questions|;
  }

  /** `getQuestion`: the stored question, or NotFound for an unknown id. */
  function GetQuestion(db: Db, id: QuestionId): (r: Result<Question, Error>)
    ensures r.Ok? <==> id in db.questions
    ensures r.Ok? ==> r.value == db.questions[id]
    ensures r.Err? ==> r.error == NotFound
  {
    if id in db.questions then Ok(db.questions[id]) else Err(NotFound)
  }

  // ---------------------------------------------------------------------------
  // Changes to one question

  /** The question after `modify`: new subject, content and modification time. */
  function Modified(q: Question, subject: string, content: string, now: Instant): (r: Question)
    ensures r.subject == subject && r.content == content && r.modifyDate == Some(now)
    ensures r.author == q.author && r.createDate == q.createDate
    ensures r.uploadFileName == q.uploadFileName && r.storeFileName == q.storeFileName
    ensures r.voter == q.voter
  {
    q.(subject := subject, content := content, modifyDate := Some(now))
  }

  /** The question after `vote`: the member joins the voters; nothing else changes. */
  function Voted(q: Question, member: MemberId): (r: Question)
    ensures r.voter == AddVote(q.voter, member)
    ensures r.subject == q.subject && r.content == q.content && r.author == q.author
    ensures r.createDate == q.createDate && r.modifyDate == q.modifyDate
    ensures r.uploadFileName == q.uploadFileName && r.storeFileName == q.storeFileName
  {
    q.(voter := AddVote(q.voter, member))
  }

  /** A repeated vote changes nothing. */
  lemma VotedIdempotent(q: Question, member: MemberId)
    ensures Voted(Voted(q, member), member) == Voted(q, member)
  {
    AddVoteIdempotent(q.voter, member);
  }

  /** A vote adds one to the count for a new voter, nothing for a repeated one. */
  lemma VotedCount(q: Question, member: MemberId)
    ensures |Voted(q, member).voter| == |q.voter| + (if member in q.voter then 0 else 1)
  {
    AddVoteCount(q.voter, member);
  }

  // ---------------------------------------------------------------------------
  // Operations on the store

  /**
   * `create`. With an empty upload it returns `null` (None) before saving, so the
   * question is lost. Otherwise the file is written under its stored name and the
   * question is saved with a fresh id, no voters and no modification time.
   */
  method Create(st: Store, subject: string, content: string, member: MemberId,
                imageFile: Upload, now: Instant, uuid: string)
    returns (id: Option<QuestionId>)
    requires st.Valid() && member in st.db.members && IsCanonicalUuid(uuid)
    modifies st
    ensures st.Valid()
    ensures imageFile.IsEmpty() ==> id == None && unchanged(st)
    ensures !imageFile.IsEmpty() ==>
      var storeFileName := CreateStoreFileName(imageFile.originalFilename, uuid);
      && id.Some? && id.value !in old(st.db.questions)
      && st.db == old(st.db).(questions := old(st.db.questions)[id.value :=
           Question(subject, content, member, now, None,
                    Some(imageFile.originalFilename), Some(storeFileName), {})])
      && st.files == old(st.files)[GetFullPath(st.fileDir, storeFileName) := imageFile.bytes]
      && st.nextAnswerId == old(st.nextAnswerId)
  {
    if imageFile.IsEmpty() {
      return None;
    }
    var originalFilename := imageFile.originalFilename;
    var storeFileName := CreateStoreFileName(originalFilename, uuid);
    var question := Question(subject, content, member, now, None,
                             Some(originalFilename), Some(storeFileName), {});
    st.files := st.files[GetFullPath(st.fileDir, storeFileName) := imageFile.bytes];
    var newId := st.nextQuestionId;
    Advance(st.db, newId, st.nextAnswerId, newId + 1, st.nextAnswerId);
    PutQuestion(st.db, newId + 1, st.nextAnswerId, newId, question);
    st.db := st.db.(questions := st.db.questions[newId := question]);
    st.nextQuestionId := newId + 1;
    id := Some(newId);
  }

  /** `modify`: only the subject, the content and the modification time change. */
  method Modify(st: Store, id: QuestionId, subject: string, content: string, now: Instant)
    requires st.Valid() && id in st.db.questions
    modifies st
    ensures st.Valid()
    ensures st.db == old(st.db).(questions := old(st.db.questions)[id :=
              Modified(old(st.db.questions[id]), subject, content, now)])
    ensures st.files == old(st.files)
    ensures st.nextQuestionId == old(st.nextQuestionId) && st.nextAnswerId == old(st.nextAnswerId)
  {
    var question := Modified(st.db.questions[id], subject, content, now);
    PutQuestion(st.db, st.nextQuestionId, st.nextAnswerId, id, question);
    st.db := st.db.(questions := st.db.questions[id := question]);
  }

  /**
   * `delete`: the question leaves the table together with its answers, which the
   * answers' foreign key to it does not let outlive it; deleting a missing question
   * does nothing.
   */
  method Delete(st: Store, id: QuestionId)
    requires st.Valid()
    modifies st
    ensures st.Valid()
    ensures st.db == old(st.db).(questions := old(st.db.questions) - {id},
                                 answers := old(st.db.answers) - AnswersOf(old(st.db), id))
    ensures forall aid :: aid in st.db.answers ==> st.db.answers[aid].question != id
    ensures st.files == old(st.files)
    ensures st.nextQuestionId == old(st.nextQuestionId) && st.nextAnswerId == old(st.nextAnswerId)
  {
    var answers := AnswersOf(st.db, id);
    Remove(st.db, st.nextQuestionId, st.nextAnswerId, {id}, answers);
    st.db := st.db.(questions := st.db.questions - {id}, answers := st.db.answers - answers);
  }

  /** `vote`: the member joins the question's voters; nothing else changes. */
  method Vote(st: Store, id: QuestionId, member: MemberId)
    requires st.Valid() && id in st.db.questions && member in st.db.members
    modifies st
    ensures st.Valid()
    ensures st.db == old(st.db).(questions := old(st.db.questions)[id :=
              Voted(old(st.db.questions[id]), member)])
    ensures st.files == old(st.files)
    ensures st.nextQuestionId == old(st.nextQuestionId) && st.nextAnswerId == old(st.nextAnswerId)
  {
    var question := Voted(st.db.questions[id], member);
    PutQuestion(st.db, st.nextQuestionId, st.nextAnswerId, id, question);
    st.db := st.db.(questions := st.db.questions[id := question]);
  }
}

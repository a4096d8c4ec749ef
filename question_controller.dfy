/**
 * `QuestionController`: the HTTP handlers under `/question`. Each handler is a
 * function of the tables (reads only) or a method on the store (writes), and its
 * reply is a value: the view it renders with its model, a redirect, or the error
 * status it fails with.
 */
module QuestionController {
  import opened Results
  import opened Domain
  import opened Storage
  import opened QuestionRepository
  import opened MemberService
  import QS = QuestionService

  /** The bound `QuestionForm`: subject, content and the uploaded image part. */
  datatype QuestionForm = QuestionForm(subject: string, content: string, imageFile: Upload)

  /** Where a redirect goes: `/question/list`, `/question/detail/{id}` or `/`. */
  datatype Target = ToList | ToDetail(id: QuestionId) | ToRoot

  /** What a handler answers with. */
  datatype Reply =
    | ListView(paging: Page, kw: string)
    | DetailView(question: Question)
    | FormView(subject: string, content: string)
    | Redirect(target: Target)
    | Failure(error: Error)

  /** The ownership guard: the question's author is the signed-in member. */
  predicate IsAuthor(db: Db, q: Question, principal: string): (b: bool)
    ensures UniqueNames(db.members) && b ==> GetMember(db, principal) == Ok(q.author)
  {
    q.author in db.members && db.members[q.author].name == principal
  }

  /** With unique names, the guard passes exactly when the principal's member is the author. */
  lemma IsAuthorIffPrincipalIsAuthor(db: Db, q: Question, principal: string)
    requires UniqueNames(db.members)
    ensures IsAuthor(db, q, principal) <==> GetMember(db, principal) == Ok(q.author)
  {
  }

  /** A request parameter that falls back to its `defaultValue` when absent. */
  function OrDefault<T>(param: Option<T>, default: T): (v: T)
    ensures param.Some? ==> v == param.value
    ensures param.None? ==> v == default
  {
    if param.Some? then param.value else default
  }

  /**
   * GET `/question/list`: page `0` and keyword `""` unless given; a page parameter
   * outside the `int` range fails to bind before `list` runs.
   */
  function List(db: Db, page: Option<int>, kw: Option<string>): (r: Reply)
    ensures r.ListView? <==> 0 <= OrDefault(page, 0) && OrDefault(page, 0) * QS.PageSize <= IntMax
    ensures r.ListView? ==> r.kw == OrDefault(kw, "")
    ensures r.ListView? ==> r.paging == QS.GetList(db, OrDefault(page, 0), OrDefault(kw, "")).value
    ensures !IsInt(OrDefault(page, 0)) ==> r == Failure(BadRequest)
    ensures IsInt(OrDefault(page, 0)) && OrDefault(page, 0) < 0 ==> r == Failure(IllegalArgument)
    ensures IsInt(OrDefault(page, 0)) && OrDefault(page, 0) * QS.PageSize > IntMax ==> r == Failure(OffsetTooLarge)
  {
    var p, k := OrDefault(page, 0), OrDefault(kw, "");
    if !IsInt(p) then Failure(BadRequest)
    else
      match QS.GetList(db, p, k)
      case Ok(paging) => ListView(paging, k)
      case Err(e) => Failure(e)
  }

  /** Without parameters the first page of all questions is shown. */
  lemma ListDefaults(db: Db)
    ensures List(db, None, None).ListView?
    ensures List(db, None, None).kw == "" && List(db, None, None).paging.number == 0
    ensures List(db, None, None).paging.totalElements == |db.questions|
  {
    QS.EmptyKeywordListsAll(db, 0);
  }

  /** GET `/question/detail/{id}`: the question, or NotFound. */
  function Detail(db: Db, id: QuestionId): (r: Reply)
    ensures r.DetailView? <==> id in db.questions
    ensures r.DetailView? ==> r.question == db.questions[id]
    ensures !r.DetailView? ==> r == Failure(NotFound)
  {
    match QS.GetQuestion(db, id)
    case Ok(q) => DetailView(q)
    case Err(e) => Failure(e)
  }

  /**
   * GET `/question/modify/{id}`: NotFound for an unknown question, BadRequest for
   * anyone but its author, otherwise the form filled with the current subject and content.
   */
  function ModifyForm(db: Db, id: QuestionId, principal: string): (r: Reply)
    ensures id !in db.questions ==> r == Failure(NotFound)
    ensures id in db.questions && !IsAuthor(db, db.questions[id], principal) ==> r == Failure(BadRequest)
    ensures r.FormView? <==> id in db.questions && IsAuthor(db, db.questions[id], principal)
    ensures r.FormView? ==>
      r.subject == db.questions[id].subject && r.content == db.questions[id].content
  {
    match QS.GetQuestion(db, id)
    case Err(e) => Failure(e)
    case Ok(q) =>
      if !IsAuthor(db, q, principal) then Failure(BadRequest) else FormView(q.subject, q.content)
  }

  /**
   * GET `/question/image/{filename}`: the stored bytes at the full path. The handler
   * does not look for the file; a missing one fails only when the resource is read,
   * with a `FileNotFoundException`, modelled as NotFound.
   */
  function DownloadImage(files: map<string, seq<Byte>>, fileDir: string, filename: string)
    : (r: Result<seq<Byte>, Error>)
    ensures r.Ok? <==> QS.GetFullPath(fileDir, filename) in files
    ensures r.Ok? ==> r.value == files[QS.GetFullPath(fileDir, filename)]
    ensures r.Err? ==> r.error == NotFound
  {
    var path := QS.GetFullPath(fileDir, filename);
    if path in files then Ok(files[path]) else Err(NotFound)
  }

  /**
   * POST `/question/create`: a form with binding errors is shown again; an unknown
   * principal is NotFound; otherwise the question is created and the list is shown.
   * The redirect happens even when an empty upload made `create` save nothing.
   */
  method CreatePost(st: Store, form: QuestionForm, hasErrors: bool, principal: string,
                    now: Instant, uuid: string)
    returns (r: Reply)
    requires st.Valid() && QS.IsCanonicalUuid(uuid)
    modifies st
    ensures st.Valid()
    ensures hasErrors ==> r == FormView(form.subject, form.content) && unchanged(st)
    ensures !hasErrors && GetMember(old(st.db), principal).Err? ==>
      r == Failure(NotFound) && unchanged(st)
    ensures !hasErrors && GetMember(old(st.db), principal).Ok? ==> r == Redirect(ToList)
    ensures !hasErrors && form.imageFile.IsEmpty() ==> unchanged(st)
    ensures !hasErrors && GetMember(old(st.db), principal).Ok? && !form.imageFile.IsEmpty() ==>
      var name := form.imageFile.originalFilename;
      var storeFileName := QS.CreateStoreFileName(name, uuid);
      && (exists id: QuestionId :: id !in old(st.db.questions) && st.db == old(st.db).(questions :=
            old(st.db.questions)[id := Question(form.subject, form.content,
              GetMember(old(st.db), principal).value, now, None, Some(name), Some(storeFileName), {})]))
      && st.files == old(st.files)[QS.GetFullPath(st.fileDir, storeFileName) := form.imageFile.bytes]
      && DownloadImage(st.files, st.fileDir, storeFileName) == Ok(form.imageFile.bytes)
  {
    if hasErrors {
      return FormView(form.subject, form.content);
    }
    var member := GetMember(st.db, principal);
    if member.Err? {
      return Failure(member.error);
    }
    var id := QS.Create(st, form.subject, form.content, member.value, form.imageFile, now, uuid);
    r := Redirect(ToList);
  }

  /**
   * POST `/question/modify/{id}`: binding errors show the form again; an unknown
   * question is NotFound and anyone but its author gets BadRequest, both with the
   * store untouched; otherwise the question is modified and shown.
   */
  method ModifyPost(st: Store, form: QuestionForm, hasErrors: bool, principal: string,
                    id: QuestionId, now: Instant)
    returns (r: Reply)
    requires st.Valid()
    modifies st
    ensures st.Valid()
    ensures hasErrors ==> r == FormView(form.subject, form.content) && unchanged(st)
    ensures !hasErrors && id !in old(st.db.questions) ==> r == Failure(NotFound) && unchanged(st)
    ensures !hasErrors && id in old(st.db.questions)
              && !IsAuthor(old(st.db), old(st.db.questions[id]), principal) ==>
              r == Failure(BadRequest) && unchanged(st)
    ensures r == Redirect(ToDetail(id)) <==>
      !hasErrors && id in old(st.db.questions) && IsAuthor(old(st.db), old(st.db.questions[id]), principal)
    ensures r == Redirect(ToDetail(id)) ==>
      st.db == old(st.db).(questions := old(st.db.questions)[id :=
        QS.Modified(old(st.db.questions[id]), form.subject, form.content, now)])
      && st.files == old(st.files)
  {
    if hasErrors {
      return FormView(form.subject, form.content);
    }
    var question := QS.GetQuestion(st.db, id);
    if question.Err? {
      return Failure(question.error);
    }
    if !IsAuthor(st.db, question.value, principal) {
      return Failure(BadRequest);
    }
    QS.Modify(st, id, form.subject, form.content, now);
    r := Redirect(ToDetail(id));
  }

  /**
   * GET `/question/delete/{id}`: NotFound or BadRequest as for modify, with the store
   * untouched; otherwise the question and its answers are deleted and the root is shown.
   */
  method DeleteGet(st: Store, principal: string, id: QuestionId) returns (r: Reply)
    requires st.Valid()
    modifies st
    ensures st.Valid()
    ensures id !in old(st.db.questions) ==> r == Failure(NotFound) && unchanged(st)
    ensures id in old(st.db.questions) && !IsAuthor(old(st.db), old(st.db.questions[id]), principal) ==>
      r == Failure(BadRequest) && unchanged(st)
    ensures r == Redirect(ToRoot) <==>
      id in old(st.db.questions) && IsAuthor(old(st.db), old(st.db.questions[id]), principal)
    ensures r == Redirect(ToRoot) ==>
      st.db == old(st.db).(questions := old(st.db.questions) - {id},
                           answers := old(st.db.answers) - AnswersOf(old(st.db), id))
      && st.files == old(st.files)
  {
    var question := QS.GetQuestion(st.db, id);
    if question.Err? {
      return Failure(question.error);
    }
    if !IsAuthor(st.db, question.value, principal) {
      return Failure(BadRequest);
    }
    QS.Delete(st, id);
    r := Redirect(ToRoot);
  }

  /**
   * GET `/question/vote/{id}`: NotFound for an unknown question or principal;
   * otherwise the principal's vote is recorded, with no ownership check, and the
   * question is shown.
   */
  method VoteGet(st: Store, principal: string, id: QuestionId) returns (r: Reply)
    requires st.Valid()
    modifies st
    ensures st.Valid()
    ensures id !in old(st.db.questions) || GetMember(old(st.db), principal).Err? ==>
      r == Failure(NotFound) && unchanged(st)
    ensures id in old(st.db.questions) && GetMember(old(st.db), principal).Ok? ==>
      r == Redirect(ToDetail(id))
      && st.db == old(st.db).(questions := old(st.db.questions)[id :=
           QS.Voted(old(st.db.questions[id]), GetMember(old(st.db), principal).value)])
      && st.files == old(st.files)
  {
    var question := QS.GetQuestion(st.db, id);
    if question.Err? {
      return Failure(question.error);
    }
    var member := GetMember(st.db, principal);
    if member.Err? {
      return Failure(member.error);
    }
    QS.Vote(st, id, member.value);
    r := Redirect(ToDetail(id));
  }
}

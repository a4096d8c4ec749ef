/**
 * `AnswerService`: creating, reading, editing, deleting and recommending the
 * answers under a question.
 */
module AnswerService {
  import opened Results
  import opened Domain
  import opened Storage

  /** `getAnswer`: the stored answer, or NotFound for an unknown id. */
  function GetAnswer(db: Db, id: AnswerId): (r: Result<Answer, Error>)
    ensures r.Ok? <==> id in db.answers
    ensures r.Ok? ==> r.value == db.answers[id]
    ensures r.Err? ==> r.error == NotFound
  {
    if id in db.answers then Ok(db.answers[id]) else Err(NotFound)
  }

  /** The answer after `modify`: new content and modification time, the rest kept. */
  function AnswerModified(a: Answer, content: string, now: Instant): (r: Answer)
    ensures r.content == content && r.modifyDate == Some(now)
    ensures r.question == a.question && r.author == a.author && r.createDate == a.createDate
    ensures r.voter == a.voter
  {
    a.(content := content, modifyDate := Some(now))
  }

  /** The answer after `vote`: the member joins the voters; nothing else changes. */
  function AnswerVoted(a: Answer, member: MemberId): (r: Answer)
    ensures r.voter == AddVote(a.voter, member)
    ensures r.content == a.content && r.question == a.question && r.author == a.author
    ensures r.createDate == a.createDate && r.modifyDate == a.modifyDate
  {
    a.(voter := AddVote(a.voter, member))
  }

  /** A repeated vote on an answer changes nothing. */
  lemma AnswerVotedIdempotent(a: Answer, member: MemberId)
    ensures AnswerVoted(AnswerVoted(a, member), member) == AnswerVoted(a, member)
  {
    AddVoteIdempotent(a.voter, member);
  }

  /** A vote adds one to the answer's count for a new voter, nothing for a repeated one. */
  lemma AnswerVotedCount(a: Answer, member: MemberId)
    ensures |AnswerVoted(a, member).voter| == |a.voter| + (if member in a.voter then 0 else 1)
  {
    AddVoteCount(a.voter, member);
  }

  /**
   * `create`: the answer is saved under a fresh id with the given question, content,
   * author and creation time, no modification time and no voters.
   */
  method Create(st: Store, question: QuestionId, content: string, author: MemberId, now: Instant)
    returns (id: AnswerId)
    requires st.Valid() && question in st.db.questions && author in st.db.members
    modifies st
    ensures st.Valid()
    ensures id !in old(st.db.answers)
    ensures st.db == old(st.db).(answers := old(st.db.answers)[id :=
              Answer(content, question, author, now, None, {})])
    ensures st.files == old(st.files) && st.nextQuestionId == old(st.nextQuestionId)
  {
    var answer := Answer(content, question, author, now, None, {});
    id := st.nextAnswerId;
    Advance(st.db, st.nextQuestionId, id, st.nextQuestionId, id + 1);
    PutAnswer(st.db, st.nextQuestionId, id + 1, id, answer);
    st.db := st.db.(answers := st.db.answers[id := answer]);
    st.nextAnswerId := id + 1;
  }

  /** `modify`: only the content and the modification time of that answer change. */
  method Modify(st: Store, id: AnswerId, content: string, now: Instant)
    requires st.Valid() && id in st.db.answers
    modifies st
    ensures st.Valid()
    ensures st.db == old(st.db).(answers := old(st.db.answers)[id :=
              AnswerModified(old(st.db.answers[id]), content, now)])
    ensures st.files == old(st.files)
    ensures st.nextQuestionId == old(st.nextQuestionId) && st.nextAnswerId == old(st.nextAnswerId)
  {
    var answer := AnswerModified(st.db.answers[id], content, now);
    PutAnswer(st.db, st.nextQuestionId, st.nextAnswerId, id, answer);
    st.db := st.db.(answers := st.db.answers[id := answer]);
  }

  /** `delete`: that answer leaves the table; the question and other answers stay. */
  method Delete(st: Store, id: AnswerId)
    requires st.Valid()
    modifies st
    ensures st.Valid()
    ensures st.db == old(st.db).(answers := old(st.db.answers) - {id})
    ensures st.files == old(st.files)
    ensures st.nextQuestionId == old(st.nextQuestionId) && st.nextAnswerId == old(st.nextAnswerId)
  {
    RemoveAnswers(st.db, st.nextQuestionId, st.nextAnswerId, {id});
    st.db := st.db.(answers := st.db.answers - {id});
  }

  /** `vote`: the member joins the answer's voters; nothing else changes. */
  method Vote(st: Store, id: AnswerId, member: MemberId)
    requires st.Valid() && id in st.db.answers && member in st.db.members
    modifies st
    ensures st.Valid()
    ensures st.db == old(st.db).(answers := old(st.db.answers)[id :=
              AnswerVoted(old(st.db.answers[id]), member)])
    ensures st.files == old(st.files)
    ensures st.nextQuestionId == old(st.nextQuestionId) && st.nextAnswerId == old(st.nextAnswerId)
  {
    var answer := AnswerVoted(st.db.answers[id], member);
    PutAnswer(st.db, st.nextQuestionId, st.nextAnswerId, id, answer);
    st.db := st.db.(answers := st.db.answers[id := answer]);
  }
}

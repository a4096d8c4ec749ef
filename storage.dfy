/**
 * The durable state the services work on: the three tables behind the JPA
 * repositories, the identity counters that generate new ids, and the attachment
 * directory `file.dir` as a map from full path to file contents.
 */
module Storage {
  import opened Domain

  /** A row may be stored when its author and all its voters are existing members. */
  ghost predicate Refers(db: Db, author: MemberId, voter: set<MemberId>)
  {
    author in db.members && voter <= db.members.Keys
  }

  /**
   * Generated ids lie below their counters; authors and voters are existing members
   * and every answer's question is a stored question (foreign keys); member names
   * are unique.
   */
  ghost predicate Consistent(db: Db, nextQuestionId: nat, nextAnswerId: nat)
  {
    && (forall id :: id in db.questions ==> id < nextQuestionId)
    && (forall id :: id in db.answers ==> id < nextAnswerId)
    && (forall id :: id in db.questions ==> Refers(db, db.questions[id].author, db.questions[id].voter))
    && (forall id :: id in db.answers ==> Refers(db, db.answers[id].author, db.answers[id].voter))
    && (forall id :: id in db.answers ==> db.answers[id].question in db.questions)
    && UniqueNames(db.members)
  }

  /** Storing a question that refers to existing members under an id below the counter keeps consistency. */
  lemma PutQuestion(db: Db, nq: nat, na: nat, id: QuestionId, q: Question)
    requires Consistent(db, nq, na) && id < nq && Refers(db, q.author, q.voter)
    ensures Consistent(db.(questions := db.questions[id := q]), nq, na)
  {
  }

  /**
   * Storing an answer that refers to existing members and a stored question under an
   * id below the counter keeps consistency.
   */
  lemma PutAnswer(db: Db, nq: nat, na: nat, id: AnswerId, a: Answer)
    requires Consistent(db, nq, na) && id < na && Refers(db, a.author, a.voter)
    requires a.question in db.questions
    ensures Consistent(db.(answers := db.answers[id := a]), nq, na)
  {
  }

  /** Raising the counters keeps consistency. */
  lemma Advance(db: Db, nq: nat, na: nat, nq': nat, na': nat)
    requires Consistent(db, nq, na) && nq <= nq' && na <= na'
    ensures Consistent(db, nq', na')
  {
  }

  /** Removing rows keeps consistency when no remaining answer points at a removed question. */
  lemma Remove(db: Db, nq: nat, na: nat, qids: set<QuestionId>, aids: set<AnswerId>)
    requires Consistent(db, nq, na)
    requires forall aid :: aid in db.answers && db.answers[aid].question in qids ==> aid in aids
    ensures Consistent(db.(questions := db.questions - qids, answers := db.answers - aids), nq, na)
  {
  }

  /** Removing answers alone keeps consistency. */
  lemma RemoveAnswers(db: Db, nq: nat, na: nat, aids: set<AnswerId>)
    requires Consistent(db, nq, na)
    ensures Consistent(db.(answers := db.answers - aids), nq, na)
  {
  }

  class Store {
    var db: Db
    var files: map<string, seq<Byte>>
    var nextQuestionId: QuestionId
    var nextAnswerId: AnswerId
    const fileDir: string

    /** The stored tables are consistent with the counters (see `Consistent`). */
    ghost predicate Valid()
      reads this
    {
      Consistent(db, nextQuestionId, nextAnswerId)
    }

    /** A board with the given members, no questions, no answers and no attachments. */
    constructor (fileDir: string, members: map<MemberId, Member>)
      requires UniqueNames(members)
      ensures Valid()
      ensures this.fileDir == fileDir && db == Db(members, map[], map[]) && files == map[]
    {
      this.fileDir := fileDir;
      db := Db(members, map[], map[]);
      files := map[];
      nextQuestionId := 1;
      nextAnswerId := 1;
    }
  }
}

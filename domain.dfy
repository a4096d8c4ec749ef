/**
 * The board's entities as values: members, questions, answers and one snapshot of the
 * three tables. Each entity is identified by its generated id; references between
 * entities (author, parent question, voters) are ids.
 */
module Domain {
  import opened Results

  type MemberId = nat
  type QuestionId = nat
  type AnswerId = nat

  /** A `LocalDateTime`, abstracted to a point on a totally ordered time line. */
  type Instant = int

  newtype Byte = b: int | 0 <= b < 256

  /** Credentials (the password hash) are not part of this model. */
  datatype Member = Member(name: string, email: string)

  datatype Question = Question(
    subject: string,
    content: string,
    author: MemberId,
    createDate: Instant,
    modifyDate: Option<Instant>,
    uploadFileName: Option<string>,
    storeFileName: Option<string>,
    voter: set<MemberId>)

  datatype Answer = Answer(
    content: string,
    question: QuestionId,
    author: MemberId,
    createDate: Instant,
    modifyDate: Option<Instant>,
    voter: set<MemberId>)

  /** The member, question and answer tables at one moment. */
  datatype Db = Db(
    members: map<MemberId, Member>,
    questions: map<QuestionId, Question>,
    answers: map<AnswerId, Answer>)

  /** The ids of the answers whose `question` column points at question `id`. */
  function AnswersOf(db: Db, id: QuestionId): (aids: set<AnswerId>)
    ensures forall aid :: aid in aids <==> aid in db.answers && db.answers[aid].question == id
  {
    set aid | aid in db.answers && db.answers[aid].question == id
  }

  /** An uploaded multipart file: the name the client sent and the bytes. */
  datatype Upload = Upload(originalFilename: string, bytes: seq<Byte>)
  {
    /** `MultipartFile.isEmpty()`: no file chosen, or a file with no content. */
    predicate IsEmpty() { |bytes| == 0 }
  }

  /**
   * NotFound: `DataNotFoundException` from a lookup, or, for an image download, the
   * `FileNotFoundException` raised when the `UrlResource` of a missing file is read;
   * BadRequest: `ResponseStatusException(BAD_REQUEST)`;
   * IllegalArgument: the exception `PageRequest.of` throws for a negative page index;
   * OffsetTooLarge: the refusal of a query whose first-result index `page * size`
   * (a `long`) does not fit the `int` that the persistence layer takes.
   */
  datatype Error = NotFound | BadRequest | IllegalArgument | OffsetTooLarge

  /** The bounds of a Java `int`. */
  const IntMin: int := -0x8000_0000
  const IntMax: int := 0x7fff_ffff

  /** `x` fits a Java `int`. */
  predicate IsInt(x: int)
  {
    IntMin <= x <= IntMax
  }

  /** The member table's name column is unique (the lookup by name relies on it). */
  ghost predicate UniqueNames(members: map<MemberId, Member>)
  {
    forall a, b :: a in members && b in members && members[a].name == members[b].name ==> a == b
  }

  /** `voter.add(member)` on a `Set<Member>`: one vote per member, never removed. */
  function AddVote(voters: set<MemberId>, member: MemberId): (r: set<MemberId>)
    ensures member in r
    ensures forall x :: x in r <==> x in voters || x == member
  {
    voters + {member}
  }

  /** Voting a second time changes nothing. */
  lemma AddVoteIdempotent(voters: set<MemberId>, member: MemberId)
    ensures AddVote(AddVote(voters, member), member) == AddVote(voters, member)
  {
  }

  /** The vote count grows by one for a new voter and stays put for a repeated one. */
  lemma AddVoteCount(voters: set<MemberId>, member: MemberId)
    ensures |AddVote(voters, member)| == |voters| + (if member in voters then 0 else 1)
  {
    if member in voters {
      assert AddVote(voters, member) == voters;
    }
  }
}

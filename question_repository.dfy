/**
 * The keyword query `findAllByKeyword`: left outer joins of each question with its
 * author, its answers and their authors; a five-way OR of `LIKE '%kw%'` tests on a
 * joined row; `distinct q`; ordering by `createDate` descending; one page of the result.
 * The query reads the tables and changes nothing, so every step is a function of a `Db`.
 */
module QuestionRepository {
  import opened Results
  import opened Domain
  import Text

  /**
   * One row of `Question q left outer join Member u1 left outer join Answer a
   * left outer join Member u2`; `None` is the all-NULL side of an outer join.
   */
  datatype Row = Row(id: QuestionId, q: Question, u1: Option<Member>, a: Option<Answer>, u2: Option<Member>)

  /** The member side of `left outer join Member u on x.author = u`. */
  function JoinMember(members: map<MemberId, Member>, id: MemberId): (u: Option<Member>)
    ensures u.Some? <==> id in members
    ensures u.Some? ==> u.value == members[id]
  {
    if id in members then Some(members[id]) else None
  }

  /** Some answer's `question` column points at question `id`. */
  predicate HasAnswers(db: Db, id: QuestionId)
  {
    exists aid :: aid in db.answers && db.answers[aid].question == id
  }

  /** The joined rows: one per (question, answer) pair, or one with NULL answer columns. */
  function JoinedRows(db: Db): (rows: set<Row>)
    ensures forall r :: r in rows ==>
      r.id in db.questions && r.q == db.questions[r.id] && r.u1 == JoinMember(db.members, r.q.author)
    ensures forall r :: r in rows ==> (r.a.None? <==> !HasAnswers(db, r.id))
    ensures forall r :: r in rows && r.a.Some? ==>
      && r.a.value.question == r.id && r.u2 == JoinMember(db.members, r.a.value.author)
      && exists aid :: aid in db.answers && db.answers[aid] == r.a.value
    ensures forall r :: r in rows && r.a.None? ==> r.u2.None?
  {
    (set id, aid | id in db.questions && aid in db.answers && db.answers[aid].question == id ::
       Row(id, db.questions[id], JoinMember(db.members, db.questions[id].author),
           Some(db.answers[aid]), JoinMember(db.members, db.answers[aid].author)))
    + (set id | id in db.questions && !HasAnswers(db, id) ::
         Row(id, db.questions[id], JoinMember(db.members, db.questions[id].author), None, None))
  }

  /** The `where` clause on one joined row; a test on a NULL column is not true. */
  predicate RowMatches(r: Row, kw: string): (b: bool)
    ensures kw == [] ==> b
    ensures r.u1.None? && r.a.None? && r.u2.None? ==>
      (b <==> Text.Contains(r.q.subject, kw) || Text.Contains(r.q.content, kw))
  {
    || Text.Contains(r.q.subject, kw)
    || Text.Contains(r.q.content, kw)
    || (r.u1.Some? && Text.Contains(r.u1.value.name, kw))
    || (r.a.Some? && Text.Contains(r.a.value.content, kw))
    || (r.u2.Some? && Text.Contains(r.u2.value.name, kw))
  }

  /** `select distinct q ... where ...`: the ids of the questions of the matching rows. */
  function Selected(db: Db, kw: string): (ids: set<QuestionId>)
    ensures ids <= db.questions.Keys
  {
    set r | r in JoinedRows(db) && RowMatches(r, kw) :: r.id
  }

  // ---------------------------------------------------------------------------
  // The same search stated per question, without joins: the reference definition.

  /** The member `id` exists and its name contains `kw`. */
  predicate NameMatches(members: map<MemberId, Member>, id: MemberId, kw: string)
  {
    id in members && Text.Contains(members[id].name, kw)
  }

  predicate AnswerMatches(db: Db, aid: AnswerId, kw: string)
    requires aid in db.answers
  {
    Text.Contains(db.answers[aid].content, kw) || NameMatches(db.members, db.answers[aid].author, kw)
  }

  /**
   * The question's subject, its content or its author's name contains `kw`, or so does
   * the content or the author's name of one of its answers.
   */
  predicate QuestionMatches(db: Db, id: QuestionId, kw: string)
    requires id in db.questions
  {
    || Text.Contains(db.questions[id].subject, kw)
    || Text.Contains(db.questions[id].content, kw)
    || NameMatches(db.members, db.questions[id].author, kw)
    || exists aid :: aid in db.answers && db.answers[aid].question == id && AnswerMatches(db, aid, kw)
  }

  /** The joins are outer joins: every stored question has at least one joined row. */
  lemma EveryQuestionJoined(db: Db, id: QuestionId)
    requires id in db.questions
    ensures exists r :: r in JoinedRows(db) && r.id == id
  {
    var q := db.questions[id];
    var u1 := JoinMember(db.members, q.author);
    if HasAnswers(db, id) {
      var aid :| aid in db.answers && db.answers[aid].question == id;
      var r := Row(id, q, u1, Some(db.answers[aid]), JoinMember(db.members, db.answers[aid].author));
      assert r in JoinedRows(db);
    } else {
      assert Row(id, q, u1, None, None) in JoinedRows(db);
    }
  }

  /** A selected question matches. */
  lemma SelectedSound(db: Db, kw: string, id: QuestionId)
    requires id in Selected(db, kw)
    ensures id in db.questions && QuestionMatches(db, id, kw)
  {
    var r :| r in JoinedRows(db) && RowMatches(r, kw) && r.id == id;
    if r.a.Some? && (Text.Contains(r.a.value.content, kw) || (r.u2.Some? && Text.Contains(r.u2.value.name, kw))) {
      var i, aid :| i in db.questions && aid in db.answers && db.answers[aid].question == i &&
        r == Row(i, db.questions[i], JoinMember(db.members, db.questions[i].author),
                 Some(db.answers[aid]), JoinMember(db.members, db.answers[aid].author));
      assert AnswerMatches(db, aid, kw);
    }
  }

  /** A matching question is selected. */
  lemma SelectedComplete(db: Db, kw: string, id: QuestionId)
    requires id in db.questions && QuestionMatches(db, id, kw)
    ensures id in Selected(db, kw)
  {
    var q := db.questions[id];
    var u1 := JoinMember(db.members, q.author);
    if exists aid :: aid in db.answers && db.answers[aid].question == id && AnswerMatches(db, aid, kw) {
      var aid :| aid in db.answers && db.answers[aid].question == id && AnswerMatches(db, aid, kw);
      var r := Row(id, q, u1, Some(db.answers[aid]), JoinMember(db.members, db.answers[aid].author));
      assert r in JoinedRows(db) && RowMatches(r, kw);
    } else if HasAnswers(db, id) {
      var aid :| aid in db.answers && db.answers[aid].question == id;
      var r := Row(id, q, u1, Some(db.answers[aid]), JoinMember(db.members, db.answers[aid].author));
      assert r in JoinedRows(db) && RowMatches(r, kw);
    } else {
      var r := Row(id, q, u1, None, None);
      assert r in JoinedRows(db) && RowMatches(r, kw);
    }
  }

  /** The joins, the row filter and `distinct` select exactly the matching questions. */
  lemma SelectedIff(db: Db, kw: string, id: QuestionId)
    ensures id in Selected(db, kw) <==> id in db.questions && QuestionMatches(db, id, kw)
  {
    if id in Selected(db, kw) {
      SelectedSound(db, kw, id);
    }
    if id in db.questions && QuestionMatches(db, id, kw) {
      SelectedComplete(db, kw, id);
    }
  }

  /** Quantified form of SelectedIff. */
  lemma SelectedAll(db: Db, kw: string)
    ensures forall id :: id in Selected(db, kw) <==> id in db.questions && QuestionMatches(db, id, kw)
  {
    forall id | true
      ensures id in Selected(db, kw) <==> id in db.questions && QuestionMatches(db, id, kw)
    {
      SelectedIff(db, kw, id);
    }
  }

  /**
   * The joins are outer joins: a question nobody answered is still found by its own
   * subject, content or author's name.
   */
  lemma UnansweredQuestionFound(db: Db, kw: string, id: QuestionId)
    requires id in db.questions && !HasAnswers(db, id)
    requires Text.Contains(db.questions[id].subject, kw)
          || Text.Contains(db.questions[id].content, kw)
          || NameMatches(db.members, db.questions[id].author, kw)
    ensures id in Selected(db, kw)
  {
    SelectedIff(db, kw, id);
  }

  /** The empty keyword gives the pattern `%%`, which selects every question. */
  lemma EmptyKeywordSelectsAll(db: Db)
    ensures Selected(db, "") == db.questions.Keys
  {
    forall id | id in db.questions
      ensures id in Selected(db, "")
    {
      Text.EmptyPatternMatches(db.questions[id].subject);
      SelectedIff(db, "", id);
    }
  }

  // ---------------------------------------------------------------------------
  // Ordering and paging.

  /**
   * `x` may be listed before `y`: it is newer. The query orders by `createDate`
   * descending only; among equal dates this model lists lower ids first.
   */
  predicate Precedes(db: Db, x: QuestionId, y: QuestionId)
    requires x in db.questions && y in db.questions
  {
    var dx, dy := db.questions[x].createDate, db.questions[y].createDate;
    dx > dy || (dx == dy && x <= y)
  }

  lemma PrecedesTransitive(db: Db, x: QuestionId, y: QuestionId, z: QuestionId)
    requires x in db.questions && y in db.questions && z in db.questions
    requires Precedes(db, x, y) && Precedes(db, y, z)
    ensures Precedes(db, x, z)
  {
  }

  /** `m` is in `ids` and may be listed before every question of `ids`. */
  predicate IsFirst(db: Db, ids: set<QuestionId>, m: QuestionId)
    requires ids <= db.questions.Keys
  {
    m in ids && forall y :: y in ids ==> Precedes(db, m, y)
  }

  /** Every non-empty finite set of questions has a first element. */
  lemma {:induction false} FirstExists(db: Db, ids: set<QuestionId>)
    requires ids != {} && ids <= db.questions.Keys
    ensures exists m :: IsFirst(db, ids, m)
    decreases ids
  {
    var x :| x in ids;
    var rest := ids - {x};
    if ids == {x} {
      assert forall y :: y in ids ==> y == x;
      assert IsFirst(db, ids, x);
    } else {
      FirstExists(db, rest);
      var m :| IsFirst(db, rest, m);
      if Precedes(db, m, x) {
        forall y | y in ids
          ensures Precedes(db, m, y)
        {
          if y != x {
            assert y in rest;
          }
        }
        assert IsFirst(db, ids, m);
      } else {
        forall y | y in ids
          ensures Precedes(db, x, y)
        {
          if y != x {
            assert y in rest && Precedes(db, m, y);
            PrecedesTransitive(db, x, m, y);
          }
        }
        assert IsFirst(db, ids, x);
      }
    }
  }

  /** The question of `ids` that the listing puts first. */
  function First(db: Db, ids: set<QuestionId>): (m: QuestionId)
    requires ids != {} && ids <= db.questions.Keys
    ensures m in ids && forall y :: y in ids ==> Precedes(db, m, y)
  {
    FirstExists(db, ids);
    var m :| IsFirst(db, ids, m);
    m
  }

  /** The questions `ids`, newest first (see ListingDistinct and ListingNewestFirst). */
  function Listing(db: Db, ids: set<QuestionId>): (r: seq<QuestionId>)
    requires ids <= db.questions.Keys
    ensures |r| == |ids|
    ensures forall x :: x in r <==> x in ids
    decreases ids
  {
    if ids == {} then []
    else
      var m := First(db, ids);
      [m] + Listing(db, ids - {m})
  }

  /** No question appears twice. */
  predicate Distinct(s: seq<QuestionId>)
  {
    forall i, j :: 0 <= i < j < |s| ==> s[i] != s[j]
  }

  /** Every question is in the table and none follows an older one. */
  predicate NewestFirst(db: Db, s: seq<QuestionId>)
  {
    && (forall i :: 0 <= i < |s| ==> s[i] in db.questions)
    && (forall i, j :: 0 <= i < j < |s| ==>
          db.questions[s[i]].createDate >= db.questions[s[j]].createDate)
  }

  /** Every question of the listing appears once. */
  lemma {:induction false} ListingDistinct(db: Db, ids: set<QuestionId>)
    requires ids <= db.questions.Keys
    ensures Distinct(Listing(db, ids))
    decreases ids
  {
    if ids != {} {
      var m := First(db, ids);
      var rest := Listing(db, ids - {m});
      ListingDistinct(db, ids - {m});
      var r := Listing(db, ids);
      assert r == [m] + rest;
      assert forall k :: 0 < k < |r| ==> r[k] == rest[k - 1] && r[k] in ids - {m};
    }
  }

  /** A question no older than any of a newest-first sequence may be put in front of it. */
  lemma PrependNewest(db: Db, m: QuestionId, rest: seq<QuestionId>)
    requires m in db.questions && NewestFirst(db, rest)
    requires forall k :: 0 <= k < |rest| ==> db.questions[m].createDate >= db.questions[rest[k]].createDate
    ensures NewestFirst(db, [m] + rest)
  {
    var r := [m] + rest;
    forall i, j | 0 <= i < j < |r|
      ensures db.questions[r[i]].createDate >= db.questions[r[j]].createDate
    {
      assert r[j] == rest[j - 1];
      if i > 0 {
        assert r[i] == rest[i - 1];
      }
    }
  }

  /** No question of the listing follows an older one. */
  lemma {:induction false} ListingNewestFirst(db: Db, ids: set<QuestionId>)
    requires ids <= db.questions.Keys
    ensures NewestFirst(db, Listing(db, ids))
    decreases ids
  {
    if ids != {} {
      var m := First(db, ids);
      var rest := Listing(db, ids - {m});
      ListingNewestFirst(db, ids - {m});
      forall k | 0 <= k < |rest|
        ensures db.questions[m].createDate >= db.questions[rest[k]].createDate
      {
        assert rest[k] in ids && Precedes(db, m, rest[k]);
      }
      PrependNewest(db, m, rest);
    }
  }

  /** No two of the questions `ids` were created at the same instant. */
  predicate DistinctDates(db: Db, ids: set<QuestionId>)
    requires ids <= db.questions.Keys
  {
    forall x, y :: x in ids && y in ids && x != y ==>
      db.questions[x].createDate != db.questions[y].createDate
  }

  /**
   * An order the database may return `ids` in under `order by createDate desc`:
   * each question once, none after an older one. Among equal dates it is free.
   */
  predicate DatabaseOrder(db: Db, ids: set<QuestionId>, s: seq<QuestionId>)
  {
    && Distinct(s) && NewestFirst(db, s)
    && (forall x :: x in s ==> x in ids)
    && (forall x :: x in ids ==> x in s)
  }

  /** Dropping the head of a database order gives an order of the other questions. */
  lemma DatabaseOrderTail(db: Db, ids: set<QuestionId>, s: seq<QuestionId>)
    requires DatabaseOrder(db, ids, s) && |s| > 0
    ensures DatabaseOrder(db, ids - {s[0]}, s[1..])
  {
    var tail := s[1..];
    forall x | x in ids - {s[0]}
      ensures x in tail
    {
      var k :| 0 <= k < |s| && s[k] == x;
      assert tail[k - 1] == x;
    }
    forall x | x in tail
      ensures x in ids - {s[0]}
    {
      var k :| 0 <= k < |tail| && tail[k] == x;
      assert s[k + 1] == x;
    }
  }

  /**
   * With distinct creation dates the sort leaves the database no choice: every
   * order it may return is the listing.
   */
  lemma {:induction false} ListingUnique(db: Db, ids: set<QuestionId>, s: seq<QuestionId>)
    requires ids <= db.questions.Keys && DistinctDates(db, ids)
    requires DatabaseOrder(db, ids, s)
    ensures s == Listing(db, ids)
    decreases ids
  {
    if |s| == 0 {
      assert ids == {};
    } else {
      assert s[0] in ids;
      var m := First(db, ids);
      assert m in s;
      var j :| 0 <= j < |s| && s[j] == m;
      assert db.questions[s[0]].createDate >= db.questions[s[j]].createDate;
      assert Precedes(db, m, s[0]);
      assert s[0] == m;
      DatabaseOrderTail(db, ids, s);
      ListingUnique(db, ids - {m}, s[1..]);
      assert s == [m] + s[1..];
    }
  }

  /** The listing itself is an order the database may return, so such an order exists. */
  lemma ListingIsDatabaseOrder(db: Db, ids: set<QuestionId>)
    requires ids <= db.questions.Keys
    ensures DatabaseOrder(db, ids, Listing(db, ids))
  {
    ListingDistinct(db, ids);
    ListingNewestFirst(db, ids);
  }

  /** `PageRequest.of(page, size)`; a negative index or a size below 1 cannot be built. */
  datatype PageRequest = PageRequest(page: nat, size: nat)

  /** `Page<Question>`: the slice and the figures the page controls use. */
  datatype Page = Page(content: seq<QuestionId>, number: nat, size: nat, totalElements: nat)

  function Min(a: int, b: int): int { if a <= b then a else b }

  /** `Pageable.getOffset()`: the position in the whole result of the page's first item. */
  function Offset(pageable: PageRequest): nat
  {
    pageable.page * pageable.size
  }

  /** The at most `size` items of `all` from position `offset` on. */
  function Slice(all: seq<QuestionId>, offset: nat, size: nat): (s: seq<QuestionId>)
    ensures offset >= |all| ==> s == []
    ensures offset < |all| ==> |s| == Min(size, |all| - offset)
    ensures forall k :: 0 <= k < |s| ==> offset + k < |all| && s[k] == all[offset + k]
  {
    if offset >= |all| then [] else all[offset .. Min(offset + size, |all|)]
  }

  /** A page holds only items of the sequence it is cut from. */
  lemma SliceWithin(all: seq<QuestionId>, offset: nat, size: nat)
    ensures forall x :: x in Slice(all, offset, size) ==> x in all
  {
  }

  /** The listing of the selected ids holds exactly the matching questions. */
  lemma ListingMatches(db: Db, kw: string)
    ensures |Listing(db, Selected(db, kw))| == |Selected(db, kw)|
    ensures forall x :: x in Listing(db, Selected(db, kw)) <==> x in db.questions && QuestionMatches(db, x, kw)
  {
    SelectedAll(db, kw);
  }

  /** A page cut from a sequence without repeats has none. */
  lemma SliceDistinct(all: seq<QuestionId>, offset: nat, size: nat)
    requires Distinct(all)
    ensures Distinct(Slice(all, offset, size))
  {
  }

  /** A page cut from a newest-first sequence is newest first. */
  lemma SliceNewestFirst(db: Db, all: seq<QuestionId>, offset: nat, size: nat)
    requires NewestFirst(db, all)
    ensures NewestFirst(db, Slice(all, offset, size))
  {
  }

  /** A page of the listing of the matches: repeat-free, newest first, only matches. */
  lemma PageFacts(db: Db, kw: string, offset: nat, size: nat)
    ensures var content := Slice(Listing(db, Selected(db, kw)), offset, size);
      && Distinct(content) && NewestFirst(db, content)
      && (forall x :: x in content ==> x in db.questions && QuestionMatches(db, x, kw))
  {
    var all := Listing(db, Selected(db, kw));
    ListingMatches(db, kw);
    ListingDistinct(db, Selected(db, kw));
    ListingNewestFirst(db, Selected(db, kw));
    SliceDistinct(all, offset, size);
    SliceNewestFirst(db, all, offset, size);
    SliceWithin(all, offset, size);
  }

  /**
   * `findAllByKeyword(kw, pageable)` under a request sorted by `createDate` descending:
   * one page of the distinct matches, newest first.
   */
  function FindAllByKeyword(db: Db, kw: string, pageable: PageRequest): (p: Page)
    requires pageable.size >= 1
    ensures |p.content| <= pageable.size
    ensures p.totalElements == |Selected(db, kw)|
    ensures p.number == pageable.page && p.size == pageable.size
    ensures Distinct(p.content) && NewestFirst(db, p.content)
    ensures forall x :: x in p.content ==> x in db.questions && QuestionMatches(db, x, kw)
  {
    var all := Listing(db, Selected(db, kw));
    var content := Slice(all, Offset(pageable), pageable.size);
    PageFacts(db, kw, Offset(pageable), pageable.size);
    Page(content, pageable.page, pageable.size, |all|)
  }
}

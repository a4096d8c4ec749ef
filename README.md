# Q/A board: questions, answers, keyword search and their web handlers

A Dafny model of the question-and-answer core of a Spring Boot board:

- the keyword search `findAllByKeyword` (left outer joins, a five-way `LIKE '%kw%'`, `distinct`, newest first, paging);
- `QuestionService` (listing, lookup, create with an image upload, modify, delete, vote);
- `AnswerService` (create, lookup, modify, delete, vote);
- the member lookup `MemberService.getMember`;
- the guards of the `/question` handlers in `QuestionController`.

The database and the attachment directory are one `Storage.Store` object. Its field `db` holds the member, question and answer tables as maps keyed by id; `files` maps a full path to the bytes written there; two counters play the identity columns. `Store.Valid` states the foreign keys (authors and voters exist, and every answer's question is stored), that ids lie below their counters, and that member names are unique. Every state-changing method keeps it.

Files:

- `results.dfy`: `Option` and `Result`.
- `domain.dfy`: the entities `Member`, `Question`, `Answer`, the tables `Db`, an upload, the error kinds, and adding a voter.
- `text.dfy`: substring search (`LIKE '%kw%'`) and Java's `lastIndexOf`.
- `question_repository.dfy`: the query, its question-level reference definition, ordering and paging.
- `storage.dfy`: the store and its consistency invariant.
- `member_service.dfy`, `question_service.dfy`, `answer_service.dfy`, `question_controller.dfy`: the services and the handlers.

Behaviour of the code that a reader might not expect:

- `extractExt` on a name without a dot returns the whole name, because `lastIndexOf` gives -1 and `substring(0)` is the name itself. It is not the empty extension.
- `create` returns `null` before anything is saved when the upload is empty, so a question without an image is silently dropped. The handler still redirects to the list.
- The listing is sorted by `createDate` only, and every page request runs its own query. The source fixes no order among equal dates, so questions with equal dates that straddle a page boundary can show on two pages or on none. The model's listing breaks ties by ascending id. `QuestionRepository.ListingUnique` proves that, when the matching questions have distinct dates, every order the database may return equals that listing. The cross-page guarantees (`MatchOnSomePage`, `OnAtMostOnePage`) assume distinct dates and hold for any order each page's query picks. `EarlierPagesNewer` and the single-page lemmas speak only of dates.
- `getFullPath` concatenates the directory and the name with no check, so a name containing `../` leaves the directory.

## Model

| member | source | states |
|---|---|---|
| Text.ContainsIff | src/main/java/com/example/mysite/repository/QuestionRepository.java:26-30 | the recursive `LIKE '%kw%'` test holds exactly when `kw` occurs at some position of the text |
| Text.EmptyPatternMatches | src/main/java/com/example/mysite/repository/QuestionRepository.java:26-30 | `'%' + "" + '%'` matches every text |
| Text.LastIndexOf | src/main/java/com/example/mysite/service/QuestionService.java:104 | -1 exactly when the character is absent, otherwise an index holding it with no later occurrence |
| Domain.AddVote | src/main/java/com/example/mysite/service/QuestionService.java:120 | `voter.add(member)`: the member is a voter afterwards, and the voters are exactly the old ones plus the member |
| Domain.AddVoteIdempotent | src/main/java/com/example/mysite/service/AnswerService.java:50 | adding the same voter twice is adding it once |
| Domain.AddVoteCount | src/main/java/com/example/mysite/service/AnswerService.java:50 | the set grows by one for a new voter and not at all for a repeated one |
| QuestionRepository.JoinedRows | src/main/java/com/example/mysite/repository/QuestionRepository.java:21-24 | each row carries a stored question and its author's outer-join side; the answer columns are NULL exactly when the question has no answers, and then the answer author's columns are NULL too; otherwise they hold a stored answer of that question and that answer's author's side |
| QuestionRepository.EveryQuestionJoined | src/main/java/com/example/mysite/repository/QuestionRepository.java:22-24 | the outer joins keep at least one row for every stored question |
| QuestionRepository.RowMatches | src/main/java/com/example/mysite/repository/QuestionRepository.java:25-30 | the empty keyword matches every row; on a row whose joined columns are all NULL only the subject and content can match |
| QuestionRepository.JoinMember | src/main/java/com/example/mysite/repository/QuestionRepository.java:22-24 | the outer-join side is present exactly when the referenced member exists, and is that member |
| QuestionRepository.Selected | src/main/java/com/example/mysite/repository/QuestionRepository.java:19-30 | `distinct q` over the joined rows gives only stored question ids |
| QuestionRepository.SelectedSound | src/main/java/com/example/mysite/repository/QuestionRepository.java:19-30 | every selected id is a stored question that matches the five-way predicate |
| QuestionRepository.SelectedComplete | src/main/java/com/example/mysite/repository/QuestionRepository.java:19-30 | every stored question that matches is selected, through its own row, a matching answer's row, or its NULL-answer row |
| QuestionRepository.SelectedIff | src/main/java/com/example/mysite/repository/QuestionRepository.java:19-30 | a question is selected iff its subject or content, its author's name, or the content or author's name of one of its answers contains `kw` |
| QuestionRepository.SelectedAll | src/main/java/com/example/mysite/repository/QuestionRepository.java:19-30 | the selected set is exactly the set of stored questions matching the reference predicate |
| QuestionRepository.UnansweredQuestionFound | src/main/java/com/example/mysite/repository/QuestionRepository.java:23 | the left join keeps a question with no answers: it is found by its own subject |
| QuestionRepository.EmptyKeywordSelectsAll | src/main/java/com/example/mysite/repository/QuestionRepository.java:26-30 | with `kw = ""` every stored question is selected |
| QuestionRepository.PrecedesTransitive | src/main/java/com/example/mysite/service/QuestionService.java:56 | the newest-first order is transitive |
| QuestionRepository.FirstExists | src/main/java/com/example/mysite/service/QuestionService.java:56 | every non-empty set of ids has a newest element |
| QuestionRepository.First | src/main/java/com/example/mysite/service/QuestionService.java:56 | the chosen id is in the set and no member of the set precedes it |
| QuestionRepository.Listing | src/main/java/com/example/mysite/service/QuestionService.java:56 | the ordered listing holds exactly the ids of the set, and its length is the size of the set |
| QuestionRepository.PrependNewest | src/main/java/com/example/mysite/service/QuestionService.java:56 | a question no older than any in a newest-first sequence can go in front of it |
| QuestionRepository.ListingDistinct | src/main/java/com/example/mysite/repository/QuestionRepository.java:20 | the listing has no repeated question |
| QuestionRepository.ListingNewestFirst | src/main/java/com/example/mysite/service/QuestionService.java:56 | each listed question was created no earlier than the next |
| QuestionRepository.ListingMatches | src/main/java/com/example/mysite/repository/QuestionRepository.java:19-31 | the listing holds exactly the stored matching questions |
| QuestionRepository.DatabaseOrderTail | src/main/java/com/example/mysite/service/QuestionService.java:56 | dropping the head of an order the database may return gives such an order of the remaining questions |
| QuestionRepository.ListingUnique | src/main/java/com/example/mysite/service/QuestionService.java:56-57 | with distinct creation dates, every repeat-free newest-first order of the matches is the listing |
| QuestionRepository.ListingIsDatabaseOrder | src/main/java/com/example/mysite/service/QuestionService.java:56-57 | the listing is itself a repeat-free newest-first order of the matches, so the database orders the cross-page lemmas quantify over exist |
| QuestionRepository.Slice | src/main/java/com/example/mysite/service/QuestionService.java:57 | a page holds `min(size, total - offset)` items taken in order from the offset, or none past the end |
| QuestionRepository.SliceWithin | src/main/java/com/example/mysite/service/QuestionService.java:57 | a page holds only listed items |
| QuestionRepository.SliceDistinct | src/main/java/com/example/mysite/service/QuestionService.java:57 | a page of a repeat-free listing has no repeats |
| QuestionRepository.SliceNewestFirst | src/main/java/com/example/mysite/service/QuestionService.java:57 | a page of a newest-first listing is newest first |
| QuestionRepository.PageFacts | src/main/java/com/example/mysite/repository/QuestionRepository.java:19-31 | any page of the listing is repeat-free, newest first, and holds only stored matches |
| QuestionRepository.FindAllByKeyword | src/main/java/com/example/mysite/repository/QuestionRepository.java:19-31 | at most `size` questions, distinct, newest first, each a stored match; the total counts all matches; the page number and size are those requested |
| MemberService.GetMember | src/main/java/com/example/mysite/service/MemberService.java:29-36 | the member with that name when one exists, otherwise NotFound |
| QuestionService.ExtractExt | src/main/java/com/example/mysite/service/QuestionService.java:103-106 | the text after the last dot: a dot-free suffix of the name, the whole name when it has no dot |
| QuestionService.ExtractExtExamples | src/main/java/com/example/mysite/service/QuestionService.java:103-106 | `photo.PNG` gives `PNG`, `noext` gives `noext`, `archive.tar.gz` gives `gz`, `trailing.` gives the empty string |
| QuestionService.CreateStoreFileName | src/main/java/com/example/mysite/service/QuestionService.java:97-101 | the identifier, one dot, then the extension |
| QuestionService.UuidHasNoDot | src/main/java/com/example/mysite/service/QuestionService.java:99 | a canonical UUID string contains no dot |
| QuestionService.StoreFileNameHasOneDot | src/main/java/com/example/mysite/service/QuestionService.java:97-101 | the stored name has exactly one dot, right after the identifier |
| QuestionService.StoreFileNameKeepsExtension | src/main/java/com/example/mysite/service/QuestionService.java:97-106 | the extension of the stored name is that of the original name |
| QuestionService.StoreFileNamesDistinct | src/main/java/com/example/mysite/service/QuestionService.java:97-101 | different identifiers give different stored names |
| QuestionService.GetFullPath | src/main/java/com/example/mysite/service/QuestionService.java:93-95 | the directory followed by the file name, unchanged |
| QuestionService.FullPathsDistinct | src/main/java/com/example/mysite/service/QuestionService.java:93-95 | different names in one directory give different paths |
| QuestionService.GetList | src/main/java/com/example/mysite/service/QuestionService.java:54-59 | a negative page fails with IllegalArgument, and a page whose offset `page * 10` exceeds the `int` range fails with OffsetTooLarge; otherwise the keyword query for that page with ten items a page |
| QuestionService.GetListIsPage | src/main/java/com/example/mysite/service/QuestionService.java:54-59 | a page index whose offset fits an `int` returns that slice of the newest-first matches |
| QuestionService.MatchOnSomePage | src/main/java/com/example/mysite/service/QuestionService.java:54-59 | when the matches have distinct dates, each matching question has a page on which it appears, whatever order that page's query returns |
| QuestionService.OnAtMostOnePage | src/main/java/com/example/mysite/service/QuestionService.java:54-59 | when the matches have distinct dates, no question appears on two different pages, even if each page comes from its own query |
| QuestionService.ListedOnOnePage | src/main/java/com/example/mysite/service/QuestionService.java:54-59 | no question of the listing is on two of its pages |
| QuestionService.EarlierPagesNewer | src/main/java/com/example/mysite/service/QuestionService.java:54-59 | nothing on a page is older than anything on a later page |
| QuestionService.PagePastEndIsEmpty | src/main/java/com/example/mysite/service/QuestionService.java:54-59 | a page past the last match is empty, not an error |
| QuestionService.NoMatchEmptyPage | src/main/java/com/example/mysite/service/QuestionService.java:54-59 | a keyword matching nothing gives empty pages and a total of zero |
| QuestionService.EmptyKeywordListsAll | src/main/java/com/example/mysite/service/QuestionService.java:54-59 | with the empty keyword the total is the number of questions |
| QuestionService.GetQuestion | src/main/java/com/example/mysite/service/QuestionService.java:61-68 | the stored question, NotFound exactly when the id is unknown |
| QuestionService.Modified | src/main/java/com/example/mysite/service/QuestionService.java:108-113 | new subject, content and modification time; author, creation time, file names and voters kept |
| QuestionService.Voted | src/main/java/com/example/mysite/service/QuestionService.java:119-122 | the voters gain the member; every other field is kept |
| QuestionService.VotedIdempotent | src/main/java/com/example/mysite/service/QuestionService.java:119-122 | voting twice is voting once, since the voters are a set |
| QuestionService.VotedCount | src/main/java/com/example/mysite/service/QuestionService.java:119-122 | the vote count grows by one for a new voter and stays for a repeated one |
| QuestionService.Create | src/main/java/com/example/mysite/service/QuestionService.java:70-91 | an empty upload returns None and changes nothing; otherwise the bytes are stored at the full path of the stored name and a question with that author, time, both file names and no voters is added under a fresh id |
| QuestionService.Modify | src/main/java/com/example/mysite/service/QuestionService.java:108-113 | only that question changes, to its modified value |
| QuestionService.Delete | src/main/java/com/example/mysite/service/QuestionService.java:115-117 | that question and exactly its answers leave the tables; no remaining answer refers to it; nothing else changes |
| QuestionService.Vote | src/main/java/com/example/mysite/service/QuestionService.java:119-122 | only that question changes, to its voted value |
| AnswerService.GetAnswer | src/main/java/com/example/mysite/service/AnswerService.java:30-37 | the stored answer, NotFound exactly when the id is unknown |
| AnswerService.AnswerModified | src/main/java/com/example/mysite/service/AnswerService.java:39-43 | new content and modification time; question, author, creation time and voters kept |
| AnswerService.AnswerVoted | src/main/java/com/example/mysite/service/AnswerService.java:49-52 | the voters gain the member; every other field is kept |
| AnswerService.AnswerVotedIdempotent | src/main/java/com/example/mysite/service/AnswerService.java:49-52 | voting twice on an answer is voting once |
| AnswerService.AnswerVotedCount | src/main/java/com/example/mysite/service/AnswerService.java:49-52 | the answer's vote count grows by one for a new voter and stays for a repeated one |
| AnswerService.Create | src/main/java/com/example/mysite/service/AnswerService.java:20-28 | a fresh id holds an answer with the question, content, author and time, no modification time and no voters |
| AnswerService.Modify | src/main/java/com/example/mysite/service/AnswerService.java:39-43 | only that answer changes, to its modified value |
| AnswerService.Delete | src/main/java/com/example/mysite/service/AnswerService.java:45-47 | only that answer leaves the table |
| AnswerService.Vote | src/main/java/com/example/mysite/service/AnswerService.java:49-52 | only that answer changes, to its voted value |
| QuestionController.IsAuthor | src/main/java/com/example/mysite/controller/QuestionController.java:80 | the ownership guard: when it passes, the principal's member is the question's author |
| QuestionController.IsAuthorIffPrincipalIsAuthor | src/main/java/com/example/mysite/controller/QuestionController.java:95 | with unique names, the guard passes exactly when the principal's member is the author |
| QuestionController.OrDefault | src/main/java/com/example/mysite/controller/QuestionController.java:37 | an absent request parameter takes its default value |
| QuestionController.List | src/main/java/com/example/mysite/controller/QuestionController.java:36-42 | page 0 and keyword "" by default; a page outside the `int` range is BadRequest; a negative page is IllegalArgument and a page whose offset overflows an `int` is OffsetTooLarge; otherwise the page from `getList` and the keyword |
| QuestionController.ListDefaults | src/main/java/com/example/mysite/controller/QuestionController.java:37-38 | with no parameters: the first page, the empty keyword, every question counted |
| QuestionController.Detail | src/main/java/com/example/mysite/controller/QuestionController.java:44-49 | the question for a known id, NotFound otherwise |
| QuestionController.ModifyForm | src/main/java/com/example/mysite/controller/QuestionController.java:76-86 | NotFound, then BadRequest for anyone but the author; the form is shown exactly to the author, prefilled with the current subject and content |
| QuestionController.DownloadImage | src/main/java/com/example/mysite/controller/QuestionController.java:69-74 | the bytes stored at the full path of the name; NotFound, standing for the failure to read a missing file, otherwise |
| QuestionController.CreatePost | src/main/java/com/example/mysite/controller/QuestionController.java:57-67 | binding errors show the form and change nothing; an unknown principal is NotFound; otherwise the list is shown, and with a non-empty upload the new question is stored, the file map gains exactly the new image at its full path, and that image can be downloaded under the stored name |
| QuestionController.ModifyPost | src/main/java/com/example/mysite/controller/QuestionController.java:88-100 | binding errors show the form; NotFound and BadRequest leave the store unchanged; the redirect to the detail page happens exactly for the author, after the modification |
| QuestionController.DeleteGet | src/main/java/com/example/mysite/controller/QuestionController.java:102-111 | NotFound and BadRequest leave the store unchanged; the redirect to the root happens exactly for the author, after the question and its answers are removed |
| QuestionController.VoteGet | src/main/java/com/example/mysite/controller/QuestionController.java:113-120 | NotFound for an unknown question or principal, with nothing changed; otherwise, with no ownership check, the principal's vote is recorded |

## Left out

- File I/O becomes the map `Store.files`. A failed `transferTo` (an `IOException`) is not modelled: the write always succeeds. The map is keyed by the literal path string and starts empty: paths are not normalised, and files the board did not write are absent, so a download through `../` reaches only files the board stored and the traversal described above is not captured.
- The clock (`LocalDateTime.now()`) and `UUID.randomUUID()` become parameters. Create requires the identifier to have the canonical 36-character form.
- SQL `LIKE` is modelled as a plain substring test. A `%` or `_` inside the keyword is not treated as a wildcard. Database collation and case rules are not modelled. A NULL subject, content or name is not modelled; only the missing side of an outer join is.
- Concurrency is not modelled: transactions, and lost updates between concurrent votes or edits.
- The refusal of an offset beyond the `int` range happens in Spring Data's JPA query code, which is not part of this model. The model takes the refusal (`OffsetTooLarge`) that current versions give, not a truncating cast.
- The `Pageable` metadata beyond page number, size and total (total pages, first/last flags) is left out. The only sort order is `createDate` descending.
- The unused `search(kw)` JPA Specification in `QuestionService` is not modelled. It states the same five-way predicate, and `getList` does not call it.
- QuestionService.Delete: the question's answers are removed with it. An answer's `question` column is a `@ManyToOne` foreign key (Answer.java:23-24), so no answer can outlive its question. Whether the database cascades the delete or refuses it is set in the `Question` entity, which is not part of this model; the model takes the cascade.
- Ids are `nat`. A negative `Long` path id reaches `findById` in the source and fails with NotFound, like any unknown id; the model's ids cannot be negative, and so it does not state that case.
- `Answer.voter` is not initialised in the entity; a freshly created answer is modelled with the empty voter set that a reload from the database would give.
- A null original filename, a null image part and a null principal are not modelled.
- `MemberService.create` and password encoding are not part of this model.
- Spring MVC view rendering, the `AnswerForm` model attribute and the GET `/question/create` handler (which only renders the empty form) are left out.
- `@PreAuthorize("isAuthenticated()")` is left out: a handler always receives a principal name.
- The answer handlers live in a controller that is not part of this model; `AnswerService` is modelled on its own.
- QuestionRepository.Listing: ties in `createDate` are broken by ascending id, an order the database does not promise. The cross-page lemmas therefore assume distinct dates, under which `ListingUnique` shows that the tie order is never used.

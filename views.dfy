/**
 * The request handlers of the polls app as pure functions of the stored
 * rows, the request's parameters and the wall clock `now`. Each handler
 * returns the response it chooses; rendering, redirects and HTTP status
 * codes are the constructors of `Outcome`.
 */
module PollsViews {
  import opened PollsModels

  datatype Option<T> = None | Some(value: T)

  /** The three tables the views read. */
  datatype Db = Db(questions: seq<Question>, choices: seq<Choice>, votes: seq<Vote>)

  /** The response a handler chooses. */
  datatype Outcome =
    | NotFound                            // HTTP 404 from a failed lookup
    | ServerError                         // an exception the handler does not catch
    | ErrorRerender(question: Question)   // the detail page again, with an error message
    | RedirectIndex                       // redirect to the question list, with a warning
    | RenderDetail(question: Question)    // the detail page of a question
    | RenderResults(question: Question)   // the results page of a question
    | RedirectResults(question: Question) // redirect to the results page after a vote

  /** Primary keys of questions are unique: one row per id. */
  predicate UniqueQuestionIds(qs: seq<Question>) {
    forall a, b :: a in qs && b in qs && a.id == b.id ==> a == b
  }

  // ---------------------------------------------------------------------
  // Lookups
  // ---------------------------------------------------------------------

  /** The first element of `s` that satisfies `p`, if any. */
  function FirstMatch<T>(s: seq<T>, p: T -> bool): (r: Option<T>)
    ensures r.Some? ==> r.value in s && p(r.value)
    ensures r.None? <==> forall x :: x in s ==> !p(x)
  {
    if s == [] then None
    else if p(s[0]) then Some(s[0])
    else FirstMatch(s[1..], p)
  }

  /** Lookup of a question by primary key. */
  function FindQuestion(qs: seq<Question>, id: QuestionId): Option<Question> {
    FirstMatch(qs, (q: Question) => q.id == id)
  }

  /** With unique keys the lookup finds exactly the row with that key. */
  lemma FindQuestionIsExact(qs: seq<Question>, q: Question)
    requires UniqueQuestionIds(qs) && q in qs
    ensures FindQuestion(qs, q.id) == Some(q)
  {}

  /** Lookup of a choice by primary key among the choices of question `qid` (`question.choice_set.get`). */
  function FindChoiceOf(cs: seq<Choice>, qid: QuestionId, cid: ChoiceId): Option<Choice> {
    FirstMatch(cs, (c: Choice) => c.id == cid && c.question == qid)
  }

  // ---------------------------------------------------------------------
  // Index view
  // ---------------------------------------------------------------------

  /** The questions of `qs` that are published at `now`, in their stored order. */
  function PublishedFilter(qs: seq<Question>, now: int): (r: seq<Question>)
    ensures forall q :: multiset(r)[q] == if IsPublished(q, now) then multiset(qs)[q] else 0
  {
    if qs == [] then []
    else
      assert qs == [qs[0]] + qs[1..];
      if IsPublished(qs[0], now) then [qs[0]] + PublishedFilter(qs[1..], now)
      else PublishedFilter(qs[1..], now)
  }

  /** Ordered by publish time, newest first. */
  predicate NewestFirst(qs: seq<Question>) {
    forall i, j :: 0 <= i < j < |qs| ==> qs[i].pubDate >= qs[j].pubDate
  }

  /** Insert `q` into a newest-first list, before every question not newer than it. */
  function InsertNewestFirst(q: Question, sorted: seq<Question>): (r: seq<Question>)
    requires NewestFirst(sorted)
    ensures NewestFirst(r)
    ensures multiset(r) == multiset(sorted) + multiset{q}
  {
    if sorted == [] || q.pubDate >= sorted[0].pubDate then
      [q] + sorted
    else
      assert sorted == [sorted[0]] + sorted[1..];
      var rest := InsertNewestFirst(q, sorted[1..]);
      assert forall k :: 0 <= k < |rest| ==> rest[k].pubDate <= sorted[0].pubDate by {
        forall k | 0 <= k < |rest| ensures rest[k].pubDate <= sorted[0].pubDate {
          assert rest[k] in multiset(rest);
          if rest[k] != q {
            assert rest[k] in multiset(sorted[1..]);
          }
        }
      }
      [sorted[0]] + rest
  }

  /** The order `order_by('-pub_date')` gives: a newest-first permutation. */
  function SortNewestFirst(qs: seq<Question>): (r: seq<Question>)
    ensures NewestFirst(r)
    ensures multiset(r) == multiset(qs)
  {
    if qs == [] then []
    else
      assert qs == [qs[0]] + qs[1..];
      InsertNewestFirst(qs[0], SortNewestFirst(qs[1..]))
  }

  /**
   * `IndexView.get_queryset`: every published question exactly as often as
   * it is stored, nothing else, newest first, with no truncation.
   */
  function IndexQueryset(qs: seq<Question>, now: int): (r: seq<Question>)
    ensures NewestFirst(r)
    ensures forall q :: multiset(r)[q] == if IsPublished(q, now) then multiset(qs)[q] else 0
    ensures forall q :: q in r <==> q in qs && IsPublished(q, now)
  {
    SortNewestFirst(PublishedFilter(qs, now))
  }

  /** A question published 30 days ago is listed; one publishing in 30 days is not. */
  lemma IndexShowsPastHidesFuture(past: Question, future: Question, now: int)
    requires past.pubDate == now - 30 * Day && past.endDate == now - 15 * Day
    requires future.pubDate == now + 30 * Day && future.endDate == now + 45 * Day
    ensures IndexQueryset([past, future], now) == [past]
  {}

  /** Two past questions are listed newest first. */
  lemma IndexListsTwoPastNewestFirst(q1: Question, q2: Question, now: int)
    requires q1.pubDate == now - 30 * Day && q1.endDate == now - 15 * Day
    requires q2.pubDate == now - 5 * Day && q2.endDate == now - Day
    ensures IndexQueryset([q1, q2], now) == [q2, q1]
  {
    var r := IndexQueryset([q1, q2], now);
    assert multiset(r) == multiset{q1, q2};
    assert |r| == 2;
    assert r[0] in multiset(r) && r[1] in multiset(r);
    assert r[0].pubDate >= r[1].pubDate;
  }

  // ---------------------------------------------------------------------
  // Detail and results views
  // ---------------------------------------------------------------------

  /** `DetailView`: the lookup runs over the published questions only. */
  function Detail(db: Db, id: QuestionId, now: int): Outcome {
    match FindQuestion(PublishedFilter(db.questions, now), id)
    case None => NotFound
    case Some(q) => RenderDetail(q)
  }

  /** The detail page of a stored question opens exactly when it is published. */
  lemma DetailOfStoredQuestion(db: Db, q: Question, now: int)
    requires UniqueQuestionIds(db.questions) && q in db.questions
    ensures Detail(db, q.id, now) == if IsPublished(q, now) then RenderDetail(q) else NotFound
  {
    var published := PublishedFilter(db.questions, now);
    assert q in published <==> IsPublished(q, now) by {
      assert q in published <==> multiset(published)[q] > 0;
    }
    match FindQuestion(published, q.id)
    case None =>
    case Some(r) =>
      assert multiset(published)[r] > 0;
  }

  /** An id with no stored question has no detail page. */
  lemma DetailOfUnknownId(db: Db, id: QuestionId, now: int)
    requires forall q :: q in db.questions ==> q.id != id
    ensures Detail(db, id, now) == NotFound
  {
    var published := PublishedFilter(db.questions, now);
    forall r | r in published ensures r.id != id {
      assert multiset(published)[r] > 0;
    }
  }

  /** `ResultsView`: a lookup over all questions, published or not. */
  function Results(db: Db, id: QuestionId): Outcome {
    match FindQuestion(db.questions, id)
    case None => NotFound
    case Some(q) => RenderResults(q)
  }

  /** Every stored question has a results page, whatever its publish state. */
  lemma ResultsOfStoredQuestion(db: Db, q: Question)
    requires UniqueQuestionIds(db.questions) && q in db.questions
    ensures Results(db, q.id) == RenderResults(q)
  {}

  /** Whatever has a detail page has a results page for the same question. */
  lemma DetailImpliesResults(db: Db, id: QuestionId, now: int, q: Question)
    requires UniqueQuestionIds(db.questions)
    requires Detail(db, id, now) == RenderDetail(q)
    ensures q in db.questions && q.id == id && IsPublished(q, now)
    ensures Results(db, id) == RenderResults(q)
  {
    var published := PublishedFilter(db.questions, now);
    assert multiset(published)[q] > 0;
    FindQuestionIsExact(db.questions, q);
  }

  // ---------------------------------------------------------------------
  // Expiry guard
  // ---------------------------------------------------------------------

  /**
   * `polls_check_expire`: a plain `get` (an unknown id raises an uncaught
   * `DoesNotExist`), then the voting window decides between the list and
   * the detail page.
   */
  function CheckExpire(db: Db, id: QuestionId, now: int): Outcome {
    match FindQuestion(db.questions, id)
    case None => ServerError
    case Some(q) => if !CanVote(q, now) then RedirectIndex else RenderDetail(q)
  }

  /** For a stored question the guard shows the detail page exactly inside the voting window. */
  lemma CheckExpireOfStoredQuestion(db: Db, q: Question, now: int)
    requires UniqueQuestionIds(db.questions) && q in db.questions
    ensures CheckExpire(db, q.id, now) == if CanVote(q, now) then RenderDetail(q) else RedirectIndex
  {}

  /** The guard never shows a question that is not published yet. */
  lemma CheckExpireShowsOnlyPublished(db: Db, id: QuestionId, now: int, q: Question)
    requires CheckExpire(db, id, now) == RenderDetail(q)
    ensures q in db.questions && IsPublished(q, now) && CanVote(q, now)
  {}

  /** A question published 30 days ago and expired 15 days ago is listed, but the guard sends the user back to the list. */
  lemma ExpiredQuestionListedButGuarded(q: Question, now: int)
    requires q.pubDate == now - 30 * Day && q.endDate == now - 15 * Day
    ensures q in IndexQueryset([q], now)
    ensures CheckExpire(Db([q], [], []), q.id, now) == RedirectIndex
  {}

  // ---------------------------------------------------------------------
  // Vote
  // ---------------------------------------------------------------------

  /**
   * `vote`, corrected: an unknown question is a 404; a missing `choice`
   * field, or a choice that is not one of the question's choices, shows the
   * form again with an error; a valid choice redirects to the results.
   * The form value is given already parsed as a choice id.
   */
  function CastVote(db: Db, id: QuestionId, choice: Option<ChoiceId>): Outcome {
    match FindQuestion(db.questions, id)
    case None => NotFound
    case Some(q) =>
      match choice
      case None => ErrorRerender(q)
      case Some(cid) =>
        match FindChoiceOf(db.choices, q.id, cid)
        case None => ErrorRerender(q)
        case Some(_) => RedirectResults(q)
  }

  /**
   * `vote` as written: the success branch assigns to `Choice.votes`, a
   * property without a setter, so it raises an uncaught exception instead
   * of redirecting.
   */
  function CastVoteAsWritten(db: Db, id: QuestionId, choice: Option<ChoiceId>): Outcome {
    match FindQuestion(db.questions, id)
    case None => NotFound
    case Some(q) =>
      match choice
      case None => ErrorRerender(q)
      case Some(cid) =>
        match FindChoiceOf(db.choices, q.id, cid)
        case None => ErrorRerender(q)
        case Some(_) => ServerError
  }

  /** A vote on an id with no stored question is a 404. */
  lemma CastVoteUnknownQuestion(db: Db, id: QuestionId, choice: Option<ChoiceId>)
    ensures CastVote(db, id, choice) == NotFound <==> forall q :: q in db.questions ==> q.id != id
  {}

  /**
   * For a stored question: no choice submitted, or one that is not among
   * the question's choices, shows the form again; a choice of the question
   * redirects to its results.
   */
  lemma CastVoteOfStoredQuestion(db: Db, q: Question, choice: Option<ChoiceId>)
    requires UniqueQuestionIds(db.questions) && q in db.questions
    ensures choice.None? ==> CastVote(db, q.id, choice) == ErrorRerender(q)
    ensures choice.Some? ==>
      CastVote(db, q.id, choice) ==
        if exists c :: c in db.choices && c.id == choice.value && c.question == q.id
        then RedirectResults(q) else ErrorRerender(q)
  {}

  /** A choice that belongs to a different question is refused even if its id exists. */
  lemma CastVoteForeignChoice(db: Db, q: Question, c: Choice)
    requires UniqueQuestionIds(db.questions) && q in db.questions
    requires c.question != q.id
    requires forall d :: d in db.choices && d.id == c.id ==> d == c
    ensures CastVote(db, q.id, Some(c.id)) == ErrorRerender(q)
  {}

  /** As written, no vote request ever reaches the results redirect. */
  lemma AsWrittenNeverRedirects(db: Db, id: QuestionId, choice: Option<ChoiceId>)
    ensures !CastVoteAsWritten(db, id, choice).RedirectResults?
    ensures CastVoteAsWritten(db, id, choice) != CastVote(db, id, choice) <==>
            CastVote(db, id, choice).RedirectResults?
  {}

  /**
   * The two-choice poll voted on in the replace-vote scenario: as written a
   * vote for choice 1 fails with a server error, where the corrected
   * handler redirects to the results.
   */
  lemma AsWrittenFailsOnValidVote(now: int)
    ensures var q := Question(1, "1 or 2?", now - 4 * Day, now + 5 * Day);
            var db := Db([q], [Choice(1, 1, "1"), Choice(2, 1, "2")], []);
            CastVoteAsWritten(db, 1, Some(1)) == ServerError &&
            CastVote(db, 1, Some(1)) == RedirectResults(q)
  {}

  /** The vote handler does not consult the voting window: a valid choice is accepted after expiry too. */
  lemma CastVoteIgnoresVotingWindow(db: Db, q: Question, c: Choice, now: int)
    requires UniqueQuestionIds(db.questions) && q in db.questions
    requires c in db.choices && c.question == q.id
    requires !CanVote(q, now)
    ensures CastVote(db, q.id, Some(c.id)) == RedirectResults(q)
  {}
}

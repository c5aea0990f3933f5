# Polls app: lifecycle predicates and request outcomes

A model of the decision logic of a small Django polls application.

- `PollsModels` (`models.dfy`) holds the data model: a `Question` with a publish time and an expiry time, the `Choice`s of a question, and `Vote` records tying a user to a question and a choice.
- It defines the three lifecycle predicates of a question: published, votable and published recently. It also defines the vote tally of a choice (`Choice.votes`).
- `PollsViews` (`views.dfy`) models the request handlers as pure functions. They take the stored rows (`Db`), the request parameters and the wall clock `now`, and return the response they choose (`Outcome`):
  - the index list (`IndexQueryset`);
  - the detail page (`Detail`) and the results page (`Results`);
  - the expiry guard (`CheckExpire`);
  - the vote handler (`CastVote`).

Timestamps are whole seconds (`Day` = 86400) and `now` is a parameter rather than a clock read. Lookups by primary key are modelled as a first-match scan over the stored rows. The lemmas about lookups assume unique question keys (`UniqueQuestionIds`), as a primary key guarantees.

Where the description of the system and the code differ, the model follows the code:
- A submitted choice that does not exist, or that belongs to another question, re-renders the form with an error. It is not a 404 (polls/views.py:59-65).
- `polls_check_expire` looks the question up with a plain `get`. An unknown id is therefore an uncaught exception (`ServerError`), not a 404.
- The vote handler never consults `can_vote`. A valid choice outside the voting window is accepted like any other (`CastVoteIgnoresVotingWindow`).

## Model

| member | source | states |
|---|---|---|
| PollsModels.PublishedStaysPublished | polls/models.py:21-27 | once `now >= pub_date` holds, it holds at every later instant |
| PollsModels.CanVoteIffPublishedAndNotExpired | polls/models.py:29-31 | voting is allowed exactly when the question is published and `now <= end_date` |
| PollsModels.CanVoteImpliesPublished | polls/models.py:21-31 | a votable question is published at the same instant |
| PollsModels.InvertedWindowNeverVotable | polls/models.py:14-31 | if `end_date < pub_date` (never rejected by the model), no instant allows voting |
| PollsModels.VotingWindowIsInterval | polls/models.py:29-31 | the votable instants form one closed interval |
| PollsModels.RecentIffPublishedWithinADay | polls/models.py:33-36 | recent exactly when published and at most one day (86400 s) has passed since `pub_date` |
| PollsModels.RecentImpliesPublished | polls/models.py:21-36 | a recent question is published |
| PollsModels.FutureQuestionIsHidden | polls/tests.py:40-44 | a question 30 days in the future is neither published nor recent |
| PollsModels.DayAndSecondOldQuestion | polls/tests.py:70-74 | a question published 1 day 1 s ago is published but not recent |
| PollsModels.AlmostDayOldQuestionIsRecent | polls/tests.py:76-81 | a question published 23 h 59 min 59 s ago is recent |
| PollsModels.QuestionVotes | polls/models.py:57 | the question's vote set never holds more than all vote records |
| PollsModels.ChoiceVotes | polls/models.py:54-57 | a choice's tally never exceeds the number of votes on its own question |
| PollsModels.ChoiceVotesPositiveIff | polls/models.py:54-57 | a choice has a vote exactly when some record names both its question and the choice |
| PollsModels.ChoiceVotesAppend | polls/models.py:54-57 | the tally over two batches of records is the sum of the two tallies |
| PollsModels.ChoiceVotesIgnoresOthers | polls/models.py:54-57 | a record for another choice or another question leaves the tally unchanged |
| PollsModels.TalliesBoundedByQuestionVotes | polls/models.py:44-64 | the tallies of distinct choices of one question add up to at most that question's vote count |
| PollsViews.FindQuestionIsExact | polls/views.py:58 | with unique keys, the lookup by id returns exactly the stored question with that id |
| PollsViews.PublishedFilter | polls/views.py:22-23 | the filter keeps every published question as often as stored and drops every other one |
| PollsViews.SortNewestFirst | polls/views.py:24 | the ordering is by non-increasing `pub_date` and is a permutation of its input |
| PollsViews.IndexQueryset | polls/views.py:20-24 | the index holds exactly the published questions, each with its stored multiplicity, newest first, with none dropped |
| PollsViews.IndexShowsPastHidesFuture | polls/tests.py:110-118 | a past question is listed and a future one is not |
| PollsViews.IndexListsTwoPastNewestFirst | polls/tests.py:120-128 | two past questions are listed newest first |
| PollsViews.DetailOfStoredQuestion | polls/views.py:27-35 | the detail page of a stored question renders exactly when it is published, otherwise 404 |
| PollsViews.DetailOfUnknownId | polls/views.py:33-35 | an id with no stored question gives 404 on the detail page |
| PollsViews.ResultsOfStoredQuestion | polls/views.py:38-42 | every stored question has a results page, whatever its publish state |
| PollsViews.DetailImpliesResults | polls/views.py:27-42 | a question shown on the detail page is stored and published, and its results page resolves |
| PollsViews.CheckExpireOfStoredQuestion | polls/views.py:45-53 | the guard renders the detail page inside the voting window and redirects to the index outside it |
| PollsViews.CheckExpireShowsOnlyPublished | polls/views.py:45-53 | the guard only ever renders a stored, published, votable question |
| PollsViews.ExpiredQuestionListedButGuarded | polls/tests.py:94-101 | a question published 30 days ago and expired 15 days ago is listed, but the guard redirects to the index |
| PollsViews.CastVoteUnknownQuestion | polls/views.py:58 | the vote gives 404 exactly when no stored question has the id |
| PollsViews.CastVoteOfStoredQuestion | polls/views.py:56-70 | no choice submitted, or one not among the question's choices, re-renders the form with an error; a choice of the question redirects to its results |
| PollsViews.CastVoteForeignChoice | polls/views.py:59-65 | an existing choice that belongs to another question is refused with the error re-render |
| PollsViews.CastVoteIgnoresVotingWindow | polls/views.py:56-70 | a valid choice redirects to the results even outside the voting window |
| PollsViews.AsWrittenNeverRedirects | polls/views.py:66-70 | as written, no vote request reaches the results redirect; it differs from the corrected handler exactly on the success path |
| PollsViews.AsWrittenFailsOnValidVote | polls/views.py:66-70 | for a two-choice poll, a vote for choice 1 fails as written and redirects to the results once corrected |

## Left out

- Recording a vote: the success branch of the vote handler changes no coherent state (see Findings). The replace-previous-vote behaviour expected by polls/tests/test_poll_dates.py:35-44 is not implemented in any of the files modelled, so no update of the vote table is modelled. The handlers take the rows as a value and return only the response, so no path of the model changes stored rows.
- The `can_vote` tests at polls/tests.py:46-62 build a question without an expiry time and expect a future question to be votable. This contradicts polls/models.py:31, so they are not used as properties.
- Authentication, login redirects and the signup page: these come from framework middleware and URL configuration that are not part of this model.
- Framework plumbing: ORM persistence, templates, flash messages, URL reversing and HTTP status codes. Each appears only as an `Outcome` constructor.
- The admin screen configuration (polls/admin.py): it contains no logic.
- The real clock: `now` is a parameter. Time-zone-aware datetimes are whole seconds on one clock.
- Concurrent votes: the source has no concurrency logic.
- The `choice` form field is modelled as an already-parsed choice id (`Option<ChoiceId>`). A value that is not a number, and the exception its lookup raises, is not modelled.
- PollsViews.SortNewestFirst: questions with equal `pub_date` keep their stored order. The database leaves the order of ties unspecified, so the contract promises only newest-first order and permutation.
- The rendering of the results page (the per-choice tallies) is not modelled beyond `ChoiceVotes` and `TalliesBoundedByQuestionVotes`.

## Findings

| source | as written | input that shows it | evidently intended | confidence | as-written member | corrected member |
|---|---|---|---|---|---|---|
| polls/views.py:67-68 | the success branch of the vote handler adds one to `Choice.votes` and saves the choice. `votes` is a property without a setter (polls/models.py:54-57), so the assignment raises an exception that nothing catches | question 1 in its voting window with choices 1 and 2; POST `choice=1` | a vote for a valid choice is recorded and the handler redirects to the results page | high; not executed | PollsViews.CastVoteAsWritten, shown by PollsViews.AsWrittenFailsOnValidVote | PollsViews.CastVote, proved by PollsViews.CastVoteOfStoredQuestion |

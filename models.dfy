/**
 * The poll data model: questions with a publish/expiry window, the choices
 * of a question, the vote records, the three lifecycle predicates of a
 * question and the vote tally of a choice.
 *
 * Timestamps are whole seconds on one clock; the wall clock is passed in as
 * `now` instead of being read.
 */
module PollsModels {

  /** One day in seconds (the `timedelta(days=1)` of the recency window). */
  const Day: int := 86400

  type QuestionId = int
  type ChoiceId = int
  type UserId = int

  /** A poll. Nothing forces `pubDate <= endDate`. */
  datatype Question = Question(id: QuestionId, text: string, pubDate: int, endDate: int)

  /** One option of the question whose id is `question`. */
  datatype Choice = Choice(id: ChoiceId, question: QuestionId, text: string)

  /** A vote record: which user picked which choice of which question. */
  datatype Vote = Vote(question: QuestionId, choice: ChoiceId, user: UserId)

  // ---------------------------------------------------------------------
  // Lifecycle predicates
  // ---------------------------------------------------------------------

  /** The question is visible: its publish time has been reached. */
  predicate IsPublished(q: Question, now: int) {
    if now >= q.pubDate then true else false
  }

  /** The question is inside its voting window, both ends included. */
  predicate CanVote(q: Question, now: int) {
    q.pubDate <= now <= q.endDate
  }

  /** The question was published within the last day, `now` included. */
  predicate WasPublishedRecently(q: Question, now: int) {
    now - Day <= q.pubDate <= now
  }

  /** Once published, a question stays published. */
  lemma PublishedStaysPublished(q: Question, t: int, t': int)
    requires t <= t'
    ensures IsPublished(q, t) ==> IsPublished(q, t')
  {}

  /** The voting window is the published part of the timeline up to the expiry time. */
  lemma CanVoteIffPublishedAndNotExpired(q: Question, now: int)
    ensures CanVote(q, now) <==> IsPublished(q, now) && now <= q.endDate
  {}

  /** A question one can vote on is published at that same instant. */
  lemma CanVoteImpliesPublished(q: Question, now: int)
    ensures CanVote(q, now) ==> IsPublished(q, now)
  {}

  /** A question whose expiry precedes its publication can never be voted on. */
  lemma InvertedWindowNeverVotable(q: Question)
    requires q.endDate < q.pubDate
    ensures forall now :: !CanVote(q, now)
  {}

  /** The voting window has no holes: between two votable instants every instant is votable. */
  lemma VotingWindowIsInterval(q: Question, t1: int, t2: int, t3: int)
    requires t1 <= t2 <= t3
    requires CanVote(q, t1) && CanVote(q, t3)
    ensures CanVote(q, t2)
  {}

  /** Recent means published, and published at most one day ago. */
  lemma RecentIffPublishedWithinADay(q: Question, now: int)
    ensures WasPublishedRecently(q, now) <==> IsPublished(q, now) && now - q.pubDate <= Day
  {}

  /** A recent question is a published question. */
  lemma RecentImpliesPublished(q: Question, now: int)
    ensures WasPublishedRecently(q, now) ==> IsPublished(q, now)
  {}

  /** A question whose publish time is 30 days ahead is neither published nor recent. */
  lemma FutureQuestionIsHidden(q: Question, now: int)
    requires q.pubDate == now + 30 * Day
    ensures !IsPublished(q, now) && !WasPublishedRecently(q, now)
  {}

  /** A question published one day and one second ago is published but no longer recent. */
  lemma DayAndSecondOldQuestion(q: Question, now: int)
    requires q.pubDate == now - (Day + 1)
    ensures IsPublished(q, now) && !WasPublishedRecently(q, now)
  {}

  /** A question published 23 h 59 min 59 s ago is still recent. */
  lemma AlmostDayOldQuestionIsRecent(q: Question, now: int)
    requires q.pubDate == now - (23 * 3600 + 59 * 60 + 59)
    ensures WasPublishedRecently(q, now)
  {}

  // ---------------------------------------------------------------------
  // Vote tally
  // ---------------------------------------------------------------------

  /** The vote `v` is one of the votes counted for choice `c`. */
  predicate CountsFor(v: Vote, c: Choice) {
    v.question == c.question && v.choice == c.id
  }

  /** Number of vote records on question `qid` (its `vote_set`). */
  function QuestionVotes(qid: QuestionId, votes: seq<Vote>): (n: nat)
    ensures n <= |votes|
  {
    if votes == [] then 0
    else (if votes[0].question == qid then 1 else 0) + QuestionVotes(qid, votes[1..])
  }

  /**
   * `Choice.votes`: the votes of the choice's question that name this choice.
   * No vote outside the choice's question is ever counted.
   */
  function ChoiceVotes(c: Choice, votes: seq<Vote>): (n: nat)
    ensures n <= QuestionVotes(c.question, votes)
  {
    if votes == [] then 0
    else (if CountsFor(votes[0], c) then 1 else 0) + ChoiceVotes(c, votes[1..])
  }

  /** A choice has a vote exactly when some record counts for it. */
  lemma {:induction false} ChoiceVotesPositiveIff(c: Choice, votes: seq<Vote>)
    ensures ChoiceVotes(c, votes) > 0 <==> exists i :: 0 <= i < |votes| && CountsFor(votes[i], c)
  {
    if votes != [] {
      ChoiceVotesPositiveIff(c, votes[1..]);
      if ChoiceVotes(c, votes[1..]) > 0 {
        var i :| 0 <= i < |votes[1..]| && CountsFor(votes[1..][i], c);
        assert CountsFor(votes[i + 1], c);
      }
      if exists i :: 0 <= i < |votes| && CountsFor(votes[i], c) {
        var i :| 0 <= i < |votes| && CountsFor(votes[i], c);
        if i > 0 {
          assert CountsFor(votes[1..][i - 1], c);
        }
      }
    }
  }

  /** The tally of a choice over two batches of records is the sum of both tallies. */
  lemma {:induction false} ChoiceVotesAppend(c: Choice, a: seq<Vote>, b: seq<Vote>)
    ensures ChoiceVotes(c, a + b) == ChoiceVotes(c, a) + ChoiceVotes(c, b)
  {
    if a != [] {
      assert (a + b)[1..] == a[1..] + b;
      ChoiceVotesAppend(c, a[1..], b);
    } else {
      assert a + b == b;
    }
  }

  /** Records about other choices or other questions do not change a choice's tally. */
  lemma {:induction false} ChoiceVotesIgnoresOthers(c: Choice, votes: seq<Vote>, v: Vote)
    requires !CountsFor(v, c)
    ensures ChoiceVotes(c, votes + [v]) == ChoiceVotes(c, votes)
  {
    ChoiceVotesAppend(c, votes, [v]);
  }

  /** Sum of the tallies of the choices `cs`, as a results page adds them up. */
  function TotalChoiceVotes(cs: seq<Choice>, votes: seq<Vote>): (n: nat)
  {
    if cs == [] then 0 else ChoiceVotes(cs[0], votes) + TotalChoiceVotes(cs[1..], votes)
  }

  /** Choice primary keys are distinct. */
  predicate DistinctChoiceIds(cs: seq<Choice>) {
    forall i, j :: 0 <= i < j < |cs| ==> cs[i].id != cs[j].id
  }

  /** Every choice in `cs` belongs to question `qid`. */
  predicate ChoicesOf(cs: seq<Choice>, qid: QuestionId) {
    forall c :: c in cs ==> c.question == qid
  }

  /** One record counts for at most one of a set of distinct choices. */
  lemma {:induction false} SingleVoteCountsOnce(cs: seq<Choice>, v: Vote)
    requires DistinctChoiceIds(cs)
    ensures TotalChoiceVotes(cs, [v]) <= 1
  {
    if cs != [] {
      assert DistinctChoiceIds(cs[1..]);
      SingleVoteCountsOnce(cs[1..], v);
      assert [v][1..] == [];
      if CountsFor(v, cs[0]) {
        ChoiceVotesPositiveIff(cs[0], [v]);
        NoOtherChoiceCounts(cs[1..], v, cs[0].id);
      }
    }
  }

  /** None of the choices `cs` counts `v` when `v` names a choice id absent from `cs`. */
  lemma {:induction false} NoOtherChoiceCounts(cs: seq<Choice>, v: Vote, id: ChoiceId)
    requires v.choice == id
    requires forall c :: c in cs ==> c.id != id
    ensures TotalChoiceVotes(cs, [v]) == 0
  {
    if cs != [] {
      assert cs[0] in cs;
      assert [v][1..] == [];
      NoOtherChoiceCounts(cs[1..], v, id);
    }
  }

  /** The tallies split over a prefix record and the rest. */
  lemma {:induction false} TotalChoiceVotesCons(cs: seq<Choice>, votes: seq<Vote>)
    requires votes != []
    ensures TotalChoiceVotes(cs, votes) == TotalChoiceVotes(cs, [votes[0]]) + TotalChoiceVotes(cs, votes[1..])
  {
    if cs != [] {
      assert votes == [votes[0]] + votes[1..];
      ChoiceVotesAppend(cs[0], [votes[0]], votes[1..]);
      TotalChoiceVotesCons(cs[1..], votes);
    }
  }

  /** A single record on another question counts for no choice of `qid`. */
  lemma {:induction false} OtherQuestionCountsNowhere(cs: seq<Choice>, v: Vote, qid: QuestionId)
    requires ChoicesOf(cs, qid) && v.question != qid
    ensures TotalChoiceVotes(cs, [v]) == 0
  {
    if cs != [] {
      assert cs[0] in cs;
      assert [v][1..] == [];
      assert forall c :: c in cs[1..] ==> c in cs;
      OtherQuestionCountsNowhere(cs[1..], v, qid);
    }
  }

  /**
   * The per-choice tallies of distinct choices of one question never add up
   * to more than the number of votes recorded on that question.
   */
  lemma {:induction false} TalliesBoundedByQuestionVotes(cs: seq<Choice>, qid: QuestionId, votes: seq<Vote>)
    requires DistinctChoiceIds(cs) && ChoicesOf(cs, qid)
    ensures TotalChoiceVotes(cs, votes) <= QuestionVotes(qid, votes)
  {
    if votes == [] {
      ZeroTallyOfNoVotes(cs);
    } else {
      TotalChoiceVotesCons(cs, votes);
      TalliesBoundedByQuestionVotes(cs, qid, votes[1..]);
      SingleVoteCountsOnce(cs, votes[0]);
      if votes[0].question != qid {
        OtherQuestionCountsNowhere(cs, votes[0], qid);
      }
    }
  }

  /** Without records every tally is zero. */
  lemma {:induction false} ZeroTallyOfNoVotes(cs: seq<Choice>)
    ensures TotalChoiceVotes(cs, []) == 0
  {
    if cs != [] {
      ZeroTallyOfNoVotes(cs[1..]);
    }
  }
}

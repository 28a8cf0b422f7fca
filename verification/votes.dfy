/** Community polls: a vote offers options, each signed-in user casts one
    ballot per vote while it is open, and the results page ranks the
    options with their share of the ballots. */
module Votes {
  import opened Wrappers
  import opened Queries
  import opened Accounts
  import Tally

  type VoteId = int
  type OptionId = int

  datatype Vote = Vote(
    id: VoteId,
    title: string,
    voteType: string,
    isActive: bool,
    createdAt: int,
    endDate: Option<int>)

  datatype VoteOption = VoteOption(id: OptionId, vote: VoteId, text: string, votes: nat)

  /** A `UserVote` row: who voted in which vote, for which option. */
  datatype Ballot = Ballot(user: UserId, vote: VoteId, option: OptionId)

  datatype VoteDb = VoteDb(votes: seq<Vote>, options: seq<VoteOption>, ballots: seq<Ballot>)

  /** A new vote is active; its closing date is optional. */
  function NewVote(id: VoteId, title: string, voteType: string, now: int, endDate: Option<int>): (v: Vote)
    ensures v.isActive && v.endDate == endDate && v.id == id
  {
    Vote(id, title, voteType, true, now, endDate)
  }

  /** A new option starts with no votes. */
  function NewOption(id: OptionId, vote: VoteId, text: string): (o: VoteOption)
    ensures o.votes == 0 && o.vote == vote
  {
    VoteOption(id, vote, text, 0)
  }

  function VoteKey(v: Vote): int { v.id }
  function OptionKey(o: VoteOption): int { o.id }

  /** The open test of the detail page and the active list: active, and
      either no closing date or one still in the future. */
  predicate IsOpen(v: Vote, now: int) {
    v.isActive && (v.endDate.None? || v.endDate.value > now)
  }

  /** The closed guard of `VoteCastView`, written as the view does: a set
      closing date is always truthy, so it closes the vote once reached. */
  function ClosedGuard(v: Vote, now: int): (closed: bool)
    ensures closed <==> !IsOpen(v, now)
  {
    !v.isActive || (v.endDate.Some? && v.endDate.value <= now)
  }

  /** How many ballots were cast for one option. */
  function BallotCount(ballots: seq<Ballot>, option: OptionId): nat {
    if |ballots| == 0 then 0
    else (if ballots[0].option == option then 1 else 0) + BallotCount(ballots[1..], option)
  }

  lemma {:induction false} BallotCountAppend(ballots: seq<Ballot>, b: Ballot, option: OptionId)
    ensures BallotCount(ballots + [b], option) == BallotCount(ballots, option) + (if b.option == option then 1 else 0)
  {
    if |ballots| > 0 {
      assert (ballots + [b])[1..] == ballots[1..] + [b];
      BallotCountAppend(ballots[1..], b, option);
    }
  }

  predicate HasBallot(ballots: seq<Ballot>, user: UserId, vote: VoteId) {
    exists b :: b in ballots && b.user == user && b.vote == vote
  }

  /** The invariant of the vote tables: unique keys, every option in an
      existing vote, every ballot for an option of its own vote, at most one
      ballot per user and vote (`unique_together`), and every counter equal
      to the number of ballots for its option. */
  ghost predicate WellFormed(db: VoteDb) {
    && UniqueKeys(db.votes, VoteKey)
    && UniqueKeys(db.options, OptionKey)
    && OptionsInVotes(db.votes, db.options)
    && BallotsForOwnOptions(db.options, db.ballots)
    && OneBallotPerUser(db.ballots)
    && CountersMatch(db.options, db.ballots)
  }

  ghost predicate OptionsInVotes(votes: seq<Vote>, options: seq<VoteOption>) {
    forall o :: o in options ==> exists v :: v in votes && v.id == o.vote
  }

  ghost predicate BallotsForOwnOptions(options: seq<VoteOption>, ballots: seq<Ballot>) {
    forall b :: b in ballots ==> OptionOf(options, b.option, b.vote)
  }

  ghost predicate OneBallotPerUser(ballots: seq<Ballot>) {
    forall i, j :: 0 <= i < j < |ballots| ==> ballots[i].user != ballots[j].user || ballots[i].vote != ballots[j].vote
  }

  ghost predicate CountersMatch(options: seq<VoteOption>, ballots: seq<Ballot>) {
    forall o :: o in options ==> o.votes == BallotCount(ballots, o.id)
  }

  /** The empty site is well formed. */
  lemma EmptyWellFormed()
    ensures WellFormed(VoteDb([], [], []))
  {
  }

  /** Adding an option with a fresh id to an existing vote keeps the
      invariant. */
  lemma {:induction false} AddOptionWellFormed(db: VoteDb, o: VoteOption)
    requires WellFormed(db)
    requires o.votes == 0
    requires forall p :: p in db.options ==> p.id != o.id
    requires exists v :: v in db.votes && v.id == o.vote
    requires forall b :: b in db.ballots ==> b.option != o.id
    ensures WellFormed(db.(options := db.options + [o]))
  {
    BallotCountZero(db.ballots, o.id);
    var ops := db.options + [o];
    assert forall p :: p in ops ==> p in db.options || p == o;
    assert forall i :: 0 <= i < |db.options| ==> ops[i] == db.options[i];
  }

  lemma {:induction false} BallotCountZero(ballots: seq<Ballot>, option: OptionId)
    requires forall b :: b in ballots ==> b.option != option
    ensures BallotCount(ballots, option) == 0
  {
    if |ballots| > 0 {
      assert ballots[0] in ballots;
      assert forall b :: b in ballots[1..] ==> b in ballots;
      BallotCountZero(ballots[1..], option);
    }
  }

  datatype CastError = VoteNotFound | Closed | AlreadyVoted | NoOptionChosen | OptionNotFound

  /** The options table with one option's counter raised by one. */
  function Increment(options: seq<VoteOption>, option: OptionId): (r: seq<VoteOption>)
    ensures |r| == |options|
    ensures forall i :: 0 <= i < |options| ==>
      r[i] == if options[i].id == option then options[i].(votes := options[i].votes + 1) else options[i]
  {
    seq(|options|, i requires 0 <= i < |options| =>
      if options[i].id == option then options[i].(votes := options[i].votes + 1) else options[i])
  }

  /** How many rows of the options table carry the id `option`. */
  function Carrying(options: seq<VoteOption>, option: OptionId): nat {
    if |options| == 0 then 0
    else (if options[0].id == option then 1 else 0) + Carrying(options[1..], option)
  }

  /** Raising the chosen counter adds to the total of all counters exactly
      the number of rows carrying that id. */
  lemma {:induction false} IncrementTotal(options: seq<VoteOption>, option: OptionId)
    ensures Tally.Sum(Increment(options, option), OptionVotes)
      == Tally.Sum(options, OptionVotes) + Carrying(options, option)
  {
    if |options| > 0 {
      var r := Increment(options, option);
      assert r[1..] == Increment(options[1..], option);
      IncrementTotal(options[1..], option);
    }
  }

  /** With unique option ids, an id that names an option is carried by
      exactly one row. */
  lemma {:induction false} CarriedOnce(options: seq<VoteOption>, option: OptionId)
    requires UniqueKeys(options, OptionKey)
    requires exists o :: o in options && o.id == option
    ensures Carrying(options, option) == 1
  {
    var rest := options[1..];
    if options[0].id == option {
      forall o | o in rest ensures o.id != option {
        var j :| 0 <= j < |rest| && rest[j] == o;
        assert OptionKey(options[0]) != OptionKey(options[j + 1]);
      }
      NotCarried(rest, option);
    } else {
      var o :| o in options && o.id == option;
      assert o in rest;
      CarriedOnce(rest, option);
    }
  }

  lemma {:induction false} NotCarried(options: seq<VoteOption>, option: OptionId)
    requires forall o :: o in options ==> o.id != option
    ensures Carrying(options, option) == 0
  {
    if |options| > 0 {
      assert options[0] in options;
      NotCarried(options[1..], option);
    }
  }

  /** A cast raises the total of a well-formed table's counters by one. */
  lemma IncrementAddsOne(options: seq<VoteOption>, option: OptionId)
    requires UniqueKeys(options, OptionKey)
    requires exists o :: o in options && o.id == option
    ensures Tally.Sum(Increment(options, option), OptionVotes) == Tally.Sum(options, OptionVotes) + 1
  {
    IncrementTotal(options, option);
    CarriedOnce(options, option);
  }

  /** Whether `option` names an option of `vote`: the lookup
      `get_object_or_404(VoteOption, pk=option, vote=vote)`. */
  predicate OptionOf(options: seq<VoteOption>, option: OptionId, vote: VoteId) {
    exists o :: o in options && o.id == option && o.vote == vote
  }

  /** `VoteCastView.post`. The guards run in order: the vote must exist, be
      open, have no ballot of this user yet, an option must be chosen, and
      it must belong to this vote. Success records one ballot and raises
      that option's counter; a failure leaves the tables as they were. */
  function Cast(db: VoteDb, user: UserId, voteId: VoteId, option: Option<OptionId>, now: int)
    : (r: Result<VoteDb, CastError>)
    ensures Find(db.votes, VoteKey, voteId).None? ==> r == Failure(VoteNotFound)
    ensures Find(db.votes, VoteKey, voteId).Some? && !IsOpen(Find(db.votes, VoteKey, voteId).value, now)
      ==> r == Failure(Closed)
    ensures (Find(db.votes, VoteKey, voteId).Some? && IsOpen(Find(db.votes, VoteKey, voteId).value, now)
      && HasBallot(db.ballots, user, voteId)) ==> r == Failure(AlreadyVoted)
    ensures r == Failure(NoOptionChosen) <==> (Find(db.votes, VoteKey, voteId).Some?
      && IsOpen(Find(db.votes, VoteKey, voteId).value, now) && !HasBallot(db.ballots, user, voteId) && option.None?)
    ensures r == Failure(OptionNotFound) <==> (Find(db.votes, VoteKey, voteId).Some?
      && IsOpen(Find(db.votes, VoteKey, voteId).value, now) && !HasBallot(db.ballots, user, voteId)
      && option.Some? && !OptionOf(db.options, option.value, voteId))
    ensures r.Success? ==> option.Some? && OptionOf(db.options, option.value, voteId)
    ensures r.Success? ==> r.value.votes == db.votes
    ensures r.Success? ==> r.value.ballots == db.ballots + [Ballot(user, voteId, option.value)]
    ensures r.Success? ==> r.value.options == Increment(db.options, option.value)
  {
    match Find(db.votes, VoteKey, voteId)
    case None => Failure(VoteNotFound)
    case Some(v) =>
      if ClosedGuard(v, now) then Failure(Closed)
      else if HasBallot(db.ballots, user, voteId) then Failure(AlreadyVoted)
      else if option.None? then Failure(NoOptionChosen)
      else if !OptionOf(db.options, option.value, voteId) then Failure(OptionNotFound)
      else Success(db.(ballots := db.ballots + [Ballot(user, voteId, option.value)],
                       options := Increment(db.options, option.value)))
  }

  /** Raising a counter keeps every option's id and vote. */
  lemma IncrementKeepsKeys(options: seq<VoteOption>, option: OptionId)
    ensures forall i :: 0 <= i < |options| ==>
      Increment(options, option)[i].id == options[i].id && Increment(options, option)[i].vote == options[i].vote
  {
  }

  lemma {:induction false} IncrementKeepsReferences(votes: seq<Vote>, options: seq<VoteOption>, ballots: seq<Ballot>, option: OptionId)
    requires UniqueKeys(options, OptionKey) && OptionsInVotes(votes, options) && BallotsForOwnOptions(options, ballots)
    ensures UniqueKeys(Increment(options, option), OptionKey)
    ensures OptionsInVotes(votes, Increment(options, option))
    ensures BallotsForOwnOptions(Increment(options, option), ballots)
  {
    var opts := Increment(options, option);
    IncrementKeepsKeys(options, option);
    forall p | p in opts ensures exists v :: v in votes && v.id == p.vote {
      var i :| 0 <= i < |opts| && opts[i] == p;
      assert options[i] in options;
    }
    forall b | b in ballots ensures OptionOf(opts, b.option, b.vote) {
      var q :| q in options && q.id == b.option && q.vote == b.vote;
      var i :| 0 <= i < |options| && options[i] == q;
      assert opts[i] in opts;
    }
  }

  lemma {:induction false} AppendKeepsOneBallot(ballots: seq<Ballot>, b: Ballot)
    requires OneBallotPerUser(ballots)
    requires !HasBallot(ballots, b.user, b.vote)
    ensures OneBallotPerUser(ballots + [b])
  {
    var bs := ballots + [b];
    forall i, j | 0 <= i < j < |bs| ensures bs[i].user != bs[j].user || bs[i].vote != bs[j].vote {
      assert bs[i] == ballots[i] && ballots[i] in ballots;
      if j < |ballots| {
        assert bs[j] == ballots[j];
      }
    }
  }

  lemma {:induction false} AppendKeepsCounters(options: seq<VoteOption>, ballots: seq<Ballot>, b: Ballot)
    requires CountersMatch(options, ballots)
    ensures CountersMatch(Increment(options, b.option), ballots + [b])
  {
    var opts := Increment(options, b.option);
    forall p | p in opts ensures p.votes == BallotCount(ballots + [b], p.id) {
      var i :| 0 <= i < |opts| && opts[i] == p;
      assert options[i] in options;
      BallotCountAppend(ballots, b, p.id);
    }
  }

  lemma {:induction false} AppendKeepsOwnOptions(options: seq<VoteOption>, ballots: seq<Ballot>, b: Ballot)
    requires BallotsForOwnOptions(options, ballots)
    requires OptionOf(options, b.option, b.vote)
    ensures BallotsForOwnOptions(options, ballots + [b])
  {
    forall c | c in ballots + [b] ensures OptionOf(options, c.option, c.vote) {
      if c != b {
        assert c in ballots;
      }
    }
  }

  /** A successful cast keeps the invariant: in particular every counter
      still equals its number of ballots. */
  lemma {:induction false} CastPreservesWellFormed(db: VoteDb, user: UserId, voteId: VoteId, option: Option<OptionId>, now: int)
    requires WellFormed(db)
    requires Cast(db, user, voteId, option, now).Success?
    ensures WellFormed(Cast(db, user, voteId, option, now).value)
  {
    var b := Ballot(user, voteId, option.value);
    assert !HasBallot(db.ballots, user, voteId);
    AppendKeepsOwnOptions(db.options, db.ballots, b);
    IncrementKeepsReferences(db.votes, db.options, db.ballots + [b], option.value);
    AppendKeepsOneBallot(db.ballots, b);
    AppendKeepsCounters(db.options, db.ballots, b);
  }

  /** Once a user's cast succeeded, every later cast of theirs in that vote
      fails, whatever option and time it names, and never records a ballot. */
  lemma SecondCastRejected(db: VoteDb, user: UserId, voteId: VoteId, option: Option<OptionId>, now: int,
                           option2: Option<OptionId>, later: int)
    requires Cast(db, user, voteId, option, now).Success?
    ensures Cast(Cast(db, user, voteId, option, now).value, user, voteId, option2, later).Failure?
    ensures IsOpen(Find(db.votes, VoteKey, voteId).value, later)
      ==> Cast(Cast(db, user, voteId, option, now).value, user, voteId, option2, later) == Failure(AlreadyVoted)
  {
    var db' := Cast(db, user, voteId, option, now).value;
    assert db'.ballots[|db.ballots|] == Ballot(user, voteId, option.value);
    assert HasBallot(db'.ballots, user, voteId);
  }

  /** A successful cast needs an option of that vote, so a valid option id
      of another vote is refused like a missing one. */
  lemma ForeignOptionRejected(db: VoteDb, user: UserId, voteId: VoteId, o: VoteOption, now: int)
    requires UniqueKeys(db.options, OptionKey)
    requires o in db.options && o.vote != voteId
    ensures Cast(db, user, voteId, Some(o.id), now).Failure?
  {
  }

  function NewestVote(v: Vote): (int, int) { (-v.createdAt, 0) }

  /** `ActiveVoteListView`: exactly the open votes, newest first. */
  function ActiveVotes(votes: seq<Vote>, now: int): (r: seq<Vote>)
    ensures SortedBy(r, NewestVote)
    ensures forall v :: v in r <==> v in votes && IsOpen(v, now)
  {
    var r := SortBy(Filter(votes, (v: Vote) => v.isActive && (v.endDate.None? || v.endDate.value > now)), NewestVote);
    assert forall v :: v in r <==> v in multiset(r);
    r
  }

  /** A vote the active list shows (an open one, by `ActiveVotes`) accepts
      a ballot from a user who has none there yet, given an option of its
      own. */
  lemma ListedVotesAcceptBallots(db: VoteDb, user: UserId, v: Vote, o: VoteOption, now: int)
    requires UniqueKeys(db.votes, VoteKey)
    requires v in db.votes && IsOpen(v, now)
    requires o in db.options && o.vote == v.id
    requires !HasBallot(db.ballots, user, v.id)
    ensures v in ActiveVotes(db.votes, now)
    ensures Cast(db, user, v.id, Some(o.id), now).Success?
  {
    FindUnique(db.votes, VoteKey, v);
  }

  /** The two counters of `VoteListView`: active and inactive votes. */
  function ActivityCounts(votes: seq<Vote>): (r: (nat, nat))
    ensures r.0 + r.1 == |votes|
    ensures r.0 == |Filter(votes, (v: Vote) => v.isActive)|
  {
    if |votes| == 0 then (0, 0)
    else
      var rest := ActivityCounts(votes[1..]);
      assert votes == [votes[0]] + votes[1..];
      if votes[0].isActive then (rest.0 + 1, rest.1) else (rest.0, rest.1 + 1)
  }

  function MostVotes(o: VoteOption): (int, int) { (0 - o.votes as int, 0) }
  function OptionVotes(o: VoteOption): nat { o.votes }

  /** One row of the results page. */
  datatype ResultRow = ResultRow(option: VoteOption, percentage: real)

  datatype Results = Results(rows: seq<ResultRow>, total: nat)

  /** `vote.options.all()`. */
  function OptionsOf(db: VoteDb, voteId: VoteId): (r: seq<VoteOption>)
    ensures forall o :: o in r <==> o in db.options && o.vote == voteId
  {
    Filter(db.options, (o: VoteOption) => o.vote == voteId)
  }

  function RowOptions(rows: seq<ResultRow>): seq<VoteOption> {
    seq(|rows|, k requires 0 <= k < |rows| => rows[k].option)
  }

  /** The rows of the results page, each option with its share of `total`. */
  function ResultRows(ranked: seq<VoteOption>, total: nat): (r: seq<ResultRow>)
    ensures |r| == |ranked|
    ensures RowOptions(r) == ranked
    ensures forall k :: 0 <= k < |r| ==> r[k].option == ranked[k]
    ensures forall k :: 0 <= k < |r| ==> r[k].percentage == Tally.Share(ranked[k].votes, total)
  {
    seq(|ranked|, k requires 0 <= k < |ranked| => ResultRow(ranked[k], Tally.Share(ranked[k].votes, total)))
  }

  /** Sorting by `-votes` puts the counts in descending order. */
  lemma {:induction false} MostVotesDescending(ranked: seq<VoteOption>)
    requires SortedBy(ranked, MostVotes)
    ensures forall i, j :: 0 <= i < j < |ranked| ==> ranked[i].votes >= ranked[j].votes
  {
    forall i, j | 0 <= i < j < |ranked| ensures ranked[i].votes >= ranked[j].votes {
      assert LexLe(MostVotes(ranked[i]), MostVotes(ranked[j]));
    }
  }

  /** The results of one vote's options: ranked by descending count, each
      with its share of their total. */
  function Rank(mine: seq<VoteOption>): (r: Results)
    ensures forall i, j :: 0 <= i < j < |r.rows| ==> r.rows[i].option.votes >= r.rows[j].option.votes
    ensures multiset(RowOptions(r.rows)) == multiset(mine)
    ensures r.total == Tally.Sum(mine, OptionVotes)
    ensures forall k :: 0 <= k < |r.rows| ==>
      r.rows[k].percentage == Tally.Share(r.rows[k].option.votes, r.total)
  {
    var ranked := SortBy(mine, MostVotes);
    var total := Tally.Sum(ranked, OptionVotes);
    Tally.SumPermutation(ranked, mine, OptionVotes);
    MostVotesDescending(ranked);
    Results(ResultRows(ranked, total), total)
  }

  /** `VoteResultsView`: the vote's options by descending count, each with
      its share of the total in percent. The page is shown for closed votes
      too. */
  function VoteResults(db: VoteDb, voteId: VoteId): (r: Result<Results, Refusal>)
    ensures r.Failure? <==> Find(db.votes, VoteKey, voteId).None?
    ensures r.Success? ==> forall i, j :: 0 <= i < j < |r.value.rows| ==>
      r.value.rows[i].option.votes >= r.value.rows[j].option.votes
    ensures r.Success? ==> multiset(RowOptions(r.value.rows)) == multiset(OptionsOf(db, voteId))
    ensures r.Success? ==> r.value.total == Tally.Sum(OptionsOf(db, voteId), OptionVotes)
    ensures r.Success? ==> forall k :: 0 <= k < |r.value.rows| ==>
      r.value.rows[k].percentage == Tally.Share(r.value.rows[k].option.votes, r.value.total)
  {
    if Find(db.votes, VoteKey, voteId).None? then Failure(NotFound)
    else Success(Rank(OptionsOf(db, voteId)))
  }

  function Percentages(rows: seq<ResultRow>): seq<real> {
    seq(|rows|, k requires 0 <= k < |rows| => rows[k].percentage)
  }

  /** With at least one ballot counted, the percentages add up to 100. */
  lemma PercentagesSumTo100(db: VoteDb, voteId: VoteId)
    requires Find(db.votes, VoteKey, voteId).Some?
    requires Tally.Sum(OptionsOf(db, voteId), OptionVotes) > 0
    ensures VoteResults(db, voteId).Success?
    ensures Tally.SumReals(Percentages(VoteResults(db, voteId).value.rows)) == 100.0
  {
    RankSharesSumTo100(OptionsOf(db, voteId));
  }

  /** Options with at least one vote between them: the percentages of
      their ranking add up to 100. */
  lemma {:induction false} RankSharesSumTo100(mine: seq<VoteOption>)
    requires Tally.Sum(mine, OptionVotes) > 0
    ensures Tally.SumReals(Percentages(Rank(mine).rows)) == 100.0
  {
    var ranked := SortBy(mine, MostVotes);
    var res := Rank(mine);
    Tally.SumPermutation(ranked, mine, OptionVotes);
    assert res.total == Tally.Sum(ranked, OptionVotes);
    assert Percentages(res.rows) == Tally.Shares(ranked, OptionVotes, res.total);
    Tally.SharesSumTo100(ranked, OptionVotes);
  }
}

/** The vote ledger (backend/src/routes/votes.ts): casting and retracting
    today's vote for a bar, today's tally, and the caller's own votes. */
module Votes {
  import opened Seqs
  import opened Sorting
  import opened Store

  /** `WHERE user_id = $1 AND bar_id = $2 AND vote_date = $3`. */
  function Ballot(user: UserId, bar: BarId, day: Date): Vote -> bool
  {
    (v: Vote) => v.userId == user && v.barId == bar && v.voteDate == day
  }

  /** `WHERE bar_id = $1 AND vote_date = $2`. */
  function BarVotesOn(bar: BarId, day: Date): Vote -> bool
  {
    (v: Vote) => v.barId == bar && v.voteDate == day
  }

  /** `WHERE user_id = $1 AND vote_date = $2`. */
  function UserVotesOn(user: UserId, day: Date): Vote -> bool
  {
    (v: Vote) => v.userId == user && v.voteDate == day
  }

  /** Some vote of `user` for `bar` is dated `day`. */
  predicate HasVoted(votes: seq<Vote>, user: UserId, bar: BarId, day: Date)
  {
    exists v :: v in votes && v.userId == user && v.barId == bar && v.voteDate == day
  }

  /** The number of votes for `bar` dated `day`: the `COUNT` both the tally
      and the bar listing attach to a bar. */
  function CountOn(votes: seq<Vote>, bar: BarId, day: Date): (n: nat)
    ensures n <= |votes|
    ensures n == 0 <==> forall v :: v in votes ==> !(v.barId == bar && v.voteDate == day)
  {
    var found := Filter(BarVotesOn(bar, day), votes);
    assert |found| > 0 ==> found[0] in found;
    |found|
  }

  /** POST `/`: checks that the bar exists, then that the caller has not
      voted for it today, and only then inserts a vote stamped `today` with
      the next vote id. */
  function Cast(s: Store, user: UserId, bar: BarId, today: Date): (r: Reply<Vote>)
    ensures !BarExists(s.bars, bar) ==> r == Reply(s, NotFound)
    ensures BarExists(s.bars, bar) && HasVoted(s.votes, user, bar, today) ==> r == Reply(s, Conflict)
    ensures r.outcome.Ok? <==> BarExists(s.bars, bar) && !HasVoted(s.votes, user, bar, today)
    ensures !r.outcome.Ok? ==> r.store == s
    ensures r.outcome.Ok? ==>
      && r.outcome.value == Vote(s.nextVoteId, user, bar, today)
      && r.store == s.(votes := s.votes + [r.outcome.value], nextVoteId := s.nextVoteId + 1)
  {
    BarCheck(s.bars, bar);
    var existing := Filter(Ballot(user, bar, today), s.votes);
    assert |existing| > 0 ==> existing[0] in existing;
    assert HasVoted(s.votes, user, bar, today) ==>
      exists v :: v in existing by {
      if HasVoted(s.votes, user, bar, today) {
        var v :| v in s.votes && v.userId == user && v.barId == bar && v.voteDate == today;
        assert v in existing;
      }
    }
    if |Filter(BarWithId(bar), s.bars)| == 0 then Reply(s, NotFound)
    else if |existing| > 0 then Reply(s, Conflict)
    else
      var vote := Vote(s.nextVoteId, user, bar, today);
      Reply(s.(votes := s.votes + [vote], nextVoteId := s.nextVoteId + 1), Ok(vote))
  }

  /** DELETE `/:barId`: deletes every vote of the caller for that bar dated
      today and answers with the deleted rows; NotFound when there were none. */
  function Retract(s: Store, user: UserId, bar: BarId, today: Date): (r: Reply<seq<Vote>>)
    ensures r.outcome.Ok? <==> HasVoted(s.votes, user, bar, today)
    ensures !r.outcome.Ok? ==> r == Reply(s, NotFound)
    ensures r.outcome.Ok? ==>
      && r.store == s.(votes := r.store.votes)
      && multiset(r.store.votes) + multiset(r.outcome.value) == multiset(s.votes)
      && (forall v :: v in r.outcome.value ==> v.userId == user && v.barId == bar && v.voteDate == today)
      && !HasVoted(r.store.votes, user, bar, today)
      && (forall v: Vote :: !(v.userId == user && v.barId == bar && v.voteDate == today) ==>
            multiset(r.store.votes)[v] == multiset(s.votes)[v])
  {
    var gone := Filter(Ballot(user, bar, today), s.votes);
    assert |gone| > 0 ==> gone[0] in gone;
    assert HasVoted(s.votes, user, bar, today) ==> |gone| > 0 by {
      if HasVoted(s.votes, user, bar, today) {
        var v :| v in s.votes && v.userId == user && v.barId == bar && v.voteDate == today;
        assert v in gone;
      }
    }
    if |gone| == 0 then Reply(s, NotFound)
    else
      var kept := Filter(Not(Ballot(user, bar, today)), s.votes);
      FilterSplit(Ballot(user, bar, today), s.votes);
      assert forall v :: v in kept ==> !Ballot(user, bar, today)(v);
      Reply(s.(votes := kept), Ok(gone))
  }

  /** One row of GET `/current`. */
  datatype TallyRow = TallyRow(
    barId: BarId,
    barName: string,
    voteCount: nat,
    voters: multiset<UserId>)

  /** The voters of a list of votes (`ARRAY_AGG`, order ignored). */
  function Voters(vs: seq<Vote>): (m: multiset<UserId>)
    ensures |m| == |vs|
    ensures forall u :: u in m <==> exists v :: v in vs && v.userId == u
  {
    if |vs| == 0 then multiset{}
    else
      var rest := Voters(vs[1..]);
      assert vs == [vs[0]] + vs[1..];
      assert forall v :: v in vs[1..] ==> v in vs;
      multiset{vs[0].userId} + rest
  }

  /** The group a bar forms with its votes dated `day`. */
  function Group(b: Bar, votes: seq<Vote>, day: Date): TallyRow
  {
    var own := Filter(BarVotesOn(b.id, day), votes);
    TallyRow(b.id, b.name, |own|, Voters(own))
  }

  /** The groups with at least one vote, in table order (`HAVING COUNT > 0`). */
  function Groups(bars: seq<Bar>, votes: seq<Vote>, day: Date): (r: seq<TallyRow>)
    ensures forall e :: e in r <==>
      exists b :: b in bars && CountOn(votes, b.id, day) > 0 && e == Group(b, votes, day)
  {
    if |bars| == 0 then []
    else
      var rest := Groups(bars[1..], votes, day);
      assert bars == [bars[0]] + bars[1..];
      assert forall b :: b in bars <==> b == bars[0] || b in bars[1..];
      if CountOn(votes, bars[0].id, day) > 0 then [Group(bars[0], votes, day)] + rest else rest
  }

  /** `ORDER BY vote_count DESC, b.name`. */
  predicate TallyLe(a: TallyRow, b: TallyRow)
  {
    a.voteCount > b.voteCount || (a.voteCount == b.voteCount && NameLe(a.barName, b.barName))
  }

  lemma TallyOrder()
    ensures TotalPreorder(TallyLe)
  {
    forall a, b
      ensures TallyLe(a, b) || TallyLe(b, a)
    {
      NameLeTotal(a.barName, b.barName);
    }
    forall a, b, c | TallyLe(a, b) && TallyLe(b, c)
      ensures TallyLe(a, c)
    {
      if a.voteCount == b.voteCount && b.voteCount == c.voteCount {
        NameLeTransitive(a.barName, b.barName, c.barName);
      }
    }
  }

  /** GET `/current`: every bar with votes today, with its count and voters,
      most votes first and ties by name; bars without votes today are left
      out. */
  function Tally(s: Store, today: Date): (r: seq<TallyRow>)
    ensures SortedBy(TallyLe, r)
    ensures multiset(r) == multiset(Groups(s.bars, s.votes, today))
    ensures forall e :: e in r ==>
      && e.voteCount > 0
      && e.voteCount == CountOn(s.votes, e.barId, today)
      && (exists b :: b in s.bars && b.id == e.barId && b.name == e.barName)
      && (forall u :: u in e.voters <==>
            exists v :: v in s.votes && v.barId == e.barId && v.voteDate == today && v.userId == u)
    ensures forall b :: b in s.bars ==>
      (CountOn(s.votes, b.id, today) > 0 <==> exists e :: e in r && e.barId == b.id)
  {
    TallyOrder();
    var groups := Groups(s.bars, s.votes, today);
    var r := InsertionSort(TallyLe, groups);
    assert forall e :: e in r <==> e in groups by {
      forall e
        ensures e in r <==> e in groups
      {
        assert e in r <==> e in multiset(r);
        assert e in groups <==> e in multiset(groups);
      }
    }
    forall b | b in s.bars && CountOn(s.votes, b.id, today) > 0
      ensures Group(b, s.votes, today) in r
    {
    }
    r
  }

  /** One row of GET `/my-votes`: the vote and the name of its bar. */
  datatype MyVote = MyVote(vote: Vote, barName: string)

  /** Some bar row has this id and this name. */
  predicate BarNamed(bars: seq<Bar>, id: BarId, name: string)
  {
    exists b :: b in bars && b.id == id && b.name == name
  }

  /** `JOIN bars b ON v.bar_id = b.id` for one vote. */
  function JoinBar(v: Vote, bars: seq<Bar>): (r: seq<MyVote>)
    ensures forall m :: m in r <==> m.vote == v && BarNamed(bars, v.barId, m.barName)
  {
    if |bars| == 0 then []
    else
      var rest := JoinBar(v, bars[1..]);
      assert bars == [bars[0]] + bars[1..];
      assert forall b :: b in bars <==> b == bars[0] || b in bars[1..];
      if bars[0].id == v.barId then [MyVote(v, bars[0].name)] + rest else rest
  }

  /** With unique bar ids a vote joins with at most one bar, so it yields
      exactly one row when its bar exists and none otherwise. */
  lemma {:induction false} JoinBarCount(v: Vote, bars: seq<Bar>)
    requires KeysDistinct(BarKey(), bars)
    ensures forall m ::
      multiset(JoinBar(v, bars))[m] ==
        if m.vote == v && BarNamed(bars, v.barId, m.barName) then 1 else 0
  {
    if |bars| > 0 {
      var rest := JoinBar(v, bars[1..]);
      KeysDistinctTail(BarKey(), bars);
      JoinBarCount(v, bars[1..]);
      assert bars == [bars[0]] + bars[1..];
      assert forall b :: b in bars <==> b == bars[0] || b in bars[1..];
      if bars[0].id == v.barId {
        assert forall b :: b in bars[1..] ==> b.id != v.barId;
        assert forall n: string :: BarNamed(bars, v.barId, n) <==> n == bars[0].name;
        assert forall m :: multiset(rest)[m] == 0;
      }
    }
  }

  /** The join of a list of votes with the bars they name. */
  function JoinBars(vs: seq<Vote>, bars: seq<Bar>): (r: seq<MyVote>)
    ensures forall m :: m in r <==> m.vote in vs && BarNamed(bars, m.vote.barId, m.barName)
  {
    if |vs| == 0 then []
    else
      assert vs == [vs[0]] + vs[1..];
      JoinBar(vs[0], bars) + JoinBars(vs[1..], bars)
  }

  /** With unique bar ids the join lists every vote whose bar exists as
      often as the vote occurs, paired with that bar's name. */
  lemma {:induction false} JoinBarsCount(vs: seq<Vote>, bars: seq<Bar>)
    requires KeysDistinct(BarKey(), bars)
    ensures forall m ::
      multiset(JoinBars(vs, bars))[m] ==
        if BarNamed(bars, m.vote.barId, m.barName) then multiset(vs)[m.vote] else 0
  {
    if |vs| > 0 {
      JoinBarCount(vs[0], bars);
      JoinBarsCount(vs[1..], bars);
      assert vs == [vs[0]] + vs[1..];
      assert multiset(vs) == multiset([vs[0]]) + multiset(vs[1..]);
    }
  }

  /** The multiplicity half of `MyVotes`, which holds whenever bar ids are
      unique. */
  lemma MyVotesCount(s: Store, user: UserId, today: Date)
    ensures KeysDistinct(BarKey(), s.bars) ==>
      forall m :: multiset(JoinBars(Filter(UserVotesOn(user, today), s.votes), s.bars))[m] ==
        if m.vote.userId == user && m.vote.voteDate == today && BarNamed(s.bars, m.vote.barId, m.barName)
        then multiset(s.votes)[m.vote]
        else 0
  {
    if KeysDistinct(BarKey(), s.bars) {
      JoinBarsCount(Filter(UserVotesOn(user, today), s.votes), s.bars);
    }
  }

  /** GET `/my-votes`: the caller's votes dated today whose bar still
      exists, each with that bar's name; with unique bar ids, each such
      vote exactly as often as it is stored. */
  function MyVotes(s: Store, user: UserId, today: Date): (r: seq<MyVote>)
    ensures forall m :: m in r <==>
      && m.vote in s.votes
      && m.vote.userId == user
      && m.vote.voteDate == today
      && BarNamed(s.bars, m.vote.barId, m.barName)
    ensures KeysDistinct(BarKey(), s.bars) ==>
      forall m :: multiset(r)[m] ==
        if m.vote.userId == user && m.vote.voteDate == today && BarNamed(s.bars, m.vote.barId, m.barName)
        then multiset(s.votes)[m.vote]
        else 0
  {
    MyVotesCount(s, user, today);
    JoinBars(Filter(UserVotesOn(user, today), s.votes), s.bars)
  }

  /** A cast keeps the store invariant; in particular the new vote is the
      only one for its (user, bar, day). */
  lemma CastPreservesValid(s: Store, user: UserId, bar: BarId, today: Date)
    requires Valid(s)
    ensures Valid(Cast(s, user, bar, today).store)
  {
    var r := Cast(s, user, bar, today);
    if r.outcome.Ok? {
      var nv := r.outcome.value;
      var b :| b in s.bars && b.id == bar;
      KeysDistinctAppend(VoteKey(), s.votes, nv);
      KeysDistinctAppend(BallotKey(), s.votes, nv);
    }
  }

  /** A retract keeps the store invariant. */
  lemma RetractPreservesValid(s: Store, user: UserId, bar: BarId, today: Date)
    requires Valid(s)
    ensures Valid(Retract(s, user, bar, today).store)
  {
    var r := Retract(s, user, bar, today);
    if r.outcome.Ok? {
      var p := Not(Ballot(user, bar, today));
      assert r.store.votes == Filter(p, s.votes);
      KeysDistinctFilter(VoteKey(), p, s.votes);
      KeysDistinctFilter(BallotKey(), p, s.votes);
    }
  }

  /** Casting the same vote twice on one day: the second cast is a Conflict
      and leaves the store as the first cast left it. */
  lemma CastTwiceConflicts(s: Store, user: UserId, bar: BarId, today: Date)
    requires Cast(s, user, bar, today).outcome.Ok?
    ensures var s1 := Cast(s, user, bar, today).store;
      Cast(s1, user, bar, today) == Reply(s1, Conflict)
  {
    var r := Cast(s, user, bar, today);
    var nv := r.outcome.value;
    assert nv in r.store.votes;
    var b :| b in s.bars && b.id == bar;
    assert b in r.store.bars;
  }

  /** Retract undoes a successful cast: it deletes exactly the vote the cast
      inserted and restores the votes table. */
  lemma CastThenRetract(s: Store, user: UserId, bar: BarId, today: Date)
    requires Cast(s, user, bar, today).outcome.Ok?
    ensures var c := Cast(s, user, bar, today);
      var d := Retract(c.store, user, bar, today);
      && d.outcome == Ok([c.outcome.value])
      && d.store == s.(nextVoteId := s.nextVoteId + 1)
  {
    var c := Cast(s, user, bar, today);
    FilterAppended(Ballot(user, bar, today), s.votes, c.outcome.value);
  }

  /** A successful cast adds one to the count of its bar for today and
      leaves every other (bar, day) count as it was. */
  lemma CastCountsOnce(s: Store, user: UserId, bar: BarId, today: Date)
    requires Cast(s, user, bar, today).outcome.Ok?
    ensures var after := Cast(s, user, bar, today).store.votes;
      && CountOn(after, bar, today) == CountOn(s.votes, bar, today) + 1
      && forall b, d :: (b, d) != (bar, today) ==> CountOn(after, b, d) == CountOn(s.votes, b, d)
  {
    var c := Cast(s, user, bar, today);
    var nv := c.outcome.value;
    assert [nv][1..] == [];
    FilterAppend(BarVotesOn(bar, today), s.votes, [nv]);
    forall b, d | (b, d) != (bar, today)
      ensures CountOn(c.store.votes, b, d) == CountOn(s.votes, b, d)
    {
      FilterAppend(BarVotesOn(b, d), s.votes, [nv]);
    }
  }

  /** A tally row names an existing bar with votes today. */
  lemma TallyRowHasVotes(s: Store, bar: BarId, today: Date)
    requires exists e :: e in Tally(s, today) && e.barId == bar
    ensures BarExists(s.bars, bar) && CountOn(s.votes, bar, today) > 0
  {
    var e :| e in Tally(s, today) && e.barId == bar;
    var b :| b in s.bars && b.id == e.barId && b.name == e.barName;
  }

  /** An existing bar with votes today has a tally row. */
  lemma TallyListsVotedBar(s: Store, b: Bar, today: Date)
    requires b in s.bars && CountOn(s.votes, b.id, today) > 0
    ensures exists e :: e in Tally(s, today) && e.barId == b.id
  {
    var r := Tally(s, today);
    assert CountOn(s.votes, b.id, today) > 0 <==> exists e :: e in r && e.barId == b.id;
  }

  /** The tally has a row for an id exactly when a bar with that id exists
      and has votes today. */
  lemma TallyHasBar(s: Store, bar: BarId, today: Date)
    ensures (exists e :: e in Tally(s, today) && e.barId == bar) <==>
      BarExists(s.bars, bar) && CountOn(s.votes, bar, today) > 0
  {
    if exists e :: e in Tally(s, today) && e.barId == bar {
      TallyRowHasVotes(s, bar, today);
    }
    if BarExists(s.bars, bar) && CountOn(s.votes, bar, today) > 0 {
      var b :| b in s.bars && b.id == bar;
      TallyListsVotedBar(s, b, today);
    }
  }

  /** Cast, then retract: a bar whose only vote today was that one drops out
      of the tally again. */
  lemma CastRetractLeavesTally(s: Store, user: UserId, bar: BarId, today: Date)
    requires Cast(s, user, bar, today).outcome.Ok?
    requires CountOn(s.votes, bar, today) == 0
    ensures var c := Cast(s, user, bar, today);
      var d := Retract(c.store, user, bar, today);
      && (exists e :: e in Tally(c.store, today) && e.barId == bar)
      && forall e :: e in Tally(d.store, today) ==> e.barId != bar
  {
    var c := Cast(s, user, bar, today);
    CastCountsOnce(s, user, bar, today);
    CastThenRetract(s, user, bar, today);
    var d := Retract(c.store, user, bar, today);
    assert c.store.bars == s.bars;
    TallyHasBar(c.store, bar, today);
    assert d.store.votes == s.votes;
    TallyHasBar(d.store, bar, today);
  }

  /** The caller sees a successful cast in their own votes for today, with
      the bar's name; after retracting it, no vote of theirs for that bar
      is listed. */
  lemma MyVotesFollowCastAndRetract(s: Store, user: UserId, bar: BarId, today: Date)
    requires Cast(s, user, bar, today).outcome.Ok?
    ensures var c := Cast(s, user, bar, today);
      var d := Retract(c.store, user, bar, today);
      && (exists m :: m in MyVotes(c.store, user, today) && m.vote == c.outcome.value)
      && forall m :: m in MyVotes(d.store, user, today) ==> m.vote.barId != bar
  {
    var c := Cast(s, user, bar, today);
    var b :| b in s.bars && b.id == bar;
    assert b in c.store.bars;
    assert MyVote(c.outcome.value, b.name) in MyVotes(c.store, user, today);
  }
}

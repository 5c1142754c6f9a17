/** What a bar deletion leaves behind. The DELETE of a bar removes only the
    bar row; its votes and visits stay in their tables, and every read path
    hides them because it joins with `bars`. */
module Orphans {
  import opened Store
  import Votes
  import Visits
  import Bars

  /** After a bar is deleted its votes and visits are still stored, but the
      tally, the caller's votes, both visit listings and the lookup by id no
      longer show anything of it. */
  lemma DeletedBarIsHidden(
    s: Store, id: int, user: UserId, today: Date, start: Option<Date>, end: Option<Date>)
    requires Bars.Delete(s, id).outcome.Ok?
    ensures var after := Bars.Delete(s, id).store;
      && after.votes == s.votes
      && after.visits == s.visits
      && (forall e :: e in Votes.Tally(after, today) ==> e.barId != id)
      && (forall m :: m in Votes.MyVotes(after, user, today) ==> m.vote.barId != id)
      && (forall v :: v in Visits.ListAll(after) ==> v.barId != id)
      && (forall v :: v in Visits.ListByRange(after, start, end) ==> v.barId != id)
      && Bars.Get(after, id, today) == NotFound
  {
    var after := Bars.Delete(s, id).store;
    assert !BarExists(after.bars, id);
    forall e | e in Votes.Tally(after, today)
      ensures e.barId != id
    {
      var b :| b in after.bars && b.id == e.barId && b.name == e.barName;
    }
    forall m | m in Votes.MyVotes(after, user, today)
      ensures m.vote.barId != id
    {
      var b :| b in after.bars && b.id == m.vote.barId && b.name == m.barName;
    }
  }
}

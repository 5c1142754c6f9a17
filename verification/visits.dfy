/** The visit ledger (backend/src/routes/visits.ts): recording one visit per
    bar and day, editing its notes, deleting it, and the two calendar
    listings. */
module Visits {
  import opened Seqs
  import opened Sorting
  import opened Store

  /** `WHERE id = $1` on visits. */
  function VisitWithId(id: int): Visit -> bool
  {
    (v: Visit) => v.id == id
  }

  /** `WHERE bar_id = $1 AND visit_date = $2`. */
  function VisitOn(bar: BarId, day: Date): Visit -> bool
  {
    (v: Visit) => v.barId == bar && v.visitDate == day
  }

  /** `JOIN bars b ON v.bar_id = b.id`, as a row filter. */
  function OnExistingBar(bars: seq<Bar>): Visit -> bool
  {
    (v: Visit) => BarExists(bars, v.barId)
  }

  /** `WHERE v.visit_date BETWEEN $1 AND $2`; a missing bound is SQL NULL,
      and a comparison with NULL keeps no row. */
  function InRange(start: Option<Date>, end: Option<Date>): Visit -> bool
  {
    (v: Visit) => Between(start, end, v.visitDate)
  }

  /** `day BETWEEN start AND end`, both bounds included. */
  predicate Between(start: Option<Date>, end: Option<Date>, day: Date)
  {
    start.Some? && end.Some? && start.value <= day <= end.value
  }

  /** Some visit of `bar` is dated `day`. */
  predicate HasVisit(visits: seq<Visit>, bar: BarId, day: Date)
  {
    exists v :: v in visits && v.barId == bar && v.visitDate == day
  }

  /** Some visit has this id. */
  predicate Recorded(visits: seq<Visit>, id: int)
  {
    exists v :: v in visits && v.id == id
  }

  /** POST `/`: checks that the bar exists, then that no visit of that bar
      is recorded for that date, and only then inserts the visit with the
      caller as its creator. The date is the caller's, not today. */
  function Record(s: Store, bar: BarId, visitDate: Date, notes: Option<string>, caller: UserId)
    : (r: Reply<Visit>)
    ensures !BarExists(s.bars, bar) ==> r == Reply(s, NotFound)
    ensures BarExists(s.bars, bar) && HasVisit(s.visits, bar, visitDate) ==> r == Reply(s, Conflict)
    ensures r.outcome.Ok? <==> BarExists(s.bars, bar) && !HasVisit(s.visits, bar, visitDate)
    ensures !r.outcome.Ok? ==> r.store == s
    ensures r.outcome.Ok? ==>
      && r.outcome.value == Visit(s.nextVisitId, bar, visitDate, notes, caller)
      && r.store == s.(visits := s.visits + [r.outcome.value], nextVisitId := s.nextVisitId + 1)
  {
    BarCheck(s.bars, bar);
    var existing := Filter(VisitOn(bar, visitDate), s.visits);
    assert |existing| > 0 ==> existing[0] in existing;
    assert HasVisit(s.visits, bar, visitDate) ==> |existing| > 0 by {
      if HasVisit(s.visits, bar, visitDate) {
        var v :| v in s.visits && v.barId == bar && v.visitDate == visitDate;
        assert v in existing;
      }
    }
    if |Filter(BarWithId(bar), s.bars)| == 0 then Reply(s, NotFound)
    else if |existing| > 0 then Reply(s, Conflict)
    else
      var visit := Visit(s.nextVisitId, bar, visitDate, notes, caller);
      Reply(s.(visits := s.visits + [visit], nextVisitId := s.nextVisitId + 1), Ok(visit))
  }

  /** The visits table after `UPDATE visits SET notes = $1 WHERE id = $2`. */
  function SetNotes(visits: seq<Visit>, id: int, notes: Option<string>): (r: seq<Visit>)
    ensures |r| == |visits|
    ensures forall i :: 0 <= i < |visits| ==>
      && r[i].(notes := visits[i].notes) == visits[i]
      && (visits[i].id == id ==> r[i].notes == notes)
      && (visits[i].id != id ==> r[i] == visits[i])
  {
    seq(|visits|, i requires 0 <= i < |visits| =>
      if visits[i].id == id then visits[i].(notes := notes) else visits[i])
  }

  /** PUT `/:id`: replaces the notes of the visit with that id and answers
      with the updated row; every other field and row stays as it was. */
  function UpdateNotes(s: Store, id: int, notes: Option<string>): (r: Reply<Visit>)
    ensures r.outcome.Ok? <==> Recorded(s.visits, id)
    ensures !r.outcome.Ok? ==> r == Reply(s, NotFound)
    ensures r.outcome.Ok? ==>
      && r.store == s.(visits := SetNotes(s.visits, id, notes))
      && r.outcome.value in r.store.visits
      && exists w :: w in s.visits && w.id == id && r.outcome.value == w.(notes := notes)
  {
    var updated := SetNotes(s.visits, id, notes);
    var hits := Filter(VisitWithId(id), updated);
    assert |hits| > 0 ==> hits[0] in hits;
    assert Recorded(s.visits, id) ==> |hits| > 0 by {
      if Recorded(s.visits, id) {
        var i :| 0 <= i < |s.visits| && s.visits[i].id == id;
        assert updated[i] in hits;
      }
    }
    if |hits| == 0 then Reply(s, NotFound)
    else
      var k :| 0 <= k < |updated| && updated[k] == hits[0];
      assert s.visits[k].id == id;
      Reply(s.(visits := updated), Ok(hits[0]))
  }

  /** DELETE `/:id`: deletes the visit with that id and answers with the
      deleted rows; NotFound when there was none. */
  function Delete(s: Store, id: int): (r: Reply<seq<Visit>>)
    ensures r.outcome.Ok? <==> Recorded(s.visits, id)
    ensures !r.outcome.Ok? ==> r == Reply(s, NotFound)
    ensures r.outcome.Ok? ==>
      && r.store == s.(visits := r.store.visits)
      && multiset(r.store.visits) + multiset(r.outcome.value) == multiset(s.visits)
      && (forall v :: v in r.outcome.value ==> v.id == id)
      && !Recorded(r.store.visits, id)
  {
    var gone := Filter(VisitWithId(id), s.visits);
    assert |gone| > 0 ==> gone[0] in gone;
    assert Recorded(s.visits, id) ==> |gone| > 0 by {
      if Recorded(s.visits, id) {
        var v :| v in s.visits && v.id == id;
        assert v in gone;
      }
    }
    if |gone| == 0 then Reply(s, NotFound)
    else
      var kept := Filter(Not(VisitWithId(id)), s.visits);
      FilterSplit(VisitWithId(id), s.visits);
      assert forall v :: v in kept ==> !VisitWithId(id)(v);
      Reply(s.(visits := kept), Ok(gone))
  }

  /** `ORDER BY v.visit_date DESC`. */
  predicate DateDesc(a: Visit, b: Visit)
  {
    a.visitDate >= b.visitDate
  }

  lemma DateDescOrder()
    ensures TotalPreorder(DateDesc)
  {
  }

  /** GET `/`: the visits whose bar still exists, latest date first. */
  function ListAll(s: Store): (r: seq<Visit>)
    ensures SortedBy(DateDesc, r)
    ensures forall v ::
      multiset(r)[v] == if BarExists(s.bars, v.barId) then multiset(s.visits)[v] else 0
    ensures forall v :: v in r <==> v in s.visits && BarExists(s.bars, v.barId)
  {
    DateDescOrder();
    var joined := Filter(OnExistingBar(s.bars), s.visits);
    var r := InsertionSort(DateDesc, joined);
    assert forall v :: v in r <==> v in multiset(r);
    assert forall v :: v in joined <==> v in multiset(joined);
    r
  }

  /** GET `/range`: the visits whose bar still exists and whose date lies
      between `start` and `end`, both included, latest date first. A missing
      bound or an inverted range gives no rows. */
  function ListByRange(s: Store, start: Option<Date>, end: Option<Date>): (r: seq<Visit>)
    ensures SortedBy(DateDesc, r)
    ensures forall v ::
      multiset(r)[v] ==
        if BarExists(s.bars, v.barId) && Between(start, end, v.visitDate)
        then multiset(s.visits)[v] else 0
    ensures forall v :: v in r <==>
      v in s.visits && BarExists(s.bars, v.barId) && Between(start, end, v.visitDate)
    ensures start.None? || end.None? || start.value > end.value ==> r == []
  {
    DateDescOrder();
    var joined := Filter(OnExistingBar(s.bars), s.visits);
    var picked := Filter(InRange(start, end), joined);
    var r := InsertionSort(DateDesc, picked);
    forall v
      ensures multiset(r)[v] ==
        (if BarExists(s.bars, v.barId) && Between(start, end, v.visitDate)
         then multiset(s.visits)[v] else 0)
    {
      assert InRange(start, end)(v) == Between(start, end, v.visitDate);
      assert OnExistingBar(s.bars)(v) == BarExists(s.bars, v.barId);
    }
    assert forall v :: v in r <==> v in multiset(r);
    assert |r| > 0 ==> r[0] in r;
    r
  }

  /** Recording keeps the store invariant; in particular the new visit is
      the only one of its bar on its date. */
  lemma RecordPreservesValid(s: Store, bar: BarId, visitDate: Date, notes: Option<string>, caller: UserId)
    requires Valid(s)
    ensures Valid(Record(s, bar, visitDate, notes, caller).store)
  {
    var r := Record(s, bar, visitDate, notes, caller);
    if r.outcome.Ok? {
      var nv := r.outcome.value;
      var b :| b in s.bars && b.id == bar;
      KeysDistinctAppend(VisitKey(), s.visits, nv);
      KeysDistinctAppend(VisitDayKey(), s.visits, nv);
    }
  }

  /** Editing notes keeps the store invariant: no key of a visit changes. */
  lemma UpdateNotesPreservesValid(s: Store, id: int, notes: Option<string>)
    requires Valid(s)
    ensures Valid(UpdateNotes(s, id, notes).store)
  {
    var r := UpdateNotes(s, id, notes);
    if r.outcome.Ok? {
      var after := SetNotes(s.visits, id, notes);
      assert r.store.visits == after;
      KeysDistinctSameKeys(VisitKey(), s.visits, after);
      KeysDistinctSameKeys(VisitDayKey(), s.visits, after);
      forall v | v in after
        ensures v.id < s.nextVisitId && v.barId < s.nextBarId
      {
        var i :| 0 <= i < |after| && after[i] == v;
        assert s.visits[i] in s.visits;
      }
    }
  }

  /** Deleting a visit keeps the store invariant. */
  lemma DeletePreservesValid(s: Store, id: int)
    requires Valid(s)
    ensures Valid(Delete(s, id).store)
  {
    var r := Delete(s, id);
    if r.outcome.Ok? {
      var p := Not(VisitWithId(id));
      assert r.store.visits == Filter(p, s.visits);
      KeysDistinctFilter(VisitKey(), p, s.visits);
      KeysDistinctFilter(VisitDayKey(), p, s.visits);
    }
  }

  /** Recording the same bar and date twice: the second is a Conflict and
      the stored visit stays as the first call left it. */
  lemma RecordTwiceConflicts(
    s: Store, bar: BarId, visitDate: Date, notes: Option<string>, caller: UserId,
    notes': Option<string>, caller': UserId)
    requires Record(s, bar, visitDate, notes, caller).outcome.Ok?
    ensures var s1 := Record(s, bar, visitDate, notes, caller).store;
      Record(s1, bar, visitDate, notes', caller') == Reply(s1, Conflict)
  {
    var r := Record(s, bar, visitDate, notes, caller);
    assert r.outcome.value in r.store.visits;
    var b :| b in s.bars && b.id == bar;
    assert b in r.store.bars;
  }

  /** Deleting the visit a successful record created restores the visits
      table, and deletes exactly that one row. */
  lemma RecordThenDelete(s: Store, bar: BarId, visitDate: Date, notes: Option<string>, caller: UserId)
    requires Valid(s)
    requires Record(s, bar, visitDate, notes, caller).outcome.Ok?
    ensures var c := Record(s, bar, visitDate, notes, caller);
      Delete(c.store, c.outcome.value.id) ==
        Reply(s.(nextVisitId := s.nextVisitId + 1), Ok([c.outcome.value]))
  {
    var c := Record(s, bar, visitDate, notes, caller);
    var nv := c.outcome.value;
    assert c.store.visits == s.visits + [nv];
    FilterAppended(VisitWithId(nv.id), s.visits, nv);
  }

  /** A freshly recorded visit shows in the full listing and in the range
      that is just its own date. */
  lemma RecordIsListed(s: Store, bar: BarId, visitDate: Date, notes: Option<string>, caller: UserId)
    requires Record(s, bar, visitDate, notes, caller).outcome.Ok?
    ensures var c := Record(s, bar, visitDate, notes, caller);
      && c.outcome.value in ListAll(c.store)
      && c.outcome.value in ListByRange(c.store, Some(visitDate), Some(visitDate))
  {
    var c := Record(s, bar, visitDate, notes, caller);
    var b :| b in s.bars && b.id == bar;
    assert b in c.store.bars;
    assert c.outcome.value in c.store.visits;
  }

  /** The range listing holds the same rows as the full listing cut down to
      the range: both queries agree on every visit. */
  lemma RangeWithinAll(s: Store, start: Option<Date>, end: Option<Date>)
    ensures multiset(ListByRange(s, start, end)) == multiset(Filter(InRange(start, end), ListAll(s)))
  {
    var a := ListByRange(s, start, end);
    var b := Filter(InRange(start, end), ListAll(s));
    forall v
      ensures multiset(a)[v] == multiset(b)[v]
    {
      assert InRange(start, end)(v) == Between(start, end, v.visitDate);
    }
  }
}

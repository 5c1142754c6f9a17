/** The bar registry (backend/src/routes/bars.ts): create, read, update and
    delete bars by id, the name-length rule of the request schema, and the
    listing that attaches today's vote count to every bar. */
module Bars {
  import opened Seqs
  import opened Sorting
  import opened Store
  import opened Votes

  /** `barSchema`: the name is a string of 1 to 255 characters. */
  predicate ValidName(name: string)
  {
    MinNameLength <= |name| <= MaxNameLength
  }

  /** A bar row with its `current_votes` column. */
  datatype BarView = BarView(bar: Bar, currentVotes: nat)

  /** `LEFT JOIN` of a bar with today's per-bar vote counts, with
      `COALESCE(vote_count, 0)` for a bar without votes. */
  function View(b: Bar, votes: seq<Vote>, today: Date): BarView
  {
    BarView(b, CountOn(votes, b.id, today))
  }

  /** The bars with their counts: each bar occurs once per stored row,
      paired with its count for today, and no other row occurs. */
  function Views(bars: seq<Bar>, votes: seq<Vote>, today: Date): (r: seq<BarView>)
    ensures |r| == |bars|
    ensures forall v ::
      multiset(r)[v] ==
        if v.currentVotes == CountOn(votes, v.bar.id, today) then multiset(bars)[v.bar] else 0
  {
    if |bars| == 0 then []
    else
      assert bars == [bars[0]] + bars[1..];
      [View(bars[0], votes, today)] + Views(bars[1..], votes, today)
  }

  /** `ORDER BY b.name`. */
  predicate ByName(a: BarView, b: BarView)
  {
    NameLe(a.bar.name, b.bar.name)
  }

  lemma ByNameOrder()
    ensures TotalPreorder(ByName)
  {
    forall a, b
      ensures ByName(a, b) || ByName(b, a)
    {
      NameLeTotal(a.bar.name, b.bar.name);
    }
    forall a, b, c | ByName(a, b) && ByName(b, c)
      ensures ByName(a, c)
    {
      NameLeTransitive(a.bar.name, b.bar.name, c.bar.name);
    }
  }

  /** GET `/`: every bar, each with the number of its votes dated today
      (0 when it has none), ordered by name. */
  function List(s: Store, today: Date): (r: seq<BarView>)
    ensures SortedBy(ByName, r)
    ensures |r| == |s.bars|
    ensures forall v ::
      multiset(r)[v] ==
        if v.currentVotes == CountOn(s.votes, v.bar.id, today) then multiset(s.bars)[v.bar] else 0
    ensures forall v :: v in r ==>
      && v.bar in s.bars
      && v.currentVotes == CountOn(s.votes, v.bar.id, today)
    ensures forall b :: b in s.bars ==> BarView(b, CountOn(s.votes, b.id, today)) in r
  {
    ByNameOrder();
    var r := InsertionSort(ByName, Views(s.bars, s.votes, today));
    assert forall v :: v in r <==> v in multiset(r);
    assert forall b :: b in s.bars <==> b in multiset(s.bars);
    assert forall b :: b in s.bars ==> multiset(r)[BarView(b, CountOn(s.votes, b.id, today))] > 0;
    r
  }

  /** GET `/:id`: the bar with that id and its count for today, or
      NotFound. */
  function Get(s: Store, id: int, today: Date): (r: Outcome<BarView>)
    ensures r.Ok? <==> BarExists(s.bars, id)
    ensures !r.Ok? ==> r == NotFound
    ensures r.Ok? ==>
      && r.value.bar in s.bars
      && r.value.bar.id == id
      && r.value.currentVotes == CountOn(s.votes, id, today)
  {
    BarCheck(s.bars, id);
    var found := Filter(BarWithId(id), s.bars);
    if |found| == 0 then NotFound
    else
      assert found[0] in found;
      Ok(View(found[0], s.votes, today))
  }

  /** POST `/`: validates the name, then inserts the bar with the next bar
      id and the caller as its creator. */
  function Create(
    s: Store, name: string, address: Option<string>, description: Option<string>, caller: UserId)
    : (r: Reply<Bar>)
    ensures !ValidName(name) ==> r == Reply(s, Invalid)
    ensures r.outcome.Ok? <==> ValidName(name)
    ensures r.outcome.Ok? ==>
      && r.outcome.value == Bar(s.nextBarId, name, address, description, caller)
      && r.store == s.(bars := s.bars + [r.outcome.value], nextBarId := s.nextBarId + 1)
  {
    if !(MinNameLength <= |name| <= MaxNameLength) then Reply(s, Invalid)
    else
      var bar := Bar(s.nextBarId, name, address, description, caller);
      Reply(s.(bars := s.bars + [bar], nextBarId := s.nextBarId + 1), Ok(bar))
  }

  /** The bars table after `UPDATE bars SET name = $1, address = $2,
      description = $3 WHERE id = $4`. */
  function Revise(
    bars: seq<Bar>, id: int, name: string, address: Option<string>, description: Option<string>)
    : (r: seq<Bar>)
    ensures |r| == |bars|
    ensures forall i :: 0 <= i < |bars| ==>
      && r[i].id == bars[i].id
      && r[i].createdBy == bars[i].createdBy
      && (bars[i].id == id ==>
            r[i].name == name && r[i].address == address && r[i].description == description)
      && (bars[i].id != id ==> r[i] == bars[i])
  {
    seq(|bars|, i requires 0 <= i < |bars| =>
      if bars[i].id == id
      then bars[i].(name := name, address := address, description := description)
      else bars[i])
  }

  /** PUT `/:id`: validates the request first (an invalid name is refused
      even for a missing bar), then replaces name, address and description
      of the bar with that id and answers with the updated row. */
  function Update(
    s: Store, id: int, name: string, address: Option<string>, description: Option<string>)
    : (r: Reply<Bar>)
    ensures !ValidName(name) ==> r == Reply(s, Invalid)
    ensures ValidName(name) && !BarExists(s.bars, id) ==> r == Reply(s, NotFound)
    ensures r.outcome.Ok? <==> ValidName(name) && BarExists(s.bars, id)
    ensures !r.outcome.Ok? ==> r.store == s
    ensures r.outcome.Ok? ==>
      && r.store == s.(bars := Revise(s.bars, id, name, address, description))
      && r.outcome.value in r.store.bars
      && exists w :: w in s.bars && w.id == id &&
           r.outcome.value == w.(name := name, address := address, description := description)
  {
    if !(MinNameLength <= |name| <= MaxNameLength) then Reply(s, Invalid)
    else
      var updated := Revise(s.bars, id, name, address, description);
      var hits := Filter(BarWithId(id), updated);
      ReviseFinds(s.bars, id, name, address, description);
      if |hits| == 0 then Reply(s, NotFound)
      else
        assert hits[0] in hits;
        Reply(s.(bars := updated), Ok(hits[0]))
  }

  /** The `RETURNING` rows of the update are the revised bars with that id,
      and there are some exactly when such a bar existed. */
  lemma ReviseFinds(
    bars: seq<Bar>, id: int, name: string, address: Option<string>, description: Option<string>)
    ensures var hits := Filter(BarWithId(id), Revise(bars, id, name, address, description));
      && (|hits| > 0 <==> BarExists(bars, id))
      && forall h :: h in hits ==>
           exists w :: w in bars && w.id == id &&
             h == w.(name := name, address := address, description := description)
  {
    var updated := Revise(bars, id, name, address, description);
    var hits := Filter(BarWithId(id), updated);
    if |hits| > 0 {
      assert hits[0] in hits;
    }
    if BarExists(bars, id) {
      var i :| 0 <= i < |bars| && bars[i].id == id;
      assert updated[i] in hits;
    }
    forall h | h in hits
      ensures exists w ::
                w in bars && w.id == id &&
                h == w.(name := name, address := address, description := description)
    {
      var k :| 0 <= k < |updated| && updated[k] == h;
      assert bars[k] in bars;
    }
  }

  /** DELETE `/:id`: deletes the bar row with that id and answers with the
      deleted rows; its votes and visits are left in place. NotFound when
      there was no such bar. */
  function Delete(s: Store, id: int): (r: Reply<seq<Bar>>)
    ensures r.outcome.Ok? <==> BarExists(s.bars, id)
    ensures !r.outcome.Ok? ==> r == Reply(s, NotFound)
    ensures r.outcome.Ok? ==>
      && r.store == s.(bars := r.store.bars)
      && multiset(r.store.bars) + multiset(r.outcome.value) == multiset(s.bars)
      && (forall b :: b in r.outcome.value ==> b.id == id)
      && !BarExists(r.store.bars, id)
  {
    BarCheck(s.bars, id);
    var gone := Filter(BarWithId(id), s.bars);
    if |gone| == 0 then Reply(s, NotFound)
    else
      var kept := Filter(Not(BarWithId(id)), s.bars);
      FilterSplit(BarWithId(id), s.bars);
      assert forall b :: b in kept ==> !BarWithId(id)(b);
      Reply(s.(bars := kept), Ok(gone))
  }

  /** Creating a bar keeps the store invariant. */
  lemma CreatePreservesValid(
    s: Store, name: string, address: Option<string>, description: Option<string>, caller: UserId)
    requires Valid(s)
    ensures Valid(Create(s, name, address, description, caller).store)
  {
    var r := Create(s, name, address, description, caller);
    if r.outcome.Ok? {
      KeysDistinctAppend(BarKey(), s.bars, r.outcome.value);
    }
  }

  /** Updating a bar keeps the store invariant: ids do not change. */
  lemma UpdatePreservesValid(
    s: Store, id: int, name: string, address: Option<string>, description: Option<string>)
    requires Valid(s)
    ensures Valid(Update(s, id, name, address, description).store)
  {
    var r := Update(s, id, name, address, description);
    if r.outcome.Ok? {
      var after := Revise(s.bars, id, name, address, description);
      KeysDistinctSameKeys(BarKey(), s.bars, after);
      forall b | b in after
        ensures b.id < s.nextBarId
      {
        var i :| 0 <= i < |after| && after[i] == b;
        assert s.bars[i] in s.bars;
      }
    }
  }

  /** Deleting a bar keeps the store invariant. */
  lemma DeletePreservesValid(s: Store, id: int)
    requires Valid(s)
    ensures Valid(Delete(s, id).store)
  {
    var r := Delete(s, id);
    if r.outcome.Ok? {
      KeysDistinctFilter(BarKey(), Not(BarWithId(id)), s.bars);
    }
  }

  /** A bar just created is found by its id, exactly as inserted, with no
      votes yet. */
  lemma CreateThenGet(
    s: Store, name: string, address: Option<string>, description: Option<string>, caller: UserId,
    today: Date)
    requires Valid(s)
    requires ValidName(name)
    ensures var c := Create(s, name, address, description, caller);
      Get(c.store, c.outcome.value.id, today) == Ok(BarView(c.outcome.value, 0))
  {
    var c := Create(s, name, address, description, caller);
    var nb := c.outcome.value;
    assert forall b :: b in s.bars ==> !BarWithId(nb.id)(b);
    FilterAppended(BarWithId(nb.id), s.bars, nb);
    assert CountOn(s.votes, nb.id, today) == 0;
  }

  /** Deleting the bar a create inserted restores the bars table. */
  lemma CreateThenDelete(
    s: Store, name: string, address: Option<string>, description: Option<string>, caller: UserId)
    requires Valid(s)
    requires ValidName(name)
    ensures var c := Create(s, name, address, description, caller);
      Delete(c.store, c.outcome.value.id) ==
        Reply(s.(nextBarId := s.nextBarId + 1), Ok([c.outcome.value]))
  {
    var c := Create(s, name, address, description, caller);
    var nb := c.outcome.value;
    assert forall b :: b in s.bars ==> !BarWithId(nb.id)(b);
    FilterAppended(BarWithId(nb.id), s.bars, nb);
  }

  /** With unique bar ids, looking a bar up by id gives exactly the row the
      listing shows for it, with the same vote count. */
  lemma GetAgreesWithList(s: Store, id: int, today: Date, v: BarView)
    requires KeysDistinct(BarKey(), s.bars)
    ensures v in List(s, today) && v.bar.id == id <==> Get(s, id, today) == Ok(v)
  {
    var g := Get(s, id, today);
    if v in List(s, today) && v.bar.id == id {
      KeysDistinctAtMostOne(BarKey(), s.bars, v.bar, g.value.bar);
    }
    if g == Ok(v) {
      assert BarView(v.bar, CountOn(s.votes, v.bar.id, today)) in List(s, today);
    }
  }
}

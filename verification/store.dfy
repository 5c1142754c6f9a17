/** The relational state the three route files read and change: the `bars`,
    `votes` and `visits` tables, each as a sequence of rows, plus the
    counters that hand out row ids, taken as unbounded integers. Every route
    handler is one atomic step over this state. */
module Store {
  import opened Seqs

  type UserId = int
  type BarId = int

  /** A calendar day, as a day number; `today` is always a parameter. */
  type Date = int

  /** Bar names must be between these lengths (the zod `barSchema`). */
  const MinNameLength: nat := 1
  const MaxNameLength: nat := 255

  datatype Option<+T> = None | Some(value: T)

  datatype Bar = Bar(
    id: int,
    name: string,
    address: Option<string>,
    description: Option<string>,
    createdBy: UserId)

  datatype Vote = Vote(id: int, userId: UserId, barId: BarId, voteDate: Date)

  datatype Visit = Visit(
    id: int,
    barId: BarId,
    visitDate: Date,
    notes: Option<string>,
    createdBy: UserId)

  datatype Store = Store(
    bars: seq<Bar>,
    votes: seq<Vote>,
    visits: seq<Visit>,
    nextBarId: int,
    nextVoteId: int,
    nextVisitId: int)

  /** What a handler answers: a value, or one of the expected refusals
      (404, a uniqueness conflict, a failed request validation). */
  datatype Outcome<+T> = Ok(value: T) | NotFound | Conflict | Invalid

  /** The store after a handler ran, and its answer. */
  datatype Reply<+T> = Reply(store: Store, outcome: Outcome<T>)

  /** The store of a freshly migrated database: empty tables, and every
      id counter, as assumed, starting at 1. */
  function Empty(): Store
  {
    Store([], [], [], 1, 1, 1)
  }

  // Row keys and row predicates, each defined once so that every use of a
  // filter refers to the same function value.

  function BarKey(): Bar -> int { (b: Bar) => b.id }
  function VoteKey(): Vote -> int { (v: Vote) => v.id }
  function VisitKey(): Visit -> int { (v: Visit) => v.id }

  /** The (user, bar, day) a vote is unique on. */
  function BallotKey(): Vote -> (UserId, BarId, Date)
  {
    (v: Vote) => (v.userId, v.barId, v.voteDate)
  }

  /** The (bar, day) a visit is unique on. */
  function VisitDayKey(): Visit -> (BarId, Date)
  {
    (v: Visit) => (v.barId, v.visitDate)
  }

  /** `WHERE id = $1` on bars. */
  function BarWithId(id: int): Bar -> bool { (b: Bar) => b.id == id }

  /** Some bar row has this id. */
  predicate BarExists(bars: seq<Bar>, id: BarId)
  {
    exists b :: b in bars && b.id == id
  }

  /** The `SELECT id FROM bars WHERE id = $1` check finds a row exactly when
      the bar exists. */
  lemma BarCheck(bars: seq<Bar>, id: BarId)
    ensures |Filter(BarWithId(id), bars)| > 0 <==> BarExists(bars, id)
  {
    var found := Filter(BarWithId(id), bars);
    if |found| > 0 {
      assert found[0] in found;
    }
    if BarExists(bars, id) {
      var b :| b in bars && b.id == id;
      assert b in found;
    }
  }

  /** The invariant every handler keeps: ids are unique and below their
      counters, votes and visits only name bar ids that were handed out,
      one vote per (user, bar, day) and one visit per (bar, day). */
  ghost predicate Valid(s: Store)
  {
    && KeysDistinct(BarKey(), s.bars)
    && KeysDistinct(VoteKey(), s.votes)
    && KeysDistinct(VisitKey(), s.visits)
    && (forall b :: b in s.bars ==> b.id < s.nextBarId)
    && (forall v :: v in s.votes ==> v.id < s.nextVoteId && v.barId < s.nextBarId)
    && (forall v :: v in s.visits ==> v.id < s.nextVisitId && v.barId < s.nextBarId)
    && KeysDistinct(BallotKey(), s.votes)
    && KeysDistinct(VisitDayKey(), s.visits)
  }

  lemma EmptyValid()
    ensures Valid(Empty())
  {
  }
}

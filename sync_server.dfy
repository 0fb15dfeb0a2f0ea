/**
 * The central store's sync endpoint: `syncData` upserts every visitor of a batch, then every
 * visit, inside one transaction, and commits or rolls back as a whole. Visitors are keyed by
 * `idNumber`; visits by their integer `id`, and those that reference a visitor must find it.
 */
module SyncServer {
  import opened Wrappers
  import opened Records

  /** A row of the visitors table. */
  datatype VisitorRow = VisitorRow(idNumber: string, fullName: string, cellNumber: string)

  /** A row of the visits table; `items` is a JSON column that defaults to `[]`. */
  datatype VisitRow = VisitRow(id: int, visitorId: string, purpose: string, ingressTime: Time, egressTime: Option<Time>, items: seq<Item>)

  /** A visitor as it arrives in the request body: any field may be missing. */
  datatype VisitorIn = VisitorIn(idNumber: Option<string>, fullName: Option<string>, cellNumber: Option<string>)

  /** A JSON `items` value in the request: left out, sent as `null`, or given. */
  datatype ItemsIn = ItemsAbsent | ItemsNull | ItemsGiven(items: seq<Item>)

  /** A visit as it arrives in the request body: a missing or `null` field is `None`, except that `items` keeps the two apart. */
  datatype VisitIn = VisitIn(id: Option<int>, visitorId: Option<string>, purpose: Option<string>,
                             ingressTime: Option<Time>, egressTime: Option<Time>, items: ItemsIn)

  /** The request body: `visitors` and `visits`, either of which may be missing. */
  datatype SyncRequest = SyncRequest(visitors: Option<seq<VisitorIn>>, visits: Option<seq<VisitIn>>)

  /** Both tables and the visits table's auto-increment counter. */
  datatype Tables = Tables(visitors: map<string, VisitorRow>, visits: map<int, VisitRow>, nextId: int)

  /** The HTTP status and the `success` and `message` fields of the JSON reply. */
  datatype Response = Response(status: int, success: bool, message: string)

  const Committed := Response(200, true, "Data synchronized successfully")
  const RolledBack := Response(500, false, "Error synchronizing data")

  /**
   * The tables' constraints: every row sits under its own key, every visit id is below the
   * auto-increment counter, and every visit references a stored visitor.
   */
  ghost predicate ValidTables(t: Tables) {
    && (forall k :: k in t.visitors ==> t.visitors[k].idNumber == k)
    && (forall k :: k in t.visits ==> t.visits[k].id == k && k < t.nextId && t.visits[k].visitorId in t.visitors)
  }

  /** The three visitor columns are NOT NULL. */
  predicate CompleteVisitor(v: VisitorIn) {
    v.idNumber.Some? && v.fullName.Some? && v.cellNumber.Some?
  }

  function VisitorRowOf(v: VisitorIn): VisitorRow
    requires CompleteVisitor(v)
  {
    VisitorRow(v.idNumber.value, v.fullName.value, v.cellNumber.value)
  }

  /**
   * `visitorId`, `purpose` and `ingressTime` are NOT NULL; `egressTime` may be null; `items` is
   * NOT NULL with a default, which fills in only a value that was left out, not an explicit `null`.
   */
  predicate CompleteVisit(v: VisitIn) {
    v.visitorId.Some? && v.purpose.Some? && v.ingressTime.Some? && !v.items.ItemsNull?
  }

  function VisitRowOf(v: VisitIn, id: int): VisitRow
    requires CompleteVisit(v)
  {
    VisitRow(id, v.visitorId.value, v.purpose.value, v.ingressTime.value, v.egressTime,
      if v.items.ItemsGiven? then v.items.items else [])
  }

  /** `Visitor.upsert(visitor)`: insert or replace the row keyed by `idNumber`; a missing column fails. */
  function UpsertVisitor(t: Tables, v: VisitorIn): (r: Option<Tables>)
    ensures r.Some? <==> CompleteVisitor(v)
    ensures ValidTables(t) && r.Some? ==> ValidTables(r.value)
  {
    if CompleteVisitor(v) then Some(t.(visitors := t.visitors[v.idNumber.value := VisitorRowOf(v)])) else None
  }

  /**
   * `Visit.upsert(visit)`: a missing NOT NULL column or a `visitorId` without a visitor fails;
   * a visit with `id` replaces the row under it (the counter moves past it); one without is
   * inserted under the counter's value.
   */
  function UpsertVisit(t: Tables, v: VisitIn): (r: Option<Tables>)
    ensures r.Some? <==> CompleteVisit(v) && v.visitorId.value in t.visitors
    ensures ValidTables(t) && r.Some? ==> ValidTables(r.value)
    ensures ValidTables(t) && r.Some? && v.id.None? ==> t.nextId !in t.visits && t.nextId in r.value.visits
  {
    if !CompleteVisit(v) || v.visitorId.value !in t.visitors then None
    else match v.id
      case None => Some(t.(visits := t.visits[t.nextId := VisitRowOf(v, t.nextId)], nextId := t.nextId + 1))
      case Some(k) => Some(t.(visits := t.visits[k := VisitRowOf(v, k)], nextId := if k < t.nextId then t.nextId else k + 1))
  }

  /** The visitors loop: the upserts in array order, stopping at the first failure. */
  function ApplyVisitors(t: Tables, batch: seq<VisitorIn>): Option<Tables>
    decreases |batch|
  {
    if batch == [] then Some(t)
    else match UpsertVisitor(t, batch[0])
      case None => None
      case Some(t1) => ApplyVisitors(t1, batch[1..])
  }

  /** The visits loop: the upserts in array order, stopping at the first failure. */
  function ApplyVisits(t: Tables, batch: seq<VisitIn>): Option<Tables>
    decreases |batch|
  {
    if batch == [] then Some(t)
    else match UpsertVisit(t, batch[0])
      case None => None
      case Some(t1) => ApplyVisits(t1, batch[1..])
  }

  /**
   * `syncData`: the visitors, then the visits. A missing array fails like a failed upsert
   * (iterating `undefined` throws). `None` is a rollback.
   */
  function Sync(t: Tables, req: SyncRequest): Option<Tables> {
    if req.visitors.None? then None
    else match ApplyVisitors(t, req.visitors.value)
      case None => None
      case Some(t1) => if req.visits.None? then None else ApplyVisits(t1, req.visits.value)
  }

  ghost predicate NamedVisitor(batch: seq<VisitorIn>, k: string) {
    exists j :: 0 <= j < |batch| && batch[j].idNumber == Some(k)
  }

  /** `batch[j]` is the last visitor of the batch with its `idNumber`. */
  ghost predicate LastVisitorAt(batch: seq<VisitorIn>, j: int) {
    && 0 <= j < |batch|
    && batch[j].idNumber.Some?
    && forall j' :: j < j' < |batch| ==> batch[j'].idNumber != batch[j].idNumber
  }

  ghost predicate NamedVisit(batch: seq<VisitIn>, k: int) {
    exists j :: 0 <= j < |batch| && batch[j].id == Some(k)
  }

  /** `batch[j]` is the last visit of the batch with its `id`. */
  ghost predicate LastVisitAt(batch: seq<VisitIn>, j: int) {
    && 0 <= j < |batch|
    && batch[j].id.Some?
    && forall j' :: j < j' < |batch| ==> batch[j'].id != batch[j].id
  }

  ghost predicate AllIdentified(batch: seq<VisitIn>) {
    forall j :: 0 <= j < |batch| ==> batch[j].id.Some?
  }

  /** The visitors loop succeeds exactly when every visitor is complete, and touches only the visitors table. */
  lemma {:induction false} VisitorsOutcome(t: Tables, batch: seq<VisitorIn>)
    ensures ApplyVisitors(t, batch).Some? <==> forall j :: 0 <= j < |batch| ==> CompleteVisitor(batch[j])
    ensures ApplyVisitors(t, batch).Some? ==>
      && ApplyVisitors(t, batch).value.visits == t.visits
      && ApplyVisitors(t, batch).value.nextId == t.nextId
      && forall k :: k in ApplyVisitors(t, batch).value.visitors <==> k in t.visitors || NamedVisitor(batch, k)
    decreases |batch|
  {
    if batch != [] {
      var u := UpsertVisitor(t, batch[0]);
      if u.Some? {
        VisitorsOutcome(u.value, batch[1..]);
        forall k ensures NamedVisitor(batch, k) <==> batch[0].idNumber == Some(k) || NamedVisitor(batch[1..], k) {
          if NamedVisitor(batch, k) && batch[0].idNumber != Some(k) {
            var j :| 0 <= j < |batch| && batch[j].idNumber == Some(k);
            assert batch[1..][j - 1] == batch[j];
          }
          if NamedVisitor(batch[1..], k) {
            var j :| 0 <= j < |batch[1..]| && batch[1..][j].idNumber == Some(k);
            assert batch[j + 1] == batch[1..][j];
          }
        }
        forall j | 0 <= j < |batch[1..]| ensures CompleteVisitor(batch[1..][j]) == CompleteVisitor(batch[j + 1]) { }
      }
    }
  }

  /**
   * Last write wins among the visitors: after a committed visitors loop each key named in the
   * batch holds the last record with that key, and every other stored visitor is unchanged.
   */
  lemma {:induction false} VisitorsLastWriteWins(t: Tables, batch: seq<VisitorIn>)
    requires ApplyVisitors(t, batch).Some?
    ensures forall j :: LastVisitorAt(batch, j) ==>
      && CompleteVisitor(batch[j])
      && batch[j].idNumber.value in ApplyVisitors(t, batch).value.visitors
      && ApplyVisitors(t, batch).value.visitors[batch[j].idNumber.value] == VisitorRowOf(batch[j])
    ensures forall k :: k in t.visitors && !NamedVisitor(batch, k) ==>
      k in ApplyVisitors(t, batch).value.visitors && ApplyVisitors(t, batch).value.visitors[k] == t.visitors[k]
    decreases |batch|
  {
    VisitorsOutcome(t, batch);
    if batch != [] {
      var u := UpsertVisitor(t, batch[0]).value;
      var rest := batch[1..];
      var t' := ApplyVisitors(t, batch).value;
      assert ApplyVisitors(u, rest) == Some(t');
      VisitorsLastWriteWins(u, rest);
      VisitorsOutcome(u, rest);
      forall j | LastVisitorAt(batch, j)
        ensures CompleteVisitor(batch[j]) && batch[j].idNumber.value in t'.visitors
          && t'.visitors[batch[j].idNumber.value] == VisitorRowOf(batch[j])
      {
        if j == 0 {
          var k := batch[0].idNumber.value;
          assert !NamedVisitor(rest, k) by {
            forall i | 0 <= i < |rest| ensures rest[i].idNumber != Some(k) {
              assert rest[i] == batch[i + 1];
            }
          }
          assert k in u.visitors;
        } else {
          assert rest[j - 1] == batch[j];
          assert LastVisitorAt(rest, j - 1) by {
            forall j' | j - 1 < j' < |rest| ensures rest[j'].idNumber != rest[j - 1].idNumber {
              assert rest[j'] == batch[j' + 1];
            }
          }
        }
      }
      forall k | k in t.visitors && !NamedVisitor(batch, k)
        ensures k in t'.visitors && t'.visitors[k] == t.visitors[k]
      {
        assert !NamedVisitor(rest, k) by {
          forall i | 0 <= i < |rest| ensures rest[i].idNumber != Some(k) {
            assert rest[i] == batch[i + 1];
          }
        }
        assert batch[0].idNumber != Some(k);
      }
    }
  }

  /** Some record with a given key is the last one with that key. */
  lemma {:induction false} LastVisitorExists(batch: seq<VisitorIn>, k: string) returns (j: int)
    requires NamedVisitor(batch, k)
    ensures LastVisitorAt(batch, j) && batch[j].idNumber == Some(k)
    decreases |batch|
  {
    var rest := batch[1..];
    if NamedVisitor(rest, k) {
      var i := LastVisitorExists(rest, k);
      j := i + 1;
      forall j' | j < j' < |batch| ensures batch[j'].idNumber != batch[j].idNumber {
        assert batch[j'] == rest[j' - 1];
      }
    } else {
      j := 0;
      forall j' | 0 < j' < |batch| ensures batch[j'].idNumber != Some(k) {
        assert batch[j'] == rest[j' - 1];
      }
    }
  }

  /**
   * The visits loop succeeds exactly when every visit is complete and references a visitor the
   * visitors table holds; it leaves that table alone, keeps every visit key, and never lowers the counter.
   */
  lemma {:induction false} VisitsOutcome(t: Tables, batch: seq<VisitIn>)
    ensures ApplyVisits(t, batch).Some? <==>
      forall j :: 0 <= j < |batch| ==> CompleteVisit(batch[j]) && batch[j].visitorId.value in t.visitors
    ensures ApplyVisits(t, batch).Some? ==>
      && ApplyVisits(t, batch).value.visitors == t.visitors
      && t.visits.Keys <= ApplyVisits(t, batch).value.visits.Keys
      && t.nextId <= ApplyVisits(t, batch).value.nextId
    decreases |batch|
  {
    if batch != [] {
      var u := UpsertVisit(t, batch[0]);
      if u.Some? {
        VisitsOutcome(u.value, batch[1..]);
        forall j | 0 <= j < |batch[1..]| ensures batch[1..][j] == batch[j + 1] { }
      }
    }
  }

  /**
   * Last write wins among visits that carry an `id`: each id named in the batch holds the last
   * record with it, every other stored visit is unchanged, no other key appears, and the counter
   * ends past every id of the batch, unmoved when it already was.
   */
  lemma {:induction false} VisitsLastWriteWins(t: Tables, batch: seq<VisitIn>)
    requires AllIdentified(batch)
    requires ApplyVisits(t, batch).Some?
    ensures var t' := ApplyVisits(t, batch).value;
      && (forall j :: LastVisitAt(batch, j) ==>
            && CompleteVisit(batch[j])
            && batch[j].id.value in t'.visits
            && t'.visits[batch[j].id.value] == VisitRowOf(batch[j], batch[j].id.value))
      && (forall k :: k in t.visits && !NamedVisit(batch, k) ==> k in t'.visits && t'.visits[k] == t.visits[k])
      && (forall k :: k in t'.visits <==> k in t.visits || NamedVisit(batch, k))
      && (forall j :: 0 <= j < |batch| ==> batch[j].id.value < t'.nextId)
      && ((forall j :: 0 <= j < |batch| ==> batch[j].id.value < t.nextId) ==> t'.nextId == t.nextId)
    decreases |batch|
  {
    VisitsOutcome(t, batch);
    if batch != [] {
      var u := UpsertVisit(t, batch[0]).value;
      var rest := batch[1..];
      var t' := ApplyVisits(t, batch).value;
      assert ApplyVisits(u, rest) == Some(t');
      forall j | 0 <= j < |rest| ensures rest[j] == batch[j + 1] { }
      VisitsLastWriteWins(u, rest);
      VisitsOutcome(u, rest);
      var k0 := batch[0].id.value;
      forall j | LastVisitAt(batch, j)
        ensures CompleteVisit(batch[j]) && batch[j].id.value in t'.visits
          && t'.visits[batch[j].id.value] == VisitRowOf(batch[j], batch[j].id.value)
      {
        if j == 0 {
          assert !NamedVisit(rest, k0);
        } else {
          assert LastVisitAt(rest, j - 1);
        }
      }
      forall k ensures NamedVisit(batch, k) <==> k0 == k || NamedVisit(rest, k) {
        if NamedVisit(batch, k) && k0 != k {
          var j :| 0 <= j < |batch| && batch[j].id == Some(k);
          assert rest[j - 1] == batch[j];
        }
        if NamedVisit(rest, k) {
          var j :| 0 <= j < |rest| && rest[j].id == Some(k);
        }
      }
      if forall j :: 0 <= j < |batch| ==> batch[j].id.value < t.nextId {
        assert u.nextId == t.nextId;
      }
    }
  }

  /** Some visit with a given id is the last one with that id. */
  lemma {:induction false} LastVisitExists(batch: seq<VisitIn>, k: int) returns (j: int)
    requires NamedVisit(batch, k)
    ensures LastVisitAt(batch, j) && batch[j].id == Some(k)
    decreases |batch|
  {
    var rest := batch[1..];
    if NamedVisit(rest, k) {
      var i := LastVisitExists(rest, k);
      j := i + 1;
      forall j' | j < j' < |batch| ensures batch[j'].id != batch[j].id {
        assert batch[j'] == rest[j' - 1];
      }
    } else {
      j := 0;
      forall j' | 0 < j' < |batch| ensures batch[j'].id != Some(k) {
        assert batch[j'] == rest[j' - 1];
      }
    }
  }

  /**
   * A batch commits exactly when both arrays are present, every record is complete, and every
   * visit references a visitor that is stored already or sent in the same batch, in any position:
   * the visitors are all upserted before the first visit.
   */
  lemma SyncSucceedsIff(t: Tables, req: SyncRequest)
    ensures Sync(t, req).Some? <==>
      && req.visitors.Some? && req.visits.Some?
      && (forall j :: 0 <= j < |req.visitors.value| ==> CompleteVisitor(req.visitors.value[j]))
      && (forall j :: 0 <= j < |req.visits.value| ==>
            && CompleteVisit(req.visits.value[j])
            && (req.visits.value[j].visitorId.value in t.visitors || NamedVisitor(req.visitors.value, req.visits.value[j].visitorId.value)))
  {
    if req.visitors.Some? {
      VisitorsOutcome(t, req.visitors.value);
      var tv := ApplyVisitors(t, req.visitors.value);
      if tv.Some? && req.visits.Some? {
        VisitsOutcome(tv.value, req.visits.value);
      }
    }
  }

  /**
   * All or nothing: one complete visit whose visitor is neither stored nor in the batch rolls
   * the whole batch back, however many valid records surround it.
   */
  lemma UnknownVisitorRollsBack(t: Tables, req: SyncRequest, j: int)
    requires req.visitors.Some? && req.visits.Some?
    requires 0 <= j < |req.visits.value| && req.visits.value[j].visitorId.Some?
    requires req.visits.value[j].visitorId.value !in t.visitors
    requires !NamedVisitor(req.visitors.value, req.visits.value[j].visitorId.value)
    ensures Sync(t, req).None?
  {
    SyncSucceedsIff(t, req);
  }

  /** A committed batch keeps the tables' constraints. */
  lemma {:induction false} VisitorsKeepValid(t: Tables, batch: seq<VisitorIn>)
    requires ValidTables(t) && ApplyVisitors(t, batch).Some?
    ensures ValidTables(ApplyVisitors(t, batch).value)
    decreases |batch|
  {
    if batch != [] {
      VisitorsKeepValid(UpsertVisitor(t, batch[0]).value, batch[1..]);
    }
  }

  lemma {:induction false} VisitsKeepValid(t: Tables, batch: seq<VisitIn>)
    requires ValidTables(t) && ApplyVisits(t, batch).Some?
    ensures ValidTables(ApplyVisits(t, batch).value)
    decreases |batch|
  {
    if batch != [] {
      VisitsKeepValid(UpsertVisit(t, batch[0]).value, batch[1..]);
    }
  }

  lemma SyncKeepsValid(t: Tables, req: SyncRequest)
    requires ValidTables(t) && Sync(t, req).Some?
    ensures ValidTables(Sync(t, req).value)
  {
    VisitorsKeepValid(t, req.visitors.value);
    VisitsKeepValid(ApplyVisitors(t, req.visitors.value).value, req.visits.value);
  }

  /**
   * Posting the same batch again after it committed commits and changes nothing, provided every
   * visit carries its `id` (a visit without one is inserted anew each time).
   */
  lemma SyncIdempotent(t: Tables, req: SyncRequest)
    requires Sync(t, req).Some?
    requires AllIdentified(req.visits.value)
    ensures Sync(Sync(t, req).value, req) == Sync(t, req)
  {
    var ub, vb := req.visitors.value, req.visits.value;
    var tv := ApplyVisitors(t, ub).value;
    var t1 := ApplyVisits(tv, vb).value;
    VisitorsOutcome(t, ub);
    VisitorsLastWriteWins(t, ub);
    VisitsOutcome(tv, vb);
    VisitsLastWriteWins(tv, vb);
    // The visitors loop, run again over t1, leaves t1 as it is.
    VisitorsOutcome(t1, ub);
    VisitorsLastWriteWins(t1, ub);
    var tv2 := ApplyVisitors(t1, ub).value;
    forall k | k in tv2.visitors ensures k in t1.visitors && tv2.visitors[k] == t1.visitors[k] {
      if NamedVisitor(ub, k) {
        var j := LastVisitorExists(ub, k);
      }
    }
    assert tv2.visitors == t1.visitors;
    assert tv2 == t1;
    // The visits loop, run again over t1, leaves t1 as it is.
    VisitsOutcome(t1, vb);
    VisitsLastWriteWins(t1, vb);
    var t2 := ApplyVisits(t1, vb).value;
    forall k | k in t2.visits ensures k in t1.visits && t2.visits[k] == t1.visits[k] {
      if NamedVisit(vb, k) {
        var j := LastVisitExists(vb, k);
      }
    }
    assert t2.visits == t1.visits;
  }

  /** The central store: the two tables and the visits counter. */
  class Authority {
    var visitors: map<string, VisitorRow>
    var visits: map<int, VisitRow>
    var nextId: int

    function State(): Tables
      reads this
    {
      Tables(visitors, visits, nextId)
    }

    ghost predicate Valid()
      reads this
    {
      ValidTables(State())
    }

    constructor ()
      ensures Valid() && visitors == map[] && visits == map[] && nextId == 1
    {
      visitors, visits, nextId := map[], map[], 1;
    }

    /** `transaction.rollback()`: the tables as they were when the transaction began. */
    method Rollback(snapshot: Tables)
      modifies this
      ensures State() == snapshot
    {
      visitors, visits, nextId := snapshot.visitors, snapshot.visits, snapshot.nextId;
    }

    /**
     * `syncData(req)`: one transaction around the two loops. On commit the tables are the batch
     * applied in order and the reply is 200; on any failure they are exactly as before and the
     * reply is 500.
     */
    method SyncData(req: SyncRequest) returns (resp: Response)
      requires Valid()
      modifies this
      ensures Valid()
      ensures match Sync(old(State()), req)
        case None => State() == old(State()) && resp == RolledBack
        case Some(t) => State() == t && resp == Committed
    {
      var snapshot := State();
      if req.visitors.None? {
        resp := RolledBack;
        return;
      }
      var visitorBatch := req.visitors.value;
      var i := 0;
      while i < |visitorBatch|
        invariant 0 <= i <= |visitorBatch|
        invariant ApplyVisitors(State(), visitorBatch[i..]) == ApplyVisitors(snapshot, visitorBatch)
        invariant ValidTables(State())
      {
        assert visitorBatch[i..][1..] == visitorBatch[i + 1..];
        var next := UpsertVisitor(State(), visitorBatch[i]);
        if next.None? {
          Rollback(snapshot);
          resp := RolledBack;
          return;
        }
        visitors, visits, nextId := next.value.visitors, next.value.visits, next.value.nextId;
        i := i + 1;
      }
      assert visitorBatch[|visitorBatch|..] == [];
      if req.visits.None? {
        Rollback(snapshot);
        resp := RolledBack;
        return;
      }
      var visitBatch := req.visits.value;
      var afterVisitors := State();
      i := 0;
      while i < |visitBatch|
        invariant 0 <= i <= |visitBatch|
        invariant ApplyVisits(State(), visitBatch[i..]) == ApplyVisits(afterVisitors, visitBatch)
        invariant ValidTables(State())
      {
        assert visitBatch[i..][1..] == visitBatch[i + 1..];
        var next := UpsertVisit(State(), visitBatch[i]);
        if next.None? {
          Rollback(snapshot);
          resp := RolledBack;
          return;
        }
        visitors, visits, nextId := next.value.visitors, next.value.visits, next.value.nextId;
        i := i + 1;
      }
      assert visitBatch[|visitBatch|..] == [];
      resp := Committed;
    }
  }
}

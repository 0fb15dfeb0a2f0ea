/**
 * `VisitorDB`: the browser-resident store with two object stores. `visitors` uses the in-line
 * key `idNumber`; `visits` uses the in-line key `id` with a key generator, whose behaviour
 * follows section 2.11 (Key generators) of the W3C Indexed Database API 3.0. Each store
 * request is one atomic step; a request that fails aborts its transaction and changes nothing.
 */
module LocalStore {
  import opened Wrappers
  import opened Text
  import opened Seqs
  import opened Records

  /** 2^53: the largest key a key generator hands out. */
  const MaxGeneratedKey: int := 0x20_0000_0000_0000

  /** The rejection messages of the store's promises. */
  datatype StoreError =
    | VisitNotFound      // 'Visit not found'
    | AddVisitFailed     // 'Error adding visit'
    | UpdateVisitFailed  // 'Error updating visit'

  /** "Possibly update the key generator": an explicit numeric key at or above the current number moves it past the key. */
  function AfterExplicitKey(current: int, key: int): (r: int)
    ensures r >= current
    ensures (if key < MaxGeneratedKey then key else MaxGeneratedKey) < r
    ensures r == current || r == (if key < MaxGeneratedKey then key else MaxGeneratedKey) + 1
  {
    var value := if key < MaxGeneratedKey then key else MaxGeneratedKey;
    if value >= current then value + 1 else current
  }

  /** Every visit is filed under its own `id`. */
  ghost predicate IdsMatchKeys(visits: map<int, Visit>) {
    forall k :: k in visits ==> visits[k].id == Some(k)
  }

  /** The store's invariant on the visits store: ids match keys, and the key generator is past every key it holds. */
  ghost predicate KeyedBelow(visits: map<int, Visit>, current: int) {
    && 1 <= current <= MaxGeneratedKey + 1
    && IdsMatchKeys(visits)
    && forall k :: k in visits ==> (if k < MaxGeneratedKey then k else MaxGeneratedKey) < current
  }

  /** The visits store and its key generator after a successful store request, and the key used. */
  datatype Stored = Stored(visits: map<int, Visit>, current: int, key: int)

  /**
   * "Store a record into an object store" for `visits`: a record without `id` receives the
   * generator's current number (failing once that exceeds 2^53); a record with `id` is filed
   * under it and may move the generator. `noOverwrite` is `add` (an existing key is a
   * ConstraintError); without it, `put` replaces. `None` is the failed request.
   */
  function StoreRecord(visits: map<int, Visit>, current: int, record: Visit, noOverwrite: bool): Option<Stored> {
    match record.id
    case None =>
      if current > MaxGeneratedKey then None
      else Some(Stored(visits[current := record.(id := Some(current))], current + 1, current))
    case Some(k) =>
      if noOverwrite && k in visits then None
      else Some(Stored(visits[k := record], AfterExplicitKey(current, k), k))
  }

  /** Storing a record keeps the invariant, touches no other key, and a generated key is fresh and above every key held. */
  lemma StoreRecordSound(visits: map<int, Visit>, current: int, record: Visit, noOverwrite: bool)
    requires KeyedBelow(visits, current)
    ensures var st := StoreRecord(visits, current, record, noOverwrite);
      st.Some? ==>
        && KeyedBelow(st.value.visits, st.value.current)
        && st.value.key in st.value.visits
        && (forall k :: k in visits && k != st.value.key ==> k in st.value.visits && st.value.visits[k] == visits[k])
        && st.value.visits.Keys == visits.Keys + {st.value.key}
        && (record.id.None? ==>
              st.value.key !in visits && (forall k :: k in visits && k <= MaxGeneratedKey ==> k < st.value.key))
        && (noOverwrite ==> st.value.key !in visits)
  {
  }

  /** The visits in ascending key order: what `getAll()` on the visits store resolves with. */
  function AllVisits(visits: map<int, Visit>): (r: seq<Visit>)
    ensures |r| == |visits|
    ensures forall v :: v in r <==> v in visits.Values
    ensures IdsMatchKeys(visits) ==> AscendingIds(r)
  {
    var ks := SortedKeys(visits.Keys);
    var r := seq(|ks|, i requires 0 <= i < |ks| => visits[ks[i]]);
    InKeyOrder(visits, ks, r);
    r
  }

  lemma InKeyOrder(visits: map<int, Visit>, ks: seq<int>, r: seq<Visit>)
    requires forall i, j :: 0 <= i < j < |ks| ==> ks[i] < ks[j]
    requires forall k :: k in ks <==> k in visits
    requires |ks| == |visits| && |r| == |ks|
    requires forall i :: 0 <= i < |ks| ==> ks[i] in visits && r[i] == visits[ks[i]]
    ensures forall v :: v in r <==> v in visits.Values
    ensures IdsMatchKeys(visits) ==> AscendingIds(r)
  {
    forall v | v in visits.Values ensures v in r {
      if forall k :: k in visits ==> visits[k] != v {
        assert false;
      }
      var k :| k in visits && visits[k] == v;
      var i :| 0 <= i < |ks| && ks[i] == k;
      assert r[i] == v;
    }
    forall v | v in r ensures v in visits.Values {
      var i :| 0 <= i < |r| && r[i] == v;
      assert ks[i] in ks;
    }
    if IdsMatchKeys(visits) {
      forall i, j | 0 <= i < j < |r| ensures IdBefore(r[i], r[j]) {
        assert ks[i] in ks && ks[j] in ks;
      }
    }
  }

  /** `a` carries a smaller id than `b`. */
  predicate IdBefore(a: Visit, b: Visit) {
    a.id.Some? && b.id.Some? && a.id.value < b.id.value
  }

  /** Every record carries an id and the ids strictly increase. */
  ghost predicate AscendingIds(s: seq<Visit>) {
    forall i, j :: 0 <= i < j < |s| ==> IdBefore(s[i], s[j])
  }

  lemma AscendingIdsAsPairwise(s: seq<Visit>)
    ensures AscendingIds(s) <==> Pairwise(s, IdBefore)
  {
  }

  /** `visitor.fullName.toLowerCase().includes(query.toLowerCase()) || visitor.idNumber.includes(query)`. */
  predicate MatchesQuery(v: Visitor, query: string) {
    Includes(Lower(v.fullName), Lower(query)) || Includes(v.idNumber, query)
  }

  /** The visitor with the given key, if any. */
  function Lookup(visitors: map<string, Visitor>, id: string): Option<Visitor> {
    if id in visitors then Some(visitors[id]) else None
  }

  /** Visitors in strictly ascending `idNumber` order. */
  ghost predicate InIdOrder(rs: seq<Visitor>) {
    forall i, j :: 0 <= i < j < |rs| ==> Below(rs[i].idNumber, rs[j].idNumber)
  }

  /** Every listed visitor's id number comes before every key still to visit. */
  ghost predicate AllBefore(rs: seq<Visitor>, keys: set<string>) {
    forall i, k :: 0 <= i < |rs| && k in keys ==> Below(rs[i].idNumber, k)
  }

  /** Visiting the least remaining key keeps the results in order, whether or not it is listed. */
  lemma ExtendInIdOrder(rs: seq<Visitor>, v: Visitor, keys: set<string>)
    requires InIdOrder(rs) && AllBefore(rs, keys)
    requires v.idNumber in keys && forall x :: x in keys && x != v.idNumber ==> Below(v.idNumber, x)
    ensures InIdOrder(rs + [v]) && AllBefore(rs + [v], keys - {v.idNumber})
    ensures AllBefore(rs, keys - {v.idNumber})
  {
    var rs' := rs + [v];
    forall i, j | 0 <= i < j < |rs'| ensures Below(rs'[i].idNumber, rs'[j].idNumber) {
      if j == |rs| {
        assert rs'[i] == rs[i];
      }
    }
  }

  class VisitorDB {
    var visitors: map<string, Visitor>
    var visits: map<int, Visit>
    /** The key generator's current number. */
    var nextKey: int

    ghost predicate Valid()
      reads this
    {
      && (forall id :: id in visitors ==> visitors[id].idNumber == id)
      && KeyedBelow(visits, nextKey)
    }

    /** Both stores empty, the key generator at its initial value 1. */
    constructor ()
      ensures Valid()
      ensures visitors == map[] && visits == map[] && nextKey == 1
    {
      visitors, visits, nextKey := map[], map[], 1;
    }

    /** `addVisitor`: a `put` keyed by `idNumber`, replacing any visitor with that key. */
    method AddVisitor(visitor: Visitor) returns (r: Visitor)
      requires Valid()
      modifies this
      ensures Valid()
      ensures r == visitor
      ensures visitors == old(visitors)[visitor.idNumber := visitor]
      ensures visits == old(visits) && nextKey == old(nextKey)
    {
      visitors := visitors[visitor.idNumber := visitor];
      r := visitor;
    }

    /** `getVisitor`: the visitor stored under `idNumber`, or `undefined`. */
    method GetVisitor(idNumber: string) returns (r: Option<Visitor>)
      requires Valid()
      ensures r.Some? <==> idNumber in visitors
      ensures r.Some? ==> r.value == visitors[idNumber] && r.value.idNumber == idNumber
    {
      r := Lookup(visitors, idNumber);
    }

    /**
     * `searchVisitors`: a cursor walks the visitors in key order and keeps those matching the
     * query. The result holds exactly the matching visitors, each once, in ascending `idNumber`.
     */
    method SearchVisitors(query: string) returns (results: seq<Visitor>)
      requires Valid()
      ensures forall v :: v in results <==> v in visitors.Values && MatchesQuery(v, query)
      ensures InIdOrder(results)
    {
      results := [];
      var remaining := visitors.Keys;
      while remaining != {}
        invariant remaining <= visitors.Keys
        invariant forall v :: v in results <==>
          v.idNumber in visitors && v.idNumber !in remaining && visitors[v.idNumber] == v && MatchesQuery(v, query)
        invariant InIdOrder(results)
        invariant AllBefore(results, remaining)
        decreases |remaining|
      {
        LeastExists(remaining);
        var id :| id in remaining && forall x :: x in remaining && x != id ==> Below(id, x);
        var visitor := visitors[id];
        ExtendInIdOrder(results, visitor, remaining);
        if MatchesQuery(visitor, query) {
          results := results + [visitor];
        }
        remaining := remaining - {id};
      }
    }

    /** One `put` or `add` request on the visits store; `None` is a ConstraintError. */
    method Store(record: Visit, noOverwrite: bool) returns (key: Option<int>)
      requires Valid()
      modifies this
      ensures Valid()
      ensures visitors == old(visitors)
      ensures match StoreRecord(old(visits), old(nextKey), record, noOverwrite)
        case None => key.None? && visits == old(visits) && nextKey == old(nextKey)
        case Some(st) => key == Some(st.key) && visits == st.visits && nextKey == st.current
    {
      StoreRecordSound(visits, nextKey, record, noOverwrite);
      var st := StoreRecord(visits, nextKey, record, noOverwrite);
      if st.None? {
        key := None;
      } else {
        visits, nextKey := st.value.visits, st.value.current;
        key := Some(st.value.key);
      }
    }

    /**
     * `addVisit`: an `add` request. A record without `id` is filed under a freshly generated key
     * above every key the store holds; it resolves with that key. No existing visit changes.
     */
    method AddVisit(visitData: Visit) returns (r: Result<int, StoreError>)
      requires Valid()
      modifies this
      ensures Valid()
      ensures visitors == old(visitors)
      ensures r.Failure? ==> r.error == AddVisitFailed && visits == old(visits) && nextKey == old(nextKey)
      ensures r.Success? ==> r.value !in old(visits) && visits.Keys == old(visits).Keys + {r.value}
      ensures r.Success? ==> forall k :: k in old(visits) ==> visits[k] == old(visits)[k]
      ensures visitData.id.None? ==>
        if old(nextKey) > MaxGeneratedKey then r.Failure?
        else (
          && r == Success(old(nextKey))
          && visits == old(visits)[r.value := visitData.(id := Some(r.value))]
          && nextKey == old(nextKey) + 1
          && forall k :: k in old(visits) && k <= MaxGeneratedKey ==> k < r.value)
      ensures visitData.id.Some? ==>
        if visitData.id.value in old(visits) then r.Failure?
        else (
          && r == Success(visitData.id.value)
          && visits == old(visits)[r.value := visitData]
          && nextKey == AfterExplicitKey(old(nextKey), visitData.id.value))
    {
      StoreRecordSound(visits, nextKey, visitData, true);
      var key := Store(visitData, true);
      r := if key.Some? then Success(key.value) else Failure(AddVisitFailed);
    }

    /**
     * `updateVisit(visitId, updates)`: reads the visit, `put`s `{...visit, ...updates}` and
     * resolves with that merged object. There is no not-found check: for an absent `visitId`
     * the merged object is `updates` alone, which the `put` files under its own `id` or, lacking
     * one, under a generated key. The resolved object does not carry a generated key.
     */
    method UpdateVisit(visitId: int, updates: Visit) returns (r: Result<Visit, StoreError>)
      requires Valid()
      modifies this
      ensures Valid()
      ensures visitors == old(visitors)
      ensures old(visits).Keys <= visits.Keys
      ensures var merged := Merge(if visitId in old(visits) then old(visits)[visitId] else NoFields, updates);
        match StoreRecord(old(visits), old(nextKey), merged, false)
        case None => r == Failure(UpdateVisitFailed) && visits == old(visits) && nextKey == old(nextKey)
        case Some(st) => r == Success(merged) && visits == st.visits && nextKey == st.current
      ensures visitId in old(visits) && updates.id.None? ==>
        && r == Success(Merge(old(visits)[visitId], updates))
        && visits == old(visits)[visitId := Merge(old(visits)[visitId], updates)]
        && nextKey == old(nextKey)
      ensures visitId !in old(visits) && updates.id.None? && old(nextKey) <= MaxGeneratedKey ==>
        && r == Success(updates)
        && visits == old(visits)[old(nextKey) := updates.(id := Some(old(nextKey)))]
        && nextKey == old(nextKey) + 1
    {
      var existing := if visitId in visits then visits[visitId] else NoFields;
      var merged := Merge(existing, updates);
      StoreRecordSound(visits, nextKey, merged, false);
      var key := Store(merged, false);
      r := if key.Some? then Success(merged) else Failure(UpdateVisitFailed);
    }

    /**
     * `updateVisitItems`: rejects with 'Visit not found' when there is no such visit;
     * otherwise replaces its `items` wholesale and resolves with the updated visit.
     */
    method UpdateVisitItems(visitId: int, items: seq<Item>) returns (r: Result<Visit, StoreError>)
      requires Valid()
      modifies this
      ensures Valid()
      ensures visitors == old(visitors) && nextKey == old(nextKey)
      ensures visitId !in old(visits) ==> r == Failure(VisitNotFound) && visits == old(visits)
      ensures visitId in old(visits) ==>
        && r == Success(old(visits)[visitId].(items := Some(items)))
        && visits == old(visits)[visitId := old(visits)[visitId].(items := Some(items))]
    {
      if visitId !in visits {
        r := Failure(VisitNotFound);
        return;
      }
      var visit := visits[visitId].(items := Some(items));
      var key := Store(visit, false);
      r := Success(visit);
    }

    /** `getAllVisits`: every visit, in ascending id order. */
    method GetAllVisits() returns (r: seq<Visit>)
      requires Valid()
      ensures r == AllVisits(visits)
      ensures forall v :: v in r <==> v in visits.Values
      ensures |r| == |visits| && AscendingIds(r)
    {
      r := AllVisits(visits);
    }

    /** `getActiveVisits`: exactly the visits without an egress time, in ascending id order. */
    method GetActiveVisits() returns (r: seq<Visit>)
      requires Valid()
      ensures forall v :: v in r <==> v in visits.Values && IsActive(v)
      ensures AscendingIds(r)
    {
      var all := AllVisits(visits);
      r := Filter(all, IsActive);
      forall v ensures v in r <==> v in visits.Values && IsActive(v) {
        FilterMembership(all, IsActive, v);
      }
      AscendingIdsAsPairwise(all);
      FilterKeepsOrder(all, IsActive, IdBefore);
      AscendingIdsAsPairwise(r);
    }

    /** `getVisitHistory`: the `visitorId` index holds exactly the visits of that visitor, in ascending id order. */
    method GetVisitHistory(visitorId: string) returns (r: seq<Visit>)
      requires Valid()
      ensures forall v :: v in r <==> v in visits.Values && v.visitorId == Some(visitorId)
      ensures AscendingIds(r)
    {
      var all := AllVisits(visits);
      var ofVisitor := (v: Visit) => v.visitorId == Some(visitorId);
      r := Filter(all, ofVisitor);
      forall v ensures v in r <==> v in visits.Values && v.visitorId == Some(visitorId) {
        FilterMembership(all, ofVisitor, v);
      }
      AscendingIdsAsPairwise(all);
      FilterKeepsOrder(all, ofVisitor, IdBefore);
      AscendingIdsAsPairwise(r);
    }

    /** `getVisit`: the visit stored under `visitId`, or `undefined`. */
    method GetVisit(visitId: int) returns (r: Option<Visit>)
      requires Valid()
      ensures r.Some? <==> visitId in visits
      ensures r.Some? ==> r.value == visits[visitId] && r.value.id == Some(visitId)
    {
      r := if visitId in visits then Some(visits[visitId]) else None;
    }
  }
}

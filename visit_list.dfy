/**
 * The visit list of the client (the effective `filterVisits`, the later of its two definitions
 * in the class): join each visit to its visitor, drop visits whose visitor is missing, filter
 * by status, filter by search text, sort newest first.
 */
module VisitList {
  import opened Wrappers
  import opened Text
  import opened Seqs
  import opened Records

  /** `{...visit, visitor}`: a visit joined with its visitor. */
  datatype Row = Row(visit: Visit, visitor: Visitor)

  /** Why the list could not be produced: `getVisitor(undefined)` rejects, since `undefined` is not a valid key. */
  datatype ListError = InvalidVisitorKey

  /** The visits whose visitor is in `visitors`, each carrying that visitor, in their original order. */
  function Join(visits: seq<Visit>, visitors: map<string, Visitor>): seq<Row> {
    if visits == [] then []
    else
      var v := visits[0];
      (if v.visitorId.Some? && v.visitorId.value in visitors then [Row(v, visitors[v.visitorId.value])] else [])
      + Join(visits[1..], visitors)
  }

  /** A row is in the join exactly when its visit is, its visitor was found, and it carries that visitor. */
  lemma {:induction false} JoinMembership(visits: seq<Visit>, visitors: map<string, Visitor>, row: Row)
    ensures row in Join(visits, visitors) <==>
      && row.visit in visits
      && row.visit.visitorId.Some?
      && row.visit.visitorId.value in visitors
      && row.visitor == visitors[row.visit.visitorId.value]
  {
    if visits != [] {
      JoinMembership(visits[1..], visitors, row);
      assert visits == [visits[0]] + visits[1..];
    }
  }

  lemma {:induction false} JoinConcat(a: seq<Visit>, b: seq<Visit>, visitors: map<string, Visitor>)
    ensures Join(a + b, visitors) == Join(a, visitors) + Join(b, visitors)
  {
    if a != [] {
      assert (a + b)[0] == a[0];
      assert (a + b)[1..] == a[1..] + b;
      JoinConcat(a[1..], b, visitors);
    } else {
      assert a + b == b;
    }
  }

  /** Two visitor maps that agree on every visitor the visits refer to give the same join. */
  lemma {:induction false} JoinAgrees(visits: seq<Visit>, m1: map<string, Visitor>, m2: map<string, Visitor>)
    requires forall i :: 0 <= i < |visits| && visits[i].visitorId.Some? ==>
      var id := visits[i].visitorId.value;
      (id in m1 <==> id in m2) && (id in m1 ==> m1[id] == m2[id])
    ensures Join(visits, m1) == Join(visits, m2)
  {
    if visits != [] {
      JoinAgrees(visits[1..], m1, m2);
    }
  }

  /** `statusFilter || 'all'`: an empty selection means every status. */
  function EffectiveStatus(status: string): string {
    if status == "" then "all" else status
  }

  /** The per-visit test of the status filter: 'active' and 'egressed' test the egress time, any other value keeps the visit. */
  predicate StatusKeeps(status: string, v: Visit) {
    if status == "active" then IsActive(v)
    else if status == "egressed" then IsEgressed(v)
    else true
  }

  /** The status filter, skipped altogether for 'all'. */
  function StatusFilter(rows: seq<Row>, status: string): seq<Row> {
    if status != "all" then Filter(rows, (r: Row) => StatusKeeps(status, r.visit)) else rows
  }

  /** A row matches the (already lower-cased) term on the name, the id number or the cell number. */
  predicate RowMatches(r: Row, term: string) {
    || Includes(Lower(r.visitor.fullName), term)
    || Includes(Lower(r.visitor.idNumber), term)
    || Includes(Lower(r.visitor.cellNumber), term)
  }

  /** The search filter, skipped altogether for an empty term. */
  function SearchFilter(rows: seq<Row>, term: string): seq<Row> {
    if term != "" then Filter(rows, (r: Row) => RowMatches(r, term)) else rows
  }

  function RowIngress(r: Row): Option<Time> {
    r.visit.ingressTime
  }

  /** The list the page shows for the given search input and status selection. */
  function ListRows(visits: seq<Visit>, visitors: map<string, Visitor>, search: string, status: string): seq<Row> {
    SelectRows(Join(visits, visitors), search, status)
  }

  /** Status filter, then search filter, then newest first, over already joined rows. */
  function SelectRows(joined: seq<Row>, search: string, status: string): seq<Row> {
    var byStatus := StatusFilter(joined, EffectiveStatus(status));
    var bySearch := SearchFilter(byStatus, Lower(search));
    SortNewestFirst(bySearch, RowIngress)
  }

  /** What `filterVisits` does as written: one visit without `visitorId` makes the whole listing fail. */
  function FilterOutcome(visits: seq<Visit>, visitors: map<string, Visitor>, search: string, status: string): Result<seq<Row>, ListError> {
    if forall i :: 0 <= i < |visits| ==> visits[i].visitorId.Some? then Success(ListRows(visits, visitors, search, status))
    else Failure(InvalidVisitorKey)
  }

  /**
   * The listing only depends on the visitors the visits refer to: a map that holds the same
   * visitor for each of them, and nothing for the missing ones, gives the same outcome.
   */
  lemma OutcomeFromLookups(visits: seq<Visit>, found: map<string, Visitor>, visitors: map<string, Visitor>, search: string, status: string)
    requires forall i :: 0 <= i < |visits| ==> visits[i].visitorId.Some?
    requires forall id :: id in found ==> id in visitors && found[id] == visitors[id]
    requires forall i :: 0 <= i < |visits| && visits[i].visitorId.value in visitors ==> visits[i].visitorId.value in found
    ensures FilterOutcome(visits, visitors, search, status) == Success(ListRows(visits, found, search, status))
  {
    JoinAgrees(visits, found, visitors);
  }

  /** One visit without `visitorId` anywhere in the list is enough for the listing to fail. */
  lemma OutcomeFails(visits: seq<Visit>, visitors: map<string, Visitor>, search: string, status: string)
    requires exists j :: 0 <= j < |visits| && visits[j].visitorId.None?
    ensures FilterOutcome(visits, visitors, search, status) == Failure(InvalidVisitorKey)
  {
  }

  /** 'active' keeps exactly the visits without egress, 'egressed' exactly those with one, together all of them once. */
  lemma StatusFilterExact(rows: seq<Row>, row: Row)
    ensures row in StatusFilter(rows, "active") <==> row in rows && IsActive(row.visit)
    ensures row in StatusFilter(rows, "egressed") <==> row in rows && IsEgressed(row.visit)
    ensures multiset(StatusFilter(rows, "active")) + multiset(StatusFilter(rows, "egressed")) == multiset(rows)
  {
    FilterMembership(rows, (r: Row) => StatusKeeps("active", r.visit), row);
    FilterMembership(rows, (r: Row) => StatusKeeps("egressed", r.visit), row);
    FilterPartition(rows, (r: Row) => StatusKeeps("active", r.visit), (r: Row) => StatusKeeps("egressed", r.visit));
  }

  /** Any status other than 'active' and 'egressed' ('all' included) keeps every row in its place. */
  lemma StatusFilterOther(rows: seq<Row>, status: string)
    requires status != "active" && status != "egressed"
    ensures StatusFilter(rows, status) == rows
  {
    if status != "all" {
      FilterKeepsAll(rows, (r: Row) => StatusKeeps(status, r.visit));
    }
  }

  /**
   * The effective `filterVisits`: a row is listed exactly when its visit is in the store with its
   * visitor found, passes the status selection and matches the lower-cased search term (or the
   * term is empty). The list is those rows, each as often as it occurs, newest first.
   */
  lemma ListRowsExact(visits: seq<Visit>, visitors: map<string, Visitor>, search: string, status: string, row: Row)
    ensures var term := Lower(search);
      row in ListRows(visits, visitors, search, status) <==>
        && row.visit in visits
        && row.visit.visitorId.Some? && row.visit.visitorId.value in visitors
        && row.visitor == visitors[row.visit.visitorId.value]
        && StatusKeeps(EffectiveStatus(status), row.visit)
        && (term == "" || RowMatches(row, term))
    ensures NewestFirst(ListRows(visits, visitors, search, status), RowIngress)
    ensures multiset(ListRows(visits, visitors, search, status))
      == multiset(SearchFilter(StatusFilter(Join(visits, visitors), EffectiveStatus(status)), Lower(search)))
  {
    var term := Lower(search);
    var st := EffectiveStatus(status);
    var joined := Join(visits, visitors);
    var byStatus := StatusFilter(joined, st);
    var bySearch := SearchFilter(byStatus, term);
    JoinMembership(visits, visitors, row);
    FilterMembership(joined, (r: Row) => StatusKeeps(st, r.visit), row);
    FilterMembership(byStatus, (r: Row) => RowMatches(r, term), row);
    assert row in ListRows(visits, visitors, search, status) <==> row in multiset(bySearch);
  }

  /** The intended behaviour: a visit without `visitorId` is skipped like any other orphan and changes nothing. */
  lemma ListRowsSkipsOrphans(visits: seq<Visit>, i: int, visitors: map<string, Visitor>, search: string, status: string)
    requires 0 <= i < |visits| && visits[i].visitorId.None?
    ensures ListRows(visits, visitors, search, status) == ListRows(visits[..i] + visits[i + 1..], visitors, search, status)
  {
    assert visits == visits[..i] + ([visits[i]] + visits[i + 1..]);
    JoinConcat(visits[..i], [visits[i]] + visits[i + 1..], visitors);
    JoinConcat([visits[i]], visits[i + 1..], visitors);
    JoinConcat(visits[..i], visits[i + 1..], visitors);
    assert Join([visits[i]], visitors) == [];
    assert Join(visits, visitors) == Join(visits[..i] + visits[i + 1..], visitors);
  }

  /** As written, one visit without `visitorId` blanks the list even when other visits would be shown. */
  lemma OrphanBlanksList(visitor: Visitor, t: Time)
    ensures var shown := Visit(Some(1), Some(visitor.idNumber), Some("Meeting"), Some(t), None, Some([]));
      var orphan := NoFields.(id := Some(2), egressTime := Some(t));
      var visitors := map[visitor.idNumber := visitor];
      && ListRows([shown, orphan], visitors, "", "all") == [Row(shown, visitor)]
      && FilterOutcome([shown, orphan], visitors, "", "all") == Failure(InvalidVisitorKey)
  {
    var shown := Visit(Some(1), Some(visitor.idNumber), Some("Meeting"), Some(t), None, Some([]));
    var orphan := NoFields.(id := Some(2), egressTime := Some(t));
    var visitors := map[visitor.idNumber := visitor];
    assert [shown, orphan][1..] == [orphan];
    assert Join([orphan], visitors) == [];
    assert Join([shown, orphan], visitors) == [Row(shown, visitor)];
    assert Lower("") == "";
    assert SortNewestFirst([Row(shown, visitor)], RowIngress) == [Row(shown, visitor)];
    assert [shown, orphan][1].visitorId.None?;
  }

  /** Two visits of one visitor at 09:00 and 11:00, listed with status 'all': the 11:00 visit comes first. */
  lemma LaterVisitListedFirst(visitor: Visitor, nine: Visit, eleven: Visit)
    requires nine.visitorId == Some(visitor.idNumber) && eleven.visitorId == Some(visitor.idNumber)
    requires nine.ingressTime == Some(9 * 3600000) && eleven.ingressTime == Some(11 * 3600000)
    ensures var rows := ListRows([nine, eleven], map[visitor.idNumber := visitor], "", "all");
      rows == [Row(eleven, visitor), Row(nine, visitor)]
  {
    var visitors := map[visitor.idNumber := visitor];
    assert [nine, eleven][1..] == [eleven];
    assert Join([eleven], visitors) == [Row(eleven, visitor)];
    assert Join([nine, eleven], visitors) == [Row(nine, visitor), Row(eleven, visitor)];
    assert Lower("") == "";
    var rows := ListRows([nine, eleven], visitors, "", "all");
    assert multiset(rows) == multiset([Row(nine, visitor), Row(eleven, visitor)]);
    assert |rows| == 2;
    assert NewestFirst(rows, RowIngress);
    assert Row(nine, visitor) in multiset(rows) && Row(eleven, visitor) in multiset(rows);
    assert nine != eleven;
  }
}

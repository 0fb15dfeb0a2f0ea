/**
 * The handlers of the client application class: they read the local store, write to it, and
 * remember the visit the user last opened (`currentVisitor`). Rendering, alerts, page changes and
 * timers are not part of this model; a handler's result stands for what it shows.
 */
module Client {
  import opened Wrappers
  import opened Seqs
  import opened Records
  import opened LocalStore
  import opened VisitList
  import opened Forms

  /** The fields of the registration form. */
  datatype RegistrationForm = RegistrationForm(fullName: string, idNumber: string, cellNumber: string, purpose: string)

  function VisitIngress(v: Visit): Option<Time> {
    v.ingressTime
  }

  class App {
    const db: VisitorDB
    /** The visit last opened for editing, viewing or duplicating, with its visitor if one was found. */
    var currentVisitor: Option<Selection>

    /**
     * The store is consistent, and a selection that carries an id refers to a stored visit:
     * selections come from the store, and no operation removes a visit.
     */
    ghost predicate Valid()
      reads this, db
    {
      && db.Valid()
      && (currentVisitor.Some? && currentVisitor.value.visit.id.Some? ==> currentVisitor.value.visit.id.value in db.visits)
    }

    constructor (db: VisitorDB)
      requires db.Valid()
      ensures Valid()
      ensures this.db == db && currentVisitor.None?
    {
      this.db := db;
      currentVisitor := None;
    }

    /**
     * `loadVisitorList`: hands every stored visit to the renderer, newest first, a visit without
     * ingress time last. The sort is stable, so visits with the same ingress time keep the
     * ascending id order in which `getAll` returned them.
     */
    method LoadVisitorList() returns (rendered: seq<Visit>)
      requires Valid()
      ensures NewestFirst(rendered, VisitIngress)
      ensures |rendered| == |db.visits|
      ensures forall v :: v in rendered <==> v in db.visits.Values
      ensures forall c :: Filter(rendered, SameKey(VisitIngress, c)) == Filter(AllVisits(db.visits), SameKey(VisitIngress, c))
      ensures forall c :: AscendingIds(Filter(rendered, SameKey(VisitIngress, c)))
    {
      var visits := db.GetAllVisits();
      rendered := SortNewestFirst(visits, VisitIngress);
      assert forall v :: v in rendered <==> v in multiset(rendered);
      assert forall v :: v in visits <==> v in multiset(visits);
      assert |rendered| == |multiset(rendered)|;
      AscendingIdsAsPairwise(visits);
      forall c
        ensures Filter(rendered, SameKey(VisitIngress, c)) == Filter(visits, SameKey(VisitIngress, c))
        ensures AscendingIds(Filter(rendered, SameKey(VisitIngress, c)))
      {
        SortStable(visits, VisitIngress, c);
        FilterKeepsOrder(visits, SameKey(VisitIngress, c), IdBefore);
        AscendingIdsAsPairwise(Filter(visits, SameKey(VisitIngress, c)));
      }
    }

    /**
     * The lookup loop of `filterVisits`: fetches the visitor of each visit once, in order, and
     * keeps the ones found. A visit without `visitorId` makes the lookup reject.
     */
    method LookupVisitors(visits: seq<Visit>) returns (r: Result<map<string, Visitor>, ListError>)
      requires Valid()
      ensures r.Failure? <==> exists j :: 0 <= j < |visits| && visits[j].visitorId.None?
      ensures r.Success? ==> forall id :: id in r.value ==> id in db.visitors && r.value[id] == db.visitors[id]
      ensures r.Success? ==> forall j :: 0 <= j < |visits| && visits[j].visitorId.value in db.visitors ==> visits[j].visitorId.value in r.value
    {
      var found: map<string, Visitor> := map[];
      var i := 0;
      while i < |visits|
        invariant 0 <= i <= |visits|
        invariant forall j :: 0 <= j < i ==> visits[j].visitorId.Some?
        invariant forall id :: id in found ==> id in db.visitors && found[id] == db.visitors[id]
        invariant forall j :: 0 <= j < i && visits[j].visitorId.value in db.visitors ==> visits[j].visitorId.value in found
      {
        var v := visits[i];
        if v.visitorId.None? {
          return Failure(InvalidVisitorKey);
        }
        if v.visitorId.value !in found {
          var visitor := db.GetVisitor(v.visitorId.value);
          if visitor.Some? {
            found := found[v.visitorId.value := visitor.value];
          }
        }
        i := i + 1;
      }
      r := Success(found);
    }

    /**
     * `filterVisits`: looks up the visitors, then lists the joined rows. The first visit without
     * `visitorId` makes the whole listing fail; the page then shows an empty list.
     */
    method FilterVisits(search: string, status: string) returns (r: Result<seq<Row>, ListError>)
      requires Valid()
      ensures r == FilterOutcome(AllVisits(db.visits), db.visitors, search, status)
    {
      var visits := db.GetAllVisits();
      var found := LookupVisitors(visits);
      if found.Failure? {
        OutcomeFails(visits, db.visitors, search, status);
        return Failure(InvalidVisitorKey);
      }
      assert forall i :: 0 <= i < |visits| ==> visits[i].visitorId.Some?;
      OutcomeFromLookups(visits, found.value, db.visitors, search, status);
      r := Success(ListRows(visits, found.value, search, status));
    }

    /**
     * `handleVisitorRegistration`: adds the visitor only when no visitor with that id number is
     * stored (an existing one keeps its details), then adds an active visit for that id number
     * carrying the rows with a name and an identifier. The two writes are separate transactions:
     * a failed visit leaves the visitor added.
     */
    method HandleVisitorRegistration(form: RegistrationForm, rows: seq<Item>, now: Time) returns (r: Result<int, UiError>)
      requires Valid()
      modifies db
      ensures Valid()
      ensures db.visitors ==
        if form.idNumber in old(db.visitors) then old(db.visitors)
        else old(db.visitors)[form.idNumber := Visitor(form.idNumber, form.fullName, form.cellNumber)]
      ensures r.Failure? <==> old(db.nextKey) > MaxGeneratedKey
      ensures r.Failure? ==> r.error == StoreFailed && db.visits == old(db.visits) && db.nextKey == old(db.nextKey)
      ensures r.Success? ==>
        && r.value == old(db.nextKey) && db.nextKey == old(db.nextKey) + 1
        && r.value !in old(db.visits)
        && db.visits == old(db.visits)[r.value := Visit(Some(r.value), Some(form.idNumber), Some(form.purpose), Some(now), None, Some(Filter(rows, HasNameAndIdentifier)))]
    {
      var items := CollectItemsData(rows);
      var visitData := Visit(None, Some(form.idNumber), Some(form.purpose), Some(now), None, Some(items));
      var existing := db.GetVisitor(form.idNumber);
      if existing.None? {
        var _ := db.AddVisitor(Visitor(form.idNumber, form.fullName, form.cellNumber));
      }
      var added := db.AddVisit(visitData);
      if added.Failure? {
        r := Failure(StoreFailed);
        return;
      }
      r := Success(added.value);
    }

    /**
     * `editVisit`: selects the visit and its visitor for the update form. A missing visit or
     * visitor stops it with nothing selected anew; a visit without `visitorId` is an invalid key.
     */
    method EditVisit(visitId: int) returns (r: Result<Selection, UiError>)
      requires Valid()
      modifies this
      ensures Valid()
      ensures visitId !in db.visits ==> r == Failure(UiError.VisitNotFound)
      ensures visitId in db.visits && db.visits[visitId].visitorId.None? ==> r == Failure(ScriptError)
      ensures visitId in db.visits && db.visits[visitId].visitorId.Some? ==>
        var who := db.visits[visitId].visitorId.value;
        if who in db.visitors then r == Success(Selection(db.visits[visitId], Some(db.visitors[who])))
        else r == Failure(VisitorNotFound)
      ensures r.Success? ==> currentVisitor == Some(r.value)
      ensures r.Failure? ==> currentVisitor == old(currentVisitor)
    {
      var visit := db.GetVisit(visitId);
      if visit.None? {
        r := Failure(UiError.VisitNotFound);
        return;
      }
      if visit.value.visitorId.None? {
        r := Failure(ScriptError);
        return;
      }
      var visitor := db.GetVisitor(visit.value.visitorId.value);
      if visitor.None? {
        r := Failure(VisitorNotFound);
        return;
      }
      r := Success(Selection(visit.value, visitor));
      currentVisitor := Some(r.value);
    }

    /**
     * `viewVisitorCard`: selects the visit with whatever the visitor lookup returned, then renders
     * the card, which needs the visitor and the items. A render failure leaves the selection made.
     */
    method ViewVisitorCard(visitId: int) returns (r: Result<Selection, UiError>)
      requires Valid()
      modifies this
      ensures Valid()
      ensures visitId !in db.visits || db.visits[visitId].visitorId.None? ==>
        r == Failure(ScriptError) && currentVisitor == old(currentVisitor)
      ensures visitId in db.visits && db.visits[visitId].visitorId.Some? ==>
        var visit := db.visits[visitId];
        var sel := Selection(visit, Lookup(db.visitors, visit.visitorId.value));
        && currentVisitor == Some(sel)
        && r == if sel.visitor.Some? && visit.items.Some? then Success(sel) else Failure(ScriptError)
    {
      var visit := db.GetVisit(visitId);
      if visit.None? || visit.value.visitorId.None? {
        r := Failure(ScriptError);
        return;
      }
      var visitor := db.GetVisitor(visit.value.visitorId.value);
      var sel := Selection(visit.value, visitor);
      currentVisitor := Some(sel);
      r := if visitor.Some? && visit.value.items.Some? then Success(sel) else Failure(ScriptError);
    }

    /**
     * `handleUpdateVisit`: validates the form against the selection, then merges the trimmed
     * purpose and items into the selected visit. The visitor fields it builds are handed to the
     * store, which ignores them: no visitor changes.
     */
    method HandleUpdateVisit(form: UpdateForm) returns (r: Result<Visit, UiError>)
      requires Valid()
      modifies db
      ensures Valid()
      ensures db.visitors == old(db.visitors) && db.nextKey == old(db.nextKey)
      ensures BuildUpdate(currentVisitor, form).Failure? ==>
        r == Failure(BuildUpdate(currentVisitor, form).error) && db.visits == old(db.visits)
      ensures BuildUpdate(currentVisitor, form).Success? && currentVisitor.value.visit.id.None? ==>
        r == Failure(ScriptError) && db.visits == old(db.visits)
      ensures BuildUpdate(currentVisitor, form).Success? && currentVisitor.value.visit.id.Some? ==>
        var id := currentVisitor.value.visit.id.value;
        var data := BuildUpdate(currentVisitor, form).value.visitData;
        && r == Success(Merge(old(db.visits)[id], data))
        && db.visits == old(db.visits)[id := Merge(old(db.visits)[id], data)]
    {
      var req := BuildUpdate(currentVisitor, form);
      if req.Failure? {
        r := Failure(req.error);
        return;
      }
      if req.value.visitId.None? {
        r := Failure(ScriptError);
        return;
      }
      UpdateAccepted(currentVisitor, form);
      var u := db.UpdateVisit(req.value.visitId.value, req.value.visitData);
      r := if u.Success? then Success(u.value) else Failure(StoreFailed);
    }

    /**
     * `handleCardEgress`: needs a selection with a visitor; stamps the egress time on the selected
     * visit. A visit already egressed gets the new time.
     */
    method HandleCardEgress(now: Time) returns (r: Result<Visit, UiError>)
      requires Valid()
      modifies db
      ensures Valid()
      ensures db.visitors == old(db.visitors) && db.nextKey == old(db.nextKey)
      ensures currentVisitor.None? || currentVisitor.value.visitor.None? ==>
        r == Failure(NoVisitorForEgress) && db.visits == old(db.visits)
      ensures currentVisitor.Some? && currentVisitor.value.visitor.Some? && currentVisitor.value.visit.id.None? ==>
        r == Failure(ScriptError) && db.visits == old(db.visits)
      ensures currentVisitor.Some? && currentVisitor.value.visitor.Some? && currentVisitor.value.visit.id.Some? ==>
        var id := currentVisitor.value.visit.id.value;
        && r == Success(old(db.visits)[id].(egressTime := Some(now)))
        && db.visits == old(db.visits)[id := old(db.visits)[id].(egressTime := Some(now))]
        && IsEgressed(db.visits[id])
    {
      if currentVisitor.None? || currentVisitor.value.visitor.None? {
        r := Failure(NoVisitorForEgress);
        return;
      }
      if currentVisitor.value.visit.id.None? {
        r := Failure(ScriptError);
        return;
      }
      var u := db.UpdateVisit(currentVisitor.value.visit.id.value, NoFields.(egressTime := Some(now)));
      r := if u.Success? then Success(u.value) else Failure(StoreFailed);
    }

    /**
     * `handleListEgress`: stamps the egress time on the visit with that id. There is no
     * not-found check: for an id the store lacks, a new record holding only the egress time is
     * added under a generated key.
     */
    method HandleListEgress(visitId: int, now: Time) returns (r: Result<Visit, UiError>)
      requires Valid()
      modifies db
      ensures Valid()
      ensures db.visitors == old(db.visitors)
      ensures visitId in old(db.visits) ==>
        && r == Success(old(db.visits)[visitId].(egressTime := Some(now)))
        && db.visits == old(db.visits)[visitId := old(db.visits)[visitId].(egressTime := Some(now))]
        && db.nextKey == old(db.nextKey)
      ensures visitId !in old(db.visits) && old(db.nextKey) <= MaxGeneratedKey ==>
        && r == Success(NoFields.(egressTime := Some(now)))
        && db.visits == old(db.visits)[old(db.nextKey) := NoFields.(id := Some(old(db.nextKey)), egressTime := Some(now))]
        && db.nextKey == old(db.nextKey) + 1
      ensures visitId !in old(db.visits) && old(db.nextKey) > MaxGeneratedKey ==>
        r == Failure(StoreFailed) && db.visits == old(db.visits) && db.nextKey == old(db.nextKey)
    {
      var u := db.UpdateVisit(visitId, NoFields.(egressTime := Some(now)));
      r := if u.Success? then Success(u.value) else Failure(StoreFailed);
    }

    /**
     * `deleteVisitorItem`: on an active visit with items, removes the item at `index` as
     * `splice(index, 1)` does, writes the items back, then reopens the card (whose own failure
     * is reported separately and does not undo the removal).
     */
    method DeleteVisitorItem(visitId: int, index: int) returns (r: Result<Visit, UiError>)
      requires Valid()
      modifies this, db
      ensures Valid()
      ensures db.visitors == old(db.visitors) && db.nextKey == old(db.nextKey)
      ensures visitId !in old(db.visits) || IsEgressed(old(db.visits)[visitId]) ==>
        r == Failure(CannotDeleteItem) && db.visits == old(db.visits) && currentVisitor == old(currentVisitor)
      ensures visitId in old(db.visits) && IsActive(old(db.visits)[visitId]) && old(db.visits)[visitId].items.None? ==>
        r == Failure(ScriptError) && db.visits == old(db.visits) && currentVisitor == old(currentVisitor)
      ensures visitId in old(db.visits) && IsActive(old(db.visits)[visitId]) && old(db.visits)[visitId].items.Some? ==>
        var visit := old(db.visits)[visitId];
        var updated := visit.(items := Some(SpliceOne(visit.items.value, index)));
        && r == Success(updated)
        && db.visits == old(db.visits)[visitId := updated]
        && (visit.visitorId.Some? ==> currentVisitor == Some(Selection(updated, Lookup(db.visitors, visit.visitorId.value))))
        && (visit.visitorId.None? ==> currentVisitor == old(currentVisitor))
    {
      var visit := db.GetVisit(visitId);
      if visit.None? || IsEgressed(visit.value) {
        r := Failure(CannotDeleteItem);
        return;
      }
      if visit.value.items.None? {
        r := Failure(ScriptError);
        return;
      }
      var updated := SpliceOne(visit.value.items.value, index);
      var u := db.UpdateVisitItems(visitId, updated);
      var _ := ViewVisitorCard(visitId);
      r := if u.Success? then Success(u.value) else Failure(StoreFailed);
    }

    /**
     * `duplicateVisit`: selects a draft of a new visit for the same visitor, purpose and items,
     * arriving now; nothing is stored until the registration form is submitted. A missing
     * visit, or one without `visitorId` or items, fails before the visitor check.
     */
    method DuplicateVisit(visitId: int, now: Time) returns (r: Result<Selection, UiError>)
      requires Valid()
      modifies this
      ensures Valid()
      ensures visitId !in db.visits || db.visits[visitId].visitorId.None? ==>
        r == Failure(ScriptError)
      ensures visitId in db.visits && db.visits[visitId].visitorId.Some? ==>
        var visit := db.visits[visitId];
        var who := visit.visitorId.value;
        if who !in db.visitors then r == Failure(VisitOrVisitorMissing)
        else if visit.items.None? then r == Failure(ScriptError)
        else r == Success(Selection(DuplicateDraft(visit, now), Some(db.visitors[who])))
      ensures r.Success? ==> currentVisitor == Some(r.value) && r.value.visit.id.None? && IsActive(r.value.visit)
      ensures r.Failure? ==> currentVisitor == old(currentVisitor)
    {
      var visit := db.GetVisit(visitId);
      if visit.None? || visit.value.visitorId.None? {
        r := Failure(ScriptError);
        return;
      }
      var visitor := db.GetVisitor(visit.value.visitorId.value);
      if visitor.None? {
        r := Failure(VisitOrVisitorMissing);
        return;
      }
      if visit.value.items.None? {
        r := Failure(ScriptError);
        return;
      }
      r := Success(Selection(DuplicateDraft(visit.value, now), visitor));
      currentVisitor := Some(r.value);
    }
  }
}

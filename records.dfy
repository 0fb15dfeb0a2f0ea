/**
 * The two entities the register keeps. A record in the browser store is a plain JavaScript
 * object, so every Visit field may be absent; `None` stands for a property that is missing,
 * `undefined` or `null`, each of which the code treats as falsy.
 */
module Records {
  import opened Wrappers

  /** Milliseconds since the epoch: what `new Date(...)` turns a stored time into. */
  type Time = int

  /** One carried item. `itemType` is free text (the form offers personal, company, supply, other). */
  datatype Item = Item(name: string, identifier: string, itemType: string)

  /** A visitor, keyed by `idNumber` in both the browser store and the central authority. */
  datatype Visitor = Visitor(idNumber: string, fullName: string, cellNumber: string)

  /** A visit record. `egressTime == None` is an active visit (`!visit.egressTime`). */
  datatype Visit = Visit(
    id: Option<int>,
    visitorId: Option<string>,
    purpose: Option<string>,
    ingressTime: Option<Time>,
    egressTime: Option<Time>,
    items: Option<seq<Item>>)

  /** The object with no own properties; spreading `undefined` contributes exactly this. */
  const NoFields := Visit(None, None, None, None, None, None)

  function Override<T>(old_: Option<T>, new_: Option<T>): Option<T> {
    if new_.Some? then new_ else old_
  }

  /**
   * `{...base, ...updates}`: every property `updates` carries with a non-null value wins, every
   * other one is inherited from `base`. A property present as `null` or `undefined` would also
   * win in JavaScript; the record cannot express that case, and no caller sends one.
   */
  function Merge(base: Visit, updates: Visit): Visit {
    Visit(
      Override(base.id, updates.id),
      Override(base.visitorId, updates.visitorId),
      Override(base.purpose, updates.purpose),
      Override(base.ingressTime, updates.ingressTime),
      Override(base.egressTime, updates.egressTime),
      Override(base.items, updates.items))
  }

  /** `!visit.egressTime`: no egress has been recorded. */
  predicate IsActive(v: Visit) {
    v.egressTime.None?
  }

  /** `visit.egressTime` is truthy: the visitor has left. */
  predicate IsEgressed(v: Visit) {
    v.egressTime.Some?
  }

  /** Spreading a record over nothing gives the updates alone; spreading no updates changes nothing. */
  lemma MergeIdentities(v: Visit)
    ensures Merge(NoFields, v) == v
    ensures Merge(v, NoFields) == v
  {
  }

  /** Applying the same updates twice is the same as applying them once. */
  lemma MergeIdempotent(v: Visit, u: Visit)
    ensures Merge(Merge(v, u), u) == Merge(v, u)
  {
  }

  /** Two successive merges are one merge with the later updates layered over the earlier ones. */
  lemma MergeAssociative(v: Visit, u: Visit, w: Visit)
    ensures Merge(Merge(v, u), w) == Merge(v, Merge(u, w))
  {
  }

  /**
   * Nothing in the merge protects a visit's identity or arrival time: updates that carry
   * `ingressTime` or `visitorId` replace them.
   */
  lemma MergeOverwritesIdentity(v: Visit, t: Time, who: string)
    ensures var u := NoFields.(ingressTime := Some(t), visitorId := Some(who));
      Merge(v, u).ingressTime == Some(t) && Merge(v, u).visitorId == Some(who)
  {
  }

  /** Updates that leave `id`, `visitorId` and `ingressTime` absent keep all three from the base record. */
  lemma MergeKeepsIdentity(v: Visit, u: Visit)
    requires u.id.None? && u.visitorId.None? && u.ingressTime.None?
    ensures Merge(v, u).id == v.id && Merge(v, u).visitorId == v.visitorId
    ensures Merge(v, u).ingressTime == v.ingressTime
  {
  }
}

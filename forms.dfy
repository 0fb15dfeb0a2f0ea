/**
 * The record rules the client applies around its forms: `escapeHtml`, the item rows
 * `collectItemsData` keeps, the validation in `handleUpdateVisit`, the removal done by
 * `deleteVisitorItem` and the draft `duplicateVisit` prepares.
 */
module Forms {
  import opened Wrappers
  import opened Text
  import opened Seqs
  import opened Records

  // ---------------------------------------------------------------- escapeHtml

  /** `s.replace(/c/g, repl)`. */
  function ReplaceAll(s: string, c: char, repl: string): string {
    if s == [] then [] else (if s[0] == c then repl else [s[0]]) + ReplaceAll(s[1..], c, repl)
  }

  /** The entity `escapeHtml` ends up writing for one character. */
  function EntityOf(c: char): string {
    if c == '&' then "&amp;"
    else if c == '<' then "&lt;"
    else if c == '>' then "&gt;"
    else if c == '"' then "&quot;"
    else if c == '\'' then "&#039;"
    else [c]
  }

  /** Every character replaced by its entity, independently of its neighbours. */
  function Escaped(s: string): string {
    if s == [] then [] else EntityOf(s[0]) + Escaped(s[1..])
  }

  predicate IsMarkup(c: char) {
    c == '&' || c == '<' || c == '>' || c == '"' || c == '\''
  }

  /** The five global replacements, `&` first. */
  function ReplaceChain(s: string): string {
    ReplaceAll(ReplaceAll(ReplaceAll(ReplaceAll(ReplaceAll(s, '&', "&amp;"), '<', "&lt;"), '>', "&gt;"), '"', "&quot;"), '\'', "&#039;")
  }

  /** `escapeHtml(unsafe)`: '' for a falsy argument, otherwise the five replacements. */
  function EscapeHtml(unsafe: Option<string>): string {
    if unsafe.None? || unsafe.value == "" then "" else ReplaceChain(unsafe.value)
  }

  lemma {:induction false} ReplaceAllConcat(a: string, b: string, c: char, repl: string)
    ensures ReplaceAll(a + b, c, repl) == ReplaceAll(a, c, repl) + ReplaceAll(b, c, repl)
  {
    if a == [] {
      assert a + b == b;
    } else {
      assert (a + b)[0] == a[0];
      assert (a + b)[1..] == a[1..] + b;
      ReplaceAllConcat(a[1..], b, c, repl);
    }
  }

  lemma {:induction false} ReplaceAbsent(s: string, c: char, repl: string)
    requires c !in s
    ensures ReplaceAll(s, c, repl) == s
  {
    if s != [] {
      ReplaceAbsent(s[1..], c, repl);
      assert s == [s[0]] + s[1..];
    }
  }

  lemma ReplaceChainConcat(a: string, b: string)
    ensures ReplaceChain(a + b) == ReplaceChain(a) + ReplaceChain(b)
  {
    ReplaceAllConcat(a, b, '&', "&amp;");
    var a1, b1 := ReplaceAll(a, '&', "&amp;"), ReplaceAll(b, '&', "&amp;");
    ReplaceAllConcat(a1, b1, '<', "&lt;");
    var a2, b2 := ReplaceAll(a1, '<', "&lt;"), ReplaceAll(b1, '<', "&lt;");
    ReplaceAllConcat(a2, b2, '>', "&gt;");
    var a3, b3 := ReplaceAll(a2, '>', "&gt;"), ReplaceAll(b2, '>', "&gt;");
    ReplaceAllConcat(a3, b3, '"', "&quot;");
    var a4, b4 := ReplaceAll(a3, '"', "&quot;"), ReplaceAll(b3, '"', "&quot;");
    ReplaceAllConcat(a4, b4, '\'', "&#039;");
  }

  lemma ReplaceSingle(x: char, c: char, repl: string)
    ensures ReplaceAll([x], c, repl) == if x == c then repl else [x]
  {
    assert [x][1..] == [];
  }

  /** Once a character has become `e`, the remaining replacements leave `e` alone. */
  lemma ChainTail(e: string, from: nat)
    requires from <= 4
    requires from <= 1 ==> '<' !in e
    requires from <= 2 ==> '>' !in e
    requires from <= 3 ==> '"' !in e
    requires '\'' !in e
    ensures from == 1 ==> ReplaceAll(ReplaceAll(ReplaceAll(ReplaceAll(e, '<', "&lt;"), '>', "&gt;"), '"', "&quot;"), '\'', "&#039;") == e
    ensures from == 2 ==> ReplaceAll(ReplaceAll(ReplaceAll(e, '>', "&gt;"), '"', "&quot;"), '\'', "&#039;") == e
    ensures from == 3 ==> ReplaceAll(ReplaceAll(e, '"', "&quot;"), '\'', "&#039;") == e
    ensures from == 4 ==> ReplaceAll(e, '\'', "&#039;") == e
  {
    if from <= 1 { ReplaceAbsent(e, '<', "&lt;"); }
    if from <= 2 { ReplaceAbsent(e, '>', "&gt;"); }
    if from <= 3 { ReplaceAbsent(e, '"', "&quot;"); }
    ReplaceAbsent(e, '\'', "&#039;");
  }

  lemma ReplaceChainChar(c: char)
    ensures ReplaceChain([c]) == EntityOf(c)
  {
    ReplaceSingle(c, '&', "&amp;");
    if c == '&' {
      ChainTail("&amp;", 1);
      return;
    }
    ReplaceSingle(c, '<', "&lt;");
    if c == '<' {
      ChainTail("&lt;", 2);
      return;
    }
    ReplaceSingle(c, '>', "&gt;");
    if c == '>' {
      ChainTail("&gt;", 3);
      return;
    }
    ReplaceSingle(c, '"', "&quot;");
    if c == '"' {
      ChainTail("&quot;", 4);
      return;
    }
    ReplaceSingle(c, '\'', "&#039;");
  }

  /**
   * `&` is replaced first, so no entity is escaped a second time: each character of the input is
   * escaped exactly once, on its own. A falsy argument gives ''.
   */
  lemma {:induction false} EscapeHtmlCharwise(s: string)
    ensures EscapeHtml(Some(s)) == Escaped(s)
    ensures EscapeHtml(None) == ""
  {
    if s != [] {
      EscapeHtmlCharwise(s[1..]);
      assert s == [s[0]] + s[1..];
      ReplaceChainConcat([s[0]], s[1..]);
      ReplaceChainChar(s[0]);
    }
  }

  /** The escaped text contains no `<`, `>`, `"` or `'`. */
  lemma {:induction false} EscapeHtmlSafe(s: string)
    ensures forall i :: 0 <= i < |EscapeHtml(Some(s))| ==> EscapeHtml(Some(s))[i] !in "<>\"'"
  {
    EscapeHtmlCharwise(s);
    EscapedSafe(s);
  }

  lemma {:induction false} EscapedSafe(s: string)
    ensures forall i :: 0 <= i < |Escaped(s)| ==> Escaped(s)[i] !in "<>\"'"
  {
    if s != [] {
      EscapedSafe(s[1..]);
      var e := EntityOf(s[0]);
      assert forall i :: 0 <= i < |e| ==> e[i] !in "<>\"'";
    }
  }

  /** Text free of the five special characters is returned unchanged. */
  lemma {:induction false} EscapeHtmlPlain(s: string)
    requires forall i :: 0 <= i < |s| ==> !IsMarkup(s[i])
    ensures EscapeHtml(Some(s)) == s
  {
    EscapeHtmlCharwise(s);
    EscapedPlain(s);
  }

  lemma {:induction false} EscapedPlain(s: string)
    requires forall i :: 0 <= i < |s| ==> !IsMarkup(s[i])
    ensures Escaped(s) == s
  {
    if s != [] {
      EscapedPlain(s[1..]);
      assert s == [s[0]] + s[1..];
    }
  }

  /** What a browser reads back from escaped text: the five entities decoded, every other character kept. */
  function Unescape(s: string): string
    decreases |s|
  {
    if s == [] then []
    else if StartsWith(s, "&amp;") then "&" + Unescape(s[5..])
    else if StartsWith(s, "&lt;") then "<" + Unescape(s[4..])
    else if StartsWith(s, "&gt;") then ">" + Unescape(s[4..])
    else if StartsWith(s, "&quot;") then "\"" + Unescape(s[6..])
    else if StartsWith(s, "&#039;") then "'" + Unescape(s[6..])
    else [s[0]] + Unescape(s[1..])
  }

  /** Escaping loses nothing: decoding the entities gives back the original text. */
  lemma {:induction false} EscapeHtmlRoundTrip(s: string)
    ensures Unescape(EscapeHtml(Some(s))) == s
  {
    EscapeHtmlCharwise(s);
    UnescapeEscaped(s);
  }

  /** A text that differs from `p` at some position inside both does not start with `p`. */
  lemma DiffersAt(t: string, p: string, k: nat)
    requires k < |t| && k < |p| && t[k] != p[k]
    ensures !StartsWith(t, p)
  {
    if |p| <= |t| {
      assert t[..|p|][k] == t[k];
    }
  }

  /** Decoding an escaped character in front of any text gives back that character first. */
  lemma UnescapeEntity(c: char, rest: string)
    ensures Unescape(EntityOf(c) + rest) == [c] + Unescape(rest)
  {
    var e := EntityOf(c);
    var t := e + rest;
    assert t[..|e|] == e && t[|e|..] == rest;
    if c == '&' {
      assert StartsWith(t, "&amp;");
    } else if c == '<' {
      DiffersAt(t, "&amp;", 1);
      assert StartsWith(t, "&lt;");
    } else if c == '>' {
      DiffersAt(t, "&amp;", 1);
      DiffersAt(t, "&lt;", 1);
      assert StartsWith(t, "&gt;");
    } else if c == '"' {
      DiffersAt(t, "&amp;", 1);
      DiffersAt(t, "&lt;", 1);
      DiffersAt(t, "&gt;", 1);
      assert StartsWith(t, "&quot;");
    } else if c == '\'' {
      DiffersAt(t, "&amp;", 1);
      DiffersAt(t, "&lt;", 1);
      DiffersAt(t, "&gt;", 1);
      DiffersAt(t, "&quot;", 1);
      assert StartsWith(t, "&#039;");
    } else {
      DiffersAt(t, "&amp;", 0);
      DiffersAt(t, "&lt;", 0);
      DiffersAt(t, "&gt;", 0);
      DiffersAt(t, "&quot;", 0);
      DiffersAt(t, "&#039;", 0);
    }
  }

  lemma {:induction false} UnescapeEscaped(s: string)
    ensures Unescape(Escaped(s)) == s
  {
    if s != [] {
      UnescapeEscaped(s[1..]);
      UnescapeEntity(s[0], Escaped(s[1..]));
      assert s == [s[0]] + s[1..];
    }
  }

  // ---------------------------------------------------------------- item rows

  /** `collectItemsData` keeps a row when its name and identifier are both non-empty (truthy). */
  predicate HasNameAndIdentifier(row: Item) {
    row.name != "" && row.identifier != ""
  }

  /** `collectItemsData`: reads the rows in order and pushes the ones with a name and an identifier. */
  method CollectItemsData(rows: seq<Item>) returns (items: seq<Item>)
    ensures items == Filter(rows, HasNameAndIdentifier)
    ensures forall x :: x in items <==> x in rows && x.name != "" && x.identifier != ""
  {
    items := [];
    for i := 0 to |rows|
      invariant items == Filter(rows[..i], HasNameAndIdentifier)
    {
      FilterSnoc(rows[..i], rows[i], HasNameAndIdentifier);
      assert rows[..i + 1] == rows[..i] + [rows[i]];
      if rows[i].name != "" && rows[i].identifier != "" {
        items := items + [rows[i]];
      }
    }
    assert rows[..|rows|] == rows;
    forall x ensures x in items <==> x in rows && x.name != "" && x.identifier != "" {
      FilterMembership(rows, HasNameAndIdentifier, x);
    }
  }

  // ---------------------------------------------------------------- the update form

  /** What the client has selected: the visit and, when the lookup found one, its visitor. */
  datatype Selection = Selection(visit: Visit, visitor: Option<Visitor>)

  /** The raw values of the update form. `idNumber` is read but never used. */
  datatype UpdateForm = UpdateForm(
    purpose: string, fullName: string, cellNumber: string, idNumber: string, itemRows: seq<Item>)

  /** What `handleUpdateVisit` passes to `updateVisit`: the id, the visit fields, and the visitor fields. */
  datatype UpdateRequest = UpdateRequest(visitId: Option<int>, visitData: Visit, visitor: Visitor)

  /** Why a handler gave up; each stands for the message the handler shows. */
  datatype UiError =
    | NoVisitorForUpdate    // 'No visitor data found for update'
    | MissingFields         // 'Please fill in all required fields'
    | NoVisitorForEgress    // 'No visitor data found for egress'
    | VisitNotFound         // 'Visit not found'
    | VisitorNotFound       // 'Visitor not found'
    | CannotDeleteItem      // 'Cannot delete item: Visit not found or already egressed'
    | VisitOrVisitorMissing // 'Visit or visitor data not found'
    | ScriptError           // a TypeError on a missing property, or a DataError on an undefined key
    | StoreFailed           // the store request rejected

  function TrimItem(row: Item): Item {
    Item(Trim(row.name), Trim(row.identifier), Trim(row.itemType))
  }

  function TrimItems(rows: seq<Item>): (r: seq<Item>)
    ensures |r| == |rows|
    ensures forall i :: 0 <= i < |rows| ==> r[i] == TrimItem(rows[i])
  {
    if rows == [] then [] else [TrimItem(rows[0])] + TrimItems(rows[1..])
  }

  predicate ItemComplete(item: Item) {
    item.name != "" && item.identifier != "" && item.itemType != ""
  }

  /** `!purpose || items.some(item => !item.name || !item.identifier || !item.type)` on the trimmed values. */
  predicate Rejected(form: UpdateForm) {
    Trim(form.purpose) == "" || !AllComplete(TrimItems(form.itemRows))
  }

  predicate AllComplete(items: seq<Item>) {
    forall i :: 0 <= i < |items| ==> ItemComplete(items[i])
  }

  /**
   * The part of `handleUpdateVisit` before it writes: it needs a selection, trims every field,
   * refuses an empty purpose or an incomplete item, and builds the visitor from the selection.
   */
  function BuildUpdate(current: Option<Selection>, form: UpdateForm): Result<UpdateRequest, UiError> {
    if current.None? then Failure(NoVisitorForUpdate)
    else
      var items := TrimItems(form.itemRows);
      var purpose := Trim(form.purpose);
      if Rejected(form) then Failure(MissingFields)
      else if current.value.visitor.None? then Failure(ScriptError)
      else Success(UpdateRequest(
        current.value.visit.id,
        NoFields.(purpose := Some(purpose), items := Some(items)),
        Visitor(current.value.visitor.value.idNumber, Trim(form.fullName), Trim(form.cellNumber))))
  }

  /** A field is blank when it is empty or white space only, which is what `!value.trim()` tests. */
  ghost predicate Blank(s: string) {
    forall i :: 0 <= i < |s| ==> IsJsSpace(s[i])
  }

  ghost predicate RowFilled(row: Item) {
    !Blank(row.name) && !Blank(row.identifier) && !Blank(row.itemType)
  }

  lemma RowsFilledIff(rows: seq<Item>)
    ensures AllComplete(TrimItems(rows)) <==> forall i :: 0 <= i < |rows| ==> RowFilled(rows[i])
  {
    var items := TrimItems(rows);
    forall i | 0 <= i < |rows|
      ensures ItemComplete(items[i]) <==> RowFilled(rows[i])
    {
      TrimEmptyIff(rows[i].name);
      TrimEmptyIff(rows[i].identifier);
      TrimEmptyIff(rows[i].itemType);
    }
  }

  /**
   * With a selection present, the form is refused exactly when the purpose or some item's name,
   * identifier or type is blank.
   */
  lemma UpdateValidation(current: Option<Selection>, form: UpdateForm)
    requires current.Some?
    ensures BuildUpdate(current, form) == Failure(MissingFields) <==>
      Blank(form.purpose) || exists i :: 0 <= i < |form.itemRows| && !RowFilled(form.itemRows[i])
  {
    assert BuildUpdate(current, form) == Failure(MissingFields) <==> Rejected(form);
    TrimEmptyIff(form.purpose);
    RowsFilledIff(form.itemRows);
  }

  /**
   * An accepted form writes only `purpose` and `items`, trimmed, to the selected visit's id, and the
   * visitor it builds keeps the selection's `idNumber`, never the form's; the merge it feeds leaves
   * the visit's identity fields alone.
   */
  lemma UpdateAccepted(current: Option<Selection>, form: UpdateForm)
    requires BuildUpdate(current, form).Success?
    ensures var req := BuildUpdate(current, form).value;
      && current.Some? && current.value.visitor.Some?
      && req.visitor.idNumber == current.value.visitor.value.idNumber
      && req.visitId == current.value.visit.id
      && req.visitData == NoFields.(purpose := Some(Trim(form.purpose)), items := Some(TrimItems(form.itemRows)))
      && !Blank(form.purpose)
      && forall i :: 0 <= i < |form.itemRows| ==> RowFilled(form.itemRows[i])
  {
    TrimEmptyIff(form.purpose);
    RowsFilledIff(form.itemRows);
  }

  // ---------------------------------------------------------------- deleteVisitorItem, duplicateVisit

  /** `items.splice(start, 1)` on a copy: the position a relative start resolves to. */
  function SpliceStart(len: nat, start: int): (k: nat)
    ensures k <= len
  {
    if start < 0 then (if len + start < 0 then 0 else len + start) else if start < len then start else len
  }

  /** The copy after `splice(start, 1)`: one item removed at the resolved position, if there is one. */
  function SpliceOne(items: seq<Item>, start: int): seq<Item> {
    var k := SpliceStart(|items|, start);
    if k < |items| then items[..k] + items[k + 1..] else items
  }

  /**
   * `deleteVisitorItem`'s removal: an index within the list removes exactly that item; an index
   * past the end removes nothing; a negative index counts from the end.
   */
  lemma SpliceOneRule(items: seq<Item>, start: int)
    ensures 0 <= start < |items| ==>
      SpliceOne(items, start) == items[..start] + items[start + 1..]
      && multiset(SpliceOne(items, start)) + multiset{items[start]} == multiset(items)
    ensures start >= |items| ==> SpliceOne(items, start) == items
    ensures -|items| <= start < 0 ==> SpliceOne(items, start) == items[..|items| + start] + items[|items| + start + 1..]
    ensures 0 < |items| && start < -|items| ==> SpliceOne(items, start) == items[1..]
    ensures start < |items| && 0 < |items| ==> |SpliceOne(items, start)| == |items| - 1
  {
    var k := SpliceStart(|items|, start);
    if k < |items| {
      var kept := items[..k] + items[k + 1..];
      assert SpliceOne(items, start) == kept;
      assert |kept| == |items| - 1;
      if 0 <= start {
        assert items == items[..k] + [items[k]] + items[k + 1..];
        assert multiset(items) == multiset(items[..k]) + multiset{items[k]} + multiset(items[k + 1..]);
      } else if start < -|items| {
        assert k == 0 && kept == items[1..];
      }
    } else {
      assert SpliceOne(items, start) == items;
    }
  }

  /**
   * `duplicateVisit`'s draft: the same visitor, purpose and items, no id, arriving now and
   * active. Restoring the three reset fields gives back the original visit.
   */
  function DuplicateDraft(visit: Visit, now: Time): (draft: Visit)
    ensures IsActive(draft) && draft.id.None? && draft.ingressTime == Some(now)
    ensures draft.visitorId == visit.visitorId && draft.purpose == visit.purpose && draft.items == visit.items
    ensures draft.(id := visit.id, ingressTime := visit.ingressTime, egressTime := visit.egressTime) == visit
  {
    Merge(visit, NoFields.(ingressTime := Some(now))).(id := None, egressTime := None)
  }
}

/** The two bounded lists of repeatable form rows in main.js: the search terms
    (`termCount`, the `termsContainer` element, `addTermBtn` and the `newTerm`
    input) and the e-mail recipients (`emailCount`, `emailsContainer`,
    `addEmailBtn`). Each container is modelled as the sequence of its rows;
    each row keeps the index stored in its `data-*-index` attribute, its
    input's value attribute as the tokenizer reads it and, for terms, the
    "exact" checkbox. */
module RowLists {
  import opened Wrappers
  import Html
  import JsText

  const MaxTerms := 5
  const MaxEmails := 5

  /** Some markup that follows the value attribute of each row's input; the
      values read back do not depend on it. */
  const TermInputTail := " placeholder=\"Digite o termo\" required maxlength=\"255\""
  const EmailInputTail := " placeholder=\"email@exemplo.com\""

  datatype Row =
    | TermRow(index: int, value: string, exact: bool)
    | EmailRow(index: int, value: string)

  /** The container's `querySelector` for `[data-*-index="index"]`: the position
      of the first row, in document order, that carries `index`, if any. */
  function FirstWithIndex(rows: seq<Row>, index: int): (r: Option<nat>)
    ensures r.Some? ==> r.value < |rows| && rows[r.value].index == index
    ensures r.Some? ==> forall k :: 0 <= k < r.value ==> rows[k].index != index
    ensures r.None? <==> forall k :: 0 <= k < |rows| ==> rows[k].index != index
  {
    if rows == [] then None
    else if rows[0].index == index then Some(0)
    else match FirstWithIndex(rows[1..], index)
      case None => None
      case Some(p) => Some(p + 1)
  }

  /** The list of search-term rows. */
  class TermList {
    var count: int          // termCount: the number of rows, and the next index
    var rows: seq<Row>      // the rows of termsContainer, in document order
    var addDisabled: bool   // addTermBtn.disabled
    var inputDisabled: bool // newTerm.disabled

    /** The counter equals the number of rows and stays within 0..MaxTerms,
        and both controls are disabled exactly when the list is full. */
    ghost predicate Valid()
      reads this
    {
      && count == |rows|
      && 0 <= count <= MaxTerms
      && (forall k :: 0 <= k < |rows| ==> rows[k].TermRow?)
      && addDisabled == (count >= MaxTerms)
      && inputDisabled == (count >= MaxTerms)
    }

    /** The page as loaded: no rows, counter at zero, controls enabled. */
    constructor ()
      ensures Valid() && rows == [] && count == 0 && !addDisabled && !inputDisabled
    {
      count, rows := 0, [];
      addDisabled, inputDisabled := false, false;
    }

    /** `updateTermButtons`: disables the add button and the text input iff the
        counter has reached MaxTerms. */
    method UpdateTermButtons()
      modifies this
      ensures count == old(count) && rows == old(rows)
      ensures addDisabled == (count >= MaxTerms) && inputDisabled == (count >= MaxTerms)
    {
      addDisabled := count >= MaxTerms;
      inputDisabled := count >= MaxTerms;
    }

    /** `addSearchTerm`: refused, changing nothing, when the list is full;
        otherwise appends one row whose index is the counter before the call
        (which may equal the index of a surviving row) and whose flag is the
        one given, then increments the counter. The value goes through
        `escapeHtml` into `value="..."`, so the value attribute, as the
        tokenizer reads it, holds it only up to its first `"`. */
    method AddSearchTerm(termValue: string, exactValue: bool)
      requires Valid()
      modifies this
      ensures Valid()
      ensures old(count) >= MaxTerms ==>
                rows == old(rows) && count == old(count)
                && addDisabled == old(addDisabled) && inputDisabled == old(inputDisabled)
      ensures old(count) < MaxTerms ==>
                rows == old(rows) + [TermRow(old(count), Html.UntilQuote(termValue), exactValue)]
                && count == old(count) + 1
      ensures addDisabled == (count >= MaxTerms) && inputDisabled == (count >= MaxTerms)
    {
      if count >= MaxTerms {
        return;
      }
      var shown := Html.AttributeValue(Html.EscapeHtml(termValue) + "\"" + TermInputTail);
      Html.EscapeHtmlInAttribute(termValue, TermInputTail);
      rows := rows + [TermRow(count, shown, exactValue)];
      count := count + 1;
      UpdateTermButtons();
    }

    /** `removeSearchTerm`: when no row carries `index`, nothing changes;
        otherwise the first row carrying it is deleted, the others keep their
        order, and the counter drops by one. */
    method RemoveSearchTerm(index: int)
      requires Valid()
      modifies this
      ensures Valid()
      ensures FirstWithIndex(old(rows), index).None? ==>
                rows == old(rows) && count == old(count)
                && addDisabled == old(addDisabled) && inputDisabled == old(inputDisabled)
      ensures FirstWithIndex(old(rows), index).Some? ==>
                var p := FirstWithIndex(old(rows), index).value;
                rows == old(rows)[..p] + old(rows)[p + 1..] && count == old(count) - 1
      ensures addDisabled == (count >= MaxTerms) && inputDisabled == (count >= MaxTerms)
    {
      var found := FirstWithIndex(rows, index);
      if found.Some? {
        var p := found.value;
        rows := rows[..p] + rows[p + 1..];
        count := count - 1;
        UpdateTermButtons();
      }
    }

    /** The add button's click handler: the text input's value is trimmed; a
        non-empty result is added as a non-exact term and the input is cleared
        (even when the add is refused); an empty one does nothing. */
    method ClickAddTerm(inputValue: string) returns (inputAfter: string)
      requires Valid()
      modifies this
      ensures Valid()
      ensures JsText.Trim(inputValue) == [] ==>
                inputAfter == inputValue && rows == old(rows) && count == old(count)
      ensures JsText.Trim(inputValue) != [] ==> inputAfter == []
      ensures JsText.Trim(inputValue) != [] && old(count) < MaxTerms ==>
                rows == old(rows) + [TermRow(old(count), Html.UntilQuote(JsText.Trim(inputValue)), false)]
                && count == old(count) + 1
      ensures JsText.Trim(inputValue) != [] && old(count) >= MaxTerms ==>
                rows == old(rows) && count == old(count)
    {
      var termValue := JsText.Trim(inputValue);
      inputAfter := inputValue;
      if termValue != [] {
        AddSearchTerm(termValue, false);
        inputAfter := [];
      }
    }

    /** A click on the × button of the row at position `p`: the button calls
        `removeSearchTerm` with the index the row was created with. When an
        earlier row shares that index, it is the earlier row that goes. */
    method ClickRemoveTerm(p: nat)
      requires Valid() && p < |rows|
      modifies this
      ensures Valid()
      ensures FirstWithIndex(old(rows), old(rows)[p].index).Some?
      ensures var q := FirstWithIndex(old(rows), old(rows)[p].index).value;
                q <= p && rows == old(rows)[..q] + old(rows)[q + 1..] && count == old(count) - 1
      ensures addDisabled == (count >= MaxTerms) && inputDisabled == (count >= MaxTerms)
    {
      RemoveSearchTerm(rows[p].index);
    }
  }

  /** The list of e-mail recipient rows. */
  class EmailList {
    var count: int        // emailCount: the number of rows, and the next index
    var rows: seq<Row>    // the rows of emailsContainer, in document order
    var addDisabled: bool // addEmailBtn.disabled

    /** The counter equals the number of rows and stays within 0..MaxEmails,
        and the add button is disabled exactly when the list is full. */
    ghost predicate Valid()
      reads this
    {
      && count == |rows|
      && 0 <= count <= MaxEmails
      && (forall k :: 0 <= k < |rows| ==> rows[k].EmailRow?)
      && addDisabled == (count >= MaxEmails)
    }

    constructor ()
      ensures Valid() && rows == [] && count == 0 && !addDisabled
    {
      count, rows, addDisabled := 0, [], false;
    }

    /** `updateEmailButtons`: disables the add button iff the counter has
        reached MaxEmails. E-mails have no paired text input. */
    method UpdateEmailButtons()
      modifies this
      ensures count == old(count) && rows == old(rows)
      ensures addDisabled == (count >= MaxEmails)
    {
      addDisabled := count >= MaxEmails;
    }

    /** `addEmailField`: refused, changing nothing, when the list is full;
        otherwise appends one row indexed by the counter before the call and
        increments the counter. As for terms, the value attribute holds the
        value only up to its first `"`. */
    method AddEmailField(emailValue: string)
      requires Valid()
      modifies this
      ensures Valid()
      ensures old(count) >= MaxEmails ==>
                rows == old(rows) && count == old(count) && addDisabled == old(addDisabled)
      ensures old(count) < MaxEmails ==>
                rows == old(rows) + [EmailRow(old(count), Html.UntilQuote(emailValue))]
                && count == old(count) + 1
      ensures addDisabled == (count >= MaxEmails)
    {
      if count >= MaxEmails {
        return;
      }
      var shown := Html.AttributeValue(Html.EscapeHtml(emailValue) + "\"" + EmailInputTail);
      Html.EscapeHtmlInAttribute(emailValue, EmailInputTail);
      rows := rows + [EmailRow(count, shown)];
      count := count + 1;
      UpdateEmailButtons();
    }

    /** `removeEmailField`: when no row carries `index`, nothing changes;
        otherwise the first row carrying it is deleted, the others keep their
        order, and the counter drops by one. */
    method RemoveEmailField(index: int)
      requires Valid()
      modifies this
      ensures Valid()
      ensures FirstWithIndex(old(rows), index).None? ==>
                rows == old(rows) && count == old(count) && addDisabled == old(addDisabled)
      ensures FirstWithIndex(old(rows), index).Some? ==>
                var p := FirstWithIndex(old(rows), index).value;
                rows == old(rows)[..p] + old(rows)[p + 1..] && count == old(count) - 1
      ensures addDisabled == (count >= MaxEmails)
    {
      var found := FirstWithIndex(rows, index);
      if found.Some? {
        var p := found.value;
        rows := rows[..p] + rows[p + 1..];
        count := count - 1;
        UpdateEmailButtons();
      }
    }
  }

  /** Two rows can share an index: then a click on the later row's button
      removes a row before it. */
  lemma SharedIndexRemovesEarlierRow(rows: seq<Row>, q: nat, p: nat)
    requires q < p < |rows| && rows[q].index == rows[p].index
    ensures FirstWithIndex(rows, rows[p].index).Some?
    ensures FirstWithIndex(rows, rows[p].index).value <= q < p
  {
  }

  /** What a caller can prove from the contracts alone: the counter is reused
      as the next index, so after a removal a new row shares its index with a
      surviving one. */
  method SharedIndexSetup() returns (terms: TermList)
    ensures fresh(terms) && terms.Valid()
    ensures terms.rows == [TermRow(1, "b", false), TermRow(2, "c", true), TermRow(2, "d", false)]
  {
    Html.UntilQuoteNoQuote("a");
    Html.UntilQuoteNoQuote("b");
    Html.UntilQuoteNoQuote("c");
    Html.UntilQuoteNoQuote("d");
    terms := new TermList();
    terms.AddSearchTerm("a", false);
    terms.AddSearchTerm("b", false);
    terms.AddSearchTerm("c", true);
    assert terms.rows == [TermRow(0, "a", false), TermRow(1, "b", false), TermRow(2, "c", true)];
    terms.RemoveSearchTerm(0);
    assert terms.rows == [TermRow(1, "b", false), TermRow(2, "c", true)];
    terms.AddSearchTerm("d", false);
  }

  /** A click on the × button of the last row, `d`, removes `c`. */
  method ReusedIndexScenario()
  {
    var terms := SharedIndexSetup();
    assert FirstWithIndex(terms.rows, 2) == Some(1) by {
      assert terms.rows[1..][0].index == 2;
      assert terms.rows[0].index != 2;
    }
    var before := terms.rows;
    terms.ClickRemoveTerm(2);
    assert terms.rows == before[..1] + before[2..];
    assert terms.rows == [TermRow(1, "b", false), TermRow(2, "d", false)];
    terms.RemoveSearchTerm(7);
    assert terms.count == 2;
  }

  /** Row indices strictly increase in document order, so no two rows share one. */
  ghost predicate IndicesIncreasing(rows: seq<Row>) {
    forall i, j :: 0 <= i < j < |rows| ==> rows[i].index < rows[j].index
  }

  /** With increasing indices, the row found for a row's own index is that row. */
  lemma IncreasingFirstWithIndex(rows: seq<Row>, p: nat)
    requires IndicesIncreasing(rows) && p < |rows|
    ensures FirstWithIndex(rows, rows[p].index) == Some(p)
  {
    var r := FirstWithIndex(rows, rows[p].index);
    assert r.Some? && rows[r.value].index == rows[p].index;
  }

  lemma RemoveKeepsIncreasing(rows: seq<Row>, p: nat)
    requires IndicesIncreasing(rows) && p < |rows|
    ensures IndicesIncreasing(rows[..p] + rows[p + 1..])
  {
    var t := rows[..p] + rows[p + 1..];
    forall i, j | 0 <= i < j < |t| ensures t[i].index < t[j].index {
      var i', j' := if i < p then i else i + 1, if j < p then j else j + 1;
      assert t[i] == rows[i'] && t[j] == rows[j'];
    }
  }

  /** The term list as evidently intended: each row gets a fresh index from a
      counter that never goes down, separate from the row count, and the value
      is escaped for an attribute, so the × button of a row removes that row
      and the input holds the value exactly. */
  class UniqueTermList {
    var count: int          // the number of rows
    var nextIndex: int      // the next fresh index; never decreases
    var rows: seq<Row>
    var addDisabled: bool
    var inputDisabled: bool

    ghost predicate Valid()
      reads this
    {
      && count == |rows|
      && 0 <= count <= MaxTerms
      && (forall k :: 0 <= k < |rows| ==> rows[k].TermRow?)
      && IndicesIncreasing(rows)
      && (forall k :: 0 <= k < |rows| ==> rows[k].index < nextIndex)
      && addDisabled == (count >= MaxTerms)
      && inputDisabled == (count >= MaxTerms)
    }

    constructor ()
      ensures Valid() && rows == [] && count == 0 && nextIndex == 0
    {
      count, nextIndex, rows := 0, 0, [];
      addDisabled, inputDisabled := false, false;
    }

    /** Refused when full; otherwise appends a row with a fresh index and the
        exact value given. */
    method AddSearchTerm(termValue: string, exactValue: bool)
      requires Valid()
      modifies this
      ensures Valid()
      ensures old(count) >= MaxTerms ==>
                rows == old(rows) && count == old(count) && nextIndex == old(nextIndex)
      ensures old(count) < MaxTerms ==>
                rows == old(rows) + [TermRow(old(nextIndex), termValue, exactValue)]
                && count == old(count) + 1 && nextIndex == old(nextIndex) + 1
    {
      if count >= MaxTerms {
        return;
      }
      var shown := Html.AttributeValue(Html.EscapeAttribute(termValue) + "\"" + TermInputTail);
      Html.EscapeAttributeRoundTrip(termValue, TermInputTail);
      rows := rows + [TermRow(nextIndex, shown, exactValue)];
      count, nextIndex := count + 1, nextIndex + 1;
      addDisabled, inputDisabled := count >= MaxTerms, count >= MaxTerms;
    }

    /** The × button of the row at position `p` removes exactly that row. */
    method ClickRemoveTerm(p: nat)
      requires Valid() && p < |rows|
      modifies this
      ensures Valid()
      ensures rows == old(rows)[..p] + old(rows)[p + 1..]
      ensures count == old(count) - 1 && nextIndex == old(nextIndex)
    {
      IncreasingFirstWithIndex(rows, p);
      var found := FirstWithIndex(rows, rows[p].index);
      var q := found.value;
      RemoveKeepsIncreasing(rows, q);
      rows := rows[..q] + rows[q + 1..];
      count := count - 1;
      addDisabled, inputDisabled := count >= MaxTerms, count >= MaxTerms;
    }
  }

  /** The same steps as `ReusedIndexScenario` on the corrected list: the click
      on the last row's button removes the last row. */
  method UniqueIndexScenario()
  {
    var terms := new UniqueTermList();
    terms.AddSearchTerm("a", false);
    terms.AddSearchTerm("b", false);
    terms.AddSearchTerm("c", true);
    terms.ClickRemoveTerm(0);
    terms.AddSearchTerm("d", false);
    assert terms.rows == [TermRow(1, "b", false), TermRow(2, "c", true), TermRow(3, "d", false)];
    var before := terms.rows;
    terms.ClickRemoveTerm(2);
    assert terms.rows == before[..2];
    assert terms.rows == [TermRow(1, "b", false), TermRow(2, "c", true)];
  }

  /** After MaxEmails successful additions a further one is refused. */
  method FullEmailListScenario()
  {
    var emails := new EmailList();
    var i := 0;
    while i < MaxEmails
      invariant 0 <= i <= MaxEmails
      invariant emails.Valid() && emails.count == i
    {
      emails.AddEmailField("x@y.z");
      i := i + 1;
    }
    assert emails.addDisabled;
    emails.AddEmailField("u@v.w");
    assert emails.count == MaxEmails && |emails.rows| == MaxEmails;
  }
}

/**
 * The reconciliation endpoints of terminology/views.py: a client's snapshot
 * of a handbook's elements checked against the server's, in bulk against
 * the most recent version (`RecentHandbookElementsValidation`) and one
 * element against a named version (`ElementHandbookValidation`).
 */
module Validation {
  import opened Wrappers
  import opened Seqs
  import opened Decimal
  import opened Store

  const NoMatchingIds: string := "no matching id's"

  /** Some element of the list has this id. */
  predicate HasId(elements: seq<Element>, id: int)
  {
    exists e :: e in elements && e.id == id
  }

  function IdsOf(elements: seq<Element>): set<int>
  {
    set e | e in elements :: e.id
  }

  lemma IdsOfMeaning(elements: seq<Element>)
    ensures forall i :: i in IdsOf(elements) <==> HasId(elements, i)
  {
  }

  function NonEmptySet(s: set<int>): (r: Option<set<int>>)
  {
    if s == {} then None else Some(s)
  }

  function NonEmptyList(s: seq<Element>): (r: Option<seq<Element>>)
  {
    if s == [] then None else Some(s)
  }

  /** The `missing_id` and `unexpected_id` keys of the report; an absent key is None. */
  datatype IdReport = IdReport(missingId: Option<set<int>>, unexpectedId: Option<set<int>>)

  /**
   * `_id_check`. `missing_id` holds the ids the client sent that the server
   * lacks, `unexpected_id` the server's ids the client did not send; the
   * second component is the ids both have. Neither key is ever present
   * with an empty set.
   */
  function IdCheck(received: seq<Element>, server: seq<Element>): (r: (IdReport, set<int>))
    ensures r.0.missingId != Some({}) && r.0.unexpectedId != Some({})
  {
    var receivedSet := IdsOf(received);
    var validationSet := IdsOf(server);
    (IdReport(NonEmptySet(receivedSet - validationSet), NonEmptySet(validationSet - receivedSet)),
     validationSet * receivedSet)
  }

  /**
   * What `_id_check` reports, in terms of the two element lists: the shared
   * ids; `missing_id` present exactly when some received id is unknown to the
   * server, and then holding exactly those ids; `unexpected_id` likewise the
   * other way round.
   */
  lemma IdCheckReports(received: seq<Element>, server: seq<Element>)
    ensures var r := IdCheck(received, server);
            forall i :: i in r.1 <==> HasId(received, i) && HasId(server, i)
    ensures var r := IdCheck(received, server);
            r.0.missingId.Some? <==> exists e :: e in received && !HasId(server, e.id)
    ensures var r := IdCheck(received, server);
            r.0.missingId.Some? ==>
              forall i :: i in r.0.missingId.value <==> HasId(received, i) && !HasId(server, i)
    ensures var r := IdCheck(received, server);
            r.0.unexpectedId.Some? <==> exists e :: e in server && !HasId(received, e.id)
    ensures var r := IdCheck(received, server);
            r.0.unexpectedId.Some? ==>
              forall i :: i in r.0.unexpectedId.value <==> HasId(server, i) && !HasId(received, i)
  {
    IdsOfMeaning(received);
    IdsOfMeaning(server);
    IdsMissingFrom(received, server);
    IdsMissingFrom(server, received);
  }

  /** Some element of `a` has an id `b` lacks exactly when the id difference is non-empty. */
  lemma IdsMissingFrom(a: seq<Element>, b: seq<Element>)
    ensures (exists e :: e in a && !HasId(b, e.id)) <==> IdsOf(a) - IdsOf(b) != {}
  {
    IdsOfMeaning(a);
    IdsOfMeaning(b);
    if exists e :: e in a && !HasId(b, e.id) {
      var e :| e in a && !HasId(b, e.id);
      assert e.id in IdsOf(a) - IdsOf(b);
    }
    if IdsOf(a) - IdsOf(b) != {} {
      var i :| i in IdsOf(a) - IdsOf(b);
      var e :| e in a && e.id == i;
      assert !HasId(b, e.id);
    }
  }

  /** The three id sets of `_id_check` are pairwise disjoint and cover both lists' ids. */
  lemma IdSetsPartition(received: seq<Element>, server: seq<Element>)
    ensures var (report, correct) := IdCheck(received, server);
            var missing := if report.missingId.Some? then report.missingId.value else {};
            var unexpected := if report.unexpectedId.Some? then report.unexpectedId.value else {};
            missing * unexpected == {} && missing * correct == {} && unexpected * correct == {}
            && missing + correct == IdsOf(received) && unexpected + correct == IdsOf(server)
  {
    var (report, correct) := IdCheck(received, server);
    var missing := if report.missingId.Some? then report.missingId.value else {};
    var unexpected := if report.unexpectedId.Some? then report.unexpectedId.value else {};
    assert missing == IdsOf(received) - IdsOf(server);
    assert unexpected == IdsOf(server) - IdsOf(received);
  }

  /** `[x["element_code"] for x in received_elements]`. */
  function Codes(elements: seq<Element>): (r: seq<string>)
    ensures |r| == |elements| && forall i :: 0 <= i < |r| ==> r[i] == elements[i].code
  {
    if elements == [] then [] else [elements[0].code] + Codes(elements[1..])
  }

  /** A code is in the received code list exactly when some received element has it. */
  lemma CodesMeaning(elements: seq<Element>)
    ensures forall c :: c in Codes(elements) <==> exists e :: e in elements && e.code == c
  {
    forall c | c in Codes(elements)
      ensures exists e :: e in elements && e.code == c
    {
      var i :| 0 <= i < |elements| && Codes(elements)[i] == c;
      assert elements[i] in elements;
    }
  }

  /** `[x["element_value"] for x in received_elements]`. */
  function Values(elements: seq<Element>): (r: seq<string>)
    ensures |r| == |elements| && forall i :: 0 <= i < |r| ==> r[i] == elements[i].value
  {
    if elements == [] then [] else [elements[0].value] + Values(elements[1..])
  }

  /** A value is in the received value list exactly when some received element has it. */
  lemma ValuesMeaning(elements: seq<Element>)
    ensures forall c :: c in Values(elements) <==> exists e :: e in elements && e.value == c
  {
    forall c | c in Values(elements)
      ensures exists e :: e in elements && e.value == c
    {
      var i :| 0 <= i < |elements| && Values(elements)[i] == c;
      assert elements[i] in elements;
    }
  }

  function HasIdIn(ids: set<int>): Element -> bool
  {
    (e: Element) => e.id in ids
  }

  function CodeNotIn(codes: seq<string>): Element -> bool
  {
    (e: Element) => e.code !in codes
  }

  function ValueNotIn(values: seq<string>): Element -> bool
  {
    (e: Element) => e.value !in values
  }

  /**
   * The `validation_errors` dictionary of the bulk check; each key is None
   * when absent. `codeErrors` and `valueErrors` list the server's elements
   * (the `{"element_code_error": element}` wrappers are implicit).
   */
  datatype BulkErrors = BulkErrors(
    idError: Option<string>,
    missingId: Option<set<int>>,
    unexpectedId: Option<set<int>>,
    codeErrors: Option<seq<Element>>,
    valueErrors: Option<seq<Element>>)
  {
    /** An empty dictionary: the snapshot agrees with the server. */
    predicate IsEmpty()
    {
      idError.None? && missingId.None? && unexpectedId.None? && codeErrors.None? && valueErrors.None?
    }

    function CodeErrorList(): seq<Element>
    {
      if codeErrors.Some? then codeErrors.value else []
    }

    function ValueErrorList(): seq<Element>
    {
      if valueErrors.Some? then valueErrors.value else []
    }
  }

  /**
   * What the bulk check reports for a received list against the server's
   * element list: the id report, then either the no-overlap error or, for
   * each server element with a shared id, whether its code (and separately
   * its value) occurs anywhere among the received codes (values).
   */
  function BulkValidation(received: seq<Element>, server: seq<Element>): BulkErrors
  {
    var (report, correct) := IdCheck(received, server);
    if correct == {} then
      BulkErrors(Some(NoMatchingIds), report.missingId, report.unexpectedId, None, None)
    else
      var checked := Filter(server, HasIdIn(correct));
      BulkErrors(None, report.missingId, report.unexpectedId,
                 NonEmptyList(Filter(checked, CodeNotIn(Codes(received)))),
                 NonEmptyList(Filter(checked, ValueNotIn(Values(received)))))
  }

  /** `RecentHandbookElementsValidation.post`, from the received list and the server's list on. */
  method ValidateRecentElements(received: seq<Element>, server: seq<Element>) returns (errors: BulkErrors)
    ensures errors == BulkValidation(received, server)
  {
    var (idReport, correct) := IdCheck(received, server);
    errors := BulkErrors(None, idReport.missingId, idReport.unexpectedId, None, None);
    if correct == {} {
      errors := errors.(idError := Some(NoMatchingIds));
      return;
    }

    var idValidated: seq<Element> := [];
    for k := 0 to |server|
      invariant idValidated == Filter(server[..k], HasIdIn(correct))
    {
      FilterStep(server, k, HasIdIn(correct));
      if server[k].id in correct {
        idValidated := idValidated + [server[k]];
      }
    }
    assert server[..|server|] == server;

    var codesReceived := Codes(received);
    var valuesReceived := Values(received);
    var codeErrors: seq<Element> := [];
    var valueErrors: seq<Element> := [];
    for k := 0 to |idValidated|
      invariant codeErrors == Filter(idValidated[..k], CodeNotIn(codesReceived))
      invariant valueErrors == Filter(idValidated[..k], ValueNotIn(valuesReceived))
    {
      FilterStep(idValidated, k, CodeNotIn(codesReceived));
      FilterStep(idValidated, k, ValueNotIn(valuesReceived));
      var element := idValidated[k];
      assert CodeNotIn(codesReceived)(element) == (element.code !in codesReceived);
      assert ValueNotIn(valuesReceived)(element) == (element.value !in valuesReceived);
      if element.code !in codesReceived {
        codeErrors := codeErrors + [element];
      }
      assert codeErrors == Filter(idValidated[..k + 1], CodeNotIn(codesReceived));
      if element.value !in valuesReceived {
        valueErrors := valueErrors + [element];
      }
      assert valueErrors == Filter(idValidated[..k + 1], ValueNotIn(valuesReceived));
    }
    assert idValidated[..|idValidated|] == idValidated;

    if codeErrors != [] {
      errors := errors.(codeErrors := Some(codeErrors));
    }
    if valueErrors != [] {
      errors := errors.(valueErrors := Some(valueErrors));
    }
  }

  /**
   * With no shared id the dictionary carries `id_error` and nothing from the
   * per-element checks; this includes two empty lists.
   */
  lemma NoOverlapStopsAtIds(received: seq<Element>, server: seq<Element>)
    ensures BulkValidation(received, server).idError.Some? <==>
              forall e :: e in received ==> !HasId(server, e.id)
    ensures BulkValidation(received, server).idError.Some? ==>
              BulkValidation(received, server).idError == Some(NoMatchingIds)
              && BulkValidation(received, server).codeErrors.None?
              && BulkValidation(received, server).valueErrors.None?
  {
    IdCheckReports(received, server);
    var (report, correct) := IdCheck(received, server);
    if correct != {} {
      var i :| i in correct;
      var e :| e in received && e.id == i;
      assert HasId(server, e.id);
    }
    if exists e :: e in received && HasId(server, e.id) {
      var e :| e in received && HasId(server, e.id);
      assert e.id in correct;
    }
  }

  /** Once some id is shared, the server elements that get checked are those whose id the client also sent. */
  lemma CheckedExactly(received: seq<Element>, server: seq<Element>, x: Element)
    ensures x in Filter(server, HasIdIn(IdCheck(received, server).1)) <==> x in server && HasId(received, x.id)
  {
    IdCheckReports(received, server);
    if x in server {
      assert HasId(server, x.id);
    }
  }

  /**
   * Once some id is shared, a server element is reported under `code_errors`
   * exactly when its id is shared and its code occurs nowhere among the
   * received codes, whatever the id of the received element carrying it.
   */
  lemma CodeErrorsExactly(received: seq<Element>, server: seq<Element>, x: Element)
    requires exists e :: e in received && HasId(server, e.id)
    ensures x in BulkValidation(received, server).CodeErrorList() <==>
              x in server && HasId(received, x.id) && forall e :: e in received ==> e.code != x.code
  {
    NoOverlapStopsAtIds(received, server);
    var correct := IdCheck(received, server).1;
    var checked := Filter(server, HasIdIn(correct));
    assert BulkValidation(received, server).CodeErrorList() == Filter(checked, CodeNotIn(Codes(received)));
    CheckedExactly(received, server, x);
    CodesMeaning(received);
  }

  /** The same for `value_errors`: the value is looked for among all received values. */
  lemma ValueErrorsExactly(received: seq<Element>, server: seq<Element>, x: Element)
    requires exists e :: e in received && HasId(server, e.id)
    ensures x in BulkValidation(received, server).ValueErrorList() <==>
              x in server && HasId(received, x.id) && forall e :: e in received ==> e.value != x.value
  {
    NoOverlapStopsAtIds(received, server);
    var correct := IdCheck(received, server).1;
    var checked := Filter(server, HasIdIn(correct));
    assert BulkValidation(received, server).ValueErrorList() == Filter(checked, ValueNotIn(Values(received)));
    CheckedExactly(received, server, x);
    ValuesMeaning(received);
  }

  /** The error lists keep the server list's order: each is a subsequence of it. */
  lemma ErrorsFollowServerOrder(received: seq<Element>, server: seq<Element>)
    ensures IsSubsequence(BulkValidation(received, server).CodeErrorList(), server)
    ensures IsSubsequence(BulkValidation(received, server).ValueErrorList(), server)
  {
    var (report, correct) := IdCheck(received, server);
    if correct != {} {
      FilterFilter(server, HasIdIn(correct), CodeNotIn(Codes(received)));
      FilterIsSubsequence(server, Both(HasIdIn(correct), CodeNotIn(Codes(received))));
      FilterFilter(server, HasIdIn(correct), ValueNotIn(Values(received)));
      FilterIsSubsequence(server, Both(HasIdIn(correct), ValueNotIn(Values(received))));
    }
  }

  /** A key is present only with a non-empty list. */
  lemma KeysOnlyWhenNonEmpty(received: seq<Element>, server: seq<Element>)
    ensures BulkValidation(received, server).missingId != Some({})
    ensures BulkValidation(received, server).unexpectedId != Some({})
    ensures BulkValidation(received, server).codeErrors != Some([])
    ensures BulkValidation(received, server).valueErrors != Some([])
  {
  }

  /** A non-empty snapshot identical to the server's list validates to an empty dictionary. */
  lemma IdenticalListsAgree(elements: seq<Element>)
    requires elements != []
    ensures BulkValidation(elements, elements).IsEmpty()
  {
    var (report, correct) := IdCheck(elements, elements);
    assert report.missingId.None? && report.unexpectedId.None? && elements[0].id in correct by {
      IdCheckReports(elements, elements);
      assert forall e :: e in elements ==> HasId(elements, e.id);
      assert elements[0] in elements;
    }
    var checked := Filter(elements, HasIdIn(correct));
    assert Filter(checked, CodeNotIn(Codes(elements))) == [] by {
      CodesMeaning(elements);
      assert forall x :: x in checked ==> x.code in Codes(elements);
      FilterNone(checked, CodeNotIn(Codes(elements)));
    }
    assert Filter(checked, ValueNotIn(Values(elements))) == [] by {
      ValuesMeaning(elements);
      assert forall x :: x in checked ==> x.value in Values(elements);
      FilterNone(checked, ValueNotIn(Values(elements)));
    }
  }

  /** Two one-element lists with the same id share it and report no id differences. */
  lemma SameSingleIdMatches(received: seq<Element>, server: seq<Element>)
    requires |received| == 1 && |server| == 1 && received[0].id == server[0].id
    ensures IdCheck(received, server).0 == IdReport(None, None)
    ensures received[0].id in IdCheck(received, server).1
  {
    IdCheckReports(received, server);
    assert forall e :: e in received ==> HasId(server, e.id);
    assert forall e :: e in server ==> HasId(received, e.id);
    assert received[0] in received && server[0] in server;
  }

  /** One shared id whose code differs: the server element is reported under `code_errors` only. */
  lemma CodeMismatchReported()
    ensures BulkValidation([Element(1, "B", "1", [])], [Element(1, "A", "1", [])])
            == BulkErrors(None, None, None, Some([Element(1, "A", "1", [])]), None)
  {
    var received, server := [Element(1, "B", "1", [])], [Element(1, "A", "1", [])];
    var correct := IdCheck(received, server).1;
    assert IdCheck(received, server).0 == IdReport(None, None) && 1 in correct by {
      SameSingleIdMatches(received, server);
    }
    assert Codes(received) == ["B"] && Values(received) == ["1"] by {
      assert received[1..] == [];
    }
    assert Filter(server, HasIdIn(correct)) == server by {
      FilterSingleton(server[0], HasIdIn(correct));
    }
    assert Filter(server, CodeNotIn(["B"])) == server by {
      FilterSingleton(server[0], CodeNotIn(["B"]));
    }
    assert Filter(server, ValueNotIn(["1"])) == [] by {
      FilterSingleton(server[0], ValueNotIn(["1"]));
    }
  }

  /**
   * The code sent under another id hides the mismatch: the server's "A" for
   * id 1 is found among the received codes, carried by id 2, so nothing is
   * reported for id 1.
   */
  lemma CodeOnOtherIdSuppresses()
    ensures var r := BulkValidation([Element(1, "B", "1", []), Element(2, "A", "2", [])],
                                    [Element(1, "A", "1", [])]);
            r.idError.None? && r.codeErrors.None? && r.valueErrors.None?
  {
    var received, server := [Element(1, "B", "1", []), Element(2, "A", "2", [])], [Element(1, "A", "1", [])];
    assert Codes(received) == ["B", "A"] && Values(received) == ["1", "2"] by {
      assert received[1..] == [Element(2, "A", "2", [])] && received[1..][1..] == [];
    }
    var correct := IdCheck(received, server).1;
    assert 1 in correct by {
      IdCheckReports(received, server);
      assert received[0] in received && server[0] in server;
    }
    FilterNone(Filter(server, HasIdIn(correct)), CodeNotIn(Codes(received)));
    FilterNone(Filter(server, HasIdIn(correct)), ValueNotIn(Values(received)));
  }

  /** The `validation_errors` dictionary of the single-element check; each key is None when absent. */
  datatype ElementErrors = ElementErrors(
    idError: Option<string>,
    codeError: Option<string>,
    valueError: Option<string>)

  function NoSuchId(id: int): string
  {
    "no such id " + IntToString(id)
  }

  /**
   * What the single-element check must report: for an id the version does
   * not hold, exactly the id error; otherwise the server's code and the
   * server's value, each where it differs from the one received.
   */
  predicate ReportsElement(errors: ElementErrors, versionElements: seq<Element>, received: Element)
  {
    match FindElement(versionElements, received.id)
    case None => errors == ElementErrors(Some(NoSuchId(received.id)), None, None)
    case Some(stored) =>
      errors.idError.None?
      && (errors.codeError.Some? <==> stored.code != received.code)
      && (errors.codeError.Some? ==> errors.codeError.value == stored.code)
      && (errors.valueError.Some? <==> stored.value != received.value)
      && (errors.valueError.Some? ==> errors.valueError.value == stored.value)
  }

  /** The report is determined: two reports for the same inputs are equal. */
  lemma ReportsElementIsUnique(a: ElementErrors, b: ElementErrors, versionElements: seq<Element>, received: Element)
    requires ReportsElement(a, versionElements, received)
    requires ReportsElement(b, versionElements, received)
    ensures a == b
  {
  }

  /** `ElementHandbookValidation.post`, from the version's element list on. */
  method ValidateElement(versionElements: seq<Element>, received: Element) returns (errors: ElementErrors)
    ensures ReportsElement(errors, versionElements, received)
    ensures (forall e :: e in versionElements ==> e.id != received.id) ==>
              errors == ElementErrors(Some(NoSuchId(received.id)), None, None)
  {
    errors := ElementErrors(None, None, None);
    match FindElement(versionElements, received.id)
    case None =>
      errors := errors.(idError := Some(NoSuchId(received.id)));
    case Some(stored) =>
      if stored.code != received.code {
        errors := errors.(codeError := Some(stored.code));
      }
      if stored.value != received.value {
        errors := errors.(valueError := Some(stored.value));
      }
  }

  /**
   * The bulk endpoint for a handbook: the server's list is the elements of
   * its most recent version; None where `.latest` raises for a handbook
   * without versions.
   */
  method ValidateRecentHandbook(store: Store, handbookId: int, received: seq<Element>)
    returns (r: Option<BulkErrors>)
    ensures r.None? <==> forall v :: v in store.versions ==> v.handbookId != handbookId
    ensures r.Some? ==>
              r.value == BulkValidation(received,
                           ElementsOfVersion(store.elements, RecentVersion(store.versions, handbookId).value.id))
  {
    match RecentVersion(store.versions, handbookId)
    case None =>
      r := None;
    case Some(recent) =>
      var errors := ValidateRecentElements(received, ElementsOfVersion(store.elements, recent.id));
      r := Some(errors);
  }

  /**
   * The single-element endpoint: the version is looked up by label within
   * the handbook (no row or several rows make `.get` raise), then the element
   * is checked against that version's elements.
   */
  method ValidateElementOfVersion(store: Store, handbookId: int, version: string, received: Element)
    returns (r: Lookup<ElementErrors>)
    ensures r.NotFound? <==> VersionByLabel(store.versions, handbookId, version).NotFound?
    ensures r.Ambiguous? <==> VersionByLabel(store.versions, handbookId, version).Ambiguous?
    ensures r.Found? ==>
              ReportsElement(r.item,
                ElementsOfVersion(store.elements, VersionByLabel(store.versions, handbookId, version).item.id),
                received)
  {
    match VersionByLabel(store.versions, handbookId, version)
    case NotFound =>
      r := NotFound;
    case Ambiguous =>
      r := Ambiguous;
    case Found(raw) =>
      var errors := ValidateElement(ElementsOfVersion(store.elements, raw.id), received);
      r := Found(errors);
  }
}

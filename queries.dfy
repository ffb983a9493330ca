/**
 * The read endpoints of terminology/views.py over the store, and the
 * label-to-id resolution of element creation.
 */
module Queries {
  import opened Wrappers
  import opened Seqs
  import opened Pagination
  import opened Store

  /** `GetHandbooksFull.get`: one page of the handbook table. */
  function HandbookList(store: Store, query: map<string, string>): (r: seq<Handbook>)
    ensures IsPageOf(r, store.handbooks, ParsedLimitOffset(query).0, ParsedLimitOffset(query).1)
  {
    var (limit, offset) := ParsedLimitOffset(query);
    Page(store.handbooks, limit, offset)
  }

  /**
   * `GetRecentHandbookElements.get`: one page of the elements of the
   * handbook's most recent version; None where `.latest` raises.
   */
  function RecentElementsPage(store: Store, handbookId: int, query: map<string, string>)
    : (r: Option<seq<Element>>)
    ensures r.None? <==> forall v :: v in store.versions ==> v.handbookId != handbookId
    ensures r.Some? ==>
              IsPageOf(r.value, ElementsOfVersion(store.elements, RecentVersion(store.versions, handbookId).value.id),
                       ParsedLimitOffset(query).0, ParsedLimitOffset(query).1)
  {
    match RecentVersion(store.versions, handbookId)
    case None => None
    case Some(recent) =>
      var (limit, offset) := ParsedLimitOffset(query);
      Some(Page(ElementsOfVersion(store.elements, recent.id), limit, offset))
  }

  /**
   * `GetVersionHandbookElements.get`: one page of the elements of the
   * handbook's version with the given label, or the lookup's failure.
   */
  function VersionElementsPage(store: Store, handbookId: int, version: string, query: map<string, string>)
    : (r: Lookup<seq<Element>>)
    ensures r.NotFound? <==> VersionByLabel(store.versions, handbookId, version).NotFound?
    ensures r.Ambiguous? <==> VersionByLabel(store.versions, handbookId, version).Ambiguous?
    ensures r.Found? ==>
              IsPageOf(r.item, ElementsOfVersion(store.elements, VersionByLabel(store.versions, handbookId, version).item.id),
                       ParsedLimitOffset(query).0, ParsedLimitOffset(query).1)
  {
    match VersionByLabel(store.versions, handbookId, version)
    case NotFound => NotFound
    case Ambiguous => Ambiguous
    case Found(requested) =>
      var (limit, offset) := ParsedLimitOffset(query);
      Found(Page(ElementsOfVersion(store.elements, requested.id), limit, offset))
  }

  /** The versions the date query returns for a list of handbooks: each one's actual version, if any. */
  function ActualVersions(versions: seq<Version>, handbooks: seq<Handbook>, date: int): set<Version>
  {
    set h | h in handbooks && ActualVersion(versions, h.id, date).Some? :: ActualVersion(versions, h.id, date).value
  }

  /**
   * `GetHandbooksActualForDate.get`: for each handbook of the page, the
   * version actual on `date` is added to the union of results.
   */
  method ActualForDate(store: Store, date: int, query: map<string, string>) returns (r: set<Version>)
    ensures r == ActualVersions(store.versions,
                   Page(store.handbooks, ParsedLimitOffset(query).0, ParsedLimitOffset(query).1), date)
  {
    var (limit, offset) := ParsedLimitOffset(query);
    var handbooks := Page(store.handbooks, limit, offset);
    r := {};
    for k := 0 to |handbooks|
      invariant r == ActualVersions(store.versions, handbooks[..k], date)
    {
      assert handbooks[..k + 1] == handbooks[..k] + [handbooks[k]];
      var version := ActualVersion(store.versions, handbooks[k].id, date);
      if version.Some? {
        r := r + {version.value};
      }
    }
    assert handbooks[..|handbooks|] == handbooks;
  }

  /** The date query returns at most one version per handbook. */
  lemma OneVersionPerHandbook(versions: seq<Version>, handbooks: seq<Handbook>, date: int, v: Version, w: Version)
    requires v in ActualVersions(versions, handbooks, date)
    requires w in ActualVersions(versions, handbooks, date)
    requires v.handbookId == w.handbookId
    ensures v == w
  {
    var h :| h in handbooks && ActualVersion(versions, h.id, date) == Some(v);
    var g :| g in handbooks && ActualVersion(versions, g.id, date) == Some(w);
  }

  /**
   * Every version returned belongs to a listed handbook, was created on or
   * before the date, and no version of that handbook created on or before
   * the date is later.
   */
  lemma ActualVersionIsLatestBefore(versions: seq<Version>, handbooks: seq<Handbook>, date: int, v: Version)
    requires v in ActualVersions(versions, handbooks, date)
    ensures v in versions && v.created <= date
    ensures exists h :: h in handbooks && h.id == v.handbookId
    ensures forall w :: w in versions && w.handbookId == v.handbookId && w.created <= date ==>
              w.created <= v.created
  {
    var h :| h in handbooks && ActualVersion(versions, h.id, date) == Some(v);
  }

  /** A listed handbook contributes a version exactly when it has one created on or before the date. */
  lemma HandbookContributes(versions: seq<Version>, handbooks: seq<Handbook>, date: int, h: Handbook)
    requires h in handbooks
    ensures (exists v :: v in ActualVersions(versions, handbooks, date) && v.handbookId == h.id)
            <==> exists v :: v in versions && v.handbookId == h.id && v.created <= date
  {
    var chosen := ActualVersion(versions, h.id, date);
    if chosen.Some? {
      assert chosen.value in ActualVersions(versions, handbooks, date);
    }
    if exists v :: v in ActualVersions(versions, handbooks, date) && v.handbookId == h.id {
      var v :| v in ActualVersions(versions, handbooks, date) && v.handbookId == h.id;
      var g :| g in handbooks && ActualVersion(versions, g.id, date) == Some(v);
    }
  }

  function HasLabelIn(labels: seq<string>): Version -> bool
  {
    (v: Version) => v.version in labels
  }

  /** `.values("id")`: the id of each version, in order. */
  function VersionIds(versions: seq<Version>): seq<int>
  {
    seq(|versions|, i requires 0 <= i < |versions| => versions[i].id)
  }

  /** The ids of all versions, of any handbook, whose label is one of `labels`, in store order. */
  function ResolvedIds(versions: seq<Version>, labels: seq<string>): seq<int>
  {
    VersionIds(Filter(versions, HasLabelIn(labels)))
  }

  /**
   * `PostHandbookElement.post`: the version labels sent for a new element
   * become version ids by `filter(version__in=...)`, collected in a loop.
   */
  method ResolveLabels(versions: seq<Version>, labels: seq<string>) returns (preparedId: seq<int>)
    ensures preparedId == ResolvedIds(versions, labels)
  {
    var versionsId := Filter(versions, HasLabelIn(labels));
    preparedId := [];
    for k := 0 to |versionsId|
      invariant preparedId == VersionIds(versionsId[..k])
    {
      preparedId := preparedId + [versionsId[k].id];
    }
    assert versionsId[..|versionsId|] == versionsId;
  }

  /** An id is resolved exactly when some version with that id, of whatever handbook, carries one of the labels. */
  lemma ResolvedIdsExactly(versions: seq<Version>, labels: seq<string>, id: int)
    ensures id in ResolvedIds(versions, labels) <==>
              exists v :: v in versions && v.id == id && v.version in labels
  {
    var matching := Filter(versions, HasLabelIn(labels));
    if id in ResolvedIds(versions, labels) {
      var i :| 0 <= i < |matching| && VersionIds(matching)[i] == id;
      assert matching[i] in matching;
    }
    if exists v :: v in versions && v.id == id && v.version in labels {
      var v :| v in versions && v.id == id && v.version in labels;
      assert v in matching;
      var i :| 0 <= i < |matching| && matching[i] == v;
      assert VersionIds(matching)[i] == id;
    }
  }

  /** A label that matches no version is dropped without a trace. */
  lemma UnmatchedLabelDropped(versions: seq<Version>, labels: seq<string>, unmatched: string)
    requires forall v :: v in versions ==> v.version != unmatched
    ensures ResolvedIds(versions, labels + [unmatched]) == ResolvedIds(versions, labels)
  {
    FilterCongruent(versions, HasLabelIn(labels + [unmatched]), HasLabelIn(labels));
  }

  /** The resolution is not limited to one handbook: the same label in two handbooks yields both versions. */
  lemma LabelResolvesAcrossHandbooks()
    ensures ResolvedIds([Version(1, 10, "v1", 0, 0), Version(2, 20, "v1", 0, 0)], ["v1"]) == [1, 2]
  {
    var versions := [Version(1, 10, "v1", 0, 0), Version(2, 20, "v1", 0, 0)];
    FilterCongruent(versions, HasLabelIn(["v1"]), (v: Version) => true);
    assert versions[..1] == [versions[0]] && versions[..1][..0] == [];
    assert Filter(versions, (v: Version) => true) == versions;
  }
}

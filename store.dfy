/**
 * The three tables of terminology/models.py held as plain sequences, and the
 * lookups the views run against them.
 */
module Store {
  import opened Wrappers
  import opened Seqs

  datatype Handbook = Handbook(id: int, name: string, shortName: string, description: string)

  /** One dated version of a handbook; `version` is its label column, timestamps are integers. */
  datatype Version = Version(id: int, handbookId: int, version: string, startingDate: int, created: int)

  /**
   * A coded element; `versions` is its many-to-many `handbook` link (ids of
   * the versions it belongs to). Elements received from a client carry the
   * same fields.
   */
  datatype Element = Element(id: int, code: string, value: string, versions: seq<int>)

  datatype Store = Store(handbooks: seq<Handbook>, versions: seq<Version>, elements: seq<Element>)

  /** The outcome of a `.get(...)` lookup: one row, no row, or several rows. */
  datatype Lookup<T> = Found(item: T) | NotFound | Ambiguous

  function NotAfter(date: int): Version -> bool
  {
    (v: Version) => v.created <= date
  }

  function Labelled(handbookId: int, version: string): Version -> bool
  {
    (v: Version) => v.handbookId == handbookId && v.version == version
  }

  function InVersion(versionId: int): Element -> bool
  {
    (e: Element) => versionId in e.versions
  }

  /**
   * `.filter(handbook_identifier=...).latest("created")`: the handbook's
   * version with the greatest `created`, the earliest stored one among equals;
   * None where the source raises DoesNotExist.
   */
  function RecentVersion(versions: seq<Version>, handbookId: int): (r: Option<Version>)
    ensures r.None? <==> forall v :: v in versions ==> v.handbookId != handbookId
    ensures r.Some? ==> r.value in versions && r.value.handbookId == handbookId
    ensures r.Some? ==>
              forall v :: v in versions && v.handbookId == handbookId ==> v.created <= r.value.created
    decreases |versions|
  {
    if versions == [] then None
    else
      var front, last := versions[..|versions| - 1], versions[|versions| - 1];
      assert versions == front + [last];
      var best := RecentVersion(front, handbookId);
      if last.handbookId != handbookId then best
      else if best.Some? && best.value.created >= last.created then best
      else Some(last)
  }

  /**
   * The version of a handbook actual on `date`: among its versions created
   * on or before the date, the one created last.
   */
  function ActualVersion(versions: seq<Version>, handbookId: int, date: int): (r: Option<Version>)
    ensures r.None? <==>
              forall v :: v in versions && v.handbookId == handbookId ==> v.created > date
    ensures r.Some? ==>
              r.value in versions && r.value.handbookId == handbookId && r.value.created <= date
    ensures r.Some? ==>
              forall v :: v in versions && v.handbookId == handbookId && v.created <= date ==>
                v.created <= r.value.created
  {
    RecentVersion(Filter(versions, NotAfter(date)), handbookId)
  }

  /** `.filter(handbook_identifier=...).get(version=...)`. */
  function VersionByLabel(versions: seq<Version>, handbookId: int, version: string): (r: Lookup<Version>)
    ensures r.NotFound? <==>
              forall v :: v in versions ==> !(v.handbookId == handbookId && v.version == version)
    ensures r.Found? ==>
              r.item in versions && r.item.handbookId == handbookId && r.item.version == version
    ensures r.Found? ==>
              forall v :: v in versions && v.handbookId == handbookId && v.version == version ==> v == r.item
    ensures r.Ambiguous? ==>
              exists i, j :: 0 <= i < j < |versions|
                && versions[i].handbookId == handbookId && versions[i].version == version
                && versions[j].handbookId == handbookId && versions[j].version == version
  {
    var matches := Filter(versions, Labelled(handbookId, version));
    if |matches| == 0 then
      assert forall v :: v in versions ==> !Labelled(handbookId, version)(v);
      NotFound
    else if |matches| == 1 then
      assert matches[0] in matches;
      assert forall v :: v in matches ==> v == matches[0];
      Found(matches[0])
    else
      FilterHasTwo(versions, Labelled(handbookId, version));
      Ambiguous
  }

  /** `HandbookElement.objects.filter(handbook__id=...)`: the elements linked to a version, in store order. */
  function ElementsOfVersion(elements: seq<Element>, versionId: int): (r: seq<Element>)
    ensures forall e :: e in r <==> e in elements && versionId in e.versions
    ensures IsSubsequence(r, elements)
  {
    FilterIsSubsequence(elements, InVersion(versionId));
    Filter(elements, InVersion(versionId))
  }

  /** `.get(pk=id)` over a list of elements; ids are primary keys, so the first match is the only one. */
  function FindElement(elements: seq<Element>, id: int): (r: Option<Element>)
    ensures r.None? <==> forall e :: e in elements ==> e.id != id
    ensures r.Some? ==> r.value in elements && r.value.id == id
  {
    if elements == [] then None
    else if elements[0].id == id then Some(elements[0])
    else FindElement(elements[1..], id)
  }
}

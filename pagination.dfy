/**
 * terminology/utils.py: the limit/offset defaulting rule, and the
 * `[offset : offset + limit]` slice every list endpoint applies to its result.
 */
module Pagination {
  import opened Wrappers
  import opened Decimal

  const DefaultLimit: nat := 10
  const DefaultOffset: nat := 0

  /**
   * A pagination parameter as `get_limit_offset_by_request` hands it back:
   * the query-string text itself, or one of the integer defaults.
   */
  datatype Param = Text(text: string) | Number(n: nat)

  function Lookup(query: map<string, string>, key: string): Option<string>
  {
    if key in query then Some(query[key]) else None
  }

  /**
   * The defaulting rule as written: `limit` is read first, then `offset`; a
   * missing key of either kind sends both to the defaults, and the values
   * that are found are passed on as text, unparsed and unchecked.
   */
  function LimitOffset(query: map<string, string>): (r: (Param, Param))
    ensures "limit" in query && "offset" in query ==>
              r == (Text(query["limit"]), Text(query["offset"]))
    ensures "limit" !in query ==> r == (Number(DefaultLimit), Number(DefaultOffset))
    ensures "offset" !in query ==> r == (Number(DefaultLimit), Number(DefaultOffset))
  {
    match Lookup(query, "limit")
    case None => (Number(DefaultLimit), Number(DefaultOffset))
    case Some(limit) =>
      match Lookup(query, "offset")
      case None => (Number(DefaultLimit), Number(DefaultOffset))
      case Some(offset) => (Text(limit), Text(offset))
  }

  function Min(a: int, b: int): int
  {
    if a <= b then a else b
  }

  /**
   * `r` is the page of `items` at `offset` of at most `limit` entries: as
   * many as remain there, up to `limit`, and each the entry at its place.
   */
  ghost predicate IsPageOf<T>(r: seq<T>, items: seq<T>, limit: nat, offset: nat)
  {
    |r| <= limit
    && |r| == (if offset >= |items| then 0 else Min(limit, |items| - offset))
    && forall i :: 0 <= i < |r| ==> offset + i < |items| && r[i] == items[offset + i]
  }

  /** Python's slice `items[offset : offset + limit]` for non-negative bounds. */
  function Page<T>(items: seq<T>, limit: nat, offset: nat): (r: seq<T>)
    ensures IsPageOf(r, items, limit, offset)
  {
    if offset >= |items| then [] else items[offset..Min(offset + limit, |items|)]
  }

  /** Two consecutive pages together are the page as long as both. */
  lemma PagesConcatenate<T>(items: seq<T>, first: nat, second: nat, offset: nat)
    ensures Page(items, first, offset) + Page(items, second, offset + first)
            == Page(items, first + second, offset)
  {
    var a, b := Page(items, first, offset), Page(items, second, offset + first);
    var whole := Page(items, first + second, offset);
    assert |a + b| == |whole|;
    forall i | 0 <= i < |whole|
      ensures (a + b)[i] == whole[i]
    {
      if i >= |a| {
        assert |a| == first;
        assert (a + b)[i] == b[i - first];
      }
    }
  }

  /**
   * The outcome of slicing a result list with the bounds as written:
   * text bounds make Python raise a TypeError.
   */
  datatype Sliced<T> = Sliced(items: seq<T>) | TypeError

  function SliceAsWritten<T>(items: seq<T>, bounds: (Param, Param)): (r: Sliced<T>)
    ensures r.Sliced? <==> bounds.0.Number? && bounds.1.Number?
    ensures r.Sliced? ==> |r.items| <= bounds.0.n
  {
    match bounds
    case (Number(limit), Number(offset)) => Sliced(Page(items, limit, offset))
    case _ => TypeError
  }

  /** Supplying both parameters, as the endpoints document, makes the slice fail. */
  lemma ExplicitLimitOffsetFaults<T>(items: seq<T>)
    ensures SliceAsWritten(items, LimitOffset(map["limit" := "5", "offset" := "0"])).TypeError?
  {
  }

  /**
   * The rule as intended: both parameters present and readable as
   * non-negative numbers are used, anything else gives the defaults.
   */
  function ParsedLimitOffset(query: map<string, string>): (r: (nat, nat))
    ensures r != (DefaultLimit, DefaultOffset) ==>
              "limit" in query && "offset" in query
              && ParseNat(query["limit"]) == Some(r.0) && ParseNat(query["offset"]) == Some(r.1)
    ensures "limit" in query && "offset" in query
            && ParseNat(query["limit"]).Some? && ParseNat(query["offset"]).Some? ==>
              r == (ParseNat(query["limit"]).value, ParseNat(query["offset"]).value)
  {
    match (Lookup(query, "limit"), Lookup(query, "offset"))
    case (Some(limit), Some(offset)) =>
      (match (ParseNat(limit), ParseNat(offset))
       case (Some(l), Some(o)) => (l, o)
       case _ => (DefaultLimit, DefaultOffset))
    case _ => (DefaultLimit, DefaultOffset)
  }

  /** Query values written as the decimal text of two numbers are read back as those numbers. */
  lemma ParsedLimitOffsetReadsNumbers(query: map<string, string>, limit: nat, offset: nat)
    requires "limit" in query && query["limit"] == NatToString(limit)
    requires "offset" in query && query["offset"] == NatToString(offset)
    ensures ParsedLimitOffset(query) == (limit, offset)
  {
    ParseRendered(limit);
    ParseRendered(offset);
  }

  /** Wherever the rule as written does not fail, the corrected rule pages identically. */
  lemma ParsedAgreesWithAsWritten<T>(items: seq<T>, query: map<string, string>)
    ensures SliceAsWritten(items, LimitOffset(query)).Sliced? ==>
              var (limit, offset) := ParsedLimitOffset(query);
              SliceAsWritten(items, LimitOffset(query)).items == Page(items, limit, offset)
  {
  }
}

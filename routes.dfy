/**
 * The HTTP routes around the matcher: `/load` hands a batch of records and the
 * replace flag to the matcher, and `/match` validates the query, asks the
 * matcher for its best match and turns the answer into one of three outcomes.
 * The matcher is passed in explicitly instead of living in a module global.
 */
module Routes {
  import opened Gestalt
  import opened Services

  /** Body of `/load`; the replace flag defaults to true. */
  datatype LoadRequest = LoadRequest(items: seq<Item>, replace: bool := true)

  /** What `/match` answers: a 400 error, a 404 error, or the match and its score. */
  datatype Outcome =
    | BadRequest(detail: string)
    | NotFound(detail: string)
    | Matched(bestMatch: Item, similarityScore: real)

  const InvalidInput: string := "Invalid input, trade and unit_of_measure must be provided."
  const NoMatch: string := "No matching item found."

  /** The lowest score `/match` accepts as a match. */
  const Threshold: real := 0.5

  /** The HTTP status code of an outcome. */
  function StatusCode(o: Outcome): (code: int)
    ensures code == 200 <==> o.Matched?
    ensures code == 400 <==> o.BadRequest?
    ensures code == 404 <==> o.NotFound?
  {
    match o
    case BadRequest(_) => 400
    case NotFound(_) => 404
    case Matched(_, _) => 200
  }

  /**
   * The answer of `/match` for query q over the catalogue items: an empty trade
   * or unit of measure is a bad request; otherwise the matcher's best match is
   * returned when there is one scoring at least the threshold, and not found
   * otherwise.
   */
  function Respond(items: seq<Item>, q: MatchRequest): (o: Outcome)
    ensures o.BadRequest? <==> q.trade == [] || q.unitOfMeasure == []
    ensures o.BadRequest? ==> o.detail == InvalidInput
    ensures o.NotFound? <==>
            q.trade != [] && q.unitOfMeasure != [] && forall k :: 0 <= k < |items| ==> Score(q, items[k]) < Threshold
    ensures o.NotFound? ==> o.detail == NoMatch
    ensures o.Matched? ==>
              o.bestMatch in items && Threshold <= o.similarityScore == Score(q, o.bestMatch) &&
              IsBestMatch(items, q, MatchResult(Some(o.bestMatch), o.similarityScore))
  {
    if q.trade == [] || q.unitOfMeasure == [] then BadRequest(InvalidInput)
    else
      var r := BestMatch(items, q);
      BestMatchIsBest(items, q);
      if r.bestMatch.None? || r.highestScore < Threshold then
        NotFound(NoMatch)
      else
        Matched(r.bestMatch.value, r.highestScore)
  }

  /** `/load`: passes the records and the replace flag to the matcher unchanged. */
  method LoadItems(matcher: Matcher, data: LoadRequest)
    modifies matcher
    ensures data.replace ==> matcher.items == data.items
    ensures !data.replace ==> matcher.items == old(matcher.items) + data.items
  {
    matcher.LoadNewItems(data.items, data.replace);
  }

  /** `/match`: consults the matcher only for a query with both fields present. */
  method MatchItem(matcher: Matcher, data: MatchRequest) returns (o: Outcome)
    ensures o == Respond(matcher.items, data)
  {
    if data.trade == [] || data.unitOfMeasure == [] {
      return BadRequest(InvalidInput);
    }
    var r := matcher.FindBestMatch(data);
    if r.bestMatch.None? || r.highestScore < Threshold {
      o := NotFound(NoMatch);
    } else {
      o := Matched(r.bestMatch.value, r.highestScore);
    }
  }

  /**
   * A complete query equal, up to case, to some record in both fields is
   * answered with such a record and score 1.
   */
  lemma ExactQueryMatches(items: seq<Item>, q: MatchRequest, k: nat)
    requires q.trade != [] && q.unitOfMeasure != []
    requires k < |items|
    requires Lower(q.trade) == Lower(items[k].trade) && Lower(q.unitOfMeasure) == Lower(items[k].unitOfMeasure)
    ensures Respond(items, q).Matched?
    ensures Respond(items, q).similarityScore == 1.0
    ensures var it := Respond(items, q).bestMatch;
            Lower(q.trade) == Lower(it.trade) && Lower(q.unitOfMeasure) == Lower(it.unitOfMeasure)
  {
    ExactRecordScoresOne(items, q, k);
  }

  /**
   * When exactly one record has the query's trade up to case and it also has the
   * query's unit of measure up to case, the answer is that record, unchanged, with score 1.
   */
  lemma OnlyExactRecordMatches(items: seq<Item>, q: MatchRequest, k: nat)
    requires q.trade != [] && q.unitOfMeasure != []
    requires k < |items|
    requires Lower(q.trade) == Lower(items[k].trade) && Lower(q.unitOfMeasure) == Lower(items[k].unitOfMeasure)
    requires forall m :: 0 <= m < |items| && m != k ==> Lower(items[m].trade) != Lower(q.trade)
    ensures Respond(items, q) == Matched(items[k], 1.0)
  {
    ExactRecordScoresOne(items, q, k);
    var o := Respond(items, q);
    var idx :| 0 <= idx < |items| && items[idx] == o.bestMatch && IsFirstBest(items, q, idx, o.similarityScore);
    ScoreOneIffExact(q, items[idx]);
  }

  /** A complete query whose trade equals some record's up to case is answered with a match. */
  lemma SameTradeMatches(items: seq<Item>, q: MatchRequest, k: nat)
    requires q.trade != [] && q.unitOfMeasure != []
    requires k < |items|
    requires Lower(q.trade) == Lower(items[k].trade)
    ensures Respond(items, q).Matched?
    ensures Respond(items, q).similarityScore >= 0.7
  {
    SameTradeScoresHigh(items, q, k);
  }

  /** The records loaded in the load-then-match scenario. */
  const Carpentry: Item := Item("Carpentry", "Hour", 35.0)
  const Landscaping: Item := Item("Landscaping", "SqFt", 10.0)

  /** The query of the load-then-match scenario. */
  const CarpentryQuery: MatchRequest := MatchRequest("carpentry", "hour")

  /** Over Carpentry/Hour and Landscaping/SqFt, the query carpentry/hour gives the Carpentry record with score 1. */
  lemma CarpentryQueryMatches(items: seq<Item>, q: MatchRequest)
    requires items == [Carpentry, Landscaping] && q == CarpentryQuery
    ensures Respond(items, q) == Matched(Carpentry, 1.0)
  {
    SameUpToCase(q.trade, items[0].trade);
    SameUpToCase(q.unitOfMeasure, items[0].unitOfMeasure);
    LengthsDifferUpToCase(items[1].trade, q.trade);
    OnlyExactRecordMatches(items, q, 0);
  }

  /** Replacing the catalogue and then matching finds the newly loaded record, whatever the seed. */
  method LoadThenMatchCarpentry(seed: seq<Item>) returns (o: Outcome)
    ensures o == Matched(Carpentry, 1.0)
  {
    var matcher := new Matcher(seed);
    LoadItems(matcher, LoadRequest([Carpentry, Landscaping], replace := true));
    o := MatchItem(matcher, CarpentryQuery);
    CarpentryQueryMatches(matcher.items, CarpentryQuery);
  }
}

/**
 * The matching service: a catalogue of trade records held in memory, which a
 * load replaces or extends, and a best-match query that scores every record
 * against a requested trade and unit of measure.
 */
module Services {
  import opened Gestalt

  datatype Option<T> = None | Some(value: T)

  /** A catalogue record. */
  datatype Item = Item(trade: string, unitOfMeasure: string, rate: real)

  /** A match query. */
  datatype MatchRequest = MatchRequest(trade: string, unitOfMeasure: string)

  /** What a best-match query answers: the chosen record, if any, and its score. */
  datatype MatchResult = MatchResult(bestMatch: Option<Item>, highestScore: real)

  /**
   * The weighted score of one record: 70% trade similarity, 30% unit-of-measure
   * similarity, both compared case-insensitively.
   */
  function Score(q: MatchRequest, item: Item): (s: real)
    ensures 0.0 <= s <= 1.0
  {
    Similarity(q.trade, item.trade) * 0.7 + Similarity(q.unitOfMeasure, item.unitOfMeasure) * 0.3
  }

  /** A record scores 1 exactly when both its trade and its unit of measure equal the query's up to case. */
  lemma ScoreOneIffExact(q: MatchRequest, item: Item)
    ensures Score(q, item) == 1.0 <==>
            Lower(q.trade) == Lower(item.trade) && Lower(q.unitOfMeasure) == Lower(item.unitOfMeasure)
  {
    SimilarityOneIffSameLower(q.trade, item.trade);
    SimilarityOneIffSameLower(q.unitOfMeasure, item.unitOfMeasure);
  }

  /** A record whose trade equals the query's up to case scores at least 0.7. */
  lemma ScoreOfSameTrade(q: MatchRequest, item: Item)
    requires Lower(q.trade) == Lower(item.trade)
    ensures Score(q, item) >= 0.7
  {
    SimilarityOneIffSameLower(q.trade, item.trade);
  }

  /**
   * A record scores 0 exactly when neither its trade nor its unit of measure
   * shares a character with the query's, up to case, and neither pair is empty.
   */
  lemma ScoreZeroIffDisjoint(q: MatchRequest, item: Item)
    ensures Score(q, item) == 0.0 <==>
            Similarity(q.trade, item.trade) == 0.0 && Similarity(q.unitOfMeasure, item.unitOfMeasure) == 0.0
    ensures Score(q, item) == 0.0 <==>
            |q.trade| + |item.trade| > 0 && (forall c :: c in Lower(q.trade) ==> c !in Lower(item.trade)) &&
            |q.unitOfMeasure| + |item.unitOfMeasure| > 0 &&
            (forall c :: c in Lower(q.unitOfMeasure) ==> c !in Lower(item.unitOfMeasure))
  {
    SimilarityZeroIffDisjoint(q.trade, item.trade);
    SimilarityZeroIffDisjoint(q.unitOfMeasure, item.unitOfMeasure);
  }

  /**
   * The result of scanning items in order, starting from no match and score 0,
   * and taking a record only when it scores strictly more than the best so far.
   */
  function BestMatch(items: seq<Item>, q: MatchRequest): (r: MatchResult)
    ensures 0.0 <= r.highestScore <= 1.0
    ensures r.bestMatch.Some? ==> r.bestMatch.value in items && r.highestScore == Score(q, r.bestMatch.value)
    decreases |items|
  {
    if items == [] then MatchResult(None, 0.0)
    else
      var prev := BestMatch(items[..|items| - 1], q);
      var last := items[|items| - 1];
      var s := Score(q, last);
      if s > prev.highestScore then MatchResult(Some(last), s) else prev
  }

  /**
   * r is the answer a best-match query must give over items: no record scores
   * above r's score; with no record, every record scores 0 and so does r; with a
   * record, it is the first record in order that reaches that score, which is
   * above 0.
   */
  ghost predicate IsBestMatch(items: seq<Item>, q: MatchRequest, r: MatchResult)
  {
    (forall k :: 0 <= k < |items| ==> Score(q, items[k]) <= r.highestScore) &&
    match r.bestMatch
    case None => r.highestScore == 0.0
    case Some(item) =>
      exists idx :: 0 <= idx < |items| && items[idx] == item && IsFirstBest(items, q, idx, r.highestScore)
  }

  /** items[idx] scores s > 0 and every record before it scores less. */
  ghost predicate IsFirstBest(items: seq<Item>, q: MatchRequest, idx: nat, s: real)
    requires idx < |items|
  {
    Score(q, items[idx]) == s > 0.0 &&
    forall k :: 0 <= k < idx ==> Score(q, items[k]) < s
  }

  /** The scan computes exactly the best match. */
  lemma {:induction false} BestMatchIsBest(items: seq<Item>, q: MatchRequest)
    ensures IsBestMatch(items, q, BestMatch(items, q))
    decreases |items|
  {
    if items != [] {
      var init, last := items[..|items| - 1], items[|items| - 1];
      assert items == init + [last];
      BestMatchIsBest(init, q);
      var prev := BestMatch(init, q);
      if Score(q, last) > prev.highestScore {
        TakeLast(init, last, q, prev);
      } else {
        KeepPrevious(init, last, q, prev);
      }
    }
  }

  /** A record scoring strictly above the best so far becomes the best match of the longer list. */
  lemma TakeLast(init: seq<Item>, last: Item, q: MatchRequest, prev: MatchResult)
    requires IsBestMatch(init, q, prev)
    requires Score(q, last) > prev.highestScore
    ensures IsBestMatch(init + [last], q, MatchResult(Some(last), Score(q, last)))
  {
    var items := init + [last];
    assert forall k :: 0 <= k < |init| ==> items[k] == init[k];
    assert IsFirstBest(items, q, |init|, Score(q, last));
  }

  /** A record scoring no more than the best so far leaves the best match as it was. */
  lemma KeepPrevious(init: seq<Item>, last: Item, q: MatchRequest, prev: MatchResult)
    requires IsBestMatch(init, q, prev)
    requires Score(q, last) <= prev.highestScore
    ensures IsBestMatch(init + [last], q, prev)
  {
    var items := init + [last];
    forall k | 0 <= k < |items| ensures Score(q, items[k]) <= prev.highestScore {
      if k < |init| {
        assert items[k] == init[k];
      }
    }
    if prev.bestMatch.Some? {
      var idx :| 0 <= idx < |init| && init[idx] == prev.bestMatch.value && IsFirstBest(init, q, idx, prev.highestScore);
      assert forall k :: 0 <= k < idx ==> items[k] == init[k];
      assert IsFirstBest(items, q, idx, prev.highestScore);
    }
  }

  /** At most one answer satisfies IsBestMatch, so it determines the query's answer completely. */
  lemma BestMatchUnique(items: seq<Item>, q: MatchRequest, r1: MatchResult, r2: MatchResult)
    requires IsBestMatch(items, q, r1) && IsBestMatch(items, q, r2)
    ensures r1 == r2
  {
    if r1.bestMatch.Some? && r2.bestMatch.Some? {
      var i1 :| 0 <= i1 < |items| && items[i1] == r1.bestMatch.value && IsFirstBest(items, q, i1, r1.highestScore);
      var i2 :| 0 <= i2 < |items| && items[i2] == r2.bestMatch.value && IsFirstBest(items, q, i2, r2.highestScore);
    }
  }

  /** No record is chosen exactly when every record scores 0, and the score is then 0. */
  lemma NoneIffAllZero(items: seq<Item>, q: MatchRequest)
    ensures BestMatch(items, q).bestMatch.None? <==> forall k :: 0 <= k < |items| ==> Score(q, items[k]) == 0.0
    ensures BestMatch(items, q).bestMatch.None? ==> BestMatch(items, q).highestScore == 0.0
  {
    BestMatchIsBest(items, q);
    var r := BestMatch(items, q);
    if r.bestMatch.Some? {
      var idx :| 0 <= idx < |items| && items[idx] == r.bestMatch.value && IsFirstBest(items, q, idx, r.highestScore);
      assert Score(q, items[idx]) > 0.0;
    }
  }

  /**
   * When some record equals the query case-insensitively in both fields, the
   * answer is a record that does so, with score 1.
   */
  lemma ExactRecordScoresOne(items: seq<Item>, q: MatchRequest, k: nat)
    requires k < |items|
    requires Lower(q.trade) == Lower(items[k].trade) && Lower(q.unitOfMeasure) == Lower(items[k].unitOfMeasure)
    ensures BestMatch(items, q).bestMatch.Some?
    ensures BestMatch(items, q).highestScore == 1.0
    ensures var it := BestMatch(items, q).bestMatch.value;
            it in items && Lower(q.trade) == Lower(it.trade) && Lower(q.unitOfMeasure) == Lower(it.unitOfMeasure)
  {
    BestMatchIsBest(items, q);
    var r := BestMatch(items, q);
    ScoreOneIffExact(q, items[k]);
    if r.bestMatch.Some? {
      var idx :| 0 <= idx < |items| && items[idx] == r.bestMatch.value && IsFirstBest(items, q, idx, r.highestScore);
      ScoreOneIffExact(q, items[idx]);
    }
  }

  /** When some record's trade equals the query's case-insensitively, the answer scores at least 0.7. */
  lemma SameTradeScoresHigh(items: seq<Item>, q: MatchRequest, k: nat)
    requires k < |items|
    requires Lower(q.trade) == Lower(items[k].trade)
    ensures BestMatch(items, q).bestMatch.Some?
    ensures BestMatch(items, q).highestScore >= 0.7
  {
    BestMatchIsBest(items, q);
    ScoreOfSameTrade(q, items[k]);
  }

  /** The in-memory matcher service. */
  class Matcher {
    /** The catalogue, in load order. */
    var items: seq<Item>

    /** Starts from the seed catalogue. */
    constructor (seed: seq<Item>)
      ensures items == seed
    {
      items := seed;
    }

    /** Replaces the catalogue with newItems, or appends newItems to it. */
    method LoadNewItems(newItems: seq<Item>, replace: bool := true)
      modifies this
      ensures replace ==> items == newItems
      ensures !replace ==> items == old(items) + newItems
      ensures !replace ==> |items| == |old(items)| + |newItems| && items[..|old(items)|] == old(items)
    {
      if replace {
        items := newItems;
      } else {
        items := items + newItems;
      }
    }

    /**
     * Scores every record in order and keeps the first one with the strictly
     * highest score; leaves the catalogue untouched.
     */
    method FindBestMatch(q: MatchRequest) returns (r: MatchResult)
      ensures r == BestMatch(items, q)
      ensures IsBestMatch(items, q, r)
      ensures items == [] ==> r == MatchResult(None, 0.0)
    {
      var bestMatch: Option<Item> := None;
      var highestScore: real := 0.0;
      var n := 0;
      while n < |items|
        invariant 0 <= n <= |items|
        invariant MatchResult(bestMatch, highestScore) == BestMatch(items[..n], q)
      {
        var item := items[n];
        var tradeSimilarity := Similarity(q.trade, item.trade);
        var uomSimilarity := Similarity(q.unitOfMeasure, item.unitOfMeasure);
        var similarityScore := tradeSimilarity * 0.7 + uomSimilarity * 0.3;
        assert items[..n + 1][..n] == items[..n];
        if similarityScore > highestScore {
          highestScore := similarityScore;
          bestMatch := Some(item);
        }
        n := n + 1;
      }
      assert items[..n] == items;
      r := MatchResult(bestMatch, highestScore);
      BestMatchIsBest(items, q);
    }
  }
}

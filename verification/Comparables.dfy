/**
 Selection of verified comparable sales and the statistics over their prices.
 Prices are exact; the 28-digit rounding of decimal division is not modelled.
 */
module Comparables {
  import opened Prelude
  import opened Ordering
  import opened RealMath

  datatype Evidence = Evidence(
    assetId: Option<string>, verified: bool, soldPrice: Option<real>, soldDate: Option<int>,
    itemId: string, evidenceId: string, exactMatch: bool, mismatchedFields: seq<string>)

  /** `asset_id` (empty for any), reference date, sample size and window of one request. */
  datatype Query = Query(assetId: string, referenceDate: int, sampleSize: int, windowDays: int)

  predicate IsEligible(e: Evidence) {
    e.verified && e.soldPrice.Some? && e.soldDate.Some? && e.itemId != [] && e.exactMatch && e.mismatchedFields == []
  }

  predicate Qualifies(e: Evidence, q: Query) {
    && (q.assetId == [] || e.assetId == Some(q.assetId))
    && IsEligible(e)
    && 0 <= q.referenceDate - e.soldDate.value <= q.windowDays
  }

  /** What qualifies a record, condition by condition. */
  lemma QualifiesIff(e: Evidence, q: Query)
    ensures Qualifies(e, q) <==>
      && e.verified && e.exactMatch && |e.mismatchedFields| == 0 && |e.itemId| > 0 && e.soldPrice != None
      && (exists date :: e.soldDate == Some(date) && date <= q.referenceDate <= date + q.windowDays)
      && (|q.assetId| > 0 ==> e.assetId == Some(q.assetId))
  {
    if e.soldDate.Some? && Qualifies(e, q) { assert e.soldDate == Some(e.soldDate.value); }
  }

  function DateOf(e: Evidence): int { if e.soldDate.Some? then e.soldDate.value else 0 }

  /** Newest first: date, then item id, then evidence id, all descending. */
  predicate NotBelow(a: Evidence, b: Evidence) {
    || DateOf(a) > DateOf(b)
    || (DateOf(a) == DateOf(b) && a.itemId != b.itemId && TextLe(b.itemId, a.itemId))
    || (DateOf(a) == DateOf(b) && a.itemId == b.itemId && TextLe(b.evidenceId, a.evidenceId))
  }

  function Qualifying(records: seq<Evidence>, q: Query): (r: seq<Evidence>)
    ensures forall e :: e in r <==> e in records && Qualifies(e, q)
  {
    if records == [] then []
    else
      var front, last := Qualifying(records[..|records| - 1], q), records[|records| - 1];
      assert records == records[..|records| - 1] + [last];
      if Qualifies(last, q) then front + [last] else front
  }

  /** Keeps the first record of every item. */
  function FirstPerItem(ordered: seq<Evidence>): seq<Evidence> {
    if ordered == [] then []
    else
      var front, last := FirstPerItem(ordered[..|ordered| - 1]), ordered[|ordered| - 1];
      if exists e :: e in front && e.itemId == last.itemId then front else front + [last]
  }

  /** `sequence[:n]`, which counts from the end when `n` is negative. */
  function Slice<T>(s: seq<T>, n: int): (r: seq<T>)
    ensures r <= s && (n >= 0 ==> |r| == if n < |s| then n else |s|)
    ensures n < 0 ==> |r| == if -n < |s| then |s| + n else 0
  {
    if n >= 0 then (if n < |s| then s[..n] else s) else if -n < |s| then s[..|s| + n] else []
  }

  function Ordered(records: seq<Evidence>, q: Query): seq<Evidence> { SortBy(Qualifying(records, q), NotBelow) }

  function Selected(records: seq<Evidence>, q: Query): seq<Evidence> {
    Slice(FirstPerItem(Ordered(records, q)), q.sampleSize)
  }

  method SelectVerifiedComparables(records: seq<Evidence>, q: Query) returns (r: seq<Evidence>)
    ensures r == Selected(records, q)
  {
    hide SortBy;
    var verified: seq<Evidence> := [];
    for k := 0 to |records|
      invariant verified == Qualifying(records[..k], q)
    {
      assert records[..k + 1][..k] == records[..k];
      var evidence := records[k];
      if q.assetId == [] || evidence.assetId == Some(q.assetId) {
        if IsEligible(evidence) {
          var daysOld := q.referenceDate - evidence.soldDate.value;
          if !(daysOld < 0 || daysOld > q.windowDays) { verified := verified + [evidence]; }
        }
      }
    }
    assert records[..|records|] == records;
    var ordered := SortBy(verified, NotBelow);
    var unique: seq<Evidence> := [];
    var seenKeys: set<string> := {};
    for k := 0 to |ordered|
      invariant unique == FirstPerItem(ordered[..k])
      invariant seenKeys == set e | e in unique :: e.itemId
    {
      assert ordered[..k + 1][..k] == ordered[..k];
      var evidence := ordered[k];
      if evidence.itemId !in seenKeys {
        seenKeys := seenKeys + {evidence.itemId};
        unique := unique + [evidence];
      }
    }
    assert ordered[..|ordered|] == ordered;
    r := Slice(unique, q.sampleSize);
  }

  // ----- laws of the selection -----

  lemma NotBelowOrder()
    ensures TotalPreorder(NotBelow)
  {
    forall a: Evidence, b: Evidence ensures NotBelow(a, b) || NotBelow(b, a) {
      TextLeTotal(a.itemId, b.itemId);
      TextLeTotal(a.evidenceId, b.evidenceId);
    }
    forall a: Evidence, b: Evidence, c: Evidence | NotBelow(a, b) && NotBelow(b, c) ensures NotBelow(a, c) {
      NotBelowTransitive(a, b, c);
    }
  }

  lemma NotBelowTransitive(a: Evidence, b: Evidence, c: Evidence)
    requires NotBelow(a, b) && NotBelow(b, c)
    ensures NotBelow(a, c)
  {
    if DateOf(a) == DateOf(b) == DateOf(c) {
      TextLeReflexive(a.itemId);
      if TextLe(c.itemId, b.itemId) && TextLe(b.itemId, a.itemId) {
        TextLeTransitive(c.itemId, b.itemId, a.itemId);
        if a.itemId == c.itemId { TextLeAntisymmetric(a.itemId, b.itemId); }
      }
      if a.itemId == b.itemId == c.itemId { TextLeTransitive(c.evidenceId, b.evidenceId, a.evidenceId); }
    }
  }

  lemma TextLeReflexive(a: string)
    ensures TextLe(a, a)
  {
    TextLeTotal(a, a);
  }

  lemma {:induction false} QualifyingContents(records: seq<Evidence>, q: Query, e: Evidence)
    ensures multiset(Qualifying(records, q))[e] == if Qualifies(e, q) then multiset(records)[e] else 0
  {
    if records != [] {
      var front, last := records[..|records| - 1], records[|records| - 1];
      QualifyingContents(front, q, e);
      assert records == front + [last];
      assert multiset(records) == multiset(front) + multiset{last};
    }
  }

  /** The selection does not depend on the order of the input, when qualifying records with equal keys are equal. */
  lemma OrderIndependent(records: seq<Evidence>, shuffled: seq<Evidence>, q: Query)
    requires multiset(records) == multiset(shuffled)
    requires TiesEqual(Qualifying(records, q), NotBelow)
    ensures Selected(records, q) == Selected(shuffled, q)
  {
    hide SortBy;
    hide NotBelow;
    hide Qualifies;
    hide FirstPerItem;
    var a, b := Qualifying(records, q), Qualifying(shuffled, q);
    forall e ensures multiset(a)[e] == multiset(b)[e] {
      QualifyingContents(records, q, e);
      QualifyingContents(shuffled, q, e);
    }
    assert multiset(a) == multiset(b);
    NotBelowOrder();
    SortOrderIndependent(a, b, NotBelow);
  }

  ghost predicate Descending(s: seq<Evidence>) {
    forall i, j :: 0 <= i < j < |s| ==> NotBelow(s[i], s[j])
  }

  ghost predicate OnePerItem(s: seq<Evidence>) {
    forall i, j :: 0 <= i < j < |s| ==> s[i].itemId != s[j].itemId
  }

  /** Some kept record of this item is not below `e`. */
  ghost predicate Represented(unique: seq<Evidence>, e: Evidence) {
    exists u :: u in unique && u.itemId == e.itemId && NotBelow(u, e)
  }

  lemma DescendingFront(front: seq<Evidence>, last: Evidence)
    requires Descending(front + [last])
    ensures Descending(front) && forall e :: e in front ==> NotBelow(e, last)
  {
    hide NotBelow;
    var all := front + [last];
    assert forall i :: 0 <= i < |front| ==> all[i] == front[i];
    forall e | e in front ensures NotBelow(e, last) {
      var i :| 0 <= i < |front| && front[i] == e;
      assert NotBelow(all[i], all[|front|]);
    }
  }

  lemma AppendKept(unique: seq<Evidence>, last: Evidence)
    requires Descending(unique) && OnePerItem(unique)
    requires forall e :: e in unique ==> NotBelow(e, last) && e.itemId != last.itemId
    ensures Descending(unique + [last]) && OnePerItem(unique + [last])
  {
    hide NotBelow;
    var all := unique + [last];
    forall i, j | 0 <= i < j < |all| ensures NotBelow(all[i], all[j]) && all[i].itemId != all[j].itemId {
      assert all[i] == unique[i] && unique[i] in unique;
      if j < |unique| { assert all[j] == unique[j]; }
    }
  }

  lemma {:induction false} FirstPerItemDeduplicates(ordered: seq<Evidence>)
    requires Descending(ordered)
    ensures Descending(FirstPerItem(ordered)) && OnePerItem(FirstPerItem(ordered))
    ensures forall e :: e in FirstPerItem(ordered) ==> e in ordered
    ensures forall e :: e in ordered ==> Represented(FirstPerItem(ordered), e)
  {
    hide NotBelow;
    hide Descending;
    hide OnePerItem;
    hide Represented;
    if ordered == [] {
      assert Descending([]) && OnePerItem([]) by { NothingKept(); }
    } else {
      var front, last := ordered[..|ordered| - 1], ordered[|ordered| - 1];
      assert ordered == front + [last];
      DescendingFront(front, last);
      FirstPerItemDeduplicates(front);
      NotBelowItself(last);
      var unique := FirstPerItem(front);
      if e :| e in unique && e.itemId == last.itemId {
        assert Represented(unique, last) by { RepresentedBy(unique, e, last); }
      } else {
        AppendKept(unique, last);
        forall e | e in ordered ensures Represented(unique + [last], e) {
          StillRepresented(unique, last, e);
        }
      }
    }
  }

  lemma RepresentedBy(unique: seq<Evidence>, u: Evidence, e: Evidence)
    requires u in unique && u.itemId == e.itemId && NotBelow(u, e)
    ensures Represented(unique, e)
  {}

  lemma StillRepresented(unique: seq<Evidence>, last: Evidence, e: Evidence)
    requires Represented(unique, e) || (e == last && NotBelow(last, last))
    ensures Represented(unique + [last], e)
  {
    if Represented(unique, e) {
      var u :| u in unique && u.itemId == e.itemId && NotBelow(u, e);
      assert u in unique + [last];
    } else {
      assert last in unique + [last];
    }
  }

  lemma NothingKept()
    ensures Descending([]) && OnePerItem([])
  {}

  lemma NotBelowItself(e: Evidence)
    ensures NotBelow(e, e)
  {
    TextLeReflexive(e.evidenceId);
  }

  /** The kept records, before the sample is cut to size. */
  function Kept(records: seq<Evidence>, q: Query): seq<Evidence> { FirstPerItem(Ordered(records, q)) }

  lemma KeptFacts(records: seq<Evidence>, q: Query)
    ensures Descending(Kept(records, q)) && OnePerItem(Kept(records, q))
    ensures forall e :: e in Kept(records, q) ==> e in records && Qualifies(e, q)
    ensures forall e :: e in records && Qualifies(e, q) ==> Represented(Kept(records, q), e)
  {
    hide SortBy;
    hide NotBelow;
    hide Qualifies;
    hide FirstPerItem;
    hide Represented;
    NotBelowOrder();
    SortIsSorted(Qualifying(records, q), NotBelow);
    MemberOfSort(Qualifying(records, q), NotBelow);
    var ordered := Ordered(records, q);
    assert Descending(ordered);
    FirstPerItemDeduplicates(ordered);
  }

  /** Only qualifying records are selected, strictly descending, one per item. */
  lemma SelectionIsDescending(records: seq<Evidence>, q: Query)
    ensures var r := Selected(records, q);
      && (forall e :: e in r ==> e in records && Qualifies(e, q))
      && (forall i, j :: 0 <= i < j < |r| ==> r[i].itemId != r[j].itemId && NotBelow(r[i], r[j]) && !NotBelow(r[j], r[i]))
  {
    hide Qualifies;
    hide Kept;
    hide Represented;
    KeptFacts(records, q);
    var unique, r := Kept(records, q), Selected(records, q);
    assert r <= unique by { SelectedIsPrefix(records, q); }
    forall e | e in r ensures e in records && Qualifies(e, q) { assert e in unique; }
    forall i, j | 0 <= i < j < |r|
      ensures r[i].itemId != r[j].itemId && NotBelow(r[i], r[j]) && !NotBelow(r[j], r[i])
    {
      assert r[i] == unique[i] && r[j] == unique[j];
      StrictlyAbove(r[i], r[j]);
    }
  }

  /** Sold later, or on the same day with a greater item id. */
  ghost predicate NewerFirst(a: Evidence, b: Evidence) {
    && a.soldDate.Some? && b.soldDate.Some? && a.soldDate.value >= b.soldDate.value
    && (a.soldDate == b.soldDate ==> a.itemId != b.itemId && TextLe(b.itemId, a.itemId))
  }

  /** The selection is ordered newest first, and on one date by descending item id. */
  lemma SelectionIsNewestFirst(records: seq<Evidence>, q: Query)
    ensures var r := Selected(records, q); forall i, j :: 0 <= i < j < |r| ==> NewerFirst(r[i], r[j])
  {
    hide Selected;
    SelectionIsDescending(records, q);
    var r := Selected(records, q);
    forall i, j | 0 <= i < j < |r| ensures NewerFirst(r[i], r[j]) {
      assert r[i] in r && r[j] in r && NotBelow(r[i], r[j]) && r[i].itemId != r[j].itemId;
    }
  }

  /** Of the records of one item the newest is kept, and of those sold that day the one with the greatest evidence id. */
  lemma NewestOfItem(records: seq<Evidence>, q: Query, u: Evidence, e: Evidence)
    requires u in Selected(records, q) && e in records && Qualifies(e, q) && u.itemId == e.itemId
    ensures u.soldDate.Some? && u.soldDate.value >= e.soldDate.value
    ensures u.soldDate == e.soldDate ==> TextLe(e.evidenceId, u.evidenceId)
  {
    hide Qualifies;
    hide Kept;
    hide Selected;
    KeptFacts(records, q);
    SelectedIsPrefix(records, q);
    var unique := Kept(records, q);
    var i :| 0 <= i < |Selected(records, q)| && Selected(records, q)[i] == u;
    assert unique[i] == u;
    assert Represented(unique, e);
    var v :| v in unique && v.itemId == e.itemId && NotBelow(v, e);
    var k :| 0 <= k < |unique| && unique[k] == v;
    assert u == v;
    QualifiesIff(u, q);
    QualifiesIff(e, q);
  }

  lemma SelectedIsPrefix(records: seq<Evidence>, q: Query)
    ensures Selected(records, q) <= Kept(records, q)
    ensures Selected(records, q) == Slice(Kept(records, q), q.sampleSize)
  {}

  lemma StrictlyAbove(a: Evidence, b: Evidence)
    requires NotBelow(a, b) && a.itemId != b.itemId
    ensures !NotBelow(b, a)
  {
    if NotBelow(b, a) { TextLeAntisymmetric(a.itemId, b.itemId); }
  }

  /**
   Completeness: a qualifying record is selected, or a record of the same item that is
   not below it is, or the sample is full of other items that are not below it.
   */
  lemma LeftOutForAReason(records: seq<Evidence>, q: Query, e: Evidence)
    requires q.sampleSize >= 0 && e in records && Qualifies(e, q)
    ensures var r := Selected(records, q);
      || (exists u :: u in r && u.itemId == e.itemId && NotBelow(u, e))
      || (|r| == q.sampleSize && forall u :: u in r ==> u.itemId != e.itemId && NotBelow(u, e))
  {
    hide Qualifies;
    hide NotBelow;
    hide Kept;
    hide Selected;
    KeptFacts(records, q);
    SelectedIsPrefix(records, q);
    var unique, r := Kept(records, q), Selected(records, q);
    assert Represented(unique, e);
    var u :| u in unique && u.itemId == e.itemId && NotBelow(u, e);
    var k :| 0 <= k < |unique| && unique[k] == u;
    if k < |r| {
      assert r[k] == u;
    } else {
      forall v | v in r ensures v.itemId != e.itemId && NotBelow(v, e) {
        var i :| 0 <= i < |r| && r[i] == v;
        assert unique[i] == v && NotBelow(unique[i], unique[k]);
        NotBelowTransitive(v, u, e);
      }
    }
  }

  // ----- statistics -----

  predicate AtMost(a: real, b: real) { a <= b }

  function Median(values: seq<real>): real
    requires values != []
  {
    var midpoint := |values| / 2;
    if |values| % 2 != 0 then values[midpoint] else (values[midpoint - 1] + values[midpoint]) / 2.0
  }

  /** Without the lowest and the highest price, once there are five. */
  function TrimmedMean(values: seq<real>): real
    requires values != []
  {
    if |values| >= 5 then Mean(values[1..|values| - 1]) else Mean(values)
  }

  datatype Statistics = Statistics(minimum: real, maximum: real, median: real, average: real, trimmedMean: real, sampleCount: nat)

  function StatisticsOf(prices: seq<real>): Option<Statistics> {
    if prices == [] then None
    else
      var s := SortBy(prices, AtMost);
      Some(Statistics(s[0], s[|s| - 1], Median(s), Mean(s), TrimmedMean(s), |s|))
  }

  lemma {:induction false} TotalBounds(values: seq<real>, low: real, high: real)
    requires forall k :: 0 <= k < |values| ==> low <= values[k] <= high
    ensures low * |values| as real <= Sum(values) <= high * |values| as real
  {
    if values != [] { TotalBounds(values[..|values| - 1], low, high); }
  }

  lemma MeanBounds(values: seq<real>, low: real, high: real)
    requires values != [] && forall k :: 0 <= k < |values| ==> low <= values[k] <= high
    ensures low <= Mean(values) <= high
  {
    TotalBounds(values, low, high);
    var n := |values| as real;
    assert Mean(values) * n == Sum(values);
    if Mean(values) < low { SmallerTimes(Mean(values), low, n); }
    if Mean(values) > high { SmallerTimes(high, Mean(values), n); }
  }

  lemma SmallerTimes(x: real, y: real, z: real)
    requires x < y && z > 0.0
    ensures x * z < y * z
  {
    assert (y - x) * z > 0.0;
  }

  /** Median, mean and trimmed mean lie between the lowest and the highest price. */
  lemma StatisticsWithinRange(prices: seq<real>)
    requires prices != []
    ensures var s := StatisticsOf(prices).value;
      && s.minimum in prices && s.maximum in prices && s.sampleCount == |prices|
      && (forall p :: p in prices ==> s.minimum <= p <= s.maximum)
      && s.minimum <= s.median <= s.maximum
      && s.minimum <= s.average <= s.maximum
      && s.minimum <= s.trimmedMean <= s.maximum
  {
    hide SortBy;
    hide Mean;
    var s := SortBy(prices, AtMost);
    SortIsSorted(prices, AtMost);
    MemberOfSort(prices, AtMost);
    var low, high := s[0], s[|s| - 1];
    assert low in s && high in s;
    forall k | 0 <= k < |s| ensures low <= s[k] <= high {
      assert k > 0 ==> AtMost(s[0], s[k]);
      assert k < |s| - 1 ==> AtMost(s[k], s[|s| - 1]);
    }
    forall p | p in prices ensures low <= p <= high {
      var k :| 0 <= k < |s| && s[k] == p;
    }
    MeanBounds(s, low, high);
    if |s| >= 5 { MeanBounds(s[1..|s| - 1], low, high); }
  }

  /** Replacing the highest price by a higher one only replaces the last of the sorted prices. */
  lemma RaisedTopSorts(prices: seq<real>, top: nat, raised: real)
    requires top < |prices| && (forall k :: 0 <= k < |prices| ==> prices[k] <= prices[top]) && prices[top] <= raised
    ensures SortBy(prices[top := raised], AtMost) == SortBy(prices, AtMost)[|prices| - 1 := raised]
  {
    hide SortBy;
    hide Sorted;
    hide TiesEqual;
    var changed, s := prices[top := raised], SortBy(prices, AtMost);
    var n := |prices| - 1;
    SortContents(prices, AtMost);
    SortContents(changed, AtMost);
    SortIsSorted(prices, AtMost);
    SortIsSorted(changed, AtMost);
    TopSortsLast(prices, top);
    RaisedLast(s, raised);
    UpdatedContents(prices, top, raised);
    UpdatedContents(s, n, raised);
    SortedUnique(SortBy(changed, AtMost), s[n := raised], AtMost);
  }

  lemma TopSortsLast(prices: seq<real>, top: nat)
    requires top < |prices| && forall k :: 0 <= k < |prices| ==> prices[k] <= prices[top]
    ensures |SortBy(prices, AtMost)| == |prices| && SortBy(prices, AtMost)[|prices| - 1] == prices[top]
  {
    hide SortBy;
    var s, n := SortBy(prices, AtMost), |prices| - 1;
    SortContents(prices, AtMost);
    SortIsSorted(prices, AtMost);
    MemberOfSort(prices, AtMost);
    assert s[n] in s && prices[top] in s;
    var k :| 0 <= k < |s| && s[k] == prices[top];
    assert k < n ==> AtMost(s[k], s[n]);
  }

  lemma UpdatedContents(s: seq<real>, k: nat, x: real)
    requires k < |s|
    ensures multiset(s[k := x]) == multiset(s) - multiset{s[k]} + multiset{x}
  {}

  lemma RaisedLast(s: seq<real>, raised: real)
    requires s != [] && Sorted(s, AtMost) && s[|s| - 1] <= raised
    ensures Sorted(s[|s| - 1 := raised], AtMost)
  {
    var n := |s| - 1;
    var t := s[n := raised];
    forall i, j | 0 <= i < j < |t| ensures AtMost(t[i], t[j]) {
      assert AtMost(s[i], s[j]);
    }
  }

  /** Raising the top price changes neither the median (three or more prices) nor the trimmed mean (five or more). */
  lemma TopPriceIsHarmless(prices: seq<real>, top: nat, raised: real)
    requires top < |prices| && (forall k :: 0 <= k < |prices| ==> prices[k] <= prices[top]) && prices[top] <= raised
    ensures var before, after := StatisticsOf(prices).value, StatisticsOf(prices[top := raised]).value;
      && (|prices| >= 3 ==> after.median == before.median)
      && (|prices| >= 5 ==> after.trimmedMean == before.trimmedMean)
      && after.maximum == raised
  {
    hide SortBy;
    RaisedTopSorts(prices, top, raised);
    var s, n := SortBy(prices, AtMost), |prices| - 1;
    var t := s[n := raised];
    if |prices| >= 5 { assert t[1..n] == s[1..n]; }
  }

  // ----- laws of the statistics -----

  /** All prices multiplied by -1. */
  function Negated(values: seq<real>): (r: seq<real>)
    ensures |r| == |values| && forall i :: 0 <= i < |values| ==> r[i] == -values[i]
  {
    seq(|values|, i requires 0 <= i < |values| => -values[i])
  }

  /** A constant added to all prices. */
  function Shifted(values: seq<real>, c: real): (r: seq<real>)
    ensures |r| == |values| && forall i :: 0 <= i < |values| ==> r[i] == values[i] + c
  {
    seq(|values|, i requires 0 <= i < |values| => values[i] + c)
  }

  function Backwards(values: seq<real>): (r: seq<real>)
    ensures |r| == |values| && forall i :: 0 <= i < |values| ==> r[i] == values[|values| - 1 - i]
  {
    seq(|values|, i requires 0 <= i < |values| => values[|values| - 1 - i])
  }

  lemma {:induction false} NegatedContents(values: seq<real>, x: real)
    ensures multiset(Negated(values))[x] == multiset(values)[-x]
  {
    if values != [] {
      var front, last := values[..|values| - 1], values[|values| - 1];
      NegatedContents(front, x);
      assert values == front + [last];
      assert Negated(values) == Negated(front) + [-last];
    }
  }

  lemma {:induction false} BackwardsContents(values: seq<real>)
    ensures multiset(Backwards(values)) == multiset(values)
  {
    if values != [] {
      var front, last := values[..|values| - 1], values[|values| - 1];
      BackwardsContents(front);
      assert values == front + [last];
      assert Backwards(values) == [last] + Backwards(front);
    }
  }

  lemma AscendingBackwards(s: seq<real>)
    requires Sorted(s, AtMost)
    ensures Sorted(Backwards(Negated(s)), AtMost)
  {
    var t := Backwards(Negated(s));
    forall i, j | 0 <= i < j < |t| ensures AtMost(t[i], t[j]) {
      assert AtMost(s[|s| - 1 - j], s[|s| - 1 - i]);
    }
  }

  /** Negating all prices turns their order around. */
  lemma NegatedSort(prices: seq<real>)
    ensures SortBy(Negated(prices), AtMost) == Backwards(Negated(SortBy(prices, AtMost)))
  {
    hide SortBy;
    hide Sorted;
    var s, t := SortBy(prices, AtMost), SortBy(Negated(prices), AtMost);
    SortIsSorted(prices, AtMost);
    SortIsSorted(Negated(prices), AtMost);
    AscendingBackwards(s);
    SortContents(prices, AtMost);
    SortContents(Negated(prices), AtMost);
    BackwardsContents(Negated(s));
    forall x ensures multiset(t)[x] == multiset(Backwards(Negated(s)))[x] {
      NegatedContents(prices, x);
      NegatedContents(s, x);
    }
    assert multiset(t) == multiset(Backwards(Negated(s)));
    SortedUnique(t, Backwards(Negated(s)), AtMost);
  }

  lemma {:induction false} ShiftedInsert(s: seq<real>, x: real, c: real)
    ensures Insert(Shifted(s, c), x + c, AtMost) == Shifted(Insert(s, x, AtMost), c)
  {
    if s == [] || AtMost(s[|s| - 1], x) {
      assert Shifted(s + [x], c) == Shifted(s, c) + [x + c];
    } else {
      var front := s[..|s| - 1];
      ShiftedInsert(front, x, c);
      assert Shifted(s, c)[..|s| - 1] == Shifted(front, c);
      assert Shifted(Insert(front, x, AtMost) + [s[|s| - 1]], c) == Shifted(Insert(front, x, AtMost), c) + [s[|s| - 1] + c];
    }
  }

  lemma {:induction false} ShiftedSort(prices: seq<real>, c: real)
    ensures SortBy(Shifted(prices, c), AtMost) == Shifted(SortBy(prices, AtMost), c)
  {
    hide Insert;
    hide AtMost;
    if prices != [] {
      var front, last := prices[..|prices| - 1], prices[|prices| - 1];
      ShiftedSort(front, c);
      ShiftedInsert(SortBy(front, AtMost), last, c);
      assert Shifted(prices, c)[..|prices| - 1] == Shifted(front, c);
    }
  }

  /** Negating all prices negates the median; adding a constant to all of them adds it to the median. */
  lemma MedianMoves(prices: seq<real>, c: real)
    requires prices != []
    ensures StatisticsOf(Negated(prices)).value.median == -StatisticsOf(prices).value.median
    ensures StatisticsOf(Shifted(prices, c)).value.median == StatisticsOf(prices).value.median + c
  {
    hide SortBy;
    hide Mean;
    hide TrimmedMean;
    NegatedSort(prices);
    ShiftedSort(prices, c);
  }

  function CountAtMost(values: seq<real>, m: real): nat {
    if values == [] then 0 else CountAtMost(values[..|values| - 1], m) + if values[|values| - 1] <= m then 1 else 0
  }

  lemma {:induction false} CountOfInsert(s: seq<real>, x: real, m: real)
    ensures CountAtMost(Insert(s, x, AtMost), m) == CountAtMost(s, m) + if x <= m then 1 else 0
  {
    if s == [] || AtMost(s[|s| - 1], x) {
      assert (s + [x])[..|s|] == s;
    } else {
      var front := s[..|s| - 1];
      CountOfInsert(front, x, m);
      var r := Insert(front, x, AtMost) + [s[|s| - 1]];
      assert r[..|r| - 1] == Insert(front, x, AtMost);
    }
  }

  lemma {:induction false} CountOfSort(prices: seq<real>, m: real)
    ensures CountAtMost(SortBy(prices, AtMost), m) == CountAtMost(prices, m)
  {
    if prices != [] {
      CountOfSort(prices[..|prices| - 1], m);
      CountOfInsert(SortBy(prices[..|prices| - 1], AtMost), prices[|prices| - 1], m);
    }
  }

  lemma {:induction false} CountPrefix(s: seq<real>, m: real, k: nat)
    requires k <= |s| && forall i :: 0 <= i < k ==> s[i] <= m
    ensures CountAtMost(s, m) >= k
  {
    if |s| > k {
      CountPrefix(s[..|s| - 1], m, k);
    } else if k > 0 {
      CountPrefix(s[..|s| - 1], m, k - 1);
    }
  }

  lemma HalfAtMost(prices: seq<real>, m: real)
    requires prices != [] && m == StatisticsOf(prices).value.median
    ensures 2 * CountAtMost(prices, m) >= |prices|
  {
    hide SortBy;
    hide Mean;
    hide TrimmedMean;
    var s := SortBy(prices, AtMost);
    SortIsSorted(prices, AtMost);
    CountOfSort(prices, m);
    var k := (|s| + 1) / 2;
    forall i | 0 <= i < k ensures s[i] <= m {
      assert i < |s| / 2 ==> AtMost(s[i], s[|s| / 2]);
      assert |s| % 2 == 0 && i < |s| / 2 - 1 ==> AtMost(s[i], s[|s| / 2 - 1]);
      assert |s| % 2 == 0 ==> AtMost(s[|s| / 2 - 1], s[|s| / 2]);
    }
    CountPrefix(s, m, k);
  }

  /** At least half of the prices are at most the median, and at least half are at least it. */
  lemma MedianHalves(prices: seq<real>, median: real)
    requires prices != [] && median == StatisticsOf(prices).value.median
    ensures 2 * CountAtMost(prices, median) >= |prices|
    ensures 2 * CountAtMost(Negated(prices), -median) >= |prices|
  {
    hide SortBy;
    hide Median;
    hide Mean;
    hide TrimmedMean;
    hide CountAtMost;
    hide Negated;
    MedianMoves(prices, 0.0);
    HalfAtMost(prices, median);
    HalfAtMost(Negated(prices), -median);
  }

  lemma {:induction false} SumOfInsert(s: seq<real>, x: real)
    ensures Sum(Insert(s, x, AtMost)) == Sum(s) + x
  {
    if s == [] || AtMost(s[|s| - 1], x) {
      assert (s + [x])[..|s|] == s;
    } else {
      var front := s[..|s| - 1];
      SumOfInsert(front, x);
      var r := Insert(front, x, AtMost) + [s[|s| - 1]];
      assert r[..|r| - 1] == Insert(front, x, AtMost);
    }
  }

  lemma {:induction false} SumOfSort(prices: seq<real>)
    ensures Sum(SortBy(prices, AtMost)) == Sum(prices)
  {
    if prices != [] {
      SumOfSort(prices[..|prices| - 1]);
      SumOfInsert(SortBy(prices[..|prices| - 1], AtMost), prices[|prices| - 1]);
    }
  }

  /** The mean shares out the sum; the trimmed mean of five or more shares out what is left without one lowest and one highest price. */
  lemma MeansShareTheSum(prices: seq<real>)
    requires prices != []
    ensures var s, n := StatisticsOf(prices).value, |prices| as real;
      && n * s.average == Sum(prices)
      && (|prices| >= 5 ==> (n - 2.0) * s.trimmedMean == n * s.average - s.minimum - s.maximum)
      && (|prices| < 5 ==> s.trimmedMean == s.average)
  {
    hide SortBy;
    hide Median;
    hide Sum;
    hide Mean;
    hide TrimmedMean;
    var s := SortBy(prices, AtMost);
    SumOfSort(prices);
    MeanShares(s, |s| as real);
    TrimmedShares(s, |s| as real);
  }

  lemma TrimmedShares(s: seq<real>, n: real)
    requires s != [] && n == |s| as real
    ensures |s| >= 5 ==> (n - 2.0) * TrimmedMean(s) == Sum(s) - s[0] - s[|s| - 1]
    ensures |s| < 5 ==> TrimmedMean(s) == Mean(s)
  {
    hide Sum;
    hide Mean;
    if |s| >= 5 {
      var middle := s[1..|s| - 1];
      MeanShares(middle, n - 2.0);
      SumOfMiddle(s);
    }
  }

  lemma SumOfMiddle(s: seq<real>)
    requires |s| >= 2
    ensures Sum(s[1..|s| - 1]) == Sum(s) - s[0] - s[|s| - 1]
  {
    SumFront(s[..|s| - 1]);
    assert s[..|s| - 1][1..] == s[1..|s| - 1];
  }

  lemma MeanShares(values: seq<real>, n: real)
    requires values != [] && n == |values| as real
    ensures n * Mean(values) == Sum(values)
  {
    hide Sum;
  }
}

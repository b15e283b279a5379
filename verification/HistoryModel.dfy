/**
 Portfolio history snapshots, their JSON-safe payload, and reading a payload back.
 Text and count fields, which are copied unchanged, are one opaque `details` text;
 JSON text itself is a library matter, so a file holds the payload.
 */
module HistoryModel {
  import opened Prelude
  import opened DecimalText

  datatype AssetLine = AssetLine(
    assetId: string, costBasis: Option<Decimal>, marketValue: Option<Decimal>, gainLoss: Option<Decimal>,
    roi: Option<Decimal>, evidenceScore: Option<Decimal>, details: string)

  type Amounts = map<string, Decimal>

  /** A snapshot after `__post_init__`. */
  datatype Snapshot = Snapshot(
    id: string, date: int, reference: int, generated: int,
    totalCost: Amounts, marketValue: Amounts, gainLoss: Amounts, roi: Amounts,
    valuationCoverage: Decimal, verifiedCoverage: Decimal,
    navStatus: map<string, string>, lines: seq<AssetLine>, details: string)

  datatype LinePayload = LinePayload(
    assetId: string, costBasis: Option<string>, marketValue: Option<string>, gainLoss: Option<string>,
    roi: Option<string>, evidenceScore: Option<string>, details: string)

  /** What `to_dict` returns. */
  datatype Payload = Payload(
    id: string, date: int, reference: int, generated: int,
    totalCost: map<string, string>, marketValue: map<string, string>, gainLoss: map<string, string>, roi: map<string, string>,
    valuationCoverage: string, verifiedCoverage: string,
    navStatus: map<string, string>, lines: seq<LinePayload>, details: string)

  datatype HistoryError = InvalidDecimal | PercentOutOfRange | DuplicateAsset

  // ----- to_dict -----

  function OptionalText(d: Option<Decimal>): Option<string> {
    if d.None? then None else Some(ToText(d.value))
  }

  function AmountTexts(amounts: Amounts): map<string, string> { map k | k in amounts :: ToText(amounts[k]) }

  function LineToPayload(line: AssetLine): LinePayload {
    LinePayload(line.assetId, OptionalText(line.costBasis), OptionalText(line.marketValue), OptionalText(line.gainLoss),
                OptionalText(line.roi), OptionalText(line.evidenceScore), line.details)
  }

  function LinesToPayload(lines: seq<AssetLine>): (r: seq<LinePayload>)
    ensures |r| == |lines| && forall i :: 0 <= i < |lines| ==> r[i] == LineToPayload(lines[i])
  {
    seq(|lines|, i requires 0 <= i < |lines| => LineToPayload(lines[i]))
  }

  function ToDict(s: Snapshot): Payload {
    Payload(s.id, s.date, s.reference, s.generated,
            AmountTexts(s.totalCost), AmountTexts(s.marketValue), AmountTexts(s.gainLoss), AmountTexts(s.roi),
            ToText(s.valuationCoverage), ToText(s.verifiedCoverage), s.navStatus, LinesToPayload(s.lines), s.details)
  }

  // ----- __post_init__ on a payload -----

  const ZERO: Decimal := SignedDecimal(false, 0.0)

  /** `value or Decimal("0")`: every zero, whatever its sign, becomes the plain zero. */
  function OrZero(d: Decimal): Decimal { if d.magnitude == 0.0 then ZERO else d }

  function ParseAmount(text: string): Option<Decimal> {
    if text == [] then Some(ZERO)
    else if ParseDecimal(text).None? then None
    else Some(OrZero(ParseDecimal(text).value))
  }

  function ParseOptional(text: Option<string>): Option<Option<Decimal>> {
    if text.None? || text.value == [] then Some(None)
    else if ParseDecimal(text.value).None? then None
    else Some(ParseDecimal(text.value))
  }

  predicate Parses(texts: map<string, string>) { forall k :: k in texts ==> ParseAmount(texts[k]).Some? }

  function ParseAmounts(texts: map<string, string>): Amounts
    requires Parses(texts)
  {
    map k | k in texts :: ParseAmount(texts[k]).value
  }

  /** `str.upper`: an arbitrary function here. */
  type Upper = string -> string

  /** Later items of the same upper-case key win. */
  ghost predicate LastOfKey(items: seq<(string, string)>, upper: Upper, i: nat)
    requires i < |items|
  {
    forall j :: i < j < |items| ==> upper(items[j].0) != upper(items[i].0)
  }

  /** `amounts` holds, under every upper-case key, the amount of the last item with that key. */
  ghost predicate IsDict(items: seq<(string, string)>, upper: Upper, amounts: Amounts) {
    && (forall i :: 0 <= i < |items| ==> ParseAmount(items[i].1).Some? && upper(items[i].0) in amounts)
    && (forall k :: k in amounts ==> exists i :: 0 <= i < |items| && upper(items[i].0) == k)
    && forall i :: 0 <= i < |items| && LastOfKey(items, upper, i) ==> amounts[upper(items[i].0)] == ParseAmount(items[i].1).value
  }

  method DecimalDict(items: seq<(string, string)>, upper: Upper) returns (r: Option<Amounts>)
    ensures r.Some? <==> forall i :: 0 <= i < |items| ==> ParseAmount(items[i].1).Some?
    ensures r.Some? ==> IsDict(items, upper, r.value)
  {
    hide ParseAmount;
    var result: Amounts := map[];
    for k := 0 to |items|
      invariant IsDict(items[..k], upper, result)
    {
      var amount := ParseAmount(items[k].1);
      if amount == None { return None; }
      DictStep(items[..k], items[k], upper, result);
      assert items[..k] + [items[k]] == items[..k + 1];
      result := result[upper(items[k].0) := amount.value];
    }
    assert items[..|items|] == items;
    r := Some(result);
  }

  lemma DictStep(items: seq<(string, string)>, item: (string, string), upper: Upper, amounts: Amounts)
    requires IsDict(items, upper, amounts) && ParseAmount(item.1).Some?
    ensures IsDict(items + [item], upper, amounts[upper(item.0) := ParseAmount(item.1).value])
  {
    hide ParseAmount;
    var more, next := items + [item], amounts[upper(item.0) := ParseAmount(item.1).value];
    assert more[|items|] == item;
    forall k | k in next ensures exists i :: 0 <= i < |more| && upper(more[i].0) == k {
      if k != upper(item.0) {
        var i :| 0 <= i < |items| && upper(items[i].0) == k;
        assert more[i] == items[i];
      }
    }
    forall i | 0 <= i < |more| && LastOfKey(more, upper, i)
      ensures next[upper(more[i].0)] == ParseAmount(more[i].1).value
    {
      if i < |items| {
        assert more[i] == items[i] && upper(more[|items|].0) != upper(more[i].0);
        forall j | i < j < |items| ensures upper(items[j].0) != upper(items[i].0) { assert more[j] == items[j]; }
        assert LastOfKey(items, upper, i);
      }
    }
  }

  /** `items` lists a mapping whose keys are upper-case already, as every written payload does. */
  ghost predicate Lists(items: seq<(string, string)>, upper: Upper, texts: map<string, string>) {
    && (forall i, j :: 0 <= i < j < |items| ==> items[i].0 != items[j].0)
    && (forall i :: 0 <= i < |items| ==> upper(items[i].0) == items[i].0 && items[i].0 in texts && texts[items[i].0] == items[i].1)
    && forall k :: k in texts ==> exists i :: 0 <= i < |items| && items[i].0 == k
  }

  /** On such a mapping nothing is renamed or lost, whatever the order of its keys. */
  lemma UpperCaseDict(items: seq<(string, string)>, upper: Upper, texts: map<string, string>, amounts: Amounts)
    requires Lists(items, upper, texts) && IsDict(items, upper, amounts)
    ensures Parses(texts) && amounts == ParseAmounts(texts)
  {
    hide ParseAmount;
    forall k | k in texts ensures k in amounts && ParseAmount(texts[k]) == Some(amounts[k]) {
      var i :| 0 <= i < |items| && items[i].0 == k;
      assert LastOfKey(items, upper, i);
    }
    assert amounts.Keys == texts.Keys;
  }

  predicate LineParses(p: LinePayload) {
    && ParseOptional(p.costBasis).Some? && ParseOptional(p.marketValue).Some? && ParseOptional(p.gainLoss).Some?
    && ParseOptional(p.roi).Some? && ParseOptional(p.evidenceScore).Some?
  }

  function LineFromPayload(p: LinePayload): AssetLine
    requires LineParses(p)
  {
    AssetLine(p.assetId, ParseOptional(p.costBasis).value, ParseOptional(p.marketValue).value, ParseOptional(p.gainLoss).value,
              ParseOptional(p.roi).value, ParseOptional(p.evidenceScore).value, p.details)
  }

  predicate PercentOk(d: Decimal) { 0.0 <= ValueOf(d) <= 100.0 }

  predicate DistinctAssets(lines: seq<AssetLine>) {
    forall i, j :: 0 <= i < j < |lines| ==> lines[i].assetId != lines[j].assetId
  }

  predicate AllParse(p: Payload) {
    && Parses(p.totalCost) && Parses(p.marketValue) && Parses(p.gainLoss) && Parses(p.roi)
    && ParseAmount(p.valuationCoverage).Some? && ParseAmount(p.verifiedCoverage).Some?
    && forall i :: 0 <= i < |p.lines| ==> LineParses(p.lines[i])
  }

  /** `PortfolioHistorySnapshot(**payload)`. */
  function FromPayload(p: Payload): Result<Snapshot, HistoryError> {
    if !AllParse(p) then Err(InvalidDecimal)
    else
      var valuation, verified := ParseAmount(p.valuationCoverage).value, ParseAmount(p.verifiedCoverage).value;
      if !PercentOk(valuation) || !PercentOk(verified) then Err(PercentOutOfRange)
      else
        var lines := seq(|p.lines|, i requires 0 <= i < |p.lines| => LineFromPayload(p.lines[i]));
        if !DistinctAssets(lines) then Err(DuplicateAsset)
        else
          Ok(Snapshot(p.id, p.date, p.reference, p.generated,
                      ParseAmounts(p.totalCost), ParseAmounts(p.marketValue), ParseAmounts(p.gainLoss), ParseAmounts(p.roi),
                      valuation, verified, p.navStatus, lines, p.details))
  }

  // ----- what a validated snapshot satisfies -----

  ghost predicate PlainZeros(amounts: Amounts) { forall k :: k in amounts ==> OrZero(amounts[k]) == amounts[k] }

  ghost predicate Valid(s: Snapshot) {
    && PlainZeros(s.totalCost) && PlainZeros(s.marketValue) && PlainZeros(s.gainLoss) && PlainZeros(s.roi)
    && OrZero(s.valuationCoverage) == s.valuationCoverage && PercentOk(s.valuationCoverage)
    && OrZero(s.verifiedCoverage) == s.verifiedCoverage && PercentOk(s.verifiedCoverage)
    && DistinctAssets(s.lines)
  }

  /** Validation leaves nothing to normalise: whatever is built is valid. */
  lemma BuiltIsValid(p: Payload)
    requires FromPayload(p).Ok?
    ensures Valid(FromPayload(p).value)
  {}

  /** A payload is accepted exactly when every amount parses, both coverages lie in 0..100, and no asset occurs twice. */
  lemma BuiltIff(p: Payload)
    ensures FromPayload(p).Ok? <==>
      && AllParse(p)
      && 0.0 <= ValueOf(ParseAmount(p.valuationCoverage).value) <= 100.0
      && 0.0 <= ValueOf(ParseAmount(p.verifiedCoverage).value) <= 100.0
      && forall i, j :: 0 <= i < j < |p.lines| ==> p.lines[i].assetId != p.lines[j].assetId
  {
    if AllParse(p) {
      var lines := seq(|p.lines|, i requires 0 <= i < |p.lines| => LineFromPayload(p.lines[i]));
      assert forall i :: 0 <= i < |lines| ==> lines[i].assetId == p.lines[i].assetId;
      hide LineFromPayload;
    }
  }

  /** A missing amount is zero, and a missing optional amount stays missing. */
  lemma MissingAmounts()
    ensures ParseAmount([]) == Some(SignedDecimal(false, 0.0)) && ParseOptional(Some([])) == Some(None) && ParseOptional(None) == Some(None)
  {}

  /** Normalising keeps the value and removes the sign of zero. */
  lemma OrZeroMeaning(d: Decimal)
    ensures ValueOf(d) == 0.0 ==> OrZero(d) == SignedDecimal(false, 0.0)
    ensures ValueOf(d) != 0.0 ==> OrZero(d) == d
  {}

  // ----- reading back -----

  /** A negative amount that rounds to zero at four places. */
  predicate TinyNegative(d: Decimal) { d.negative && 0.0 < d.magnitude <= 0.00005 }

  ghost predicate HasTinyNegative(amounts: Amounts) { exists k :: k in amounts && TinyNegative(amounts[k]) }

  lemma TextNotEmpty(d: Decimal)
    ensures ToText(d) != []
  {}

  /** Re-reading one amount: the sign is lost exactly when a negative amount rounded to zero. */
  lemma AmountReadBack(d: Decimal)
    requires OrZero(d) == d
    ensures ParseAmount(ToText(d)) == Some(OrZero(Reread(d)))
    ensures ToText(OrZero(Reread(d))) == ToText(d) <==> !TinyNegative(d)
  {
    TextNotEmpty(d);
    PrintParseFixedPoint(d);
    UnitsZero(d);
    TextDeterminesValue(OrZero(Reread(d)), d);
    UnitsZero(ZERO);
  }

  lemma UnitsZero(d: Decimal)
    ensures Units(d) == 0 <==> d.magnitude <= 0.00005
  {
    assert Units(d) == 0 <==> d.magnitude * 10000.0 <= 0.5;
  }

  lemma PercentReadBack(d: Decimal)
    requires OrZero(d) == d && PercentOk(d)
    ensures ParseAmount(ToText(d)).Some? && PercentOk(ParseAmount(ToText(d)).value)
    ensures ToText(ParseAmount(ToText(d)).value) == ToText(d)
  {
    AmountReadBack(d);
    PercentStays(d);
  }

  lemma AmountsReadBack(amounts: Amounts)
    requires PlainZeros(amounts)
    ensures Parses(AmountTexts(amounts))
    ensures AmountTexts(ParseAmounts(AmountTexts(amounts))) == AmountTexts(amounts) <==> !HasTinyNegative(amounts)
  {
    hide ToText;
    var texts := AmountTexts(amounts);
    forall k | k in amounts
      ensures ParseAmount(texts[k]).Some? && (ToText(ParseAmount(texts[k]).value) == texts[k] <==> !TinyNegative(amounts[k]))
    {
      AmountReadBack(amounts[k]);
    }
    var again := AmountTexts(ParseAmounts(texts));
    assert again.Keys == texts.Keys == amounts.Keys;
    if again == texts {
      assert forall k :: k in amounts ==> again[k] == texts[k];
    }
  }

  lemma OptionalReadBack(d: Option<Decimal>)
    ensures ParseOptional(OptionalText(d)).Some?
    ensures OptionalText(ParseOptional(OptionalText(d)).value) == OptionalText(d)
  {
    if d.Some? {
      TextNotEmpty(d.value);
      PrintParseFixedPoint(d.value);
    }
  }

  lemma LineReadBack(line: AssetLine)
    ensures LineParses(LineToPayload(line))
    ensures LineToPayload(LineFromPayload(LineToPayload(line))) == LineToPayload(line)
    ensures LineFromPayload(LineToPayload(line)).assetId == line.assetId
  {
    hide OptionalText;
    hide ParseOptional;
    OptionalReadBack(line.costBasis);
    OptionalReadBack(line.marketValue);
    OptionalReadBack(line.gainLoss);
    OptionalReadBack(line.roi);
    OptionalReadBack(line.evidenceScore);
  }

  ghost predicate AnyTinyNegative(s: Snapshot) {
    HasTinyNegative(s.totalCost) || HasTinyNegative(s.marketValue) || HasTinyNegative(s.gainLoss) || HasTinyNegative(s.roi)
  }

  /**
   A valid snapshot can always be read back, and it reads back to the same payload
   exactly when no per-currency amount is a negative one that rounds to zero.
   */
  lemma SnapshotReadBack(s: Snapshot)
    requires Valid(s)
    ensures FromPayload(ToDict(s)).Ok?
    ensures ToDict(FromPayload(ToDict(s)).value) == ToDict(s) <==> !AnyTinyNegative(s)
  {
    hide ToText;
    hide ParseAmount;
    hide ParseAmounts;
    hide Parses;
    hide AmountTexts;
    hide LineToPayload;
    hide LineParses;
    hide LineFromPayload;
    hide HasTinyNegative;
    AmountsReadBack(s.totalCost);
    AmountsReadBack(s.marketValue);
    AmountsReadBack(s.gainLoss);
    AmountsReadBack(s.roi);
    PercentReadBack(s.valuationCoverage);
    PercentReadBack(s.verifiedCoverage);
    forall i | 0 <= i < |s.lines|
      ensures LineParses(LineToPayload(s.lines[i]))
      ensures LineToPayload(LineFromPayload(LineToPayload(s.lines[i]))) == LineToPayload(s.lines[i])
      ensures LineFromPayload(LineToPayload(s.lines[i])).assetId == s.lines[i].assetId
    {
      LineReadBack(s.lines[i]);
    }
    var p := ToDict(s);
    assert AllParse(p);
    var again := FromPayload(p).value;
    assert |again.lines| == |s.lines| && forall i :: 0 <= i < |s.lines| ==> again.lines[i] == LineFromPayload(p.lines[i]);
    assert LinesToPayload(again.lines) == p.lines;
  }

  /** A loss of 0.00001 in one currency is enough: it prints as "-0" and reads back as "0". */
  lemma ReadBackCanFail(s: Snapshot)
    requires Valid(s) && s.gainLoss == map["USD" := SignedDecimal(true, 0.00001)]
    ensures FromPayload(ToDict(s)).Ok? && ToDict(FromPayload(ToDict(s)).value) != ToDict(s)
  {
    assert "USD" in s.gainLoss && TinyNegative(s.gainLoss["USD"]);
    SnapshotReadBack(s);
  }

  // ----- every field read back -----

  /** Every amount is the one before, rounded to four places. */
  ghost predicate AmountsRounded(before: Amounts, after: Amounts) {
    after.Keys == before.Keys && forall k :: k in before ==> after[k] == OrZero(Reread(before[k]))
  }

  function RoundedOption(d: Option<Decimal>): Option<Decimal> { if d.None? then None else Some(Reread(d.value)) }

  ghost predicate LineRounded(before: AssetLine, after: AssetLine) {
    && after.assetId == before.assetId && after.details == before.details
    && after.costBasis == RoundedOption(before.costBasis) && after.marketValue == RoundedOption(before.marketValue)
    && after.gainLoss == RoundedOption(before.gainLoss) && after.roi == RoundedOption(before.roi)
    && after.evidenceScore == RoundedOption(before.evidenceScore)
  }

  lemma AmountsReread(amounts: Amounts)
    requires PlainZeros(amounts)
    ensures Parses(AmountTexts(amounts)) && AmountsRounded(amounts, ParseAmounts(AmountTexts(amounts)))
  {
    hide ToText;
    hide Reread;
    hide ParseAmount;
    hide OrZero;
    AmountsReadBack(amounts);
    forall k | k in amounts ensures ParseAmount(ToText(amounts[k])) == Some(OrZero(Reread(amounts[k]))) {
      assert OrZero(amounts[k]) == amounts[k];
      AmountReadBack(amounts[k]);
    }
  }

  lemma OptionReread(d: Option<Decimal>)
    ensures ParseOptional(OptionalText(d)) == Some(RoundedOption(d))
  {
    hide ToText;
    hide ParseDecimal;
    if d.Some? {
      TextNotEmpty(d.value);
      PrintParseFixedPoint(d.value);
    }
  }

  lemma LineReread(line: AssetLine)
    ensures LineParses(LineToPayload(line)) && LineRounded(line, LineFromPayload(LineToPayload(line)))
  {
    hide OptionalText;
    hide ParseOptional;
    hide RoundedOption;
    OptionReread(line.costBasis);
    OptionReread(line.marketValue);
    OptionReread(line.gainLoss);
    OptionReread(line.roi);
    OptionReread(line.evidenceScore);
  }

  /** Each amount is written under its own name: read from there it is the snapshot's, rounded to four places. */
  lemma PayloadNames(s: Snapshot)
    requires Valid(s)
    ensures var p := ToDict(s);
      && Parses(p.totalCost) && AmountsRounded(s.totalCost, ParseAmounts(p.totalCost))
      && Parses(p.marketValue) && AmountsRounded(s.marketValue, ParseAmounts(p.marketValue))
      && Parses(p.gainLoss) && AmountsRounded(s.gainLoss, ParseAmounts(p.gainLoss))
      && Parses(p.roi) && AmountsRounded(s.roi, ParseAmounts(p.roi))
      && ParseAmount(p.valuationCoverage) == Some(OrZero(Reread(s.valuationCoverage)))
      && ParseAmount(p.verifiedCoverage) == Some(OrZero(Reread(s.verifiedCoverage)))
      && p.id == s.id && p.date == s.date && p.reference == s.reference && p.generated == s.generated
  {
    hide ToText;
    hide ParseAmount;
    hide ParseAmounts;
    hide Parses;
    hide AmountTexts;
    hide AmountsRounded;
    hide LinesToPayload;
    hide PlainZeros;
    hide OrZero;
    hide Reread;
    AmountsReread(s.totalCost);
    AmountsReread(s.marketValue);
    AmountsReread(s.gainLoss);
    AmountsReread(s.roi);
    AmountReadBack(s.valuationCoverage);
    AmountReadBack(s.verifiedCoverage);
  }

  /** Each optional amount of a line too. */
  lemma LinePayloadNames(line: AssetLine)
    ensures var p := LineToPayload(line);
      && ParseOptional(p.costBasis) == Some(RoundedOption(line.costBasis))
      && ParseOptional(p.marketValue) == Some(RoundedOption(line.marketValue))
      && ParseOptional(p.gainLoss) == Some(RoundedOption(line.gainLoss))
      && ParseOptional(p.roi) == Some(RoundedOption(line.roi))
      && ParseOptional(p.evidenceScore) == Some(RoundedOption(line.evidenceScore))
  {
    hide OptionalText;
    hide ParseOptional;
    hide RoundedOption;
    OptionReread(line.costBasis);
    OptionReread(line.marketValue);
    OptionReread(line.gainLoss);
    OptionReread(line.roi);
    OptionReread(line.evidenceScore);
  }

  /** Reading a written snapshot gives back every field: the copied ones as they were, the amounts rounded to four places. */
  lemma EveryFieldReadBack(s: Snapshot)
    requires Valid(s)
    ensures FromPayload(ToDict(s)).Ok?
    ensures var r := FromPayload(ToDict(s)).value;
      && r.id == s.id && r.date == s.date && r.reference == s.reference && r.generated == s.generated
      && r.navStatus == s.navStatus && r.details == s.details
      && AmountsRounded(s.totalCost, r.totalCost) && AmountsRounded(s.marketValue, r.marketValue)
      && AmountsRounded(s.gainLoss, r.gainLoss) && AmountsRounded(s.roi, r.roi)
      && r.valuationCoverage == OrZero(Reread(s.valuationCoverage)) && r.verifiedCoverage == OrZero(Reread(s.verifiedCoverage))
      && |r.lines| == |s.lines| && forall i :: 0 <= i < |s.lines| ==> LineRounded(s.lines[i], r.lines[i])
  {
    hide ToText;
    hide ParseAmount;
    hide ParseAmounts;
    hide Parses;
    hide AmountTexts;
    hide AmountsRounded;
    hide LineToPayload;
    hide LineParses;
    hide LineFromPayload;
    hide LineRounded;
    hide PlainZeros;
    hide OrZero;
    hide Reread;
    SnapshotReadBack(s);
    AmountsReread(s.totalCost);
    AmountsReread(s.marketValue);
    AmountsReread(s.gainLoss);
    AmountsReread(s.roi);
    AmountReadBack(s.valuationCoverage);
    AmountReadBack(s.verifiedCoverage);
    forall i | 0 <= i < |s.lines| ensures LineRounded(s.lines[i], LineFromPayload(LineToPayload(s.lines[i]))) {
      LineReread(s.lines[i]);
    }
  }
}

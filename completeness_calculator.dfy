/**
  CompletenessCalculator::calculate: the completenesses of one product, one
  record per (channel, locale) bucket of the required values of its family.

  The calculator carries its own copies of the required-value generation
  (`getRequiredValues`) and of the per-bucket reconciliation
  (`generateMissingAttributes`); both are proved to compute what
  RequiredValuesGenerator::generate and MissingRequiredAttributesCalculator::generate
  compute. Unlike the latter, `generateMissingAttributes` takes the channel and
  locale as typed, non-nullable parameters, so a code the repositories cannot
  resolve makes the whole calculation fail, whatever the bucket holds.
 */
module CompletenessCalculator {
  import opened OrderedMaps
  import opened Catalog
  import opened MissingRequired
  import opened RequiredValuesGenerator
  import opened MissingRequiredAttributesCalculator

  // ---------------------------------------------------------------------------
  // Specification.

  /**
    The record `generateCompleteness` builds for a bucket whose channel and
    locale resolved: the attributes of the accumulator filled by
    `generateMissingAttributes`, their number and the number of required values.
   */
  function CompletenessOf(product: Product, channel: Channel, locale: Locale, bucket: ValueCollection, isComplete: (Value, Channel, Locale) -> bool): Completeness
    requires bucket.Valid()
  {
    var added := MissingOf(product.values, bucket.Values(), Some(channel), Some(locale), isComplete);
    AccumulateSpec(added);
    var missing := Accumulate(added);
    Completeness(product, channel, locale, missing.Values(), missing.Count(), bucket.Count())
  }

  /** The record for bucket `id` of `m`, or the error the typed call raises; an unset bucket reads as empty. */
  function BucketCompleteness(product: Product, m: Matrix<ValueCollection>, id: BucketId, services: Services): Result<Completeness>
    requires WellFormed(m)
  {
    var channel, locale := services.channelRepository(id.channelCode), services.localeRepository(id.localeCode);
    if channel.None? then Failure(ChannelNotFound(id.channelCode))
    else if locale.None? then Failure(LocaleNotFound(id.localeCode))
    else
      var bucket := if Has2(m, id.channelCode, id.localeCode) then m.items[id.channelCode].items[id.localeCode] else Empty();
      Success(CompletenessOf(product, channel.value, locale.value, bucket, services.isComplete))
  }

  function Records(product: Product, m: Matrix<ValueCollection>, services: Services): BucketId -> Result<Completeness>
    requires WellFormed(m)
  {
    id => BucketCompleteness(product, m, id, services)
  }

  /** `$completenesses` after the buckets `ids` were visited in order; the first failure stops the run. */
  function Collect(ids: seq<BucketId>, record: BucketId -> Result<Completeness>): Result<seq<Completeness>> {
    if ids == [] then Success([])
    else
      match Collect(ids[..|ids| - 1], record)
      case Failure(e) => Failure(e)
      case Success(cs) =>
        match record(ids[|ids| - 1])
        case Failure(e) => Failure(e)
        case Success(c) => Success(cs + [c])
  }

  lemma RequiredValuesWellFormed(family: Family)
    ensures WellFormed(RequiredValues(family))
  {
    var m := RequiredValues(family);
    BucketizeValid(Traversal(family.requirements));
    forall c, l | Has2(m, c, l) ensures m.items[c].items[l].Valid() {
      assert ValidCollection(m.items[c].items[l]);
    }
  }

  /** The records of the buckets of `m`, visited channel by channel and then locale by locale. */
  function Run(product: Product, m: Matrix<ValueCollection>, services: Services): Result<seq<Completeness>>
    requires WellFormed(m)
  {
    Collect(BucketOrder(m), Records(product, m, services))
  }

  /** The buckets of the required values of `family`, in iteration order. */
  function Buckets(family: Family): seq<BucketId> {
    RequiredValuesWellFormed(family);
    BucketOrder(RequiredValues(family))
  }

  /** The value of `calculate($product)`. */
  function Completenesses(product: Product, services: Services): Result<seq<Completeness>> {
    match product.family
    case None => Success([])
    case Some(family) =>
      RequiredValuesWellFormed(family);
      Run(product, RequiredValues(family), services)
  }

  // ---------------------------------------------------------------------------
  // Step lemmas for the loops of `Calculate`.

  lemma CollectSnoc(ids: seq<BucketId>, id: BucketId, record: BucketId -> Result<Completeness>)
    ensures Collect(ids + [id], record)
         == match Collect(ids, record)
            case Failure(e) => Failure(e)
            case Success(cs) =>
              match record(id)
              case Failure(e) => Failure(e)
              case Success(c) => Success(cs + [c])
  {
    assert (ids + [id])[..|ids|] == ids;
  }

  /** Once a bucket fails, later buckets do not change the outcome. */
  lemma {:induction false} CollectSticky(ids: seq<BucketId>, more: seq<BucketId>, record: BucketId -> Result<Completeness>)
    requires Collect(ids, record).Failure?
    ensures Collect(ids + more, record) == Collect(ids, record)
  {
    if more == [] {
      assert ids + more == ids;
    } else {
      var p := more[..|more| - 1];
      assert ids + more == (ids + p) + [more[|more| - 1]];
      CollectSticky(ids, p, record);
      CollectSnoc(ids + p, more[|more| - 1], record);
    }
  }

  /** A failing bucket, reached with every earlier bucket successful, decides the outcome. */
  lemma CollectFailureAt<V>(m: Matrix<V>, record: BucketId -> Result<Completeness>, i: nat, j: nat)
    requires ValidMatrix(m)
    requires i < |m.keys| && j < |m.items[m.keys[i]].keys|
    requires var c := m.keys[i];
      var ls := m.items[c].keys;
      && Collect(FlattenRows(m, m.keys[..i]) + RowIds(c, ls[..j]), record).Success?
      && record(BucketId(c, ls[j])).Failure?
    ensures var c := m.keys[i];
      Collect(BucketOrder(m), record) == Failure(record(BucketId(c, m.items[c].keys[j])).error)
  {
    var c := m.keys[i];
    var ls := m.items[c].keys;
    var done := FlattenRows(m, m.keys[..i]) + RowIds(c, ls[..j]);
    var id := BucketId(c, ls[j]);
    BucketOrderSplit(m, i, j);
    CollectSnoc(done, id, record);
    CollectSticky(done + [id], RowIds(c, ls[j + 1..]) + FlattenRows(m, m.keys[i + 1..]), record);
  }

  /** A successful bucket appends its record. */
  lemma CollectBucketDone<V>(m: Matrix<V>, record: BucketId -> Result<Completeness>, done: seq<BucketId>, i: nat, j: nat, cs: seq<Completeness>)
    requires ValidMatrix(m)
    requires i < |m.keys| && j < |m.items[m.keys[i]].keys|
    requires var c := m.keys[i];
      var ls := m.items[c].keys;
      && Collect(done + RowIds(c, ls[..j]), record) == Success(cs)
      && record(BucketId(c, ls[j])).Success?
    ensures var c := m.keys[i];
      var ls := m.items[c].keys;
      Collect(done + RowIds(c, ls[..j + 1]), record) == Success(cs + [record(BucketId(c, ls[j])).value])
  {
    var c := m.keys[i];
    var ls := m.items[c].keys;
    var id := BucketId(c, ls[j]);
    CollectSnoc(done + RowIds(c, ls[..j]), id, record);
    RowIdsSnoc(c, ls, j);
    assert done + RowIds(c, ls[..j + 1]) == done + RowIds(c, ls[..j]) + [id];
  }

  /** Finishing row `keys[i]` finishes the first `i + 1` rows. */
  lemma CollectRowDone<V>(m: Matrix<V>, record: BucketId -> Result<Completeness>, i: nat, cs: seq<Completeness>)
    requires ValidMatrix(m)
    requires i < |m.keys|
    requires var c := m.keys[i];
      var ls := m.items[c].keys;
      Collect(FlattenRows(m, m.keys[..i]) + RowIds(c, ls[..|ls|]), record) == Success(cs)
    ensures Collect(FlattenRows(m, m.keys[..i + 1]), record) == Success(cs)
  {
    var ls := m.items[m.keys[i]].keys;
    assert ls[..|ls|] == ls;
    FlattenRowsStep(m, m.keys, i);
  }

  // ---------------------------------------------------------------------------
  // The calculator.

  /** `getRequiredValues($family)`: the same loops as RequiredValuesGenerator::generate. */
  method GetRequiredValues(family: Family) returns (values: ValueMatrix)
    ensures values == RequiredValues(family)
  {
    values := Empty();
    var requirements := family.requirements;
    var i := 0;
    while i < |requirements|
      invariant 0 <= i <= |requirements|
      invariant values == Bucketize(Traversal(requirements[..i]))
    {
      var requirement := requirements[i];
      var locales := requirement.channel.locales;
      var j := 0;
      assert locales[..0] == [] && RequirementSlots(requirement, locales[..0]) == [];
      assert Traversal(requirements[..i]) + [] == Traversal(requirements[..i]);
      while j < |locales|
        invariant 0 <= j <= |locales|
        invariant values == Bucketize(Traversal(requirements[..i]) + RequirementSlots(requirement, locales[..j]))
      {
        var locale := locales[j];
        ghost var prior, slots, slots' :=
          Traversal(requirements[..i]), RequirementSlots(requirement, locales[..j]), RequirementSlots(requirement, locales[..j + 1]);
        RequirementSlotsStep(requirement, locales, j);
        if requirement.required {
          var channelCode := requirement.ChannelCode();
          var localeCode := locale.code;
          var attribute := requirement.attribute;
          if !(attribute.localeSpecific && !attribute.HasLocaleSpecific(locale)) {
            var productValue := Value(
              attribute,
              if attribute.scopable then Some(channelCode) else None,
              if attribute.localizable then Some(localeCode) else None,
              None);
            values := AddToBucket(values, channelCode, localeCode, productValue);
            assert slots' == slots + [SlotFor(requirement, locale)];
            BucketizeStep(prior, slots, slots', SlotFor(requirement, locale));
          } else {
            assert slots' == slots;
          }
        } else {
          assert slots' == slots;
        }
        j := j + 1;
      }
      TraversalStep(requirements, i);
      assert locales[..j] == locales;
      i := i + 1;
    }
    assert requirements[..i] == requirements;
  }

  /**
    `generateMissingAttributes`: a fresh accumulator that was given, in order,
    the attribute of every required value the product lacks or holds
    incompletely on `channel` and `locale`.
   */
  method GenerateMissingAttributes(
    productValues: ValueCollection, channel: Channel, locale: Locale, requiredValues: ValueCollection,
    isComplete: (Value, Channel, Locale) -> bool)
    returns (missingRequiredAttribute: MissingRequiredAttributes)
    requires requiredValues.Valid()
    ensures fresh(missingRequiredAttribute) && missingRequiredAttribute.Valid()
    ensures missingRequiredAttribute.added == MissingOf(productValues, requiredValues.Values(), Some(channel), Some(locale), isComplete)
  {
    missingRequiredAttribute := new MissingRequiredAttributes();
    var values := requiredValues.Values();
    var k := 0;
    assert values[..k] == [];
    while k < |values|
      invariant 0 <= k <= |values|
      invariant missingRequiredAttribute.Valid()
      invariant missingRequiredAttribute.added == MissingOf(productValues, values[..k], Some(channel), Some(locale), isComplete)
    {
      var requiredValue := values[k];
      var attribute := requiredValue.attribute;
      var productValue := GetByCodes(productValues, attribute.code, requiredValue.scope, requiredValue.locale);
      MissingOfNext(productValues, values, k, channel, locale, isComplete, productValue);
      ghost var next := MissingOf(productValues, values[..k + 1], Some(channel), Some(locale), isComplete);
      if productValue.None? || !isComplete(productValue.value, channel, locale) {
        missingRequiredAttribute.Add(attribute);
      }
      assert missingRequiredAttribute.added == next;
      k := k + 1;
    }
    assert values[..k] == values;
  }

  /** One more required value: its attribute is added exactly when no complete product value was found under its key. */
  lemma MissingOfNext(
    productValues: ValueCollection, values: seq<Value>, k: nat, channel: Channel, locale: Locale,
    isComplete: (Value, Channel, Locale) -> bool, productValue: Option<Value>)
    requires k < |values|
    requires productValue == GetByCodes(productValues, values[k].attribute.code, values[k].scope, values[k].locale)
    ensures MissingOf(productValues, values[..k + 1], Some(channel), Some(locale), isComplete)
         == MissingOf(productValues, values[..k], Some(channel), Some(locale), isComplete)
            + if productValue.None? || !isComplete(productValue.value, channel, locale) then [values[k].attribute] else []
  {
    MissingOfStep(productValues, values, k, Some(channel), Some(locale), isComplete);
  }

  /**
    `generateCompleteness`: the record of one bucket. Its missing attributes are
    listed once each, in the order they were first found missing, and there are
    as many of them as the missing count says.
   */
  function GenerateCompleteness(
    product: Product, channel: Channel, locale: Locale, requiredValues: ValueCollection,
    missingRequiredAttributes: MissingRequiredAttributes): (r: Completeness)
    reads missingRequiredAttributes
    requires missingRequiredAttributes.Valid()
    ensures r.product == product && r.channel == channel && r.locale == locale
    ensures r.requiredCount == |requiredValues.keys|
    ensures r.missingCount == |r.missingAttributes|
    ensures Codes(r.missingAttributes) == Dedup(Codes(missingRequiredAttributes.added))
    ensures forall i :: 0 <= i < |r.missingAttributes| ==> FirstWithCode(missingRequiredAttributes.added, r.missingAttributes[i])
  {
    var missingAttributesCount := missingRequiredAttributes.Count();
    var requiredAttributesCount := requiredValues.Count();
    var attributes := missingRequiredAttributes.GetAttributes();
    var codes := missingRequiredAttributes.GetAttributeCodes();
    assert Codes(attributes) == codes;
    Completeness(product, channel, locale, attributes, missingAttributesCount, requiredAttributesCount)
  }

  /** `calculate($product)`. */
  method Calculate(product: Product, services: Services) returns (r: Result<seq<Completeness>>)
    ensures r == Completenesses(product, services)
  {
    if product.family.None? {
      return Success([]);
    }
    var completenesses: seq<Completeness> := [];
    var family := product.family.value;
    var requiredProductValues := GetRequiredValues(family);
    RequiredValuesWellFormed(family);
    ghost var record := Records(product, requiredProductValues, services);
    var channelCodes := requiredProductValues.keys;
    var i := 0;
    while i < |channelCodes|
      invariant 0 <= i <= |channelCodes|
      invariant Collect(FlattenRows(requiredProductValues, channelCodes[..i]), record) == Success(completenesses)
    {
      var channelCode := channelCodes[i];
      var requiredProductValuesByChannel := requiredProductValues.items[channelCode];
      var localeCodes := requiredProductValuesByChannel.keys;
      ghost var done := FlattenRows(requiredProductValues, channelCodes[..i]);
      assert done + RowIds(channelCode, localeCodes[..0]) == done;
      var j := 0;
      while j < |localeCodes|
        invariant 0 <= j <= |localeCodes|
        invariant Collect(done + RowIds(channelCode, localeCodes[..j]), record) == Success(completenesses)
      {
        var localeCode := localeCodes[j];
        var requiredProductValuesByChannelAndLocale := requiredProductValuesByChannel.items[localeCode];
        var channel := services.channelRepository(channelCode);
        var locale := services.localeRepository(localeCode);
        if channel.None? {
          CollectFailureAt(requiredProductValues, record, i, j);
          return Failure(ChannelNotFound(channelCode));
        }
        if locale.None? {
          CollectFailureAt(requiredProductValues, record, i, j);
          return Failure(LocaleNotFound(localeCode));
        }
        var missingRequiredAttributes := GenerateMissingAttributes(
          product.values, channel.value, locale.value, requiredProductValuesByChannelAndLocale, services.isComplete);
        var completeness := GenerateCompleteness(
          product, channel.value, locale.value, requiredProductValuesByChannelAndLocale, missingRequiredAttributes);
        assert completeness == record(BucketId(channelCode, localeCode)).value by {
          AccumulateSpec(missingRequiredAttributes.added);
        }
        CollectBucketDone(requiredProductValues, record, done, i, j, completenesses);
        completenesses := completenesses + [completeness];
        j := j + 1;
      }
      CollectRowDone(requiredProductValues, record, i, completenesses);
      i := i + 1;
    }
    assert channelCodes[..i] == channelCodes;
    r := Success(completenesses);
  }

  // ---------------------------------------------------------------------------
  // The run over the buckets.

  /** The run succeeds exactly when every visited bucket does. */
  lemma {:induction false} CollectSucceeds(ids: seq<BucketId>, record: BucketId -> Result<Completeness>)
    ensures Collect(ids, record).Success? <==> forall i :: 0 <= i < |ids| ==> record(ids[i]).Success?
  {
    if ids != [] {
      var p, id := ids[..|ids| - 1], ids[|ids| - 1];
      CollectSucceeds(p, record);
      if Collect(p, record).Failure? {
        var i :| 0 <= i < |p| && !record(p[i]).Success?;
        assert ids[i] == p[i];
      } else if record(id).Failure? {
        assert ids[|p|] == id;
      } else {
        forall i | 0 <= i < |ids| ensures record(ids[i]).Success? {
          if i < |p| {
            assert ids[i] == p[i];
          }
        }
      }
    }
  }

  /** On success there is one record per visited bucket, in visiting order. */
  lemma {:induction false} CollectRecords(ids: seq<BucketId>, record: BucketId -> Result<Completeness>)
    requires Collect(ids, record).Success?
    ensures |Collect(ids, record).value| == |ids|
    ensures forall i :: 0 <= i < |ids| ==> record(ids[i]).Success? && Collect(ids, record).value[i] == record(ids[i]).value
  {
    if ids != [] {
      var p := ids[..|ids| - 1];
      CollectRecords(p, record);
      forall i | 0 <= i < |p| ensures p[i] == ids[i] {
      }
    }
  }

  /** A failure is the error of the first failing bucket, every bucket before it having succeeded. */
  lemma {:induction false} CollectFirstFailure(ids: seq<BucketId>, record: BucketId -> Result<Completeness>)
    requires Collect(ids, record).Failure?
    ensures exists i :: (0 <= i < |ids|
      && record(ids[i]) == Failure(Collect(ids, record).error)
      && forall j :: 0 <= j < i ==> record(ids[j]).Success?)
  {
    var p, id := ids[..|ids| - 1], ids[|ids| - 1];
    if Collect(p, record).Failure? {
      CollectFirstFailure(p, record);
      var i :| 0 <= i < |p|
        && record(p[i]) == Failure(Collect(p, record).error)
        && forall j :: 0 <= j < i ==> record(p[j]).Success?;
      assert forall j :: 0 <= j <= i ==> p[j] == ids[j];
    } else {
      CollectSucceeds(p, record);
      assert forall j :: 0 <= j < |p| ==> p[j] == ids[j];
    }
  }

  // ---------------------------------------------------------------------------
  // What one record says.

  /**
    The record of a bucket: the required count is the size of the bucket; an
    attribute code is listed exactly when some required value with that code
    is absent from the product or incomplete on the channel and locale; codes
    are listed once each, every listed attribute is the attribute of a
    required value, and the missing count is the length of the list and at
    most the required count.
   */
  lemma CompletenessOfSpec(product: Product, channel: Channel, locale: Locale, bucket: ValueCollection, isComplete: (Value, Channel, Locale) -> bool)
    requires bucket.Valid()
    ensures var r := CompletenessOf(product, channel, locale, bucket, isComplete);
      && r.product == product && r.channel == channel && r.locale == locale
      && r.requiredCount == bucket.Count()
      && r.missingCount == |r.missingAttributes| <= r.requiredCount
      && Distinct(Codes(r.missingAttributes))
      && (forall code :: code in Codes(r.missingAttributes) <==>
            exists i :: 0 <= i < |bucket.keys| && bucket.Values()[i].attribute.code == code
              && IsMissing(product.values, bucket.Values()[i], Some(channel), Some(locale), isComplete))
      && forall k :: 0 <= k < |r.missingAttributes| ==>
           exists i :: 0 <= i < |bucket.keys| && bucket.Values()[i].attribute == r.missingAttributes[k]
  {
    var values := bucket.Values();
    var added := MissingOf(product.values, values, Some(channel), Some(locale), isComplete);
    var missing := Accumulate(added);
    var r := CompletenessOf(product, channel, locale, bucket, isComplete);
    AccumulateSpec(added);
    assert Codes(r.missingAttributes) == missing.keys;
    MissingOfLength(product.values, values, Some(channel), Some(locale), isComplete);
    DistinctCard(missing.keys);
    forall code ensures code in Codes(r.missingAttributes) <==>
        exists i :: 0 <= i < |bucket.keys| && values[i].attribute.code == code
          && IsMissing(product.values, values[i], Some(channel), Some(locale), isComplete)
    {
      AccumulateHas(added, code);
      MissingOfHas(product.values, values, Some(channel), Some(locale), isComplete, code);
    }
    forall k | 0 <= k < |r.missingAttributes|
      ensures exists i :: 0 <= i < |bucket.keys| && values[i].attribute == r.missingAttributes[k]
    {
      AccumulateKeepsFirst(added, missing.keys[k]);
      var n :| 0 <= n < |added| && added[n] == missing.items[missing.keys[k]];
      MissingOfFrom(product.values, values, Some(channel), Some(locale), isComplete, n);
    }
  }

  /** Every attribute found missing is the attribute of one of the required values. */
  lemma {:induction false} MissingOfFrom(
    productValues: ValueCollection, requiredValues: seq<Value>,
    channel: Option<Channel>, locale: Option<Locale>, isComplete: (Value, Channel, Locale) -> bool, n: nat)
    requires n < |MissingOf(productValues, requiredValues, channel, locale, isComplete)|
    ensures exists i :: (0 <= i < |requiredValues|
      && requiredValues[i].attribute == MissingOf(productValues, requiredValues, channel, locale, isComplete)[n])
  {
    var p := requiredValues[..|requiredValues| - 1];
    var mp := MissingOf(productValues, p, channel, locale, isComplete);
    if n < |mp| {
      MissingOfFrom(productValues, p, channel, locale, isComplete, n);
      var i :| 0 <= i < |p| && p[i].attribute == mp[n];
      assert requiredValues[i] == p[i];
    } else {
      assert requiredValues[|requiredValues| - 1].attribute == MissingOf(productValues, requiredValues, channel, locale, isComplete)[n];
    }
  }

  /** A bucket whose every required value is present and complete has a missing count of zero. */
  lemma AllCompleteZero(product: Product, channel: Channel, locale: Locale, bucket: ValueCollection, isComplete: (Value, Channel, Locale) -> bool)
    requires bucket.Valid()
    requires forall i :: 0 <= i < |bucket.keys| ==>
      var found := ProductValueFor(product.values, bucket.Values()[i]);
      found.Some? && isComplete(found.value, channel, locale)
    ensures CompletenessOf(product, channel, locale, bucket, isComplete).missingCount == 0
    ensures CompletenessOf(product, channel, locale, bucket, isComplete).missingAttributes == []
  {
    NoneMissing(product.values, bucket.Values(), Some(channel), Some(locale), isComplete);
  }

  // ---------------------------------------------------------------------------
  // The run over the buckets of any well-formed array of required values.

  /** The run succeeds exactly when the channel and locale of every bucket resolve. */
  lemma RunSucceeds(product: Product, m: Matrix<ValueCollection>, services: Services)
    requires WellFormed(m)
    ensures Run(product, m, services).Success? <==>
      forall c, l :: Has2(m, c, l) ==> services.channelRepository(c).Some? && services.localeRepository(l).Some?
  {
    var ids := BucketOrder(m);
    var record := Records(product, m, services);
    BucketOrderSpec(m);
    CollectSucceeds(ids, record);
    if forall c, l :: Has2(m, c, l) ==> services.channelRepository(c).Some? && services.localeRepository(l).Some? {
      forall i | 0 <= i < |ids| ensures record(ids[i]).Success? {
        assert ids[i] in ids;
      }
    } else {
      var c, l :| Has2(m, c, l) && !(services.channelRepository(c).Some? && services.localeRepository(l).Some?);
      assert BucketId(c, l) in ids;
      var i :| 0 <= i < |ids| && ids[i] == BucketId(c, l);
      assert !record(ids[i]).Success?;
    }
  }

  /** On success, record `i` is the record of the `i`-th bucket visited, for its resolved channel and locale. */
  lemma RunRecords(product: Product, m: Matrix<ValueCollection>, services: Services)
    requires WellFormed(m)
    requires Run(product, m, services).Success?
    ensures var ids, cs := BucketOrder(m), Run(product, m, services).value;
      && |cs| == |ids|
      && forall i :: 0 <= i < |ids| ==>
           && Has2(m, ids[i].channelCode, ids[i].localeCode)
           && services.channelRepository(ids[i].channelCode) == Some(cs[i].channel)
           && services.localeRepository(ids[i].localeCode) == Some(cs[i].locale)
           && cs[i] == CompletenessOf(product, cs[i].channel, cs[i].locale, m.items[ids[i].channelCode].items[ids[i].localeCode], services.isComplete)
  {
    var ids := BucketOrder(m);
    BucketOrderSpec(m);
    CollectRecords(ids, Records(product, m, services));
    forall i | 0 <= i < |ids| ensures Has2(m, ids[i].channelCode, ids[i].localeCode) {
      assert ids[i] in ids;
    }
  }

  /** Every record lists each missing attribute once, and its missing count is the list length, at most the required count. */
  lemma RunCounts(product: Product, m: Matrix<ValueCollection>, services: Services)
    requires WellFormed(m)
    requires Run(product, m, services).Success?
    ensures var cs := Run(product, m, services).value;
      forall i :: 0 <= i < |cs| ==>
        && cs[i].missingCount == |cs[i].missingAttributes| <= cs[i].requiredCount
        && Distinct(Codes(cs[i].missingAttributes))
  {
    var ids, cs := BucketOrder(m), Run(product, m, services).value;
    RunRecords(product, m, services);
    forall i | 0 <= i < |cs|
      ensures cs[i].missingCount == |cs[i].missingAttributes| <= cs[i].requiredCount
      ensures Distinct(Codes(cs[i].missingAttributes))
    {
      CompletenessOfSpec(product, cs[i].channel, cs[i].locale, m.items[ids[i].channelCode].items[ids[i].localeCode], services.isComplete);
    }
  }

  /** A failure names the channel (checked first) or the locale of the first bucket that does not resolve. */
  lemma RunFirstFailure(product: Product, m: Matrix<ValueCollection>, services: Services)
    requires WellFormed(m)
    requires Run(product, m, services).Failure?
    ensures var ids := BucketOrder(m);
      exists i :: 0 <= i < |ids|
        && (forall j :: 0 <= j < i ==>
              services.channelRepository(ids[j].channelCode).Some? && services.localeRepository(ids[j].localeCode).Some?)
        && (services.channelRepository(ids[i].channelCode).None? || services.localeRepository(ids[i].localeCode).None?)
        && Run(product, m, services).error
           == (if services.channelRepository(ids[i].channelCode).None? then ChannelNotFound(ids[i].channelCode)
               else LocaleNotFound(ids[i].localeCode))
  {
    var ids := BucketOrder(m);
    var record := Records(product, m, services);
    CollectFirstFailure(ids, record);
    var i :| 0 <= i < |ids| && record(ids[i]) == Failure(Collect(ids, record).error) && forall j :: 0 <= j < i ==> record(ids[j]).Success?;
    assert forall j :: 0 <= j < i ==> record(ids[j]).Success?;
  }

  /**
    When the run succeeds, so does MissingRequiredAttributesCalculator::generate
    on the same required values, and each record lists the attributes of its
    bucket's cell, in the same order.
   */
  lemma RunAgrees(product: Product, m: Matrix<ValueCollection>, services: Services)
    requires WellFormed(m)
    requires Run(product, m, services).Success?
    ensures MissingAttributes(product.values, m, services).Success?
    ensures var ids, cs := BucketOrder(m), Run(product, m, services).value;
      var out := MissingAttributes(product.values, m, services).value;
      && |cs| == |ids|
      && forall i :: 0 <= i < |ids| ==>
           && Has2(out, ids[i].channelCode, ids[i].localeCode)
           && out.items[ids[i].channelCode].items[ids[i].localeCode].Valid()
           && cs[i].missingAttributes == out.items[ids[i].channelCode].items[ids[i].localeCode].Values()
           && cs[i].missingCount == out.items[ids[i].channelCode].items[ids[i].localeCode].Count()
  {
    var ids, cs := BucketOrder(m), Run(product, m, services).value;
    RunSucceeds(product, m, services);
    RunRecords(product, m, services);
    MissingAttributesSucceeds(product.values, m, services);
    MissingAttributesCells(product.values, m, services);
    var out := MissingAttributes(product.values, m, services).value;
    forall i | 0 <= i < |ids|
      ensures Has2(out, ids[i].channelCode, ids[i].localeCode)
      ensures out.items[ids[i].channelCode].items[ids[i].localeCode].Valid()
      ensures cs[i].missingAttributes == out.items[ids[i].channelCode].items[ids[i].localeCode].Values()
      ensures cs[i].missingCount == out.items[ids[i].channelCode].items[ids[i].localeCode].Count()
    {
      var c, l := ids[i].channelCode, ids[i].localeCode;
      var bucket := m.items[c].items[l];
      assert Get2(out, c, l) == Some(ReconcileBucket(product.values, bucket, c, l, services).value);
      AccumulateSpec(MissingOf(product.values, bucket.Values(), Some(cs[i].channel), Some(cs[i].locale), services.isComplete));
    }
  }

  // ---------------------------------------------------------------------------
  // What `calculate` promises.

  /** A product without a family has no completenesses. */
  lemma NoFamilyNoCompleteness(product: Product, services: Services)
    requires product.family.None?
    ensures Completenesses(product, services) == Success([])
  {
  }

  /** With a family, `calculate` succeeds exactly when the channel and locale of every bucket of its required values resolve. */
  lemma CompletenessesSucceed(product: Product, services: Services)
    requires product.family.Some?
    ensures Completenesses(product, services).Success? <==>
      forall c, l :: Has2(RequiredValues(product.family.value), c, l) ==>
        services.channelRepository(c).Some? && services.localeRepository(l).Some?
  {
    RequiredValuesWellFormed(product.family.value);
    RunSucceeds(product, RequiredValues(product.family.value), services);
  }

  /**
    On success there is exactly one record per bucket the family's
    requirements call for, in iteration order, for the resolved channel and
    locale of that bucket and built from that bucket alone; no required count
    is zero, every missing count is the length of a list without repeated
    codes and at most the required count.
   */
  lemma CompletenessesRecords(product: Product, services: Services)
    requires product.family.Some?
    requires Completenesses(product, services).Success?
    ensures var family := product.family.value;
      var m, ids, cs := RequiredValues(family), Buckets(family), Completenesses(product, services).value;
      && |cs| == |ids| == |YieldedBuckets(family.requirements)|
      && forall i :: 0 <= i < |ids| ==>
           && Has2(m, ids[i].channelCode, ids[i].localeCode)
           && services.channelRepository(ids[i].channelCode) == Some(cs[i].channel)
           && services.localeRepository(ids[i].localeCode) == Some(cs[i].locale)
           && m.items[ids[i].channelCode].items[ids[i].localeCode].Valid()
           && cs[i] == CompletenessOf(product, cs[i].channel, cs[i].locale, m.items[ids[i].channelCode].items[ids[i].localeCode], services.isComplete)
           && 0 < cs[i].requiredCount
           && cs[i].missingCount == |cs[i].missingAttributes| <= cs[i].requiredCount
           && Distinct(Codes(cs[i].missingAttributes))
  {
    var family := product.family.value;
    var m := RequiredValues(family);
    RequiredValuesWellFormed(family);
    RequiredValuesBucketOrder(family);
    RunRecords(product, m, services);
    RunCounts(product, m, services);
    var ids, cs := Buckets(family), Completenesses(product, services).value;
    forall i | 0 <= i < |ids| ensures 0 < cs[i].requiredCount {
      RequiredValuesNoEmptyBucket(family, ids[i].channelCode, ids[i].localeCode);
    }
  }

  /**
    When `calculate` fails, its error names the channel (checked first) or
    the locale of the first bucket, in iteration order, that does not resolve.
   */
  lemma CompletenessesFirstFailure(product: Product, services: Services)
    requires Completenesses(product, services).Failure?
    ensures product.family.Some?
    ensures var ids := Buckets(product.family.value);
      exists i :: 0 <= i < |ids|
        && (forall j :: 0 <= j < i ==>
              services.channelRepository(ids[j].channelCode).Some? && services.localeRepository(ids[j].localeCode).Some?)
        && (services.channelRepository(ids[i].channelCode).None? || services.localeRepository(ids[i].localeCode).None?)
        && Completenesses(product, services).error
           == (if services.channelRepository(ids[i].channelCode).None? then ChannelNotFound(ids[i].channelCode)
               else LocaleNotFound(ids[i].localeCode))
  {
    var m := RequiredValues(product.family.value);
    RequiredValuesWellFormed(product.family.value);
    RunFirstFailure(product, m, services);
    var ids := BucketOrder(m);
    assert ids == Buckets(product.family.value);
    var i :| 0 <= i < |ids|
      && (forall j :: 0 <= j < i ==>
            services.channelRepository(ids[j].channelCode).Some? && services.localeRepository(ids[j].localeCode).Some?)
      && (services.channelRepository(ids[i].channelCode).None? || services.localeRepository(ids[i].localeCode).None?)
      && Run(product, m, services).error
         == (if services.channelRepository(ids[i].channelCode).None? then ChannelNotFound(ids[i].channelCode)
             else LocaleNotFound(ids[i].localeCode));
  }

  /**
    `generateMissingAttributes` finds, bucket by bucket, what
    MissingRequiredAttributesCalculator::generate finds on the same required
    values: when `calculate` succeeds, so does `generate`, and each record
    lists the attributes of its bucket's cell, in the same order.
   */
  lemma AgreesWithMissingAttributes(product: Product, services: Services)
    requires product.family.Some?
    requires Completenesses(product, services).Success?
    ensures WellFormed(RequiredValues(product.family.value))
    ensures MissingAttributes(product.values, RequiredValues(product.family.value), services).Success?
    ensures var ids, cs := Buckets(product.family.value), Completenesses(product, services).value;
      var out := MissingAttributes(product.values, RequiredValues(product.family.value), services).value;
      && |cs| == |ids|
      && forall i :: 0 <= i < |ids| ==>
           && Has2(out, ids[i].channelCode, ids[i].localeCode)
           && out.items[ids[i].channelCode].items[ids[i].localeCode].Valid()
           && cs[i].missingAttributes == out.items[ids[i].channelCode].items[ids[i].localeCode].Values()
           && cs[i].missingCount == out.items[ids[i].channelCode].items[ids[i].localeCode].Count()
  {
    RequiredValuesWellFormed(product.family.value);
    RunAgrees(product, RequiredValues(product.family.value), services);
  }

  /** Applied to the generated array, the missing-attributes calculator fills the buckets in the generator's order. */
  lemma MissingAttributesOfFamilyOrder(productValues: ValueCollection, family: Family, services: Services)
    ensures WellFormed(RequiredValues(family))
    ensures var r := MissingAttributes(productValues, RequiredValues(family), services);
      r.Success? ==> ValidMatrix(r.value) && BucketOrder(r.value) == Buckets(family)
  {
    RequiredValuesWellFormed(family);
    RequiredValuesNoEmptyRow(family);
    if MissingAttributes(productValues, RequiredValues(family), services).Success? {
      MissingAttributesOrder(productValues, RequiredValues(family), services);
    }
  }
}

/**
  MissingRequiredAttributesCalculator::generate: for every bucket
  `[channelCode][localeCode]` of an array of required values, the attributes
  whose required value the product lacks or holds incompletely.

  A required value is looked up in the product's values by (attribute code,
  scope, locale). It is missing when no product value is stored under that key,
  or when the value completeness checker says the product value is not complete
  on the bucket's channel and locale. The channel and locale are resolved from
  their codes through the repositories; the checker takes them as typed
  parameters, so calling it with a code the repositories cannot resolve is an
  error, reported here as `Failure`.
 */
module MissingRequiredAttributesCalculator {
  import opened OrderedMaps
  import opened Catalog
  import opened MissingRequired

  /** `$productValues->getByCodes(...)` with the attribute code, scope and locale of a required value. */
  function ProductValueFor(productValues: ValueCollection, requiredValue: Value): Option<Value> {
    GetByCodes(productValues, requiredValue.attribute.code, requiredValue.scope, requiredValue.locale)
  }

  /**
    The required value is missing from the product: no product value under its
    key, or (when channel and locale are resolved) an incomplete one.
   */
  predicate IsMissing(
    productValues: ValueCollection, requiredValue: Value,
    channel: Option<Channel>, locale: Option<Locale>, isComplete: (Value, Channel, Locale) -> bool)
  {
    var found := ProductValueFor(productValues, requiredValue);
    found.None? || (channel.Some? && locale.Some? && !isComplete(found.value, channel.value, locale.value))
  }

  /** The attributes of the missing required values, in iteration order (with repeats). */
  function MissingOf(
    productValues: ValueCollection, requiredValues: seq<Value>,
    channel: Option<Channel>, locale: Option<Locale>, isComplete: (Value, Channel, Locale) -> bool): seq<Attribute>
  {
    if requiredValues == [] then []
    else
      var rv := requiredValues[|requiredValues| - 1];
      MissingOf(productValues, requiredValues[..|requiredValues| - 1], channel, locale, isComplete)
        + if IsMissing(productValues, rv, channel, locale, isComplete) then [rv.attribute] else []
  }

  /** Some required value has a product value, so the checker is called for it. */
  predicate AnyFound(productValues: ValueCollection, requiredValues: seq<Value>) {
    && requiredValues != []
    && (|| AnyFound(productValues, requiredValues[..|requiredValues| - 1])
        || ProductValueFor(productValues, requiredValues[|requiredValues| - 1]).Some?)
  }

  lemma {:induction false} AnyFoundSpec(productValues: ValueCollection, requiredValues: seq<Value>)
    ensures AnyFound(productValues, requiredValues)
        <==> exists i :: 0 <= i < |requiredValues| && ProductValueFor(productValues, requiredValues[i]).Some?
  {
    if requiredValues != [] {
      var p := requiredValues[..|requiredValues| - 1];
      AnyFoundSpec(productValues, p);
      if AnyFound(productValues, p) {
        var i :| 0 <= i < |p| && ProductValueFor(productValues, p[i]).Some?;
        assert requiredValues[i] == p[i];
      }
      if exists i :: 0 <= i < |requiredValues| && ProductValueFor(productValues, requiredValues[i]).Some? {
        var i :| 0 <= i < |requiredValues| && ProductValueFor(productValues, requiredValues[i]).Some?;
        if i < |p| {
          assert requiredValues[i] == p[i];
        }
      }
    }
  }

  /** An array of value collections whose every level is a valid ordered map. */
  ghost predicate WellFormed(m: Matrix<ValueCollection>) {
    ValidMatrix(m) && forall c, l :: Has2(m, c, l) ==> m.items[c].items[l].Valid()
  }

  /**
    The outcome for one bucket: a failure when the checker would be called
    with an unresolved channel (checked first) or locale, otherwise the
    contents of the accumulator after adding every missing attribute.
   */
  function ReconcileBucket(
    productValues: ValueCollection, bucket: ValueCollection, channelCode: string, localeCode: string,
    services: Services): Result<AttributeSet>
    requires bucket.Valid()
  {
    var channel, locale := services.channelRepository(channelCode), services.localeRepository(localeCode);
    var requiredValues := bucket.Values();
    if (channel.None? || locale.None?) && AnyFound(productValues, requiredValues) then
      Failure(if channel.None? then ChannelNotFound(channelCode) else LocaleNotFound(localeCode))
    else
      Success(Accumulate(MissingOf(productValues, requiredValues, channel, locale, services.isComplete)))
  }

  /** The outcome for bucket `id` of `m`; only set buckets are ever visited, an unset one would add nothing. */
  function BucketResult(productValues: ValueCollection, m: Matrix<ValueCollection>, id: BucketId, services: Services): Result<AttributeSet>
    requires WellFormed(m)
  {
    if Has2(m, id.channelCode, id.localeCode) then
      ReconcileBucket(productValues, m.items[id.channelCode].items[id.localeCode], id.channelCode, id.localeCode, services)
    else
      Success(Empty())
  }

  /** The outcome of every bucket of `m`, as the loop body computes it. */
  function Outcome(productValues: ValueCollection, m: Matrix<ValueCollection>, services: Services): BucketId -> Result<AttributeSet>
    requires WellFormed(m)
  {
    id => BucketResult(productValues, m, id, services)
  }

  /** The output array after the buckets `ids` were visited in order; the first failure stops the run. */
  function Reconcile(ids: seq<BucketId>, outcome: BucketId -> Result<AttributeSet>): Result<Matrix<AttributeSet>>
  {
    if ids == [] then Success(Empty())
    else
      match Reconcile(ids[..|ids| - 1], outcome)
      case Failure(e) => Failure(e)
      case Success(out) =>
        match outcome(ids[|ids| - 1])
        case Failure(e) => Failure(e)
        case Success(a) => Success(Assign2(out, ids[|ids| - 1].channelCode, ids[|ids| - 1].localeCode, a))
  }

  /** The value of `generate($productValues, $requiredValues)`. */
  function MissingAttributes(productValues: ValueCollection, requiredValues: Matrix<ValueCollection>, services: Services): Result<Matrix<AttributeSet>>
    requires WellFormed(requiredValues)
  {
    Reconcile(BucketOrder(requiredValues), Outcome(productValues, requiredValues, services))
  }

  // ---------------------------------------------------------------------------
  // Step lemmas for the loops of `Generate`.

  lemma MissingOfStep(
    productValues: ValueCollection, requiredValues: seq<Value>, k: nat,
    channel: Option<Channel>, locale: Option<Locale>, isComplete: (Value, Channel, Locale) -> bool)
    requires k < |requiredValues|
    ensures MissingOf(productValues, requiredValues[..k + 1], channel, locale, isComplete)
         == MissingOf(productValues, requiredValues[..k], channel, locale, isComplete)
            + if IsMissing(productValues, requiredValues[k], channel, locale, isComplete) then [requiredValues[k].attribute] else []
  {
    assert requiredValues[..k + 1][..k] == requiredValues[..k];
  }

  lemma AnyFoundStep(productValues: ValueCollection, requiredValues: seq<Value>, k: nat)
    requires k < |requiredValues|
    ensures AnyFound(productValues, requiredValues[..k + 1])
        <==> AnyFound(productValues, requiredValues[..k]) || ProductValueFor(productValues, requiredValues[k]).Some?
  {
    assert requiredValues[..k + 1][..k] == requiredValues[..k];
  }

  /** One more required value of a bucket, given the product value found under its key. */
  lemma BucketStep(
    productValues: ValueCollection, values: seq<Value>, k: nat,
    channel: Option<Channel>, locale: Option<Locale>, isComplete: (Value, Channel, Locale) -> bool,
    productValue: Option<Value>)
    requires k < |values|
    requires productValue == GetByCodes(productValues, values[k].attribute.code, values[k].scope, values[k].locale)
    ensures MissingOf(productValues, values[..k + 1], channel, locale, isComplete)
         == MissingOf(productValues, values[..k], channel, locale, isComplete)
            + if productValue.None? || (channel.Some? && locale.Some? && !isComplete(productValue.value, channel.value, locale.value))
              then [values[k].attribute] else []
  {
    MissingOfStep(productValues, values, k, channel, locale, isComplete);
  }

  /**
    With the channel or the locale unresolved, a required value is missing
    exactly when the product has no value for it: if all of them are missing,
    none was found.
   */
  lemma {:induction false} AllMissingNoneFound(
    productValues: ValueCollection, requiredValues: seq<Value>,
    channel: Option<Channel>, locale: Option<Locale>, isComplete: (Value, Channel, Locale) -> bool)
    requires channel.None? || locale.None?
    requires |MissingOf(productValues, requiredValues, channel, locale, isComplete)| == |requiredValues|
    ensures forall i :: 0 <= i < |requiredValues| ==> ProductValueFor(productValues, requiredValues[i]).None?
  {
    if requiredValues != [] {
      var p := requiredValues[..|requiredValues| - 1];
      MissingOfLength(productValues, p, channel, locale, isComplete);
      AllMissingNoneFound(productValues, p, channel, locale, isComplete);
      assert forall i :: 0 <= i < |p| ==> requiredValues[i] == p[i];
    }
  }

  lemma AnyFoundPrefix(productValues: ValueCollection, requiredValues: seq<Value>, n: nat)
    requires n <= |requiredValues|
    requires AnyFound(productValues, requiredValues[..n])
    ensures AnyFound(productValues, requiredValues)
  {
    AnyFoundSpec(productValues, requiredValues[..n]);
    AnyFoundSpec(productValues, requiredValues);
    var i :| 0 <= i < n && ProductValueFor(productValues, requiredValues[..n][i]).Some?;
    assert requiredValues[..n][i] == requiredValues[i];
  }

  lemma ReconcileSnoc(ids: seq<BucketId>, id: BucketId, outcome: BucketId -> Result<AttributeSet>)
    ensures Reconcile(ids + [id], outcome)
         == match Reconcile(ids, outcome)
            case Failure(e) => Failure(e)
            case Success(out) =>
              match outcome(id)
              case Failure(e) => Failure(e)
              case Success(a) => Success(Assign2(out, id.channelCode, id.localeCode, a))
  {
    assert (ids + [id])[..|ids|] == ids;
  }

  /** Once a bucket fails, later buckets do not change the outcome. */
  lemma {:induction false} ReconcileSticky(ids: seq<BucketId>, more: seq<BucketId>, outcome: BucketId -> Result<AttributeSet>)
    requires Reconcile(ids, outcome).Failure?
    ensures Reconcile(ids + more, outcome) == Reconcile(ids, outcome)
  {
    if more == [] {
      assert ids + more == ids;
    } else {
      var p := more[..|more| - 1];
      assert ids + more == (ids + p) + [more[|more| - 1]];
      ReconcileSticky(ids, p, outcome);
      ReconcileSnoc(ids + p, more[|more| - 1], outcome);
    }
  }

  lemma {:induction false} FlattenRowsAppend<V>(m: Matrix<V>, a: seq<string>, b: seq<string>)
    requires forall c :: c in a + b ==> c in m.items
    ensures FlattenRows(m, a + b) == FlattenRows(m, a) + FlattenRows(m, b)
  {
    if b == [] {
      assert a + b == a;
    } else {
      var p := b[..|b| - 1];
      assert (a + b)[..|a + b| - 1] == a + p;
      FlattenRowsAppend(m, a, p);
    }
  }

  lemma RowIdsSplit(c: string, ls: seq<string>, j: nat)
    requires j < |ls|
    ensures RowIds(c, ls) == RowIds(c, ls[..j]) + [BucketId(c, ls[j])] + RowIds(c, ls[j + 1..])
  {
  }

  lemma RowIdsSnoc(c: string, ls: seq<string>, j: nat)
    requires j < |ls|
    ensures RowIds(c, ls[..j + 1]) == RowIds(c, ls[..j]) + [BucketId(c, ls[j])]
  {
  }

  /** Where row `keys[i]` sits in the visiting order. */
  lemma BucketOrderRow<V>(m: Matrix<V>, i: nat)
    requires ValidMatrix(m)
    requires i < |m.keys|
    ensures BucketOrder(m)
         == FlattenRows(m, m.keys[..i]) + RowIds(m.keys[i], m.items[m.keys[i]].keys) + FlattenRows(m, m.keys[i + 1..])
  {
    var c := m.keys[i];
    var before, after := m.keys[..i], m.keys[i + 1..];
    assert m.keys == before + [c] + after;
    FlattenRowsAppend(m, before + [c], after);
    FlattenRowsAppend(m, before, [c]);
    assert FlattenRows(m, [c]) == RowIds(c, m.items[c].keys) by {
      assert [c][..0] == [];
    }
  }

  /** Where bucket `[keys[i]][row keys[j]]` sits in the visiting order. */
  lemma BucketOrderSplit<V>(m: Matrix<V>, i: nat, j: nat)
    requires ValidMatrix(m)
    requires i < |m.keys| && j < |m.items[m.keys[i]].keys|
    ensures var c := m.keys[i];
      var ls := m.items[c].keys;
      BucketOrder(m)
        == FlattenRows(m, m.keys[..i]) + RowIds(c, ls[..j]) + [BucketId(c, ls[j])]
           + (RowIds(c, ls[j + 1..]) + FlattenRows(m, m.keys[i + 1..]))
  {
    var c := m.keys[i];
    var ls := m.items[c].keys;
    BucketOrderRow(m, i);
    RowIdsSplit(c, ls, j);
    Regroup(FlattenRows(m, m.keys[..i]), RowIds(c, ls[..j]), [BucketId(c, ls[j])], RowIds(c, ls[j + 1..]), FlattenRows(m, m.keys[i + 1..]));
  }

  lemma Regroup<T>(x: seq<T>, y: seq<T>, z: seq<T>, w: seq<T>, v: seq<T>)
    ensures x + (y + z + w) + v == x + y + z + (w + v)
  {
  }

  lemma FlattenRowsStep<V>(m: Matrix<V>, cs: seq<string>, i: nat)
    requires i < |cs|
    requires forall c :: c in cs ==> c in m.items
    ensures FlattenRows(m, cs[..i + 1]) == FlattenRows(m, cs[..i]) + RowIds(cs[i], m.items[cs[i]].keys)
  {
    assert cs[..i + 1][..i] == cs[..i];
  }

  /** A failing bucket, reached with every earlier bucket successful, decides the outcome. */
  lemma FailureAt(productValues: ValueCollection, m: Matrix<ValueCollection>, services: Services, i: nat, j: nat)
    requires WellFormed(m)
    requires i < |m.keys| && j < |m.items[m.keys[i]].keys|
    requires var c := m.keys[i];
      var ls := m.items[c].keys;
      && Reconcile(FlattenRows(m, m.keys[..i]) + RowIds(c, ls[..j]), Outcome(productValues, m, services)).Success?
      && BucketResult(productValues, m, BucketId(c, ls[j]), services).Failure?
    ensures var c := m.keys[i];
      MissingAttributes(productValues, m, services)
        == Failure(BucketResult(productValues, m, BucketId(c, m.items[c].keys[j]), services).error)
  {
    var c := m.keys[i];
    var ls := m.items[c].keys;
    var done := FlattenRows(m, m.keys[..i]) + RowIds(c, ls[..j]);
    var id := BucketId(c, ls[j]);
    BucketOrderSpec(m);
    BucketOrderSplit(m, i, j);
    ReconcileSnoc(done, id, Outcome(productValues, m, services));
    ReconcileSticky(done + [id], RowIds(c, ls[j + 1..]) + FlattenRows(m, m.keys[i + 1..]), Outcome(productValues, m, services));
  }

  /** A successful bucket extends the output by its cell. */
  lemma BucketDone(
    productValues: ValueCollection, m: Matrix<ValueCollection>, services: Services,
    done: seq<BucketId>, i: nat, j: nat, out: Matrix<AttributeSet>, a: AttributeSet)
    requires WellFormed(m)
    requires i < |m.keys| && j < |m.items[m.keys[i]].keys|
    requires var c := m.keys[i];
      var ls := m.items[c].keys;
      && Reconcile(done + RowIds(c, ls[..j]), Outcome(productValues, m, services)) == Success(out)
      && ReconcileBucket(productValues, m.items[c].items[ls[j]], c, ls[j], services) == Success(a)
    ensures var c := m.keys[i];
      var ls := m.items[c].keys;
      Reconcile(done + RowIds(c, ls[..j + 1]), Outcome(productValues, m, services)) == Success(Assign2(out, c, ls[j], a))
  {
    var c := m.keys[i];
    var ls := m.items[c].keys;
    var id := BucketId(c, ls[j]);
    assert Has2(m, c, ls[j]);
    ReconcileSnoc(done + RowIds(c, ls[..j]), id, Outcome(productValues, m, services));
    RowIdsSnoc(c, ls, j);
    assert done + RowIds(c, ls[..j + 1]) == done + RowIds(c, ls[..j]) + [id];
  }

  /** Finishing row `keys[i]` finishes the first `i + 1` rows. */
  lemma RowDone(productValues: ValueCollection, m: Matrix<ValueCollection>, services: Services, i: nat, out: Matrix<AttributeSet>)
    requires WellFormed(m)
    requires i < |m.keys|
    requires var c := m.keys[i];
      var ls := m.items[c].keys;
      Reconcile(FlattenRows(m, m.keys[..i]) + RowIds(c, ls[..|ls|]), Outcome(productValues, m, services)) == Success(out)
    ensures Reconcile(FlattenRows(m, m.keys[..i + 1]), Outcome(productValues, m, services)) == Success(out)
  {
    var ls := m.items[m.keys[i]].keys;
    assert ls[..|ls|] == ls;
    FlattenRowsStep(m, m.keys, i);
  }

  /**
    The body of the loop over the buckets, for bucket `[channelCode][localeCode]`:
    resolve the channel and locale, then add to a fresh accumulator the
    attribute of every required value the product lacks or holds incompletely;
    a product value met while the channel (checked first) or the locale is
    unresolved ends the bucket with that error.
   */
  method GenerateBucket(
    productValues: ValueCollection, requiredValuesByChannelAndLocale: ValueCollection,
    channelCode: string, localeCode: string, services: Services)
    returns (r: Result<AttributeSet>)
    requires requiredValuesByChannelAndLocale.Valid()
    ensures r == ReconcileBucket(productValues, requiredValuesByChannelAndLocale, channelCode, localeCode, services)
  {
    var missing := new MissingRequiredAttributes();
    var channel := services.channelRepository(channelCode);
    var locale := services.localeRepository(localeCode);
    var failed := AddMissing(missing, productValues, requiredValuesByChannelAndLocale.Values(), channel, locale, services.isComplete);
    AnyFoundSpec(productValues, requiredValuesByChannelAndLocale.Values());
    if failed {
      if channel.None? {
        return Failure(ChannelNotFound(channelCode));
      }
      return Failure(LocaleNotFound(localeCode));
    }
    r := Success(missing.attributes);
  }

  /**
    The loop over the required values of a bucket: add to `missing` the
    attribute of each one the product lacks or holds incompletely, and stop
    with `failed` at the first one the product has a value for while the
    channel or the locale is unresolved (where the checker would be called
    with `null`).
   */
  method AddMissing(
    missing: MissingRequiredAttributes, productValues: ValueCollection, values: seq<Value>,
    channel: Option<Channel>, locale: Option<Locale>, isComplete: (Value, Channel, Locale) -> bool)
    returns (failed: bool)
    requires missing.Valid() && missing.added == []
    modifies missing
    ensures missing.Valid()
    ensures failed <==>
      && (channel.None? || locale.None?)
      && exists i :: 0 <= i < |values| && ProductValueFor(productValues, values[i]).Some?
    ensures !failed ==> missing.added == MissingOf(productValues, values, channel, locale, isComplete)
  {
    var k := 0;
    assert values[..k] == [];
    while k < |values|
      invariant 0 <= k <= |values|
      invariant missing.Valid()
      invariant missing.added == MissingOf(productValues, values[..k], channel, locale, isComplete)
      invariant (channel.None? || locale.None?) ==> |missing.added| == k
    {
      var requiredValue := values[k];
      var attribute := requiredValue.attribute;
      var productValue := GetByCodes(productValues, attribute.code, requiredValue.scope, requiredValue.locale);
      BucketStep(productValues, values, k, channel, locale, isComplete, productValue);
      ghost var next := MissingOf(productValues, values[..k + 1], channel, locale, isComplete);
      if productValue.Some? && (channel.None? || locale.None?) {
        return true;
      }
      AddIf(missing, attribute, productValue.None? || !isComplete(productValue.value, channel.value, locale.value));
      assert missing.added == next;
      k := k + 1;
    }
    assert values[..k] == values;
    if channel.None? || locale.None? {
      AllMissingNoneFound(productValues, values, channel, locale, isComplete);
    }
    return false;
  }

  /** The guarded `add` of the loop over required values: `attribute` is added to `missing` when `isMissing` holds. */
  method AddIf(missing: MissingRequiredAttributes, attribute: Attribute, isMissing: bool)
    requires missing.Valid()
    modifies missing
    ensures missing.Valid() && missing.added == old(missing.added) + if isMissing then [attribute] else []
  {
    if isMissing {
      missing.Add(attribute);
    }
  }

  /** A product value found for a required value of a bucket whose channel or locale is unresolved fails the bucket. */
  lemma BucketFails(
    productValues: ValueCollection, bucket: ValueCollection, channelCode: string, localeCode: string,
    services: Services, k: nat)
    requires bucket.Valid() && k < |bucket.keys|
    requires ProductValueFor(productValues, bucket.Values()[k]).Some?
    requires services.channelRepository(channelCode).None? || services.localeRepository(localeCode).None?
    ensures ReconcileBucket(productValues, bucket, channelCode, localeCode, services)
         == Failure(if services.channelRepository(channelCode).None? then ChannelNotFound(channelCode) else LocaleNotFound(localeCode))
  {
    AnyFoundStep(productValues, bucket.Values(), k);
    AnyFoundPrefix(productValues, bucket.Values(), k + 1);
  }

  /**
    `MissingRequiredAttributesCalculator::generate`. The output array holds,
    for each bucket, the contents of its `MissingRequiredAttributes`.
   */
  method Generate(productValues: ValueCollection, requiredValues: Matrix<ValueCollection>, services: Services)
    returns (r: Result<Matrix<AttributeSet>>)
    requires WellFormed(requiredValues)
    ensures r == MissingAttributes(productValues, requiredValues, services)
  {
    var missingRequiredAttributes: Matrix<AttributeSet> := Empty();
    var channelCodes := requiredValues.keys;
    BucketOrderSpec(requiredValues);
    var i := 0;
    while i < |channelCodes|
      invariant 0 <= i <= |channelCodes|
      invariant Reconcile(FlattenRows(requiredValues, channelCodes[..i]), Outcome(productValues, requiredValues, services))
             == Success(missingRequiredAttributes)
    {
      var channelCode := channelCodes[i];
      var requiredValuesByChannel := requiredValues.items[channelCode];
      var localeCodes := requiredValuesByChannel.keys;
      ghost var done := FlattenRows(requiredValues, channelCodes[..i]);
      assert done + RowIds(channelCode, localeCodes[..0]) == done;
      var j := 0;
      while j < |localeCodes|
        invariant 0 <= j <= |localeCodes|
        invariant Reconcile(done + RowIds(channelCode, localeCodes[..j]), Outcome(productValues, requiredValues, services))
               == Success(missingRequiredAttributes)
      {
        var localeCode := localeCodes[j];
        var requiredValuesByChannelAndLocale := requiredValuesByChannel.items[localeCode];
        var result := GenerateBucket(productValues, requiredValuesByChannelAndLocale, channelCode, localeCode, services);
        if result.Failure? {
          FailureAt(productValues, requiredValues, services, i, j);
          return Failure(result.error);
        }
        BucketDone(productValues, requiredValues, services, done, i, j, missingRequiredAttributes, result.value);
        missingRequiredAttributes := Assign2(missingRequiredAttributes, channelCode, localeCode, result.value);
        j := j + 1;
      }
      RowDone(productValues, requiredValues, services, i, missingRequiredAttributes);
      i := i + 1;
    }
    assert channelCodes[..i] == channelCodes;
    r := Success(missingRequiredAttributes);
  }

  // ---------------------------------------------------------------------------
  // What `generate` promises.

  /** An attribute is listed exactly when one of the required values of that attribute is missing. */
  lemma {:induction false} MissingOfHas(
    productValues: ValueCollection, requiredValues: seq<Value>,
    channel: Option<Channel>, locale: Option<Locale>, isComplete: (Value, Channel, Locale) -> bool, code: string)
    ensures (exists j :: 0 <= j < |MissingOf(productValues, requiredValues, channel, locale, isComplete)|
                 && MissingOf(productValues, requiredValues, channel, locale, isComplete)[j].code == code)
        <==> exists i :: 0 <= i < |requiredValues| && requiredValues[i].attribute.code == code
                 && IsMissing(productValues, requiredValues[i], channel, locale, isComplete)
  {
    if requiredValues != [] {
      var p := requiredValues[..|requiredValues| - 1];
      var rv := requiredValues[|requiredValues| - 1];
      var mp := MissingOf(productValues, p, channel, locale, isComplete);
      var ms := MissingOf(productValues, requiredValues, channel, locale, isComplete);
      MissingOfHas(productValues, p, channel, locale, isComplete, code);
      if exists j :: 0 <= j < |ms| && ms[j].code == code {
        var j :| 0 <= j < |ms| && ms[j].code == code;
        if j < |mp| {
          assert ms[j] == mp[j];
          var i :| 0 <= i < |p| && p[i].attribute.code == code && IsMissing(productValues, p[i], channel, locale, isComplete);
          assert requiredValues[i] == p[i];
        } else {
          assert ms[j] == rv.attribute;
        }
      }
      if exists i :: 0 <= i < |requiredValues| && requiredValues[i].attribute.code == code
                  && IsMissing(productValues, requiredValues[i], channel, locale, isComplete) {
        var i :| 0 <= i < |requiredValues| && requiredValues[i].attribute.code == code
                 && IsMissing(productValues, requiredValues[i], channel, locale, isComplete);
        if i < |p| {
          assert requiredValues[i] == p[i];
          var j :| 0 <= j < |mp| && mp[j].code == code;
          assert ms[j] == mp[j];
        } else {
          assert ms[|mp|] == rv.attribute;
        }
      }
    }
  }

  lemma {:induction false} MissingOfLength(
    productValues: ValueCollection, requiredValues: seq<Value>,
    channel: Option<Channel>, locale: Option<Locale>, isComplete: (Value, Channel, Locale) -> bool)
    ensures |MissingOf(productValues, requiredValues, channel, locale, isComplete)| <= |requiredValues|
  {
    if requiredValues != [] {
      MissingOfLength(productValues, requiredValues[..|requiredValues| - 1], channel, locale, isComplete);
    }
  }

  /**
    For a bucket that does not fail: an attribute code is in the accumulator
    exactly when some required value of the bucket with that code is missing,
    so the missing attributes are required ones and there are no more of them
    than required values.
   */
  lemma ReconcileBucketMissing(productValues: ValueCollection, bucket: ValueCollection, channelCode: string, localeCode: string, services: Services)
    requires bucket.Valid()
    requires ReconcileBucket(productValues, bucket, channelCode, localeCode, services).Success?
    ensures var missing := ReconcileBucket(productValues, bucket, channelCode, localeCode, services).value;
      var channel, locale := services.channelRepository(channelCode), services.localeRepository(localeCode);
      && (forall code :: code in missing.items <==>
            exists i :: 0 <= i < |bucket.keys| && bucket.Values()[i].attribute.code == code
              && IsMissing(productValues, bucket.Values()[i], channel, locale, services.isComplete))
      && missing.Count() <= bucket.Count()
  {
    var channel, locale := services.channelRepository(channelCode), services.localeRepository(localeCode);
    var rv := bucket.Values();
    var ms := MissingOf(productValues, rv, channel, locale, services.isComplete);
    forall code ensures code in Accumulate(ms).items <==>
        exists i :: 0 <= i < |bucket.keys| && bucket.Values()[i].attribute.code == code
          && IsMissing(productValues, bucket.Values()[i], channel, locale, services.isComplete)
    {
      AccumulateHas(ms, code);
      MissingOfHas(productValues, rv, channel, locale, services.isComplete, code);
      if code in Accumulate(ms).items {
        var i :| 0 <= i < |rv| && rv[i].attribute.code == code
                 && IsMissing(productValues, rv[i], channel, locale, services.isComplete);
        assert 0 <= i < |bucket.keys|;
      }
      if exists i :: 0 <= i < |bucket.keys| && bucket.Values()[i].attribute.code == code
                  && IsMissing(productValues, bucket.Values()[i], channel, locale, services.isComplete) {
        var i :| 0 <= i < |bucket.keys| && bucket.Values()[i].attribute.code == code
                 && IsMissing(productValues, bucket.Values()[i], channel, locale, services.isComplete);
        assert 0 <= i < |rv| && rv[i].attribute.code == code;
      }
    }
    AccumulateSpec(ms);
    MissingOfLength(productValues, rv, channel, locale, services.isComplete);
  }

  lemma {:induction false} NoneMissing(
    productValues: ValueCollection, requiredValues: seq<Value>,
    channel: Option<Channel>, locale: Option<Locale>, isComplete: (Value, Channel, Locale) -> bool)
    requires forall i :: 0 <= i < |requiredValues| ==> !IsMissing(productValues, requiredValues[i], channel, locale, isComplete)
    ensures MissingOf(productValues, requiredValues, channel, locale, isComplete) == []
  {
    if requiredValues != [] {
      NoneMissing(productValues, requiredValues[..|requiredValues| - 1], channel, locale, isComplete);
    }
  }

  /** When every required value of a bucket is present and complete, nothing is missing. */
  lemma AllCompleteNothingMissing(productValues: ValueCollection, bucket: ValueCollection, channelCode: string, localeCode: string, services: Services)
    requires bucket.Valid()
    requires services.channelRepository(channelCode).Some? && services.localeRepository(localeCode).Some?
    requires forall i :: 0 <= i < |bucket.keys| ==>
      var found := ProductValueFor(productValues, bucket.Values()[i]);
      found.Some? && services.isComplete(found.value, services.channelRepository(channelCode).value, services.localeRepository(localeCode).value)
    ensures ReconcileBucket(productValues, bucket, channelCode, localeCode, services).Success?
    ensures ReconcileBucket(productValues, bucket, channelCode, localeCode, services).value.Count() == 0
  {
    NoneMissing(productValues, bucket.Values(), services.channelRepository(channelCode), services.localeRepository(localeCode), services.isComplete);
  }

  /** A bucket whose required values the product has none of lists every required attribute, whatever the repositories say. */
  lemma NothingFoundAllMissing(productValues: ValueCollection, bucket: ValueCollection, channelCode: string, localeCode: string, services: Services)
    requires bucket.Valid()
    requires forall i :: 0 <= i < |bucket.keys| ==> ProductValueFor(productValues, bucket.Values()[i]).None?
    ensures ReconcileBucket(productValues, bucket, channelCode, localeCode, services).Success?
    ensures forall i :: 0 <= i < |bucket.keys| ==>
      bucket.Values()[i].attribute.code in ReconcileBucket(productValues, bucket, channelCode, localeCode, services).value.items
  {
    AnyFoundSpec(productValues, bucket.Values());
    ReconcileBucketMissing(productValues, bucket, channelCode, localeCode, services);
  }

  /** The buckets visited succeed exactly when each of them does. */
  lemma {:induction false} ReconcileSucceeds(ids: seq<BucketId>, outcome: BucketId -> Result<AttributeSet>)
    ensures Reconcile(ids, outcome).Success? <==> forall i :: 0 <= i < |ids| ==> outcome(ids[i]).Success?
  {
    if ids != [] {
      var p, id := ids[..|ids| - 1], ids[|ids| - 1];
      ReconcileSucceeds(p, outcome);
      if Reconcile(p, outcome).Failure? {
        var i :| 0 <= i < |p| && !outcome(p[i]).Success?;
        assert ids[i] == p[i];
      } else if outcome(id).Failure? {
        assert ids[|p|] == id;
      } else {
        forall i | 0 <= i < |ids| ensures outcome(ids[i]).Success? {
          if i < |p| {
            assert ids[i] == p[i];
          }
        }
      }
    }
  }

  /** On success each visited cell holds its bucket's outcome, and no other cell is set. */
  lemma {:induction false} ReconcileCells(ids: seq<BucketId>, outcome: BucketId -> Result<AttributeSet>)
    requires Reconcile(ids, outcome).Success?
    ensures forall id :: id in ids ==> outcome(id).Success?
    ensures forall c, l :: (Get2(Reconcile(ids, outcome).value, c, l)
      == if BucketId(c, l) in ids then Some(outcome(BucketId(c, l)).value) else None)
  {
    ReconcileSucceeds(ids, outcome);
    if ids != [] {
      var p, id := ids[..|ids| - 1], ids[|ids| - 1];
      ReconcileCells(p, outcome);
      var out := Reconcile(p, outcome).value;
      var a := outcome(id).value;
      Assign2Get(out, id.channelCode, id.localeCode, a);
      assert ids == p + [id];
    }
  }

  /** A failure is the error of the first failing bucket, every bucket before it having succeeded. */
  lemma {:induction false} ReconcileFirstFailure(ids: seq<BucketId>, outcome: BucketId -> Result<AttributeSet>)
    requires Reconcile(ids, outcome).Failure?
    ensures exists i :: (0 <= i < |ids|
      && outcome(ids[i]) == Failure(Reconcile(ids, outcome).error)
      && forall j :: 0 <= j < i ==> outcome(ids[j]).Success?)
  {
    var p, id := ids[..|ids| - 1], ids[|ids| - 1];
    if Reconcile(p, outcome).Failure? {
      ReconcileFirstFailure(p, outcome);
      var i :| 0 <= i < |p|
        && outcome(p[i]) == Failure(Reconcile(p, outcome).error)
        && forall j :: 0 <= j < i ==> outcome(p[j]).Success?;
      assert forall j :: 0 <= j <= i ==> p[j] == ids[j];
    } else {
      ReconcileSucceeds(p, outcome);
      assert forall j :: 0 <= j < |p| ==> p[j] == ids[j];
    }
  }

  lemma AllBucketsSucceed(productValues: ValueCollection, requiredValues: Matrix<ValueCollection>, services: Services)
    requires WellFormed(requiredValues)
    requires forall c, l :: Has2(requiredValues, c, l) ==>
      ReconcileBucket(productValues, requiredValues.items[c].items[l], c, l, services).Success?
    ensures MissingAttributes(productValues, requiredValues, services).Success?
  {
    var ids := BucketOrder(requiredValues);
    BucketOrderSpec(requiredValues);
    ReconcileSucceeds(ids, Outcome(productValues, requiredValues, services));
    forall i | 0 <= i < |ids| ensures BucketResult(productValues, requiredValues, ids[i], services).Success? {
      assert ids[i] in ids;
    }
  }

  lemma OneBucketFails(productValues: ValueCollection, requiredValues: Matrix<ValueCollection>, services: Services, c: string, l: string)
    requires WellFormed(requiredValues)
    requires Has2(requiredValues, c, l)
    requires ReconcileBucket(productValues, requiredValues.items[c].items[l], c, l, services).Failure?
    ensures MissingAttributes(productValues, requiredValues, services).Failure?
  {
    var ids := BucketOrder(requiredValues);
    BucketOrderSpec(requiredValues);
    ReconcileSucceeds(ids, Outcome(productValues, requiredValues, services));
    assert BucketId(c, l) in ids;
    var i :| 0 <= i < |ids| && ids[i] == BucketId(c, l);
    assert BucketResult(productValues, requiredValues, ids[i], services).Failure?;
  }

  /** `generate` succeeds exactly when no bucket of its input fails. */
  lemma MissingAttributesSucceeds(productValues: ValueCollection, requiredValues: Matrix<ValueCollection>, services: Services)
    requires WellFormed(requiredValues)
    ensures MissingAttributes(productValues, requiredValues, services).Success?
        <==> forall c, l :: Has2(requiredValues, c, l) ==>
               ReconcileBucket(productValues, requiredValues.items[c].items[l], c, l, services).Success?
  {
    if forall c, l :: Has2(requiredValues, c, l) ==> ReconcileBucket(productValues, requiredValues.items[c].items[l], c, l, services).Success? {
      AllBucketsSucceed(productValues, requiredValues, services);
    } else {
      var c, l :| Has2(requiredValues, c, l) && !ReconcileBucket(productValues, requiredValues.items[c].items[l], c, l, services).Success?;
      OneBucketFails(productValues, requiredValues, services, c, l);
    }
  }

  /** On success the output has one cell per bucket of the input, holding that bucket's missing attributes. */
  lemma MissingAttributesCells(productValues: ValueCollection, requiredValues: Matrix<ValueCollection>, services: Services)
    requires WellFormed(requiredValues)
    requires MissingAttributes(productValues, requiredValues, services).Success?
    ensures forall c, l :: Has2(requiredValues, c, l) ==>
      ReconcileBucket(productValues, requiredValues.items[c].items[l], c, l, services).Success?
    ensures forall c, l :: (Get2(MissingAttributes(productValues, requiredValues, services).value, c, l)
      == if Has2(requiredValues, c, l)
         then Some(ReconcileBucket(productValues, requiredValues.items[c].items[l], c, l, services).value)
         else None)
  {
    BucketOrderSpec(requiredValues);
    ReconcileCells(BucketOrder(requiredValues), Outcome(productValues, requiredValues, services));
    forall c, l | Has2(requiredValues, c, l)
      ensures BucketResult(productValues, requiredValues, BucketId(c, l), services).Success?
    {
      assert BucketId(c, l) in BucketOrder(requiredValues);
    }
  }

  /**
    When `generate` fails, its error is that of the first failing bucket in
    visiting order (channels in key order, then locales in key order).
   */
  lemma MissingAttributesFirstFailure(productValues: ValueCollection, requiredValues: Matrix<ValueCollection>, services: Services)
    requires WellFormed(requiredValues)
    requires MissingAttributes(productValues, requiredValues, services).Failure?
    ensures var ids := BucketOrder(requiredValues);
      exists i :: 0 <= i < |ids|
        && Has2(requiredValues, ids[i].channelCode, ids[i].localeCode)
        && BucketResult(productValues, requiredValues, ids[i], services) == Failure(MissingAttributes(productValues, requiredValues, services).error)
        && forall j :: 0 <= j < i ==> BucketResult(productValues, requiredValues, ids[j], services).Success?
  {
    var ids := BucketOrder(requiredValues);
    BucketOrderSpec(requiredValues);
    ReconcileFirstFailure(ids, Outcome(productValues, requiredValues, services));
    var i :| 0 <= i < |ids|
      && BucketResult(productValues, requiredValues, ids[i], services) == Failure(MissingAttributes(productValues, requiredValues, services).error)
      && forall j :: 0 <= j < i ==> BucketResult(productValues, requiredValues, ids[j], services).Success?;
    assert ids[i] in ids;
  }

  /** Reconciling cells in order yields a valid two-level array. */
  lemma {:induction false} ReconcileValid(ids: seq<BucketId>, outcome: BucketId -> Result<AttributeSet>)
    requires Reconcile(ids, outcome).Success?
    ensures ValidMatrix(Reconcile(ids, outcome).value)
  {
    if ids != [] {
      ReconcileValid(ids[..|ids| - 1], outcome);
    }
  }

  /** A successful run over a non-empty list assigns the last cell onto the run over the others. */
  lemma ReconcileLast(ids: seq<BucketId>, outcome: BucketId -> Result<AttributeSet>)
    requires ids != [] && Reconcile(ids, outcome).Success?
    ensures var p, id := ids[..|ids| - 1], ids[|ids| - 1];
      && Reconcile(p, outcome).Success? && outcome(id).Success?
      && Reconcile(ids, outcome).value == Assign2(Reconcile(p, outcome).value, id.channelCode, id.localeCode, outcome(id).value)
  {
  }

  /** Assigning the last cell extends the channel keys as `Dedup` extends the channel codes. */
  lemma AssignedChannels<V>(prev: Matrix<V>, ids: seq<BucketId>, v: V)
    requires ids != [] && ValidMatrix(prev)
    requires prev.keys == Dedup(ChannelsOf(ids[..|ids| - 1]))
    ensures Assign2(prev, ids[|ids| - 1].channelCode, ids[|ids| - 1].localeCode, v).keys == Dedup(ChannelsOf(ids))
  {
    var p, id := ids[..|ids| - 1], ids[|ids| - 1];
    Assign2Channels(prev, id.channelCode, id.localeCode, v);
    ChannelsOfSnoc(ids);
    DedupSnoc(ChannelsOf(p), id.channelCode);
  }

  /** Assigning the last cell extends the locale keys of its row as `Dedup` extends the row's locale codes. */
  lemma AssignedRow<V>(prev: Matrix<V>, ids: seq<BucketId>, v: V, c: string)
    requires ids != [] && ValidMatrix(prev)
    requires RowKeys(prev, c) == Dedup(LocalesOf(ids[..|ids| - 1], c))
    ensures RowKeys(Assign2(prev, ids[|ids| - 1].channelCode, ids[|ids| - 1].localeCode, v), c) == Dedup(LocalesOf(ids, c))
  {
    var p, id := ids[..|ids| - 1], ids[|ids| - 1];
    Assign2Row(prev, id.channelCode, id.localeCode, v, c);
    var row := LocalesOf(p, c);
    assert LocalesOf(ids, c) == row + if id.channelCode == c then [id.localeCode] else [];
    if c == id.channelCode {
      DedupSnoc(row, id.localeCode);
    } else {
      assert row + [] == row;
    }
  }

  /** Reconciling cells in order creates each channel row when its first cell is assigned. */
  lemma {:induction false} ReconcileChannels(ids: seq<BucketId>, outcome: BucketId -> Result<AttributeSet>)
    requires Reconcile(ids, outcome).Success?
    ensures Reconcile(ids, outcome).value.keys == Dedup(ChannelsOf(ids))
  {
    if ids != [] {
      var p, id := ids[..|ids| - 1], ids[|ids| - 1];
      ReconcileLast(ids, outcome);
      ReconcileChannels(p, outcome);
      ReconcileValid(p, outcome);
      AssignedChannels(Reconcile(p, outcome).value, ids, outcome(id).value);
    }
  }

  /** Reconciling cells in order creates each cell of row `c` when it is first assigned. */
  lemma {:induction false} ReconcileRow(ids: seq<BucketId>, outcome: BucketId -> Result<AttributeSet>, c: string)
    requires Reconcile(ids, outcome).Success?
    ensures RowKeys(Reconcile(ids, outcome).value, c) == Dedup(LocalesOf(ids, c))
  {
    if ids != [] {
      var p, id := ids[..|ids| - 1], ids[|ids| - 1];
      ReconcileLast(ids, outcome);
      ReconcileRow(p, outcome, c);
      ReconcileValid(p, outcome);
      AssignedRow(Reconcile(p, outcome).value, ids, outcome(id).value, c);
    }
  }

  /**
    When every channel row of the input has at least one cell (as every row the
    generator creates does), the output has the same rows and cells in the same
    order as the input.
   */
  lemma MissingAttributesOrder(productValues: ValueCollection, requiredValues: Matrix<ValueCollection>, services: Services)
    requires WellFormed(requiredValues)
    requires forall c :: c in requiredValues.items ==> requiredValues.items[c].keys != []
    requires MissingAttributes(productValues, requiredValues, services).Success?
    ensures var out := MissingAttributes(productValues, requiredValues, services).value;
      && ValidMatrix(out)
      && out.keys == requiredValues.keys
      && (forall c :: c in requiredValues.items ==> c in out.items && out.items[c].keys == requiredValues.items[c].keys)
      && BucketOrder(out) == BucketOrder(requiredValues)
  {
    var m := requiredValues;
    var ids := BucketOrder(m);
    var out := MissingAttributes(productValues, m, services).value;
    ReconcileValid(ids, Outcome(productValues, m, services));
    ReconcileChannels(ids, Outcome(productValues, m, services));
    FlattenRowsChannels(m, m.keys);
    forall c | c in m.items ensures c in out.items && out.items[c].keys == m.items[c].keys {
      ReconcileRow(ids, Outcome(productValues, m, services), c);
      FlattenRowsLocales(m, m.keys, c);
      DedupDistinct(m.items[c].keys);
    }
    FlattenRowsSameKeys(out, m, m.keys);
  }
}

# Product completeness engine

A model of the product completeness engine of the Akeneo PIM catalog
(`src/Pim/Component/Catalog/Completeness/`).

For one product, the engine decides for every (channel, locale) pair which
attributes its family requires and which of them the product is missing.

- **Required values** — `RequiredValuesGenerator::generate`, and its copy
  `CompletenessCalculator::getRequiredValues`.
  - They walk the family's attribute requirements and, for each one, the
    locales of its channel.
  - They skip requirements that are not required, and locale-specific
    attributes on locales they are not restricted to.
  - Each contributing pair yields a placeholder value in the two-level bucket
    array `[channelCode][localeCode]`, created lazily.
  - The placeholder is scoped only if the attribute is scopable, and
    localized only if it is localizable.
- **Missing attributes** — `MissingRequiredAttributesCalculator::generate`,
  and its per-bucket copy `CompletenessCalculator::generateMissingAttributes`.
  - They look up every required value by (attribute code, scope, locale)
    among the product's values.
  - An attribute is missing when nothing is stored under its key, or when the
    value completeness checker rejects the stored value for the bucket's
    channel and locale.
- **Accumulator** — `MissingRequiredAttributes` stores attributes by code
  and keeps the first one added under each code, in order of first addition.
- **Orchestration** — `CompletenessCalculator::calculate`.
  - A product without a family has no completenesses.
  - Otherwise it emits one record per bucket, in bucket order. Each record
    holds the missing attributes, the missing count and the required count.

## Structure

| file | module | models |
|---|---|---|
| `ordered_maps.dfy` | `OrderedMaps` | PHP arrays used as insertion-ordered maps (`OMap`), two-level arrays (`Matrix`), `foreach` visiting order of a two-level array (`BucketOrder`), and `Dedup` |
| `catalog.dfy` | `Catalog` | attributes, requirements, families, channels, locales, product values, value collections, products, completeness records, and the injected repositories and checker (`Services`) |
| `missing_required_attributes.dfy` | `MissingRequired` | the `MissingRequiredAttributes` class |
| `required_values_generator.dfy` | `RequiredValuesGenerator` | `generate`, as nested loops proved equal to the specification `RequiredValues = Bucketize(Traversal(requirements))` |
| `missing_required_attributes_calculator.dfy` | `MissingRequiredAttributesCalculator` | `generate`, as nested loops proved equal to the specification `MissingAttributes` |
| `completeness_calculator.dfy` | `CompletenessCalculator` | `calculate`, `getRequiredValues`, `generateMissingAttributes` and `generateCompleteness` |
| `worked_example.dfy` | `WorkedExample` | the mobile/print, en_US/fr_FR example of the `getRequiredValues` documentation |

Modelling choices:

- **Collections.** A PHP array is an `OMap`. Assigning to an existing key
  replaces its value in place. Assigning to a new key appends the key.
- **`ValueCollection`.** Its source is not part of this model. It is an
  `OMap` keyed by (attribute code, scope, locale). `add` stores the value
  under its key and overwrites a value already there, keeping its position.
  `getByCodes` returns the value stored under the key, or `None` for PHP's
  `null`.
- **Collaborators.**
  - The channel and locale repositories (`findOneByIdentifier`) are
    functions `string -> Option<_>`.
  - The value completeness checker is an uninterpreted function
    `(Value, Channel, Locale) -> bool`.
  - `ValueFactory::create` builds a `Value` record.
  - The completeness class is the `Completeness` datatype.
- **Unresolved codes.** `generateMissingAttributes` takes the channel and
  locale as typed, non-nullable parameters, and the checker is assumed to do
  the same (see "## Left out"), so passing the
  `null` of an unknown code raises a type error. The model returns it as
  `Failure(ChannelNotFound(code))` or `Failure(LocaleNotFound(code))`; the
  channel is checked first, following parameter order.
  - In `calculate`, a bucket fails as soon as its channel or locale does not
    resolve.
  - In `MissingRequiredAttributesCalculator::generate`, a bucket fails only
    when the checker is actually called, i.e. when a product value was found
    for one of its required values.
- **`calculate`'s missing attributes.** `calculate` computes them with its
  own `generateMissingAttributes` loop, not through
  `MissingRequiredAttributesCalculator::generate`, and the model follows the
  code. `CompletenessCalculator.AgreesWithMissingAttributes` proves that
  both give the same missing attributes whenever `calculate` succeeds.
- **State.** `MissingRequiredAttributes` is a class whose field `attributes`
  the method `Add` updates. A ghost history `added` of every attribute
  passed to `add` ties it to the function `Accumulate`.

## Model

| member | source | states |
|---|---|---|
| `MissingRequired.MissingRequiredAttributes.constructor` | src/Pim/Component/Catalog/Completeness/MissingRequiredAttributes.php:21 | a fresh accumulator holds no attribute, and its count is 0 |
| `MissingRequired.MissingRequiredAttributes.Add` | src/Pim/Component/Catalog/Completeness/MissingRequiredAttributes.php:28-35 | a new code appends its code and attribute and increases the count by exactly 1; a code already present leaves the stored attributes unchanged |
| `MissingRequired.MissingRequiredAttributes.GetAttributes` | src/Pim/Component/Catalog/Completeness/MissingRequiredAttributes.php:42-45 | as many attributes as the count; the i-th attribute has the i-th code and is the first attribute added with that code, stored as given |
| `MissingRequired.MissingRequiredAttributes.GetAttributeCodes` | src/Pim/Component/Catalog/Completeness/MissingRequiredAttributes.php:50-53 | no duplicates; the codes of the added attributes in order of first addition; length equal to the count |
| `MissingRequired.MissingRequiredAttributes.Count` | src/Pim/Component/Catalog/Completeness/MissingRequiredAttributes.php:58-61 | the number of distinct codes ever added |
| `MissingRequired.AccumulateSpec` | src/Pim/Component/Catalog/Completeness/MissingRequiredAttributes.php:28-35 | after any sequence of `add` calls, each attribute is stored under its own code and the keys are the added codes deduplicated, in first-add order |
| `MissingRequired.AccumulateHas` | src/Pim/Component/Catalog/Completeness/MissingRequiredAttributes.php:32-33 | a code is present if and only if some added attribute has it |
| `MissingRequired.AccumulateKeepsFirst` | src/Pim/Component/Catalog/Completeness/MissingRequiredAttributes.php:32-34 | the attribute stored under a code is the first one added with that code |
| `MissingRequired.AccumulateCount` | src/Pim/Component/Catalog/Completeness/MissingRequiredAttributes.php:58-61 | the size equals the number of distinct codes added |
| `MissingRequired.AddIdempotent` | src/Pim/Component/Catalog/Completeness/MissingRequiredAttributes.php:28-35 | `add($a); add($a)` leaves the same state as `add($a)` |
| `RequiredValuesGenerator.Generate` | src/Pim/Component/Catalog/Completeness/RequiredValuesGenerator.php:86-117 | the nested loops build exactly `RequiredValues(family)`, i.e. every contributing (requirement, locale) slot filed in loop order |
| `RequiredValuesGenerator.AddToBucket` | src/Pim/Component/Catalog/Completeness/RequiredValuesGenerator.php:107-110 | creating bucket `[channelCode][localeCode]` when it is not set and then adding the value is one `Insert` step |
| `RequiredValuesGenerator.CreateThenAdd` | src/Pim/Component/Catalog/Completeness/RequiredValuesGenerator.php:108-111 | creating a missing bucket and then adding to it leaves the bucket set, and equals one `Insert` step |
| `RequiredValuesGenerator.BucketizeValid` | src/Pim/Component/Catalog/Completeness/RequiredValuesGenerator.php:108-111 | every level of the generated array is a valid ordered map, and each value is stored under its own key |
| `RequiredValuesGenerator.TraversalHas` | src/Pim/Component/Catalog/Completeness/RequiredValuesGenerator.php:90-99 | a slot is produced if and only if it comes from a (requirement, locale) pair that is required and not excluded as locale-specific |
| `RequiredValuesGenerator.RequiredValuesBuckets` | src/Pim/Component/Catalog/Completeness/RequiredValuesGenerator.php:90-111 | bucket `[c][l]` exists if and only if some required, not excluded requirement on channel `c` lists locale `l` |
| `RequiredValuesGenerator.RequiredValuesNoEmptyBucket` | src/Pim/Component/Catalog/Completeness/RequiredValuesGenerator.php:108-111 | every existing bucket holds at least one value |
| `RequiredValuesGenerator.RequiredValuesNoEmptyRow` | src/Pim/Component/Catalog/Completeness/RequiredValuesGenerator.php:108-109 | every channel row holds at least one locale bucket |
| `RequiredValuesGenerator.RequiredValuesShape` | src/Pim/Component/Catalog/Completeness/RequiredValuesGenerator.php:101-106 | every generated value is stored under its own key and has null data; its scope is the channel code if and only if the attribute is scopable (null otherwise), and its locale is the locale code if and only if it is localizable (null otherwise); it comes from a required requirement on that channel and locale |
| `RequiredValuesGenerator.LocaleSpecificExcluded` | src/Pim/Component/Catalog/Completeness/RequiredValuesGenerator.php:97-99 | a locale-specific attribute never appears in the bucket of a locale it is not restricted to |
| `RequiredValuesGenerator.RequiredValuesComplete` | src/Pim/Component/Catalog/Completeness/RequiredValuesGenerator.php:90-111 | every required, not excluded (requirement, channel locale) pair has its placeholder's key in bucket `[channelCode][localeCode]` |
| `RequiredValuesGenerator.NotRequiredYieldsNothing` | src/Pim/Component/Catalog/Completeness/RequiredValuesGenerator.php:92 | a requirement that is not required produces no slot |
| `RequiredValuesGenerator.NotRequiredIgnored` | src/Pim/Component/Catalog/Completeness/RequiredValuesGenerator.php:92 | dropping the requirements that are not required leaves the result unchanged |
| `RequiredValuesGenerator.BucketizeChannels` | src/Pim/Component/Catalog/Completeness/RequiredValuesGenerator.php:108-109 | channel keys are the channels of the slots in order of first creation |
| `RequiredValuesGenerator.BucketizeRow` | src/Pim/Component/Catalog/Completeness/RequiredValuesGenerator.php:108-109 | the locale keys of a channel are that channel's slot locales in order of first creation |
| `RequiredValuesGenerator.BucketizeCell` | src/Pim/Component/Catalog/Completeness/RequiredValuesGenerator.php:108-111 | the keys of a bucket are the keys of its slots in order of first addition |
| `RequiredValuesGenerator.BucketizeLookup` | src/Pim/Component/Catalog/Completeness/RequiredValuesGenerator.php:111 | the value stored under a key of a bucket is the last slot value with that key |
| `RequiredValuesGenerator.LastAtSpec` | src/Pim/Component/Catalog/Completeness/RequiredValuesGenerator.php:111 | some value is stored under a key of a bucket if and only if some slot of that bucket has the key, and the stored value is one of them |
| `RequiredValuesGenerator.RequiredValuesOrder` | src/Pim/Component/Catalog/Completeness/RequiredValuesGenerator.php:90-111 | channel keys, locale keys and value keys appear in first-creation order, following requirement order and then channel locale order |
| `RequiredValuesGenerator.KeyDeterminedByCode` | src/Pim/Component/Catalog/Completeness/RequiredValuesGenerator.php:101-106 | within one bucket two stored keys with the same attribute code are equal |
| `RequiredValuesGenerator.RequiredValuesBucketOrder` | src/Pim/Component/Catalog/Completeness/RequiredValuesGenerator.php:90-111 | iterating the generated array visits each bucket the requirements call for exactly once |
| `MissingRequiredAttributesCalculator.GenerateBucket` | src/Pim/Component/Catalog/Completeness/MissingRequiredAttributesCalculator.php:58-77 | the body of the loop over the buckets produces exactly `ReconcileBucket`: the accumulator after adding each missing attribute, or the failure of an unresolved channel (checked first) or locale when the checker is called |
| `MissingRequiredAttributesCalculator.AddMissing` | src/Pim/Component/Catalog/Completeness/MissingRequiredAttributesCalculator.php:63-76 | the loop over a bucket's required values stops with `failed` exactly when the channel or locale is unresolved and the product has a value for some required value; otherwise the attributes added are exactly `MissingOf`, each missing one in order |
| `MissingRequiredAttributesCalculator.AllMissingNoneFound` | src/Pim/Component/Catalog/Completeness/MissingRequiredAttributesCalculator.php:66-73 | with the channel or locale unresolved, if every required value of a bucket is listed as missing, the product has a value for none of them |
| `MissingRequiredAttributesCalculator.BucketFails` | src/Pim/Component/Catalog/Completeness/MissingRequiredAttributesCalculator.php:60-73 | a product value found in a bucket whose channel (checked first) or locale does not resolve makes the bucket fail with that error |
| `MissingRequiredAttributesCalculator.AnyFoundSpec` | src/Pim/Component/Catalog/Completeness/MissingRequiredAttributesCalculator.php:66-73 | the checker is called in a bucket if and only if some required value of the bucket has a product value |
| `MissingRequiredAttributesCalculator.Generate` | src/Pim/Component/Catalog/Completeness/MissingRequiredAttributesCalculator.php:50-84 | the nested loops produce exactly `MissingAttributes`: each bucket's outcome assigned to `[channelCode][localeCode]` in visiting order, stopping at the first failure |
| `MissingRequiredAttributesCalculator.MissingOfHas` | src/Pim/Component/Catalog/Completeness/MissingRequiredAttributesCalculator.php:66-76 | an attribute code is listed if and only if a required value with that code has no product value, or has one that the checker rejects |
| `MissingRequiredAttributesCalculator.MissingOfLength` | src/Pim/Component/Catalog/Completeness/MissingRequiredAttributesCalculator.php:63-76 | at most one attribute is listed per required value |
| `MissingRequiredAttributesCalculator.ReconcileBucketMissing` | src/Pim/Component/Catalog/Completeness/MissingRequiredAttributesCalculator.php:58-76 | in a bucket that does not fail, a code is in the accumulator if and only if some required value with that code is missing; so missing attributes are required ones, and there are at most as many as required values |
| `MissingRequiredAttributesCalculator.AllCompleteNothingMissing` | src/Pim/Component/Catalog/Completeness/MissingRequiredAttributesCalculator.php:72-76 | when every required key has a product value that the checker accepts, the bucket succeeds with nothing missing |
| `MissingRequiredAttributesCalculator.NothingFoundAllMissing` | src/Pim/Component/Catalog/Completeness/MissingRequiredAttributesCalculator.php:72-75 | when no required key has a product value, the bucket succeeds even with unresolved codes, and every required attribute is missing |
| `MissingRequiredAttributesCalculator.ReconcileSucceeds` | src/Pim/Component/Catalog/Completeness/MissingRequiredAttributesCalculator.php:56-81 | visiting buckets in order succeeds if and only if every visited bucket does |
| `MissingRequiredAttributesCalculator.ReconcileCells` | src/Pim/Component/Catalog/Completeness/MissingRequiredAttributesCalculator.php:79 | on success each visited cell holds its own bucket's outcome, and no other cell is set |
| `MissingRequiredAttributesCalculator.ReconcileFirstFailure` | src/Pim/Component/Catalog/Completeness/MissingRequiredAttributesCalculator.php:56-81 | a failure carries the error of the first failing bucket, and every bucket before it succeeded |
| `MissingRequiredAttributesCalculator.ReconcileValid` | src/Pim/Component/Catalog/Completeness/MissingRequiredAttributesCalculator.php:79 | the assigned output is a valid two-level array |
| `MissingRequiredAttributesCalculator.ReconcileChannels` | src/Pim/Component/Catalog/Completeness/MissingRequiredAttributesCalculator.php:79 | output channel keys follow the first assignment of each channel |
| `MissingRequiredAttributesCalculator.ReconcileRow` | src/Pim/Component/Catalog/Completeness/MissingRequiredAttributesCalculator.php:79 | output locale keys of each channel follow the first assignment of each cell |
| `MissingRequiredAttributesCalculator.AllBucketsSucceed` | src/Pim/Component/Catalog/Completeness/MissingRequiredAttributesCalculator.php:56-81 | if every bucket succeeds, `generate` succeeds |
| `MissingRequiredAttributesCalculator.OneBucketFails` | src/Pim/Component/Catalog/Completeness/MissingRequiredAttributesCalculator.php:56-81 | if any bucket fails, `generate` fails |
| `MissingRequiredAttributesCalculator.MissingAttributesSucceeds` | src/Pim/Component/Catalog/Completeness/MissingRequiredAttributesCalculator.php:56-81 | `generate` succeeds if and only if no bucket of its input fails |
| `MissingRequiredAttributesCalculator.MissingAttributesCells` | src/Pim/Component/Catalog/Completeness/MissingRequiredAttributesCalculator.php:58-79 | on success the output has a cell exactly where the input has a bucket, and cell `[c][l]` depends only on bucket `[c][l]`, the product values and the channel and locale resolved from `c` and `l` |
| `MissingRequiredAttributesCalculator.MissingAttributesFirstFailure` | src/Pim/Component/Catalog/Completeness/MissingRequiredAttributesCalculator.php:56-81 | a failure is the error of the first failing bucket in visiting order |
| `MissingRequiredAttributesCalculator.MissingAttributesOrder` | src/Pim/Component/Catalog/Completeness/MissingRequiredAttributesCalculator.php:56-79 | when no channel row is empty, the output has the same channel keys, the same locale keys per channel and the same visiting order as the input |
| `CompletenessCalculator.RequiredValuesWellFormed` | src/Pim/Component/Catalog/Completeness/CompletenessCalculator.php:184-187 | every bucket of the generated array is a valid value collection |
| `CompletenessCalculator.GetRequiredValues` | src/Pim/Component/Catalog/Completeness/CompletenessCalculator.php:162-193 | builds exactly `RequiredValues(family)`, which `RequiredValuesGenerator.Generate` also builds |
| `CompletenessCalculator.MissingOfNext` | src/Pim/Component/Catalog/Completeness/CompletenessCalculator.php:211-225 | one more required value appends its attribute exactly when no product value, or no complete one, is stored under its key |
| `CompletenessCalculator.GenerateMissingAttributes` | src/Pim/Component/Catalog/Completeness/CompletenessCalculator.php:203-228 | returns a fresh accumulator to which exactly the attributes of the missing required values were added, in iteration order, with the channel and locale given |
| `CompletenessCalculator.GenerateCompleteness` | src/Pim/Component/Catalog/Completeness/CompletenessCalculator.php:242-263 | the record carries the product, channel and locale; the required count is the bucket size; the missing count is the length of the missing list; the list holds the added codes deduplicated in first-add order, each with the first attribute added under it |
| `CompletenessCalculator.CompletenessOfSpec` | src/Pim/Component/Catalog/Completeness/CompletenessCalculator.php:203-263 | a bucket's record lists a code if and only if a required value with that code is missing; codes are listed once each; every listed attribute belongs to a required value; 0 ≤ missing count = list length ≤ required count = bucket size |
| `CompletenessCalculator.MissingOfFrom` | src/Pim/Component/Catalog/Completeness/CompletenessCalculator.php:211-225 | every attribute found missing is the attribute of one of the required values |
| `CompletenessCalculator.AllCompleteZero` | src/Pim/Component/Catalog/Completeness/CompletenessCalculator.php:220-224 | a bucket whose required values are all present and complete has missing count 0 and an empty list |
| `CompletenessCalculator.Calculate` | src/Pim/Component/Catalog/Completeness/CompletenessCalculator.php:73-105 | the method computes exactly `Completenesses`: empty without a family, otherwise one record per bucket in visiting order, stopping at the first unresolved channel or locale |
| `CompletenessCalculator.CollectSucceeds` | src/Pim/Component/Catalog/Completeness/CompletenessCalculator.php:82-102 | collecting records succeeds if and only if every visited bucket's record does |
| `CompletenessCalculator.CollectRecords` | src/Pim/Component/Catalog/Completeness/CompletenessCalculator.php:94-100 | on success there is one record per visited bucket, in visiting order |
| `CompletenessCalculator.CollectFirstFailure` | src/Pim/Component/Catalog/Completeness/CompletenessCalculator.php:82-102 | a failure is the error of the first failing bucket, and every bucket before it succeeded |
| `CompletenessCalculator.RunSucceeds` | src/Pim/Component/Catalog/Completeness/CompletenessCalculator.php:84-92 | the loops succeed if and only if the channel and locale of every bucket resolve |
| `CompletenessCalculator.RunRecords` | src/Pim/Component/Catalog/Completeness/CompletenessCalculator.php:82-104 | on success record `i` belongs to the `i`-th bucket visited, with its resolved channel and locale and that bucket's record |
| `CompletenessCalculator.RunCounts` | src/Pim/Component/Catalog/Completeness/CompletenessCalculator.php:249-251 | each record lists every missing code once, and 0 ≤ missing count = list length ≤ required count |
| `CompletenessCalculator.RunFirstFailure` | src/Pim/Component/Catalog/Completeness/CompletenessCalculator.php:84-92 | a failure names the channel (checked first) or the locale of the first bucket that does not resolve |
| `CompletenessCalculator.RunAgrees` | src/Pim/Component/Catalog/Completeness/CompletenessCalculator.php:87-92 | when the loops succeed, `MissingRequiredAttributesCalculator::generate` on the same array succeeds, and each record's missing list and count equal its cell |
| `CompletenessCalculator.NoFamilyNoCompleteness` | src/Pim/Component/Catalog/Completeness/CompletenessCalculator.php:75-77 | a product without a family yields an empty list |
| `CompletenessCalculator.CompletenessesSucceed` | src/Pim/Component/Catalog/Completeness/CompletenessCalculator.php:73-105 | with a family, `calculate` succeeds if and only if the channel and locale of every bucket of its required values resolve |
| `CompletenessCalculator.CompletenessesRecords` | src/Pim/Component/Catalog/Completeness/CompletenessCalculator.php:79-104 | exactly one record per bucket the requirements call for, in bucket order; each has its bucket's record, a required count above 0, no repeated missing code, and 0 ≤ missing count = list length ≤ required count |
| `CompletenessCalculator.CompletenessesFirstFailure` | src/Pim/Component/Catalog/Completeness/CompletenessCalculator.php:82-92 | a failure only happens with a family, and names the channel or locale of the first unresolved bucket in visiting order |
| `CompletenessCalculator.AgreesWithMissingAttributes` | src/Pim/Component/Catalog/Completeness/CompletenessCalculator.php:203-228 | per bucket, `generateMissingAttributes` finds the same missing list and count as `MissingRequiredAttributesCalculator::generate` |
| `CompletenessCalculator.MissingAttributesOfFamilyOrder` | src/Pim/Component/Catalog/Completeness/MissingRequiredAttributesCalculator.php:56-79 | on a family's generated required values, the missing-attributes array has the generator's buckets in the generator's order |
| `WorkedExample.ExampleBucket` | src/Pim/Component/Catalog/Completeness/CompletenessCalculator.php:116-156 | in the documented example each of the four buckets holds exactly `name`, `short_description-<channel>` and `long_description-<channel>-<locale>`, in that order |
| `WorkedExample.ExampleBuckets` | src/Pim/Component/Catalog/Completeness/CompletenessCalculator.php:122-156 | the buckets of the documented example are visited as mobile/en_US, mobile/fr_FR, print/en_US, print/fr_FR |
| `OrderedMaps.Assign2Get` | src/Pim/Component/Catalog/Completeness/MissingRequiredAttributesCalculator.php:79 | `$m[$c][$l] = $v` sets that cell and leaves every other cell unchanged |
| `OrderedMaps.BucketOrderSpec` | src/Pim/Component/Catalog/Completeness/MissingRequiredAttributesCalculator.php:56-57 | the nested `foreach` over a two-level array visits each of its cells exactly once |

## Left out

- The source of `ValueCollection` is not part of this model. `add` is modelled as overwrite-by-key with the position kept, and `getByCodes` as a lookup by (code, scope, locale).
- The internals of `ValueCompleteCheckerInterface::isComplete` depend on attribute types and are not shown. The checker is an uninterpreted function.
- The caching of `CachedObjectRepositoryInterface::findOneByIdentifier` is left out. A repository is a function from code to an optional entity.
- A `null` lookup result passed to a typed parameter is a PHP `TypeError`. The model returns it as a `Failure` value, not as an exception.
- The internals of `ValueFactory::create` are left out. It builds a `Value` record.
- Doctrine's `ArrayCollection` is a `seq`.
- The dynamically named completeness class is the `Completeness` datatype.
- PHP converts an integer-like string array key (an attribute, channel or locale code such as `"12"`) to an integer. Codes are modelled as strings throughout.
- The PHP objects are references; the model uses values.
  - The output array of `MissingRequiredAttributesCalculator::generate` holds each bucket's accumulator contents (`AttributeSet`), not the accumulator object.
  - The body of its loop over the buckets is the separate method `GenerateBucket`. The loop over a bucket's required values is `AddMissing`. It reports the point where the checker would be called with `null` as `failed`, and `GenerateBucket` turns that into the error.
  - Inputs are values, so "neither the product values nor the required values are modified" holds by construction and is not stated separately.
- `MissingRequiredAttributesCalculator.BucketResult` and `CompletenessCalculator.BucketCompleteness`, the specifications of one bucket, are total. An unset bucket reads as empty, a case the loops never reach.
- `CompletenessCalculator.GetRequiredValues`: equivalence with `RequiredValuesGenerator.Generate` is carried by their two postconditions, which name the same function. A lemma cannot call a method.
- `RequiredValuesGenerator.KeyDeterminedByCode`: assumes the family's requirements agree on the scopable and localizable modifiers of attributes that share a code. In the catalog one code is one attribute.
- `MissingRequiredAttributesCalculator.MissingAttributesOrder`: requires every channel row of the input to be non-empty. `RequiredValuesGenerator.RequiredValuesNoEmptyRow` proves this for generated input, and `CompletenessCalculator.MissingAttributesOfFamilyOrder` combines the two.
- The source of `ValueCompleteCheckerInterface` is not part of this model. Its `isComplete` is assumed to take a non-nullable channel and locale, as `generateMissingAttributes` does (src/Pim/Component/Catalog/Completeness/CompletenessCalculator.php:203-208). The failure condition of `MissingRequiredAttributesCalculator.GenerateBucket` rests on this assumption.
- Fixture loading, kernel boot and test plumbing (`LoadAttributeData`, `TestCase`, `ReferenceDataLoader`, `FixturesLoaderFactory`) are not part of the engine.

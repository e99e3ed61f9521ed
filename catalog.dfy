/**
  The catalog entities the completeness engine reads and produces: attributes
  with their scopable / localizable / locale-specific modifiers, families and
  their attribute requirements, channels and locales, product values and the
  value collections that index them, and the completeness record.
 */
module Catalog {
  import opened OrderedMaps

  datatype Locale = Locale(code: string)

  /** A channel and the locales activated on it, in the order the channel lists them. */
  datatype Channel = Channel(code: string, locales: seq<Locale>)

  /**
    An attribute definition. `localeSpecificCodes` are the codes of the locales
    a locale-specific attribute is restricted to.
   */
  datatype Attribute = Attribute(
    code: string,
    scopable: bool,
    localizable: bool,
    localeSpecific: bool,
    localeSpecificCodes: set<string>)
  {
    predicate HasLocaleSpecific(locale: Locale) {
      locale.code in localeSpecificCodes
    }
  }

  /** "Attribute `attribute` is (or is not) required on `channel`". */
  datatype AttributeRequirement = AttributeRequirement(attribute: Attribute, channel: Channel, required: bool)
  {
    function ChannelCode(): string {
      channel.code
    }
  }

  datatype Family = Family(code: string, requirements: seq<AttributeRequirement>)

  /** One product value; `None` stands for PHP's `null`. The engine never looks into `data`. */
  datatype Value = Value(attribute: Attribute, scope: Option<string>, locale: Option<string>, data: Option<string>)

  /** The reconciliation key of a value: (attribute code, scope, locale). */
  datatype ValueKey = ValueKey(attributeCode: string, scope: Option<string>, locale: Option<string>)

  function KeyOf(v: Value): ValueKey {
    ValueKey(v.attribute.code, v.scope, v.locale)
  }

  /**
    A value collection: an insertion-ordered map from reconciliation key to
    value. Adding a value whose key is already present replaces the stored
    value and keeps its position.
   */
  type ValueCollection = OMap<ValueKey, Value>

  /** Every value is stored under its own key. */
  ghost predicate ValidCollection(vc: ValueCollection) {
    vc.Valid() && forall k :: k in vc.items ==> KeyOf(vc.items[k]) == k
  }

  function Add(vc: ValueCollection, v: Value): (r: ValueCollection)
    ensures ValidCollection(vc) ==> ValidCollection(r)
    ensures r.Get(KeyOf(v)) == Some(v)
  {
    vc.Put(KeyOf(v), v)
  }

  /** The value stored under (code, scope, locale), or `None` for PHP's `null`. */
  function GetByCodes(vc: ValueCollection, code: string, scope: Option<string>, locale: Option<string>): Option<Value> {
    vc.Get(ValueKey(code, scope, locale))
  }

  datatype Product = Product(identifier: string, family: Option<Family>, values: ValueCollection)

  /** The completeness of one product on one channel and one locale. */
  datatype Completeness = Completeness(
    product: Product,
    channel: Channel,
    locale: Locale,
    missingAttributes: seq<Attribute>,
    missingCount: nat,
    requiredCount: nat)

  /** A channel or locale code the repositories cannot resolve. */
  datatype Error = ChannelNotFound(channelCode: string) | LocaleNotFound(localeCode: string)

  datatype Result<+T> = Success(value: T) | Failure(error: Error)

  /**
    The injected collaborators: the channel and locale repositories
    (`findOneByIdentifier`, `None` when the code is unknown) and the value
    completeness checker (`isComplete($value, $channel, $locale)`).
   */
  datatype Services = Services(
    channelRepository: string -> Option<Channel>,
    localeRepository: string -> Option<Locale>,
    isComplete: (Value, Channel, Locale) -> bool)
}

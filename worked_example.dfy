/**
  The example in the documentation of `getRequiredValues`: channels "mobile"
  and "print" on locales "en_US" and "fr_FR", and a family requiring a
  non-scopable, non-localizable "name", a scopable "short_description" and a
  scopable, localizable "long_description" on both channels. The lemmas
  establish the resulting array of required values cell by cell, and the
  order in which the calculator visits its buckets.
 */
module WorkedExample {
  import opened OrderedMaps
  import opened Catalog
  import opened RequiredValuesGenerator
  import opened CompletenessCalculator

  const enUS := Locale("en_US")
  const frFR := Locale("fr_FR")
  const mobile := Channel("mobile", [enUS, frFR])
  const printChannel := Channel("print", [enUS, frFR])
  const name := Attribute("name", false, false, false, {})
  const shortDescription := Attribute("short_description", true, false, false, {})
  const longDescription := Attribute("long_description", true, true, false, {})

  function Requirements(): seq<AttributeRequirement> {
    [AttributeRequirement(name, mobile, true),
     AttributeRequirement(shortDescription, mobile, true),
     AttributeRequirement(longDescription, mobile, true),
     AttributeRequirement(name, printChannel, true),
     AttributeRequirement(shortDescription, printChannel, true),
     AttributeRequirement(longDescription, printChannel, true)]
  }

  function Slots(c: string, a: Attribute): seq<Slot> {
    [Slot(c, "en_US", Placeholder(a, c, "en_US")), Slot(c, "fr_FR", Placeholder(a, c, "fr_FR"))]
  }

  lemma TwoLocales(a: Attribute, channel: Channel)
    requires channel.locales == [enUS, frFR] && !a.localeSpecific
    ensures RequirementSlots(AttributeRequirement(a, channel, true), channel.locales) == Slots(channel.code, a)
  {
    var r := AttributeRequirement(a, channel, true);
    assert channel.locales[..1] == [enUS];
    assert [enUS][..0] == [];
    assert RequirementSlots(r, [enUS]) == [SlotFor(r, enUS)];
    assert enUS.code == "en_US" && frFR.code == "fr_FR";
  }

  lemma TraversalSnoc(p: seq<AttributeRequirement>, r: AttributeRequirement)
    ensures Traversal(p + [r]) == Traversal(p) + RequirementSlots(r, r.channel.locales)
  {
    assert (p + [r])[..|p|] == p;
  }

  lemma ExampleTraversal()
    ensures Traversal(Requirements())
         == Slots("mobile", name) + Slots("mobile", shortDescription) + Slots("mobile", longDescription)
          + Slots("print", name) + Slots("print", shortDescription) + Slots("print", longDescription)
  {
    var r := Requirements();
    TraversalSnoc([], r[0]);
    TraversalSnoc(r[..1], r[1]);
    TraversalSnoc(r[..2], r[2]);
    TraversalSnoc(r[..3], r[3]);
    TraversalSnoc(r[..4], r[4]);
    TraversalSnoc(r[..5], r[5]);
    assert [] + [r[0]] == r[..1];
    assert r[..1] + [r[1]] == r[..2];
    assert r[..2] + [r[2]] == r[..3];
    assert r[..3] + [r[3]] == r[..4];
    assert r[..4] + [r[4]] == r[..5];
    assert r[..5] + [r[5]] == r;
    TwoLocales(name, mobile);
    TwoLocales(shortDescription, mobile);
    TwoLocales(longDescription, mobile);
    TwoLocales(name, printChannel);
    TwoLocales(shortDescription, printChannel);
    TwoLocales(longDescription, printChannel);
  }

  function Cell(c: string, l: string): seq<Value> {
    [Placeholder(name, c, l), Placeholder(shortDescription, c, l), Placeholder(longDescription, c, l)]
  }

  lemma {:induction false} ChannelCodesAppend(a: seq<Slot>, b: seq<Slot>)
    ensures ChannelCodes(a + b) == ChannelCodes(a) + ChannelCodes(b)
  {
    if b == [] {
      assert a + b == a;
    } else {
      var p := b[..|b| - 1];
      assert (a + b)[..|a + b| - 1] == a + p;
      assert (a + b)[|a + b| - 1] == b[|b| - 1];
      ChannelCodesAppend(a, p);
    }
  }

  lemma {:induction false} LocaleCodesOnAppend(a: seq<Slot>, b: seq<Slot>, c: string)
    ensures LocaleCodesOn(a + b, c) == LocaleCodesOn(a, c) + LocaleCodesOn(b, c)
  {
    if b == [] {
      assert a + b == a;
    } else {
      var p := b[..|b| - 1];
      assert (a + b)[..|a + b| - 1] == a + p;
      assert (a + b)[|a + b| - 1] == b[|b| - 1];
      LocaleCodesOnAppend(a, p, c);
    }
  }

  lemma {:induction false} KeysAtAppend(a: seq<Slot>, b: seq<Slot>, c: string, l: string)
    ensures KeysAt(a + b, c, l) == KeysAt(a, c, l) + KeysAt(b, c, l)
  {
    if b == [] {
      assert a + b == a;
    } else {
      var p := b[..|b| - 1];
      assert (a + b)[..|a + b| - 1] == a + p;
      assert (a + b)[|a + b| - 1] == b[|b| - 1];
      KeysAtAppend(a, p, c, l);
    }
  }

  lemma {:induction false} LastAtAppend(a: seq<Slot>, b: seq<Slot>, c: string, l: string, k: ValueKey)
    ensures LastAt(a + b, c, l, k) == if LastAt(b, c, l, k).Some? then LastAt(b, c, l, k) else LastAt(a, c, l, k)
  {
    if b == [] {
      assert a + b == a;
    } else {
      var p := b[..|b| - 1];
      assert (a + b)[..|a + b| - 1] == a + p;
      assert (a + b)[|a + b| - 1] == b[|b| - 1];
      LastAtAppend(a, p, c, l, k);
    }
  }

  /** What the two slots of one requirement contribute. */
  lemma PairChannels(c: string, a: Attribute)
    ensures ChannelCodes(Slots(c, a)) == [c, c]
  {
    var x := Slots(c, a);
    assert x[..1] == [x[0]] && [x[0]][..0] == [];
    assert ChannelCodes([x[0]]) == [c];
    assert ChannelCodes(x) == ChannelCodes(x[..1]) + [c];
  }

  lemma PairLocales(c: string, a: Attribute, c': string)
    ensures LocaleCodesOn(Slots(c, a), c') == if c == c' then ["en_US", "fr_FR"] else []
  {
    var x := Slots(c, a);
    assert x[..1] == [x[0]] && [x[0]][..0] == [];
    assert LocaleCodesOn([x[0]], c') == if c == c' then ["en_US"] else [];
    assert LocaleCodesOn(x, c') == LocaleCodesOn(x[..1], c') + if c == c' then ["fr_FR"] else [];
  }

  lemma PairKeys(c: string, a: Attribute, c': string, l': string)
    ensures KeysAt(Slots(c, a), c', l')
         == if c == c' && (l' == "en_US" || l' == "fr_FR") then [KeyOf(Placeholder(a, c, l'))] else []
  {
    var x := Slots(c, a);
    assert x[..1] == [x[0]] && [x[0]][..0] == [];
    assert KeysAt([x[0]], c', l') == if At(x[0], c', l') then [KeyOf(x[0].value)] else [];
    assert KeysAt(x, c', l') == KeysAt(x[..1], c', l') + if At(x[1], c', l') then [KeyOf(x[1].value)] else [];
  }

  lemma PairLastAt(c: string, a: Attribute, c': string, l': string, k: ValueKey)
    ensures LastAt(Slots(c, a), c', l', k)
         == if c == c' && (l' == "en_US" || l' == "fr_FR") && KeyOf(Placeholder(a, c, l')) == k then Some(Placeholder(a, c, l')) else None
  {
    var x := Slots(c, a);
    assert x[..1] == [x[0]] && [x[0]][..0] == [];
    assert LastAt([x[0]], c', l', k) == if At(x[0], c', l') && KeyOf(x[0].value) == k then Some(x[0].value) else None;
    assert LastAt(x, c', l', k) == if At(x[1], c', l') && KeyOf(x[1].value) == k then Some(x[1].value) else LastAt(x[..1], c', l', k);
  }

  function Generated(): seq<Slot> {
    Slots("mobile", name) + Slots("mobile", shortDescription) + Slots("mobile", longDescription)
      + Slots("print", name) + Slots("print", shortDescription) + Slots("print", longDescription)
  }

  lemma GeneratedChannelCodes()
    ensures ChannelCodes(Generated()) == ["mobile", "mobile", "mobile", "mobile", "mobile", "mobile", "print", "print", "print", "print", "print", "print"]
  {
    var a, b, c := Slots("mobile", name), Slots("mobile", shortDescription), Slots("mobile", longDescription);
    var d, e, f := Slots("print", name), Slots("print", shortDescription), Slots("print", longDescription);
    ChannelCodesAppend(a + b + c + d + e, f);
    ChannelCodesAppend(a + b + c + d, e);
    ChannelCodesAppend(a + b + c, d);
    ChannelCodesAppend(a + b, c);
    ChannelCodesAppend(a, b);
    PairChannels("mobile", name);
    PairChannels("mobile", shortDescription);
    PairChannels("mobile", longDescription);
    PairChannels("print", name);
    PairChannels("print", shortDescription);
    PairChannels("print", longDescription);
  }

  /** Two runs of six equal codes each collapse to the two codes. */
  lemma DedupRuns<T(!new)>(x: T, y: T)
    requires x != y
    ensures Dedup([x, x, x, x, x, x, y, y, y, y, y, y]) == [x, y]
  {
    var xs, ys := [x, x, x, x, x, x], [y, y, y, y, y, y];
    assert [x, x, x, x, x, x, y, y, y, y, y, y] == xs + ys;
    assert [] + xs == xs;
    DedupRun([], xs, x);
    DedupRun(xs, ys, y);
  }

  lemma GeneratedChannels()
    ensures Dedup(ChannelCodes(Generated())) == ["mobile", "print"]
  {
    GeneratedChannelCodes();
    DedupRuns("mobile", "print");
  }

  predicate ExampleChannel(c: string) {
    c == "mobile" || c == "print"
  }

  predicate ExampleLocale(l: string) {
    l == "en_US" || l == "fr_FR"
  }

  /** The slots of the three requirements on channel `c'`. */
  function Group(c': string): seq<Slot> {
    Slots(c', name) + Slots(c', shortDescription) + Slots(c', longDescription)
  }

  lemma GroupLocales(c': string, c: string)
    ensures LocaleCodesOn(Group(c'), c) == if c' == c then ["en_US", "fr_FR", "en_US", "fr_FR", "en_US", "fr_FR"] else []
  {
    var a, b, d := Slots(c', name), Slots(c', shortDescription), Slots(c', longDescription);
    LocaleCodesOnAppend(a + b, d, c);
    LocaleCodesOnAppend(a, b, c);
    PairLocales(c', name, c);
    PairLocales(c', shortDescription, c);
    PairLocales(c', longDescription, c);
  }

  lemma GeneratedGroups()
    ensures Generated() == Group("mobile") + Group("print")
  {
  }

  lemma GeneratedLocaleCodes(c: string)
    requires ExampleChannel(c)
    ensures LocaleCodesOn(Generated(), c) == ["en_US", "fr_FR", "en_US", "fr_FR", "en_US", "fr_FR"]
  {
    GeneratedGroups();
    LocaleCodesOnAppend(Group("mobile"), Group("print"), c);
    GroupLocales("mobile", c);
    GroupLocales("print", c);
  }

  lemma DedupThrice<T(!new)>(x: T, y: T)
    requires x != y
    ensures Dedup([x, y, x, y, x, y]) == [x, y]
  {
    assert [x, y, x, y, x, y] == [x, y] + [x, y, x, y];
    DedupDistinct([x, y]);
    DedupAppendPresent([x, y], [x, y, x, y]);
  }

  lemma GeneratedLocales(c: string)
    requires ExampleChannel(c)
    ensures Dedup(LocaleCodesOn(Generated(), c)) == ["en_US", "fr_FR"]
  {
    GeneratedLocaleCodes(c);
    DedupThrice("en_US", "fr_FR");
  }

  function CellKeyList(c: string, l: string): seq<ValueKey> {
    [KeyOf(Placeholder(name, c, l)), KeyOf(Placeholder(shortDescription, c, l)), KeyOf(Placeholder(longDescription, c, l))]
  }

  lemma GroupKeys(c': string, c: string, l: string)
    ensures KeysAt(Group(c'), c, l) == if c' == c && ExampleLocale(l) then CellKeyList(c, l) else []
  {
    var a, b, d := Slots(c', name), Slots(c', shortDescription), Slots(c', longDescription);
    KeysAtAppend(a + b, d, c, l);
    KeysAtAppend(a, b, c, l);
    PairKeys(c', name, c, l);
    PairKeys(c', shortDescription, c, l);
    PairKeys(c', longDescription, c, l);
  }

  lemma GeneratedKeyList(c: string, l: string)
    requires ExampleChannel(c) && ExampleLocale(l)
    ensures KeysAt(Generated(), c, l) == CellKeyList(c, l)
  {
    GeneratedGroups();
    KeysAtAppend(Group("mobile"), Group("print"), c, l);
    GroupKeys("mobile", c, l);
    GroupKeys("print", c, l);
  }

  lemma GeneratedKeys(c: string, l: string)
    requires ExampleChannel(c) && ExampleLocale(l)
    ensures Dedup(KeysAt(Generated(), c, l)) == CellKeyList(c, l)
  {
    GeneratedKeyList(c, l);
    DedupDistinct(CellKeyList(c, l));
  }

  lemma GeneratedLastAt(c: string, l: string, x: Attribute)
    requires ExampleChannel(c) && ExampleLocale(l)
    requires x == name || x == shortDescription || x == longDescription
    ensures LastAt(Generated(), c, l, KeyOf(Placeholder(x, c, l))) == Some(Placeholder(x, c, l))
  {
    var k := KeyOf(Placeholder(x, c, l));
    var a, b, d := Slots("mobile", name), Slots("mobile", shortDescription), Slots("mobile", longDescription);
    var e, f, g := Slots("print", name), Slots("print", shortDescription), Slots("print", longDescription);
    LastAtAppend(a + b + d + e + f, g, c, l, k);
    LastAtAppend(a + b + d + e, f, c, l, k);
    LastAtAppend(a + b + d, e, c, l, k);
    LastAtAppend(a + b, d, c, l, k);
    LastAtAppend(a, b, c, l, k);
    PairLastAt("mobile", name, c, l, k);
    PairLastAt("mobile", shortDescription, c, l, k);
    PairLastAt("mobile", longDescription, c, l, k);
    PairLastAt("print", name, c, l, k);
    PairLastAt("print", shortDescription, c, l, k);
    PairLastAt("print", longDescription, c, l, k);
  }

  function ExampleFamily(): Family {
    Family("clothing", Requirements())
  }

  /** A bucket whose keys and last writes are known holds the values of its keys, in key order. */
  lemma BucketFromSlots(t: seq<Slot>, c: string, l: string, keys: seq<ValueKey>, values: seq<Value>)
    requires l in Dedup(LocaleCodesOn(t, c))
    requires Dedup(KeysAt(t, c, l)) == keys
    requires |keys| == |values|
    requires forall i :: 0 <= i < |keys| ==> LastAt(t, c, l, keys[i]) == Some(values[i])
    ensures var m := Bucketize(t);
      Has2(m, c, l) && m.items[c].items[l].Valid() && m.items[c].items[l].Values() == values
  {
    var m := Bucketize(t);
    BucketizeValid(t);
    BucketizeRow(t, c);
    assert c in m.items && l in m.items[c].keys;
    BucketizeCell(t, c, l);
    assert ValidCollection(m.items[c].items[l]);
    BucketizeLookup(t);
    forall i | 0 <= i < |keys| ensures m.items[c].items[l].items[keys[i]] == values[i] {
      assert Lookup(m, c, l, keys[i]) == Some(values[i]);
    }
  }

  lemma ExampleTraversalIsGenerated()
    ensures RequiredValues(ExampleFamily()) == Bucketize(Generated())
  {
    ExampleTraversal();
  }

  /** The last write to each key of bucket `[c][l]` is that key's placeholder. */
  lemma GeneratedCellLast(c: string, l: string)
    requires ExampleChannel(c) && ExampleLocale(l)
    ensures forall i :: 0 <= i < 3 ==> LastAt(Generated(), c, l, CellKeyList(c, l)[i]) == Some(Cell(c, l)[i])
  {
    GeneratedLastAt(c, l, name);
    GeneratedLastAt(c, l, shortDescription);
    GeneratedLastAt(c, l, longDescription);
  }

  lemma GeneratedBucket(c: string, l: string)
    requires ExampleChannel(c) && ExampleLocale(l)
    ensures var m := Bucketize(Generated());
      Has2(m, c, l) && m.items[c].items[l].Valid() && m.items[c].items[l].Values() == Cell(c, l)
  {
    GeneratedLocales(c);
    GeneratedKeys(c, l);
    GeneratedCellLast(c, l);
    BucketFromSlots(Generated(), c, l, CellKeyList(c, l), Cell(c, l));
  }

  /** Bucket `[c][l]` of the example holds `name`, `short_description-c` and `long_description-c-l`, in that order. */
  lemma ExampleBucket(c: string, l: string)
    requires ExampleChannel(c) && ExampleLocale(l)
    ensures var m := RequiredValues(ExampleFamily());
      Has2(m, c, l) && m.items[c].items[l].Valid() && m.items[c].items[l].Values() == Cell(c, l)
  {
    ExampleTraversalIsGenerated();
    GeneratedBucket(c, l);
  }

  /** The buckets of a matrix with two rows of the same two locales, in iteration order. */
  lemma TwoByTwo<V>(m: Matrix<V>, c1: string, c2: string, l1: string, l2: string)
    requires m.Valid() && m.keys == [c1, c2]
    requires c1 in m.items && m.items[c1].keys == [l1, l2]
    requires c2 in m.items && m.items[c2].keys == [l1, l2]
    ensures BucketOrder(m) == [BucketId(c1, l1), BucketId(c1, l2), BucketId(c2, l1), BucketId(c2, l2)]
  {
    assert [c1, c2][..1] == [c1] && [c1][..0] == [];
    assert FlattenRows(m, [c1]) == RowIds(c1, [l1, l2]);
    assert RowIds(c1, [l1, l2]) == [BucketId(c1, l1), BucketId(c1, l2)];
    assert RowIds(c2, [l1, l2]) == [BucketId(c2, l1), BucketId(c2, l2)];
  }

  lemma SlotsTwoByTwo(t: seq<Slot>, c1: string, c2: string, l1: string, l2: string)
    requires Dedup(ChannelCodes(t)) == [c1, c2]
    requires Dedup(LocaleCodesOn(t, c1)) == [l1, l2] && Dedup(LocaleCodesOn(t, c2)) == [l1, l2]
    ensures Bucketize(t).Valid()
    ensures BucketOrder(Bucketize(t)) == [BucketId(c1, l1), BucketId(c1, l2), BucketId(c2, l1), BucketId(c2, l2)]
  {
    var m := Bucketize(t);
    BucketizeValid(t);
    BucketizeChannels(t);
    BucketizeRow(t, c1);
    BucketizeRow(t, c2);
    assert c1 in m.items && c2 in m.items;
    TwoByTwo(m, c1, c2, l1, l2);
  }

  /** The example's buckets, in iteration order: `mobile` before `print`, `en_US` before `fr_FR`. */
  lemma ExampleBuckets()
    ensures Buckets(ExampleFamily())
         == [BucketId("mobile", "en_US"), BucketId("mobile", "fr_FR"), BucketId("print", "en_US"), BucketId("print", "fr_FR")]
  {
    ExampleTraversalIsGenerated();
    GeneratedChannels();
    GeneratedLocales("mobile");
    GeneratedLocales("print");
    SlotsTwoByTwo(Generated(), "mobile", "print", "en_US", "fr_FR");
  }
}

/**
  RequiredValuesGenerator::generate: from a family's attribute requirements,
  the placeholder values that a product of the family must have, grouped in
  buckets `[channelCode][localeCode]`.

  The specification is split in two: `Traversal` lists, in loop order, one
  slot for every (requirement, locale of its channel) pair that yields a
  value, and `Bucketize` files the slots into the two-level array exactly as
  the loop body does.
 */
module RequiredValuesGenerator {
  import opened OrderedMaps
  import opened Catalog

  /** `$values`: channel code => locale code => value collection. */
  type ValueMatrix = Matrix<ValueCollection>

  /** A placeholder value on its way to bucket `[channelCode][localeCode]`. */
  datatype Slot = Slot(channelCode: string, localeCode: string, value: Value)

  /** The requirement yields a value for `locale`: it is required and its attribute is not kept off the locale. */
  predicate Contributes(r: AttributeRequirement, locale: Locale) {
    r.required && !(r.attribute.localeSpecific && !r.attribute.HasLocaleSpecific(locale))
  }

  /** `ValueFactory::create`: a value without data, scoped and localized only as the attribute allows. */
  function Placeholder(a: Attribute, channelCode: string, localeCode: string): Value {
    Value(a, if a.scopable then Some(channelCode) else None, if a.localizable then Some(localeCode) else None, None)
  }

  function SlotFor(r: AttributeRequirement, locale: Locale): Slot {
    Slot(r.ChannelCode(), locale.code, Placeholder(r.attribute, r.ChannelCode(), locale.code))
  }

  /** The slots the inner loop produces for requirement `r` over `locales`. */
  function RequirementSlots(r: AttributeRequirement, locales: seq<Locale>): seq<Slot> {
    if locales == [] then []
    else
      var locale := locales[|locales| - 1];
      RequirementSlots(r, locales[..|locales| - 1]) + if Contributes(r, locale) then [SlotFor(r, locale)] else []
  }

  /** The slots of all requirements, in requirement order and then channel-locale order. */
  function Traversal(requirements: seq<AttributeRequirement>): seq<Slot> {
    if requirements == [] then []
    else
      var r := requirements[|requirements| - 1];
      Traversal(requirements[..|requirements| - 1]) + RequirementSlots(r, r.channel.locales)
  }

  /** Every bucket is a valid value collection. */
  ghost predicate ValidValueMatrix(m: ValueMatrix) {
    ValidMatrix(m) && forall c, l :: Has2(m, c, l) ==> ValidCollection(m.items[c].items[l])
  }

  /** The loop body: create the bucket if it is not set, then add the value to it. */
  function Insert(m: ValueMatrix, s: Slot): ValueMatrix {
    var bucket := if Has2(m, s.channelCode, s.localeCode) then m.items[s.channelCode].items[s.localeCode] else Empty();
    Assign2(m, s.channelCode, s.localeCode, Add(bucket, s.value))
  }

  /** The value of `$values` after the loop body has run for each of `slots`, in order. */
  function Bucketize(slots: seq<Slot>): ValueMatrix {
    if slots == [] then Empty() else Insert(Bucketize(slots[..|slots| - 1]), slots[|slots| - 1])
  }

  /** Every level of the generated array is a valid ordered map, and every value is stored under its key. */
  lemma {:induction false} BucketizeValid(slots: seq<Slot>)
    ensures ValidValueMatrix(Bucketize(slots))
  {
    if slots != [] {
      var p := Bucketize(slots[..|slots| - 1]);
      var s := slots[|slots| - 1];
      BucketizeValid(slots[..|slots| - 1]);
      var r := Insert(p, s);
      Assign2Get(p, s.channelCode, s.localeCode, Add(if Has2(p, s.channelCode, s.localeCode) then p.items[s.channelCode].items[s.localeCode] else Empty(), s.value));
      forall c, l | Has2(r, c, l) ensures ValidCollection(r.items[c].items[l]) {
        assert Get2(r, c, l) == Some(r.items[c].items[l]);
        if !(c == s.channelCode && l == s.localeCode) {
          assert Get2(p, c, l) == Some(r.items[c].items[l]);
        }
      }
    }
  }

  lemma BucketizeSnoc(slots: seq<Slot>, s: Slot)
    ensures Bucketize(slots + [s]) == Insert(Bucketize(slots), s)
  {
    assert (slots + [s])[..|slots|] == slots;
  }

  lemma BucketizeStep(prior: seq<Slot>, slots: seq<Slot>, slots': seq<Slot>, s: Slot)
    requires slots' == slots + [s]
    ensures Bucketize(prior + slots') == Insert(Bucketize(prior + slots), s)
  {
    assert prior + slots' == (prior + slots) + [s];
    BucketizeSnoc(prior + slots, s);
  }

  /**
    The update of `$values` in the loop body: bucket `[channelCode][localeCode]`
    is created when it is not set, then `value` is added to it.
   */
  method AddToBucket(values: ValueMatrix, channelCode: string, localeCode: string, value: Value) returns (r: ValueMatrix)
    ensures r == Insert(values, Slot(channelCode, localeCode, value))
  {
    CreateThenAdd(values, Slot(channelCode, localeCode, value));
    r := values;
    if !Has2(r, channelCode, localeCode) {
      r := Assign2(r, channelCode, localeCode, Empty());
    }
    r := Assign2(r, channelCode, localeCode, Add(r.items[channelCode].items[localeCode], value));
  }

  /** Creating the bucket when it is not set and then adding to it is `Insert`. */
  lemma CreateThenAdd(m: ValueMatrix, s: Slot)
    ensures var created := if Has2(m, s.channelCode, s.localeCode) then m else Assign2(m, s.channelCode, s.localeCode, Empty());
      && Has2(created, s.channelCode, s.localeCode)
      && Assign2(created, s.channelCode, s.localeCode, Add(created.items[s.channelCode].items[s.localeCode], s.value)) == Insert(m, s)
  {
    if !Has2(m, s.channelCode, s.localeCode) {
      var created := Assign2(m, s.channelCode, s.localeCode, Empty());
      Assign2Get(m, s.channelCode, s.localeCode, Empty());
      assert Get2(created, s.channelCode, s.localeCode) == Some(Empty());
      Assign2Twice(m, s.channelCode, s.localeCode, Empty(), Add(Empty(), s.value));
    }
  }

  lemma RequirementSlotsStep(r: AttributeRequirement, locales: seq<Locale>, j: nat)
    requires j < |locales|
    ensures RequirementSlots(r, locales[..j + 1])
         == RequirementSlots(r, locales[..j]) + if Contributes(r, locales[j]) then [SlotFor(r, locales[j])] else []
  {
    assert locales[..j + 1][..j] == locales[..j];
  }

  lemma TraversalStep(requirements: seq<AttributeRequirement>, i: nat)
    requires i < |requirements|
    ensures Traversal(requirements[..i + 1])
         == Traversal(requirements[..i]) + RequirementSlots(requirements[i], requirements[i].channel.locales)
  {
    assert requirements[..i + 1][..i] == requirements[..i];
  }

  /** The value of `generate($family)`. */
  function RequiredValues(family: Family): ValueMatrix {
    Bucketize(Traversal(family.requirements))
  }

  /** `RequiredValuesGenerator::generate`. */
  method Generate(family: Family) returns (values: ValueMatrix)
    ensures values == RequiredValues(family)
  {
    values := Empty();
    var requirements := family.requirements;
    var i := 0;
    while i < |requirements|
      invariant 0 <= i <= |requirements|
      invariant values == Bucketize(Traversal(requirements[..i]))
    {
      var requirement := requirements[i];
      var locales := requirement.channel.locales;
      var j := 0;
      assert locales[..0] == [] && RequirementSlots(requirement, locales[..0]) == [];
      assert Traversal(requirements[..i]) + [] == Traversal(requirements[..i]);
      while j < |locales|
        invariant 0 <= j <= |locales|
        invariant values == Bucketize(Traversal(requirements[..i]) + RequirementSlots(requirement, locales[..j]))
      {
        var locale := locales[j];
        ghost var prior, slots, slots' :=
          Traversal(requirements[..i]), RequirementSlots(requirement, locales[..j]), RequirementSlots(requirement, locales[..j + 1]);
        RequirementSlotsStep(requirement, locales, j);
        if requirement.required {
          var channelCode := requirement.ChannelCode();
          var localeCode := locale.code;
          var attribute := requirement.attribute;
          if !(attribute.localeSpecific && !attribute.HasLocaleSpecific(locale)) {
            var productValue := Value(
              attribute,
              if attribute.scopable then Some(channelCode) else None,
              if attribute.localizable then Some(localeCode) else None,
              None);
            values := AddToBucket(values, channelCode, localeCode, productValue);
            assert slots' == slots + [SlotFor(requirement, locale)];
            BucketizeStep(prior, slots, slots', SlotFor(requirement, locale));
          } else {
            assert slots' == slots;
          }
        } else {
          assert slots' == slots;
        }
        j := j + 1;
      }
      TraversalStep(requirements, i);
      assert locales[..j] == locales;
      i := i + 1;
    }
    assert requirements[..i] == requirements;
  }

  // ---------------------------------------------------------------------------
  // How Bucketize files slots: order of creation, last write wins.

  function ChannelCodes(slots: seq<Slot>): seq<string> {
    if slots == [] then [] else ChannelCodes(slots[..|slots| - 1]) + [slots[|slots| - 1].channelCode]
  }

  /** The locale codes of the slots on channel `c`, in order. */
  function LocaleCodesOn(slots: seq<Slot>, c: string): seq<string> {
    if slots == [] then []
    else
      var s := slots[|slots| - 1];
      LocaleCodesOn(slots[..|slots| - 1], c) + if s.channelCode == c then [s.localeCode] else []
  }

  predicate At(s: Slot, c: string, l: string) {
    s.channelCode == c && s.localeCode == l
  }

  /** The keys of the values of the slots at `[c][l]`, in order. */
  function KeysAt(slots: seq<Slot>, c: string, l: string): seq<ValueKey> {
    if slots == [] then []
    else
      var s := slots[|slots| - 1];
      KeysAt(slots[..|slots| - 1], c, l) + if At(s, c, l) then [KeyOf(s.value)] else []
  }

  /** The value of the last slot at `[c][l]` whose value has key `k`. */
  function LastAt(slots: seq<Slot>, c: string, l: string, k: ValueKey): Option<Value> {
    if slots == [] then None
    else
      var s := slots[|slots| - 1];
      if At(s, c, l) && KeyOf(s.value) == k then Some(s.value) else LastAt(slots[..|slots| - 1], c, l, k)
  }

  /** The keys of bucket `[c][l]`, none when the bucket is not set. */
  function CellKeys(m: ValueMatrix, c: string, l: string): seq<ValueKey> {
    if Has2(m, c, l) then m.items[c].items[l].keys else []
  }

  /** `$m[$c][$l]->getByKey($k)`, `None` when the bucket or the key is missing. */
  function Lookup(m: ValueMatrix, c: string, l: string, k: ValueKey): Option<Value> {
    if Has2(m, c, l) then m.items[c].items[l].Get(k) else None
  }

  lemma {:induction false} LocaleCodesOnHas(slots: seq<Slot>, c: string, l: string)
    ensures l in LocaleCodesOn(slots, c) <==> exists i :: 0 <= i < |slots| && At(slots[i], c, l)
  {
    if slots != [] {
      var p := slots[..|slots| - 1];
      LocaleCodesOnHas(p, c, l);
      if exists i :: 0 <= i < |p| && At(p[i], c, l) {
        var i :| 0 <= i < |p| && At(p[i], c, l);
        assert At(slots[i], c, l);
      }
      if exists i :: 0 <= i < |slots| && At(slots[i], c, l) {
        var i :| 0 <= i < |slots| && At(slots[i], c, l);
        if i < |p| {
          assert At(p[i], c, l);
        }
      }
    }
  }

  lemma {:induction false} KeysAtHas(slots: seq<Slot>, c: string, l: string, k: ValueKey)
    ensures k in KeysAt(slots, c, l) <==> exists i :: 0 <= i < |slots| && At(slots[i], c, l) && KeyOf(slots[i].value) == k
  {
    if slots != [] {
      var p := slots[..|slots| - 1];
      KeysAtHas(p, c, l, k);
      if exists i :: 0 <= i < |p| && At(p[i], c, l) && KeyOf(p[i].value) == k {
        var i :| 0 <= i < |p| && At(p[i], c, l) && KeyOf(p[i].value) == k;
        assert slots[i] == p[i];
      }
      if exists i :: 0 <= i < |slots| && At(slots[i], c, l) && KeyOf(slots[i].value) == k {
        var i :| 0 <= i < |slots| && At(slots[i], c, l) && KeyOf(slots[i].value) == k;
        if i < |p| {
          assert slots[i] == p[i];
        }
      }
    }
  }

  /** Channels appear in the order in which the slots first create them. */
  lemma {:induction false} BucketizeChannels(slots: seq<Slot>)
    ensures Bucketize(slots).keys == Dedup(ChannelCodes(slots))
  {
    if slots != [] {
      var p, s := slots[..|slots| - 1], slots[|slots| - 1];
      BucketizeChannels(p);
      BucketizeValid(p);
      DedupSnoc(ChannelCodes(p), s.channelCode);
    }
  }

  /** Locales within channel `c` appear in the order in which the slots first create them. */
  lemma {:induction false} BucketizeRow(slots: seq<Slot>, c: string)
    ensures RowKeys(Bucketize(slots), c) == Dedup(LocaleCodesOn(slots, c))
  {
    if slots != [] {
      var p, s := slots[..|slots| - 1], slots[|slots| - 1];
      BucketizeRow(p, c);
      BucketizeValid(p);
      if c == s.channelCode {
        DedupSnoc(LocaleCodesOn(p, c), s.localeCode);
      } else {
        assert LocaleCodesOn(slots, c) == LocaleCodesOn(p, c);
      }
    }
  }

  /** What one `Insert` does to the keys of bucket `[c][l]`. */
  lemma InsertCell(m: ValueMatrix, s: Slot, c: string, l: string)
    requires ValidValueMatrix(m)
    ensures CellKeys(Insert(m, s), c, l)
         == if At(s, c, l) && KeyOf(s.value) !in CellKeys(m, c, l) then CellKeys(m, c, l) + [KeyOf(s.value)]
            else CellKeys(m, c, l)
  {
    var bucket := if Has2(m, s.channelCode, s.localeCode) then m.items[s.channelCode].items[s.localeCode] else Empty();
    var r := Insert(m, s);
    Assign2Get(m, s.channelCode, s.localeCode, Add(bucket, s.value));
    assert Get2(r, c, l) == if c == s.channelCode && l == s.localeCode then Some(Add(bucket, s.value)) else Get2(m, c, l);
    if At(s, c, l) {
      assert bucket.keys == CellKeys(m, c, l);
      assert bucket.Valid() by {
        if Has2(m, c, l) {
          assert ValidCollection(m.items[c].items[l]);
        }
      }
    }
  }

  /** Keys within bucket `[c][l]` appear in the order in which the slots first add them. */
  lemma {:induction false} BucketizeCell(slots: seq<Slot>, c: string, l: string)
    ensures CellKeys(Bucketize(slots), c, l) == Dedup(KeysAt(slots, c, l))
  {
    if slots != [] {
      var p, s := slots[..|slots| - 1], slots[|slots| - 1];
      BucketizeCell(p, c, l);
      BucketizeValid(p);
      InsertCell(Bucketize(p), s, c, l);
      if At(s, c, l) {
        DedupSnoc(KeysAt(p, c, l), KeyOf(s.value));
      } else {
        assert KeysAt(slots, c, l) == KeysAt(p, c, l);
      }
    }
  }

  /** Adding to a collection overwrites: the value stored under a key is the last one added with it. */
  lemma {:induction false} BucketizeLookup(slots: seq<Slot>)
    ensures forall c, l, k :: Lookup(Bucketize(slots), c, l, k) == LastAt(slots, c, l, k)
  {
    if slots != [] {
      var p, s := slots[..|slots| - 1], slots[|slots| - 1];
      BucketizeLookup(p);
      var m := Bucketize(p);
      var bucket := if Has2(m, s.channelCode, s.localeCode) then m.items[s.channelCode].items[s.localeCode] else Empty();
      var r := Assign2(m, s.channelCode, s.localeCode, Add(bucket, s.value));
      assert Bucketize(slots) == r;
      Assign2Get(m, s.channelCode, s.localeCode, Add(bucket, s.value));
      forall c, l, k ensures Lookup(r, c, l, k) == LastAt(slots, c, l, k) {
        assert Get2(r, c, l) == if c == s.channelCode && l == s.localeCode then Some(Add(bucket, s.value)) else Get2(m, c, l);
      }
    }
  }

  /** A slot is found under its key exactly when some slot at that bucket has a value with that key. */
  lemma {:induction false} LastAtSpec(slots: seq<Slot>, c: string, l: string, k: ValueKey)
    ensures LastAt(slots, c, l, k).Some? <==> exists i :: 0 <= i < |slots| && At(slots[i], c, l) && KeyOf(slots[i].value) == k
    ensures LastAt(slots, c, l, k).Some? ==>
      exists i :: 0 <= i < |slots| && At(slots[i], c, l) && KeyOf(slots[i].value) == k && slots[i].value == LastAt(slots, c, l, k).value
  {
    if slots != [] {
      var p, s := slots[..|slots| - 1], slots[|slots| - 1];
      LastAtSpec(p, c, l, k);
      if !(At(s, c, l) && KeyOf(s.value) == k) {
        if LastAt(p, c, l, k).Some? {
          var i :| 0 <= i < |p| && At(p[i], c, l) && KeyOf(p[i].value) == k && p[i].value == LastAt(p, c, l, k).value;
          assert slots[i] == p[i];
        }
        if exists i :: 0 <= i < |slots| && At(slots[i], c, l) && KeyOf(slots[i].value) == k {
          var i :| 0 <= i < |slots| && At(slots[i], c, l) && KeyOf(slots[i].value) == k;
          assert i < |p| && p[i] == slots[i];
        }
      }
    }
  }

  // ---------------------------------------------------------------------------
  // Which slots the traversal produces.

  /** Requirement `ri` yields a value for the `li`-th locale of its channel. */
  ghost predicate Yields(requirements: seq<AttributeRequirement>, ri: int, li: int) {
    && 0 <= ri < |requirements|
    && 0 <= li < |requirements[ri].channel.locales|
    && Contributes(requirements[ri], requirements[ri].channel.locales[li])
  }

  lemma {:induction false} RequirementSlotsHas(r: AttributeRequirement, locales: seq<Locale>, s: Slot)
    ensures s in RequirementSlots(r, locales) <==>
      exists li :: 0 <= li < |locales| && Contributes(r, locales[li]) && s == SlotFor(r, locales[li])
  {
    if locales != [] {
      var p := locales[..|locales| - 1];
      RequirementSlotsHas(r, p, s);
      if exists li :: 0 <= li < |p| && Contributes(r, p[li]) && s == SlotFor(r, p[li]) {
        var li :| 0 <= li < |p| && Contributes(r, p[li]) && s == SlotFor(r, p[li]);
        assert locales[li] == p[li];
      }
      if exists li :: 0 <= li < |locales| && Contributes(r, locales[li]) && s == SlotFor(r, locales[li]) {
        var li :| 0 <= li < |locales| && Contributes(r, locales[li]) && s == SlotFor(r, locales[li]);
        if li < |p| {
          assert locales[li] == p[li];
        }
      }
    }
  }

  /** Every slot of the traversal comes from a (requirement, locale) pair that yields a value. */
  lemma {:induction false} TraversalSlotYields(requirements: seq<AttributeRequirement>, s: Slot)
    requires s in Traversal(requirements)
    ensures exists ri, li :: Yields(requirements, ri, li) && s == SlotFor(requirements[ri], requirements[ri].channel.locales[li])
  {
    var p, r := requirements[..|requirements| - 1], requirements[|requirements| - 1];
    if s in Traversal(p) {
      TraversalSlotYields(p, s);
      var ri, li :| Yields(p, ri, li) && s == SlotFor(p[ri], p[ri].channel.locales[li]);
      assert requirements[ri] == p[ri];
      assert Yields(requirements, ri, li);
    } else {
      RequirementSlotsHas(r, r.channel.locales, s);
      var li :| 0 <= li < |r.channel.locales| && Contributes(r, r.channel.locales[li]) && s == SlotFor(r, r.channel.locales[li]);
      assert Yields(requirements, |p|, li);
    }
  }

  /** Every (requirement, locale) pair that yields a value has its slot in the traversal. */
  lemma {:induction false} YieldsInTraversal(requirements: seq<AttributeRequirement>, ri: int, li: int)
    requires Yields(requirements, ri, li)
    ensures SlotFor(requirements[ri], requirements[ri].channel.locales[li]) in Traversal(requirements)
  {
    var p, r := requirements[..|requirements| - 1], requirements[|requirements| - 1];
    var s := SlotFor(requirements[ri], requirements[ri].channel.locales[li]);
    if ri < |p| {
      assert requirements[ri] == p[ri];
      assert Yields(p, ri, li);
      YieldsInTraversal(p, ri, li);
    } else {
      RequirementSlotsHas(r, r.channel.locales, s);
    }
  }

  /** The traversal holds exactly the slots of the (requirement, locale) pairs that yield a value. */
  lemma TraversalHas(requirements: seq<AttributeRequirement>, s: Slot)
    ensures s in Traversal(requirements) <==>
      exists ri, li :: Yields(requirements, ri, li) && s == SlotFor(requirements[ri], requirements[ri].channel.locales[li])
  {
    if s in Traversal(requirements) {
      TraversalSlotYields(requirements, s);
    }
    if exists ri, li :: Yields(requirements, ri, li) && s == SlotFor(requirements[ri], requirements[ri].channel.locales[li]) {
      var ri, li :| Yields(requirements, ri, li) && s == SlotFor(requirements[ri], requirements[ri].channel.locales[li]);
      YieldsInTraversal(requirements, ri, li);
    }
  }

  // ---------------------------------------------------------------------------
  // What `generate` promises.

  /** A bucket `[c][l]` exists exactly when a required, not excluded requirement on channel `c` lists locale `l`. */
  lemma RequiredValuesBuckets(family: Family, c: string, l: string)
    ensures Has2(RequiredValues(family), c, l) <==>
      exists ri, li :: Yields(family.requirements, ri, li)
        && family.requirements[ri].ChannelCode() == c && family.requirements[ri].channel.locales[li].code == l
  {
    var reqs := family.requirements;
    var t := Traversal(reqs);
    var m := RequiredValues(family);
    BucketizeValid(t);
    BucketizeRow(t, c);
    LocaleCodesOnHas(t, c, l);
    assert Has2(m, c, l) <==> l in RowKeys(m, c);
    if Has2(m, c, l) {
      var i :| 0 <= i < |t| && At(t[i], c, l);
      TraversalHas(reqs, t[i]);
      var ri, li :| Yields(reqs, ri, li) && t[i] == SlotFor(reqs[ri], reqs[ri].channel.locales[li]);
    }
    if exists ri, li :: Yields(reqs, ri, li) && reqs[ri].ChannelCode() == c && reqs[ri].channel.locales[li].code == l {
      var ri, li :| Yields(reqs, ri, li) && reqs[ri].ChannelCode() == c && reqs[ri].channel.locales[li].code == l;
      var s := SlotFor(reqs[ri], reqs[ri].channel.locales[li]);
      TraversalHas(reqs, s);
      var i :| 0 <= i < |t| && t[i] == s;
      assert At(t[i], c, l);
    }
  }

  /** No bucket is empty: a bucket is only created to receive a value. */
  lemma RequiredValuesNoEmptyBucket(family: Family, c: string, l: string)
    requires Has2(RequiredValues(family), c, l)
    ensures RequiredValues(family).items[c].items[l].Count() > 0
  {
    var t := Traversal(family.requirements);
    BucketizeRow(t, c);
    BucketizeCell(t, c, l);
    BucketizeValid(t);
    LocaleCodesOnHas(t, c, l);
    var i :| 0 <= i < |t| && At(t[i], c, l);
    KeysAtHas(t, c, l, KeyOf(t[i].value));
    assert KeyOf(t[i].value) in Dedup(KeysAt(t, c, l));
  }

  /**
    Every generated value is a placeholder of a required attribute of channel
    `c` that is not excluded from locale `l`: no data, scope `c` exactly when
    the attribute is scopable, locale `l` exactly when it is localizable, and
    stored under its own key.
   */
  lemma RequiredValuesShape(family: Family, c: string, l: string, k: ValueKey)
    requires Lookup(RequiredValues(family), c, l, k).Some?
    ensures var v := Lookup(RequiredValues(family), c, l, k).value;
      && KeyOf(v) == k
      && v.data == None
      && v.scope == (if v.attribute.scopable then Some(c) else None)
      && v.locale == (if v.attribute.localizable then Some(l) else None)
      && exists ri, li :: Yields(family.requirements, ri, li)
           && family.requirements[ri].attribute == v.attribute
           && family.requirements[ri].ChannelCode() == c
           && family.requirements[ri].channel.locales[li].code == l
  {
    var reqs := family.requirements;
    var t := Traversal(reqs);
    BucketizeLookup(t);
    LastAtSpec(t, c, l, k);
    var v := Lookup(RequiredValues(family), c, l, k).value;
    var i :| 0 <= i < |t| && At(t[i], c, l) && KeyOf(t[i].value) == k && t[i].value == v;
    TraversalHas(reqs, t[i]);
    var ri, li :| Yields(reqs, ri, li) && t[i] == SlotFor(reqs[ri], reqs[ri].channel.locales[li]);
  }

  /** A locale-specific attribute never appears in a bucket of a locale it is not restricted to. */
  lemma LocaleSpecificExcluded(family: Family, c: string, l: string, k: ValueKey)
    requires Lookup(RequiredValues(family), c, l, k).Some?
    ensures var a := Lookup(RequiredValues(family), c, l, k).value.attribute;
      a.localeSpecific ==> l in a.localeSpecificCodes
  {
    RequiredValuesShape(family, c, l, k);
  }

  /** Every required, not excluded (requirement, locale) pair has its placeholder's key in its bucket. */
  lemma RequiredValuesComplete(family: Family, ri: int, li: int)
    requires Yields(family.requirements, ri, li)
    ensures var r := family.requirements[ri];
      var c, l := r.ChannelCode(), r.channel.locales[li].code;
      Has2(RequiredValues(family), c, l) && KeyOf(Placeholder(r.attribute, c, l)) in RequiredValues(family).items[c].items[l].items
  {
    var reqs := family.requirements;
    var r := reqs[ri];
    var c, l := r.ChannelCode(), r.channel.locales[li].code;
    var t := Traversal(reqs);
    var s := SlotFor(r, r.channel.locales[li]);
    TraversalHas(reqs, s);
    var i :| 0 <= i < |t| && t[i] == s;
    BucketizeLookup(t);
    LastAtSpec(t, c, l, KeyOf(s.value));
    assert Lookup(RequiredValues(family), c, l, KeyOf(s.value)).Some?;
  }

  function RequiredOnly(requirements: seq<AttributeRequirement>): seq<AttributeRequirement> {
    if requirements == [] then []
    else
      var r := requirements[|requirements| - 1];
      RequiredOnly(requirements[..|requirements| - 1]) + if r.required then [r] else []
  }

  lemma {:induction false} NotRequiredYieldsNothing(r: AttributeRequirement, locales: seq<Locale>)
    requires !r.required
    ensures RequirementSlots(r, locales) == []
  {
    if locales != [] {
      NotRequiredYieldsNothing(r, locales[..|locales| - 1]);
    }
  }

  /** Requirements that are not required contribute nothing: dropping them does not change the result. */
  lemma {:induction false} NotRequiredIgnored(family: Family)
    ensures RequiredValues(family) == RequiredValues(Family(family.code, RequiredOnly(family.requirements)))
  {
    TraversalOfRequiredOnly(family.requirements);
  }

  lemma {:induction false} TraversalOfRequiredOnly(requirements: seq<AttributeRequirement>)
    ensures Traversal(requirements) == Traversal(RequiredOnly(requirements))
  {
    if requirements != [] {
      var p, r := requirements[..|requirements| - 1], requirements[|requirements| - 1];
      TraversalOfRequiredOnly(p);
      var q := RequiredOnly(p);
      if r.required {
        assert (q + [r])[..|q|] == q;
      } else {
        NotRequiredYieldsNothing(r, r.channel.locales);
        assert RequiredOnly(requirements) == q + [];
        assert q + [] == q;
        assert Traversal(requirements) == Traversal(p) + [];
      }
    }
  }

  /**
    Channel keys appear in the order their first value is generated, which
    follows requirement order and then the channel's locale order; likewise
    locale keys within a channel and value keys within a bucket.
   */
  lemma RequiredValuesOrder(family: Family)
    ensures var t := Traversal(family.requirements);
      && RequiredValues(family).keys == Dedup(ChannelCodes(t))
      && (forall c :: RowKeys(RequiredValues(family), c) == Dedup(LocaleCodesOn(t, c)))
      && (forall c, l :: CellKeys(RequiredValues(family), c, l) == Dedup(KeysAt(t, c, l)))
  {
    var t := Traversal(family.requirements);
    BucketizeChannels(t);
    forall c ensures RowKeys(RequiredValues(family), c) == Dedup(LocaleCodesOn(t, c)) {
      BucketizeRow(t, c);
    }
    forall c, l ensures CellKeys(RequiredValues(family), c, l) == Dedup(KeysAt(t, c, l)) {
      BucketizeCell(t, c, l);
    }
  }

  /** Requirements agree on the modifiers of attributes that share a code. */
  ghost predicate ConsistentModifiers(requirements: seq<AttributeRequirement>) {
    forall i, j :: 0 <= i < |requirements| && 0 <= j < |requirements|
      && requirements[i].attribute.code == requirements[j].attribute.code
      ==> (requirements[i].attribute.scopable == requirements[j].attribute.scopable
           && requirements[i].attribute.localizable == requirements[j].attribute.localizable)
  }

  /** A channel that some slot is on has at least one locale code among the slots. */
  lemma {:induction false} ChannelHasLocale(slots: seq<Slot>, c: string)
    requires c in ChannelCodes(slots)
    ensures LocaleCodesOn(slots, c) != []
  {
    var p, s := slots[..|slots| - 1], slots[|slots| - 1];
    if s.channelCode != c {
      assert c in ChannelCodes(p);
      ChannelHasLocale(p, c);
    }
  }

  /** No channel row of the generated array is empty: a row is created together with its first bucket. */
  lemma RequiredValuesNoEmptyRow(family: Family)
    ensures forall c :: c in RequiredValues(family).items ==> RequiredValues(family).items[c].keys != []
  {
    var t := Traversal(family.requirements);
    BucketizeValid(t);
    BucketizeChannels(t);
    forall c | c in RequiredValues(family).items ensures RequiredValues(family).items[c].keys != [] {
      BucketizeRow(t, c);
      ChannelHasLocale(t, c);
      assert LocaleCodesOn(t, c)[0] in Dedup(LocaleCodesOn(t, c));
    }
  }

  /** Within one bucket the key of a value is determined by its attribute code. */
  lemma KeyDeterminedByCode(family: Family, c: string, l: string, k1: ValueKey, k2: ValueKey)
    requires ConsistentModifiers(family.requirements)
    requires Lookup(RequiredValues(family), c, l, k1).Some? && Lookup(RequiredValues(family), c, l, k2).Some?
    requires k1.attributeCode == k2.attributeCode
    ensures k1 == k2
  {
    RequiredValuesShape(family, c, l, k1);
    RequiredValuesShape(family, c, l, k2);
  }

  /** The set of buckets the family's requirements call for. */
  ghost function YieldedBuckets(requirements: seq<AttributeRequirement>): set<BucketId> {
    set ri, li | 0 <= ri < |requirements| && 0 <= li < |requirements[ri].channel.locales| && Yields(requirements, ri, li)
      :: BucketId(requirements[ri].ChannelCode(), requirements[ri].channel.locales[li].code)
  }

  /** Iterating the generated array visits each bucket the requirements call for exactly once. */
  lemma RequiredValuesBucketOrder(family: Family)
    ensures ValidValueMatrix(RequiredValues(family))
    ensures Distinct(BucketOrder(RequiredValues(family)))
    ensures Elements(BucketOrder(RequiredValues(family))) == YieldedBuckets(family.requirements)
    ensures |BucketOrder(RequiredValues(family))| == |YieldedBuckets(family.requirements)|
  {
    var m := RequiredValues(family);
    BucketizeValid(Traversal(family.requirements));
    BucketOrderSpec(m);
    forall id ensures id in BucketOrder(m) <==> id in YieldedBuckets(family.requirements) {
      RequiredValuesBuckets(family, id.channelCode, id.localeCode);
    }
    DistinctCard(BucketOrder(m));
  }
}

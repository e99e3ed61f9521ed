/**
  The list of missing required attributes of one product on one channel and
  one locale: an insertion-ordered map from attribute code to attribute in
  which the first attribute added under a code is kept.
 */
module MissingRequired {
  import opened OrderedMaps
  import opened Catalog

  /** Attribute code => attribute, in order of first addition. */
  type AttributeSet = OMap<string, Attribute>

  /** Every attribute is stored under its own code. */
  ghost predicate ValidSet(m: AttributeSet) {
    m.Valid() && forall c :: c in m.items ==> m.items[c].code == c
  }

  function Codes(s: seq<Attribute>): (r: seq<string>)
    ensures |r| == |s|
    ensures forall i :: 0 <= i < |s| ==> r[i] == s[i].code
  {
    seq(|s|, i requires 0 <= i < |s| => s[i].code)
  }

  /** The effect of `add($attribute)`: nothing when its code is present, otherwise appended. */
  function WithAttribute(m: AttributeSet, a: Attribute): AttributeSet {
    if a.code in m.items then m else OMap(m.keys + [a.code], m.items[a.code := a])
  }

  /** The contents of a fresh accumulator after `add` was called with each of `s`, in order. */
  function Accumulate(s: seq<Attribute>): AttributeSet {
    if s == [] then Empty() else WithAttribute(Accumulate(s[..|s| - 1]), s[|s| - 1])
  }

  /** The accumulator stores each attribute under its own code, and lists each code added once, in order of first addition. */
  lemma {:induction false} AccumulateSpec(s: seq<Attribute>)
    ensures ValidSet(Accumulate(s))
    ensures Accumulate(s).keys == Dedup(Codes(s))
  {
    if s != [] {
      AccumulateSpec(s[..|s| - 1]);
      assert Codes(s) == Codes(s[..|s| - 1]) + [s[|s| - 1].code];
    }
  }

  /** A code is present exactly when some added attribute has it. */
  lemma AccumulateHas(s: seq<Attribute>, code: string)
    ensures code in Accumulate(s).items <==> exists i :: 0 <= i < |s| && s[i].code == code
  {
    AccumulateSpec(s);
    assert code in Accumulate(s).items <==> code in Codes(s);
    if code in Codes(s) {
      var i :| 0 <= i < |s| && Codes(s)[i] == code;
    }
    if exists i :: 0 <= i < |s| && s[i].code == code {
      var i :| 0 <= i < |s| && s[i].code == code;
      assert Codes(s)[i] == code;
    }
  }

  /** The attribute kept under a code is the first one added with that code. */
  lemma {:induction false} AccumulateKeepsFirst(s: seq<Attribute>, code: string)
    requires code in Accumulate(s).items
    ensures exists i :: 0 <= i < |s| && s[i] == Accumulate(s).items[code]
                        && forall j :: 0 <= j < i ==> s[j].code != code
  {
    if s != [] {
      var p := s[..|s| - 1];
      var a := s[|s| - 1];
      var m := Accumulate(p);
      assert Accumulate(s) == WithAttribute(m, a);
      if code in m.items {
        AccumulateKeepsFirst(p, code);
        var i :| 0 <= i < |p| && p[i] == m.items[code] && forall j :: 0 <= j < i ==> p[j].code != code;
        assert s[i] == Accumulate(s).items[code];
        forall j | 0 <= j < i ensures s[j].code != code {
          assert s[j] == p[j];
        }
      } else {
        AccumulateHas(p, code);
        forall j | 0 <= j < |s| - 1 ensures s[j].code != code {
          assert s[j] == p[j];
        }
        assert s[|s| - 1] == Accumulate(s).items[code];
      }
    }
  }

  /** The size is the number of distinct codes added. */
  lemma AccumulateCount(s: seq<Attribute>)
    ensures Accumulate(s).Count() == |Elements(Codes(s))|
  {
    AccumulateSpec(s);
    var d := Dedup(Codes(s));
    DistinctCard(d);
    assert Elements(d) == Elements(Codes(s));
  }

  /** `a` is in `s`, and no attribute with its code comes before it. */
  ghost predicate FirstWithCode(s: seq<Attribute>, a: Attribute) {
    exists j :: 0 <= j < |s| && s[j] == a && forall k :: 0 <= k < j ==> s[k].code != a.code
  }

  /** Calling `add($a)` twice in a row leaves the state of calling it once. */
  lemma AddIdempotent(s: seq<Attribute>, a: Attribute)
    ensures Accumulate(s + [a, a]) == Accumulate(s + [a])
  {
    assert (s + [a, a])[..|s| + 1] == s + [a];
    assert (s + [a])[..|s|] == s;
  }

  class MissingRequiredAttributes {
    /** `$attributes`: attribute code => attribute. */
    var attributes: AttributeSet
    /** Every attribute passed to `add` so far, in call order. */
    ghost var added: seq<Attribute>

    ghost predicate Valid()
      reads this
    {
      attributes == Accumulate(added)
    }

    constructor()
      ensures Valid() && added == []
      ensures attributes.keys == [] && attributes.items == map[]
      ensures Count() == 0
    {
      attributes := Empty();
      added := [];
    }

    method Add(attribute: Attribute)
      requires Valid()
      modifies this
      ensures Valid() && added == old(added) + [attribute]
      ensures attribute.code !in old(attributes.items) ==>
        && GetAttributeCodes() == old(GetAttributeCodes()) + [attribute.code]
        && GetAttributes() == old(GetAttributes()) + [attribute]
        && Count() == old(Count()) + 1
      ensures attribute.code in old(attributes.items) ==> attributes == old(attributes)
    {
      var attributeCode := attribute.code;
      AccumulateSpec(added);
      AccumulateSpec(added + [attribute]);
      if attributeCode !in attributes.items {
        ValuesAppend(attributes, attributeCode, attribute);
        attributes := OMap(attributes.keys + [attributeCode], attributes.items[attributeCode := attribute]);
      }
      added := added + [attribute];
      assert added[..|added| - 1] == old(added);
    }

    /**
      `getAttributes()`: the stored attributes, as given, in order of first
      addition; each is the first attribute added under its code.
     */
    function GetAttributes(): (r: seq<Attribute>)
      reads this
      requires Valid()
      ensures |r| == Count()
      ensures forall i :: 0 <= i < |r| ==> r[i].code == GetAttributeCodes()[i] && FirstWithCode(added, r[i])
    {
      AccumulateSpec(added);
      var r := attributes.Values();
      assert forall i :: 0 <= i < |r| ==> FirstWithCode(added, r[i]) by {
        forall i | 0 <= i < |r| ensures FirstWithCode(added, r[i]) {
          AccumulateKeepsFirst(added, attributes.keys[i]);
        }
      }
      r
    }

    /** `getAttributeCodes()`: the distinct codes added, in order of first addition. */
    function GetAttributeCodes(): (r: seq<string>)
      reads this
      requires Valid()
      ensures Distinct(r)
      ensures r == Dedup(Codes(added))
      ensures |r| == Count()
    {
      AccumulateSpec(added);
      attributes.keys
    }

    /** `count()`: the number of distinct codes added. */
    function Count(): (n: nat)
      reads this
      requires Valid()
      ensures n == |Elements(Codes(added))|
    {
      AccumulateCount(added);
      |attributes.keys|
    }
  }
}

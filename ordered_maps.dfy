/**
  Insertion-ordered maps with the semantics of PHP arrays keyed by strings:
  assigning to an existing key overwrites the entry in place, assigning to a
  new key appends it. Iteration follows `keys`.
 */
module OrderedMaps {

  datatype Option<+T> = None | Some(value: T)

  ghost predicate Distinct<T>(s: seq<T>) {
    forall i, j :: 0 <= i < j < |s| ==> s[i] != s[j]
  }

  function Elements<T>(s: seq<T>): set<T> {
    set x | x in s
  }

  /** The elements of `s` in order of first occurrence, each exactly once. */
  function Dedup<T(==,!new)>(s: seq<T>): (r: seq<T>)
    ensures Distinct(r)
    ensures forall x :: x in r <==> x in s
    ensures |r| <= |s|
  {
    if s == [] then []
    else
      var d := Dedup(s[..|s| - 1]);
      assert s == s[..|s| - 1] + [s[|s| - 1]];
      if s[|s| - 1] in d then d else d + [s[|s| - 1]]
  }

  lemma DedupSnoc<T(!new)>(s: seq<T>, x: T)
    ensures Dedup(s + [x]) == if x in Dedup(s) then Dedup(s) else Dedup(s) + [x]
  {
    assert (s + [x])[..|s|] == s;
  }

  /** Appending elements already present leaves the first occurrences unchanged. */
  lemma {:induction false} DedupAppendPresent<T(!new)>(s: seq<T>, t: seq<T>)
    requires forall x :: x in t ==> x in s
    ensures Dedup(s + t) == Dedup(s)
  {
    if t == [] {
      assert s + t == s;
    } else {
      var p := t[..|t| - 1];
      assert (s + t)[..|s + t| - 1] == s + p;
      assert (s + t)[|s + t| - 1] == t[|t| - 1];
      DedupAppendPresent(s, p);
    }
  }

  /** A duplicate-free sequence is its own `Dedup`. */
  lemma {:induction false} DedupDistinct<T(!new)>(s: seq<T>)
    requires Distinct(s)
    ensures Dedup(s) == s
  {
    if s != [] {
      DedupDistinct(s[..|s| - 1]);
      assert s[|s| - 1] !in s[..|s| - 1];
    }
  }

  /** A duplicate-free sequence has as many elements as its set. */
  lemma {:induction false} DistinctCard<T>(s: seq<T>)
    requires Distinct(s)
    ensures |Elements(s)| == |s|
  {
    if s != [] {
      var p := s[..|s| - 1];
      DistinctCard(p);
      assert s == p + [s[|s| - 1]];
      assert Elements(s) == Elements(p) + {s[|s| - 1]};
      assert s[|s| - 1] !in Elements(p);
    }
  }

  datatype OMap<K(==,!new), V> = OMap(keys: seq<K>, items: map<K, V>) {

    /** Keys are listed once each, and exactly the keys of `items` are listed. */
    ghost predicate Valid() {
      Distinct(keys) && forall k :: k in items <==> k in keys
    }

    function Count(): nat {
      |keys|
    }

    function Get(k: K): Option<V> {
      if k in items then Some(items[k]) else None
    }

    /** `$array[$k] = $v`. */
    function Put(k: K, v: V): (r: OMap<K, V>)
      ensures Valid() ==> r.Valid()
    {
      if k in items then OMap(keys, items[k := v]) else OMap(keys + [k], items[k := v])
    }

    /** `array_values($array)`: the entries in key order. */
    function Values(): (r: seq<V>)
      requires Valid()
      ensures |r| == |keys|
      ensures forall i :: 0 <= i < |keys| ==> r[i] == items[keys[i]]
    {
      seq(|keys|, i requires 0 <= i < |keys| => items[keys[i]])
    }
  }

  function Empty<K(==,!new), V>(): OMap<K, V> {
    OMap([], map[])
  }

  /** Assigning a new key appends its value to the values. */
  lemma ValuesAppend<K(!new), V>(m: OMap<K, V>, k: K, v: V)
    requires m.Valid() && k !in m.items
    ensures m.Put(k, v).Values() == m.Values() + [v]
  {
  }

  /** Assigning twice to the same key is the same as assigning the last value once. */
  lemma PutPut<K(!new), V>(m: OMap<K, V>, k: K, v1: V, v2: V)
    ensures m.Put(k, v1).Put(k, v2) == m.Put(k, v2)
  {
  }

  /** A two-level array `[channelCode][localeCode] => V`. */
  type Matrix<V> = OMap<string, OMap<string, V>>

  ghost predicate ValidMatrix<V>(m: Matrix<V>) {
    m.Valid() && forall c :: c in m.items ==> m.items[c].Valid()
  }

  predicate Has2<V>(m: Matrix<V>, c: string, l: string) {
    c in m.items && l in m.items[c].items
  }

  /** `$m[$c][$l] ?? null`. */
  function Get2<V>(m: Matrix<V>, c: string, l: string): Option<V> {
    if Has2(m, c, l) then Some(m.items[c].items[l]) else None
  }

  /** The keys of row `$m[$c]`, none when the row is missing. */
  function RowKeys<V>(m: Matrix<V>, c: string): seq<string> {
    if c in m.items then m.items[c].keys else []
  }

  /** `$m[$c][$l] = $v`, creating the row `$m[$c]` when it is missing. */
  function Assign2<V>(m: Matrix<V>, c: string, l: string, v: V): (r: Matrix<V>)
    ensures ValidMatrix(m) ==> ValidMatrix(r)
  {
    var row := if c in m.items then m.items[c] else Empty();
    m.Put(c, row.Put(l, v))
  }

  /** Assigning a cell sets that cell and leaves every other cell as it was. */
  lemma Assign2Get<V>(m: Matrix<V>, c: string, l: string, v: V)
    ensures forall c', l' :: Get2(Assign2(m, c, l, v), c', l') == if c' == c && l' == l then Some(v) else Get2(m, c', l')
  {
  }

  /** Assigning a cell appends its channel to the rows when the channel is new. */
  lemma Assign2Channels<V>(m: Matrix<V>, c: string, l: string, v: V)
    requires ValidMatrix(m)
    ensures Assign2(m, c, l, v).keys == if c in m.keys then m.keys else m.keys + [c]
  {
  }

  /** Assigning a cell appends its locale to its own row when the locale is new, and leaves the other rows alone. */
  lemma Assign2Row<V>(m: Matrix<V>, c: string, l: string, v: V, c': string)
    requires ValidMatrix(m)
    ensures RowKeys(Assign2(m, c, l, v), c') == if c' == c && l !in RowKeys(m, c) then RowKeys(m, c) + [l] else RowKeys(m, c')
  {
  }

  /** Assigning a cell twice is the same as assigning the last value once. */
  lemma Assign2Twice<V>(m: Matrix<V>, c: string, l: string, v1: V, v2: V)
    ensures Assign2(Assign2(m, c, l, v1), c, l, v2) == Assign2(m, c, l, v2)
  {
    var row := if c in m.items then m.items[c] else Empty();
    PutPut(row, l, v1, v2);
    PutPut(m, c, row.Put(l, v1), row.Put(l, v2));
  }

  /** A (channel code, locale code) cell of a matrix. */
  datatype BucketId = BucketId(channelCode: string, localeCode: string)

  function RowIds(c: string, ls: seq<string>): (r: seq<BucketId>)
    ensures |r| == |ls|
    ensures forall i :: 0 <= i < |ls| ==> r[i] == BucketId(c, ls[i])
  {
    seq(|ls|, i requires 0 <= i < |ls| => BucketId(c, ls[i]))
  }

  /** The cells of the rows `cs`, row by row, each row in its own key order. */
  function FlattenRows<V>(m: Matrix<V>, cs: seq<string>): seq<BucketId>
    requires forall c :: c in cs ==> c in m.items
  {
    if cs == [] then []
    else FlattenRows(m, cs[..|cs| - 1]) + RowIds(cs[|cs| - 1], m.items[cs[|cs| - 1]].keys)
  }

  /** The order in which `foreach ($m as $c => $row) foreach ($row as $l => $v)` visits the cells. */
  function BucketOrder<V>(m: Matrix<V>): seq<BucketId>
    requires m.Valid()
  {
    FlattenRows(m, m.keys)
  }

  lemma {:induction false} FlattenRowsSpec<V>(m: Matrix<V>, cs: seq<string>)
    requires ValidMatrix(m)
    requires Distinct(cs)
    requires forall c :: c in cs ==> c in m.items
    ensures Distinct(FlattenRows(m, cs))
    ensures forall id :: id in FlattenRows(m, cs) <==> id.channelCode in cs && Has2(m, id.channelCode, id.localeCode)
  {
    if cs != [] {
      var p, c := cs[..|cs| - 1], cs[|cs| - 1];
      assert cs == p + [c];
      FlattenRowsSpec(m, p);
      var prev, row := FlattenRows(m, p), RowIds(c, m.items[c].keys);
      assert forall id :: id in row <==> id.channelCode == c && id.localeCode in m.items[c].items by {
        forall id ensures id in row <==> id.channelCode == c && id.localeCode in m.items[c].items {
          if id.channelCode == c && id.localeCode in m.items[c].items {
            var i :| 0 <= i < |m.items[c].keys| && m.items[c].keys[i] == id.localeCode;
            assert row[i] == id;
          }
        }
      }
      forall i, j | 0 <= i < j < |prev + row| ensures (prev + row)[i] != (prev + row)[j] {
        if j < |prev| {
        } else if i >= |prev| {
          assert row[i - |prev|].localeCode == m.items[c].keys[i - |prev|];
          assert row[j - |prev|].localeCode == m.items[c].keys[j - |prev|];
        } else {
          assert prev[i] in prev;
          assert prev[i].channelCode in p;
          assert c !in p;
        }
      }
    }
  }

  /** The visiting order lists every cell of a valid matrix exactly once. */
  lemma BucketOrderSpec<V>(m: Matrix<V>)
    requires ValidMatrix(m)
    ensures Distinct(BucketOrder(m))
    ensures forall id :: id in BucketOrder(m) <==> Has2(m, id.channelCode, id.localeCode)
  {
    FlattenRowsSpec(m, m.keys);
  }

  /** The channel code of each cell of `ids`, in order. */
  function ChannelsOf(ids: seq<BucketId>): (r: seq<string>)
    ensures |r| == |ids|
    ensures forall i :: 0 <= i < |ids| ==> r[i] == ids[i].channelCode
  {
    seq(|ids|, i requires 0 <= i < |ids| => ids[i].channelCode)
  }

  lemma ChannelsOfSnoc(ids: seq<BucketId>)
    requires ids != []
    ensures ChannelsOf(ids) == ChannelsOf(ids[..|ids| - 1]) + [ids[|ids| - 1].channelCode]
  {
    assert ChannelsOf(ids)[..|ids| - 1] == ChannelsOf(ids[..|ids| - 1]);
  }

  /** The locale codes of the cells of `ids` on channel `c`, in order. */
  function LocalesOf(ids: seq<BucketId>, c: string): seq<string> {
    if ids == [] then []
    else LocalesOf(ids[..|ids| - 1], c) + if ids[|ids| - 1].channelCode == c then [ids[|ids| - 1].localeCode] else []
  }

  lemma {:induction false} LocalesOfAppend(a: seq<BucketId>, b: seq<BucketId>, c: string)
    ensures LocalesOf(a + b, c) == LocalesOf(a, c) + LocalesOf(b, c)
  {
    if b == [] {
      assert a + b == a;
    } else {
      var p := b[..|b| - 1];
      assert (a + b)[..|a + b| - 1] == a + p;
      assert (a + b)[|a + b| - 1] == b[|b| - 1];
      LocalesOfAppend(a, p, c);
    }
  }

  lemma {:induction false} LocalesOfRow(c': string, ls: seq<string>, c: string)
    ensures LocalesOf(RowIds(c', ls), c) == if c' == c then ls else []
  {
    if ls != [] {
      var p := ls[..|ls| - 1];
      assert RowIds(c', ls)[..|ls| - 1] == RowIds(c', p);
      LocalesOfRow(c', p, c);
      assert ls == p + [ls[|ls| - 1]];
    }
  }

  /** A non-empty run of one new element adds that element once. */
  lemma DedupRun<T(!new)>(s: seq<T>, t: seq<T>, x: T)
    requires t != [] && x !in s
    requires forall i :: 0 <= i < |t| ==> t[i] == x
    ensures Dedup(s + t) == Dedup(s) + [x]
  {
    DedupSnoc(s, x);
    assert s + t == (s + [x]) + t[1..];
    DedupAppendPresent(s + [x], t[1..]);
  }

  /** No listed cell lies on a channel outside the listed rows. */
  lemma FlattenRowsOutside<V>(m: Matrix<V>, cs: seq<string>, c: string)
    requires ValidMatrix(m) && Distinct(cs)
    requires forall c :: c in cs ==> c in m.items
    requires c !in cs
    ensures c !in ChannelsOf(FlattenRows(m, cs))
  {
    FlattenRowsSpec(m, cs);
  }

  /** Listing the cells of rows with at least one cell each lists the rows' channels in order. */
  lemma {:induction false} FlattenRowsChannels<V>(m: Matrix<V>, cs: seq<string>)
    requires ValidMatrix(m) && Distinct(cs)
    requires forall c :: c in cs ==> c in m.items && m.items[c].keys != []
    ensures Dedup(ChannelsOf(FlattenRows(m, cs))) == cs
  {
    if cs != [] {
      var p, c := cs[..|cs| - 1], cs[|cs| - 1];
      assert cs == p + [c];
      FlattenRowsChannels(m, p);
      FlattenRowsOutside(m, p, c);
      var prev, row := FlattenRows(m, p), RowIds(c, m.items[c].keys);
      assert FlattenRows(m, cs) == prev + row;
      assert ChannelsOf(prev + row) == ChannelsOf(prev) + ChannelsOf(row);
      DedupRun(ChannelsOf(prev), ChannelsOf(row), c);
    }
  }

  /** Listing the cells of rows lists, for each row, its own locale keys. */
  lemma {:induction false} FlattenRowsLocales<V>(m: Matrix<V>, cs: seq<string>, c: string)
    requires Distinct(cs)
    requires forall c :: c in cs ==> c in m.items
    ensures LocalesOf(FlattenRows(m, cs), c) == if c in cs then m.items[c].keys else []
  {
    if cs != [] {
      var p, c' := cs[..|cs| - 1], cs[|cs| - 1];
      assert cs == p + [c'];
      FlattenRowsLocales(m, p, c);
      LocalesOfAppend(FlattenRows(m, p), RowIds(c', m.items[c'].keys), c);
      LocalesOfRow(c', m.items[c'].keys, c);
    }
  }

  /** Two matrices whose rows `cs` have the same keys list the same cells for them. */
  lemma {:induction false} FlattenRowsSameKeys<V, W>(a: Matrix<V>, b: Matrix<W>, cs: seq<string>)
    requires forall c :: c in cs ==> c in a.items && c in b.items && a.items[c].keys == b.items[c].keys
    ensures FlattenRows(a, cs) == FlattenRows(b, cs)
  {
    if cs != [] {
      FlattenRowsSameKeys(a, b, cs[..|cs| - 1]);
    }
  }
}

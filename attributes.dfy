/** Attribute extraction (`attributes`, `empty`) and the ` | name = 'value', …`
    segment that both renderers append to an element's name. */
module Attributes {
  import opened Strings

  /** One entry of an attribute collection (a DOM `Attr`). */
  datatype Attr = Attr(name: string, value: string)

  /** A plain JavaScript object used as a dictionary of strings: its own keys
      in the order they were first written, and the value under each key. */
  datatype Object = Object(keys: seq<string>, values: map<string, string>)

  predicate WellFormed(o: Object)
  {
    && (forall i, j | 0 <= i < j < |o.keys| :: o.keys[i] != o.keys[j])
    && (forall k | k in o.values :: k in o.keys)
    && (forall i | 0 <= i < |o.keys| :: o.keys[i] in o.values)
  }

  type Mapping = o: Object | WellFormed(o) witness Object([], map[])

  /** The two shapes `attributes` accepts: an indexed collection (it has `item`
      and `length`, like a `NamedNodeMap`) or an object that is already a mapping. */
  datatype AttrSource = NamedNodeMap(items: seq<Attr>) | PlainObject(obj: Mapping)

  /** `out[k] = v` on a plain object. */
  function Put(m: Mapping, k: string, v: string): Mapping
  {
    if k in m.values then Object(m.keys, m.values[k := v])
    else
      var r := Object(m.keys + [k], m.values[k := v]);
      assert WellFormed(r) by {
        forall j | 0 <= j < |m.keys| ensures m.keys[j] != k {
          assert m.keys[j] in m.values;
        }
      }
      r
  }

  /** The mapping the `for` loop of `attributes` builds from a collection:
      each attribute adds at most one key. */
  function FromItems(items: seq<Attr>): (r: Mapping)
    ensures |r.keys| <= |items|
  {
    if |items| == 0 then Object([], map[])
    else
      var last := items[|items| - 1];
      Put(FromItems(items[..|items| - 1]), last.name, last.value)
  }

  /** What `attributes(attrs)` returns. */
  function Extracted(src: AttrSource): Mapping
  {
    match src
    case PlainObject(obj) => obj
    case NamedNodeMap(items) => FromItems(items)
  }

  /** `attributes(attrs)`: an object is returned as it is; a collection is
      copied into a fresh object in collection order. */
  method Attributes(src: AttrSource) returns (out: Mapping)
    ensures out == Extracted(src)
    ensures src.PlainObject? ==> out == src.obj
  {
    if src.PlainObject? {
      return src.obj;
    }
    var attrs := src.items;
    out := Object([], map[]);
    for i := 0 to |attrs|
      invariant out == FromItems(attrs[..i])
    {
      assert attrs[..i + 1][..i] == attrs[..i];
      out := Put(out, attrs[i].name, attrs[i].value);
    }
    assert attrs[..|attrs|] == attrs;
  }

  function Names(items: seq<Attr>): (r: seq<string>)
    ensures |r| == |items|
    ensures forall i :: 0 <= i < |items| ==> r[i] == items[i].name
  {
    if |items| == 0 then [] else Names(items[..|items| - 1]) + [items[|items| - 1].name]
  }

  /** The position of the first `k` in `s`. */
  function FirstIndex(s: seq<string>, k: string): (r: nat)
    requires k in s
    ensures r < |s| && s[r] == k
    ensures forall j :: 0 <= j < r ==> s[j] != k
  {
    if s[0] == k then 0 else 1 + FirstIndex(s[1..], k)
  }

  lemma {:induction false} FirstIndexAppend(s: seq<string>, y: string, k: string)
    requires k in s + [y]
    ensures k in s ==> FirstIndex(s + [y], k) == FirstIndex(s, k)
    ensures k !in s ==> FirstIndex(s + [y], k) == |s|
  {
    var t := s + [y];
    if k in s {
      var a, b := FirstIndex(t, k), FirstIndex(s, k);
      assert t[b] == k;
      assert a <= b;
      assert s[a] == k;
    } else {
      assert t[|s|] == k;
    }
  }

  /** The keys of the extracted mapping are exactly the attribute names. */
  lemma {:induction false} FromItemsKeys(items: seq<Attr>)
    ensures forall k :: k in FromItems(items).values <==> k in Names(items)
  {
    if |items| > 0 {
      FromItemsKeys(items[..|items| - 1]);
    }
  }

  /** Last duplicate wins: the value under a name is the value of the last
      attribute that has that name. */
  lemma {:induction false} FromItemsLastWins(items: seq<Attr>, i: nat)
    requires i < |items|
    requires forall j :: i < j < |items| ==> items[j].name != items[i].name
    ensures items[i].name in FromItems(items).values
    ensures FromItems(items).values[items[i].name] == items[i].value
  {
    if i < |items| - 1 {
      FromItemsLastWins(items[..|items| - 1], i);
    }
  }

  /** Every value of the extracted mapping is the value of some attribute of that name. */
  lemma {:induction false} FromItemsValues(items: seq<Attr>, k: string)
    requires k in FromItems(items).values
    ensures exists i :: 0 <= i < |items| && items[i] == Attr(k, FromItems(items).values[k])
  {
    var n := |items|;
    var front := items[..n - 1];
    if items[n - 1].name == k {
      assert items[n - 1] == Attr(k, FromItems(items).values[k]);
    } else {
      FromItemsValues(front, k);
      var i :| 0 <= i < |front| && front[i] == Attr(k, FromItems(front).values[k]);
      assert items[i] == front[i];
    }
  }

  /** The keys are enumerated in the order in which each name first occurs. */
  lemma {:induction false} FromItemsKeyOrder(items: seq<Attr>)
    ensures forall k :: k in FromItems(items).keys ==> k in Names(items)
    ensures forall i, j | 0 <= i < j < |FromItems(items).keys| ::
      FirstIndex(Names(items), FromItems(items).keys[i]) < FirstIndex(Names(items), FromItems(items).keys[j])
  {
    if |items| > 0 {
      var n := |items|;
      var front := items[..n - 1];
      var x := items[n - 1];
      FromItemsKeyOrder(front);
      FromItemsKeys(front);
      assert Names(items) == Names(front) + [x.name];
      PutKeyOrder(FromItems(front), Names(front), x);
    }
  }

  /** One step of the `attributes` loop keeps the keys in first-occurrence order. */
  lemma PutKeyOrder(m: Mapping, names: seq<string>, x: Attr)
    requires forall k :: k in m.values <==> k in names
    requires forall i, j | 0 <= i < j < |m.keys| :: FirstIndex(names, m.keys[i]) < FirstIndex(names, m.keys[j])
    ensures var m', names' := Put(m, x.name, x.value), names + [x.name];
      && (forall k :: k in m'.keys ==> k in names')
      && (forall i, j | 0 <= i < j < |m'.keys| :: FirstIndex(names', m'.keys[i]) < FirstIndex(names', m'.keys[j]))
  {
    var m', names' := Put(m, x.name, x.value), names + [x.name];
    forall k | k in m'.keys
      ensures k in names'
    {
      assert k in m'.values;
    }
    forall i, j | 0 <= i < j < |m'.keys|
      ensures FirstIndex(names', m'.keys[i]) < FirstIndex(names', m'.keys[j])
    {
      PutPairOrder(m, names, x, i, j);
    }
  }

  lemma PutPairOrder(m: Mapping, names: seq<string>, x: Attr, i: nat, j: nat)
    requires forall k :: k in m.values <==> k in names
    requires forall i, j | 0 <= i < j < |m.keys| :: FirstIndex(names, m.keys[i]) < FirstIndex(names, m.keys[j])
    requires i < j < |Put(m, x.name, x.value).keys|
    ensures var m', names' := Put(m, x.name, x.value), names + [x.name];
      m'.keys[i] in names' && m'.keys[j] in names' &&
      FirstIndex(names', m'.keys[i]) < FirstIndex(names', m'.keys[j])
  {
    var m', names' := Put(m, x.name, x.value), names + [x.name];
    assert m'.keys[..|m.keys|] == m.keys;
    assert m'.keys[i] == m.keys[i];
    PutKeepsFirstIndex(m, names, x, m.keys[i]);
    if j < |m.keys| {
      assert m'.keys[j] == m.keys[j];
      PutKeepsFirstIndex(m, names, x, m.keys[j]);
    } else {
      assert x.name !in m.values && m'.keys[j] == x.name;
      FirstIndexAppend(names, x.name, x.name);
    }
  }

  lemma PutKeepsFirstIndex(m: Mapping, names: seq<string>, x: Attr, k: string)
    requires forall k :: k in m.values <==> k in names
    requires k in m.keys
    ensures k in names && FirstIndex(names + [x.name], k) == FirstIndex(names, k)
  {
    assert k in m.values;
    FirstIndexAppend(names, x.name, k);
  }

  /** The collection that lists a mapping's entries in key order. */
  function ItemsOf(m: Mapping): seq<Attr>
  {
    seq(|m.keys|, i requires 0 <= i < |m.keys| => Attr(m.keys[i], m.values[m.keys[i]]))
  }

  /** Listing a mapping as a collection and extracting it gives the mapping back. */
  lemma ExtractItemsOf(m: Mapping)
    ensures Extracted(NamedNodeMap(ItemsOf(m))) == m
  {
    var items, n := ItemsOf(m), |m.keys|;
    assert items[..n] == items;
    assert m.keys[..n] == m.keys;
    FromItemsPrefix(m, n);
    var r := FromItems(items);
    assert r.keys == m.keys;
    assert r.values.Keys == m.values.Keys by {
      forall k ensures k in r.values <==> k in m.values {
        assert k in m.values <==> k in m.keys;
      }
    }
    assert r.values == m.values by {
      forall k | k in m.values ensures r.values[k] == m.values[k] {
      }
    }
  }

  /** One step of the loop over `ItemsOf(m)`: adding the entry of a key not seen before. */
  lemma FromItemsPrefixStep(m: Mapping, n: nat)
    requires 0 < n <= |m.keys|
    ensures m.keys[n - 1] !in m.keys[..n - 1]
    ensures m.keys[..n] == m.keys[..n - 1] + [m.keys[n - 1]]
    ensures FromItems(ItemsOf(m)[..n]) == Put(FromItems(ItemsOf(m)[..n - 1]), m.keys[n - 1], m.values[m.keys[n - 1]])
  {
    var items := ItemsOf(m);
    var k := m.keys[n - 1];
    forall j | 0 <= j < n - 1 ensures m.keys[j] != k {
    }
    var pre := items[..n];
    assert pre[..n - 1] == items[..n - 1];
    assert pre[n - 1] == Attr(k, m.values[k]);
  }

  lemma {:induction false} FromItemsPrefix(m: Mapping, n: nat)
    requires n <= |m.keys|
    ensures FromItems(ItemsOf(m)[..n]).keys == m.keys[..n]
    ensures forall k :: k in FromItems(ItemsOf(m)[..n]).values <==> k in m.keys[..n]
    ensures forall k :: k in FromItems(ItemsOf(m)[..n]).values ==> FromItems(ItemsOf(m)[..n]).values[k] == m.values[k]
  {
    if n > 0 {
      FromItemsPrefix(m, n - 1);
      FromItemsPrefixStep(m, n);
    }
  }

  /** `empty(obj)`: the key loop stops at the first own key. */
  method Empty(obj: Mapping) returns (r: bool)
    ensures r <==> obj.values == map[]
  {
    for i := 0 to |obj.keys|
      invariant i == 0
    {
      assert obj.keys[i] in obj.values;
      return false;
    }
    assert forall k :: k !in obj.values;
    return true;
  }

  function PairText(k: string, v: string): string
  {
    k + " = '" + v + "'"
  }

  /** One `name = 'value'` text per key, in key order. */
  function PairTexts(m: Mapping): seq<string>
  {
    seq(|m.keys|, i requires 0 <= i < |m.keys| => PairText(m.keys[i], m.values[m.keys[i]]))
  }

  /** The attribute segment appended after an element's name. */
  function Segment(m: Mapping): string
  {
    if m.values == map[] then "" else " | " + Join(PairTexts(m), ", ")
  }

  /** No segment at all for an element without attributes, and one that
      starts with ` | ` otherwise. */
  lemma SegmentOmittedIffEmpty(m: Mapping)
    ensures Segment(m) == "" <==> m.values == map[]
    ensures m.values != map[] ==> Segment(m)[..3] == " | "
  {
  }

  /** The segment code shared by `html` and `text`: extract, test for
      emptiness, then push one pair text per key and join them with `, `. */
  method AttributeSegment(src: AttrSource) returns (seg: string)
    ensures seg == Segment(Extracted(src))
  {
    var attrs := Attributes(src);
    var arr: seq<string> := [];
    var isEmpty := Empty(attrs);
    seg := "";
    if !isEmpty {
      for i := 0 to |attrs.keys|
        invariant arr == PairTexts(attrs)[..i]
      {
        var k := attrs.keys[i];
        PrefixStep(PairTexts(attrs), i);
        arr := arr + [PairText(k, attrs.values[k])];
      }
      assert PairTexts(attrs)[..|attrs.keys|] == PairTexts(attrs);
      seg := " | " + Join(arr, ", ");
    }
  }
}

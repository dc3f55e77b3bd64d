/**
 * The size table of an asset record: an insertion-ordered hash from size
 * names to geometries, and Hash#merge, through which the custom sizes are
 * combined with the built-in `original` entry.
 */
module SizeTables {
  import opened Outcomes

  /** A geometry array: the resize argument and, when present, the extent argument. */
  datatype Geometry = Geometry(resize: string, extent: Option<string>)

  datatype Entry = Entry(name: string, geometry: Geometry)

  /** A Ruby hash keeps its entries in insertion order; order decides the order of conversions and uploads. */
  type Table = seq<Entry>

  const Original := "original"
  const DefaultGeometry := Geometry("1920x1200>", None)
  /** The built-in table: `original` resized to fit 1920x1200 when larger. */
  const DefaultSizes: Table := [Entry(Original, DefaultGeometry)]

  function Keys(t: Table): (ks: seq<string>)
    ensures |ks| == |t|
    ensures forall i :: 0 <= i < |t| ==> ks[i] == t[i].name
  {
    seq(|t|, i requires 0 <= i < |t| => t[i].name)
  }

  predicate HasKey(t: Table, k: string) {
    k in Keys(t)
  }

  predicate Distinct(ks: seq<string>) {
    forall i, j :: 0 <= i < j < |ks| ==> ks[i] != ks[j]
  }

  /** Every table built from a Ruby hash has distinct keys. */
  predicate WellFormed(t: Table) {
    Distinct(Keys(t))
  }

  /** Hash#[]; None stands for nil. */
  function Lookup(t: Table, k: string): (r: Option<Geometry>)
    ensures r.Some? <==> HasKey(t, k)
    ensures r.Some? ==> Entry(k, r.value) in t
  {
    if t == [] then None
    else if t[0].name == k then Some(t[0].geometry)
    else
      assert Keys(t) == [t[0].name] + Keys(t[1..]);
      Lookup(t[1..], k)
  }

  /** The name of each entry is a key of the table. */
  lemma HasKeyAt(t: Table, i: int)
    requires 0 <= i < |t|
    ensures HasKey(t, t[i].name)
  {
    assert Keys(t)[i] == t[i].name;
  }

  /** In a well-formed table each entry is what its own name looks up. */
  lemma LookupAt(t: Table, i: int)
    requires WellFormed(t) && 0 <= i < |t|
    ensures Lookup(t, t[i].name) == Some(t[i].geometry)
  {
    var r := Lookup(t, t[i].name);
    var j :| 0 <= j < |t| && t[j] == Entry(t[i].name, r.value);
    assert Keys(t)[i] == Keys(t)[j];
  }

  /**
   * Hash#[]=: an existing key keeps its place and takes the new value; a
   * new key is appended.
   */
  function Store(t: Table, k: string, g: Geometry): (r: Table)
    ensures Keys(r) == if HasKey(t, k) then Keys(t) else Keys(t) + [k]
  {
    if t == [] then [Entry(k, g)]
    else if t[0].name == k then [Entry(k, g)] + t[1..]
    else
      var rest := Store(t[1..], k, g);
      assert Keys(t) == [t[0].name] + Keys(t[1..]);
      assert Keys([t[0]] + rest) == [t[0].name] + Keys(rest);
      [t[0]] + rest
  }

  /** After storing, the key looks up the stored value and every other key is as before. */
  lemma {:induction false} StoreLookup(t: Table, k: string, g: Geometry, k': string)
    ensures Lookup(Store(t, k, g), k') == if k' == k then Some(g) else Lookup(t, k')
  {
    if t != [] && t[0].name != k {
      StoreLookup(t[1..], k, g, k');
      assert Store(t, k, g) == [t[0]] + Store(t[1..], k, g);
    }
  }

  lemma StoreKeepsWellFormed(t: Table, k: string, g: Geometry)
    requires WellFormed(t)
    ensures WellFormed(Store(t, k, g))
  {
  }

  /** a.merge(b): the entries of `b` are stored into `a` one after another. */
  function Merge(a: Table, b: Table): Table
    decreases |b|
  {
    if b == [] then a else Merge(Store(a, b[0].name, b[0].geometry), b[1..])
  }

  /**
   * Hash#merge keeps the keys of `a` in their order and follows them with
   * the keys only `b` has; no key is repeated.
   */
  lemma {:induction false} MergeKeys(a: Table, b: Table)
    requires WellFormed(a)
    ensures WellFormed(Merge(a, b))
    ensures |a| <= |Merge(a, b)| && Keys(Merge(a, b))[..|a|] == Keys(a)
    ensures forall i :: |a| <= i < |Merge(a, b)| ==>
      HasKey(b, Merge(a, b)[i].name) && !HasKey(a, Merge(a, b)[i].name)
    ensures forall k :: HasKey(Merge(a, b), k) <==> HasKey(a, k) || HasKey(b, k)
    decreases |b|
  {
    if b != [] {
      var e := b[0];
      var a' := Store(a, e.name, e.geometry);
      assert Keys(b) == [e.name] + Keys(b[1..]);
      StoreKeepsWellFormed(a, e.name, e.geometry);
      MergeKeys(a', b[1..]);
      var m := Merge(a', b[1..]);
      assert Keys(m)[..|a|] == Keys(a')[..|a|] == Keys(a);
      forall i | |a| <= i < |m|
        ensures HasKey(b, m[i].name) && !HasKey(a, m[i].name)
      {
        if i < |a'| {
          assert m[i].name == Keys(a')[i] == e.name;
        }
      }
    }
  }

  /** In a.merge(b) a key of `b` takes its value from `b`, any other key from `a`. */
  lemma {:induction false} MergeLookup(a: Table, b: Table, k: string)
    requires WellFormed(b)
    ensures Lookup(Merge(a, b), k) == if HasKey(b, k) then Lookup(b, k) else Lookup(a, k)
    decreases |b|
  {
    if b != [] {
      var e := b[0];
      assert Keys(b) == [e.name] + Keys(b[1..]);
      MergeLookup(Store(a, e.name, e.geometry), b[1..], k);
      StoreLookup(a, e.name, e.geometry, k);
      if k == e.name {
        forall j | 0 <= j < |b| - 1 ensures Keys(b[1..])[j] != k {
          assert Keys(b[1..])[j] == Keys(b)[j + 1];
        }
      }
    }
  }

  /** Model#sizes: the custom table merged with the built-in one. */
  function SizesOf(custom: Table): Table {
    Merge(custom, DefaultSizes)
  }

  /** Without custom sizes, the sizes are the built-in table alone. */
  lemma SizesOfNone()
    ensures SizesOf([]) == DefaultSizes
  {
    var e := Entry(Original, DefaultGeometry);
    assert DefaultSizes == [e];
    assert [e][1..] == [];
    assert Store([], e.name, e.geometry) == [e];
    assert Merge([], [e]) == Merge([e], []);
  }

  /**
   * The sizes always hold `original`, with the built-in geometry even when
   * the custom table defines its own; every custom key is kept in its
   * place, with its value; `original` is appended when it was not there.
   */
  lemma SizesSpec(custom: Table)
    requires WellFormed(custom)
    ensures WellFormed(SizesOf(custom))
    ensures Lookup(SizesOf(custom), Original) == Some(DefaultGeometry)
    ensures forall k :: k != Original ==> Lookup(SizesOf(custom), k) == Lookup(custom, k)
    ensures forall k :: HasKey(SizesOf(custom), k) <==> k == Original || HasKey(custom, k)
    ensures Keys(SizesOf(custom)) ==
      if HasKey(custom, Original) then Keys(custom) else Keys(custom) + [Original]
  {
    var s := Store(custom, Original, DefaultGeometry);
    SizesIsStore(custom);
    StoreKeepsWellFormed(custom, Original, DefaultGeometry);
    forall k ensures Lookup(s, k) == if k == Original then Some(DefaultGeometry) else Lookup(custom, k) {
      StoreLookup(custom, Original, DefaultGeometry, k);
    }
  }

  /** Merging the one-entry built-in table is a single Hash#[]=. */
  lemma SizesIsStore(custom: Table)
    ensures SizesOf(custom) == Store(custom, Original, DefaultGeometry)
  {
    var s := Store(custom, Original, DefaultGeometry);
    assert DefaultSizes[1..] == [];
    assert SizesOf(custom) == Merge(s, []) == s;
  }

  /** The size table built from a well-formed custom table has distinct names. */
  lemma SizesWellFormed(custom: Table)
    requires WellFormed(custom)
    ensures WellFormed(SizesOf(custom))
  {
    SizesSpec(custom);
  }

  /** Every size is `original` or a custom size. */
  lemma SizesKeys(custom: Table)
    requires WellFormed(custom)
    ensures forall i :: 0 <= i < |SizesOf(custom)| ==>
      SizesOf(custom)[i].name == Original || HasKey(custom, SizesOf(custom)[i].name)
  {
    SizesSpec(custom);
    forall i | 0 <= i < |SizesOf(custom)|
      ensures SizesOf(custom)[i].name == Original || HasKey(custom, SizesOf(custom)[i].name)
    {
      HasKeyAt(SizesOf(custom), i);
    }
  }

  /** The size table is never empty: it holds `original`. */
  lemma SizesNotEmpty(custom: Table)
    requires WellFormed(custom)
    ensures |SizesOf(custom)| > 0
  {
    SizesSpec(custom);
  }
}

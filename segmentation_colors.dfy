/**
 The colour memo table of the segmentation overlay: a map from a class index
 to the colour the overlay paints that class with. It starts with two
 transparent entries, grows by one entry on every miss and never loses one.
 */
module SegmentationColors {

  /** Swift's `Int32`, the type of the class indices read from the model output. */
  newtype int32 = x: int | -0x8000_0000 <= x < 0x8000_0000

  /** A colour as the view builds it: from red-green-blue components, or from a
      hue given as the rational `hueNum / hueDen` (no floating point involved). */
  datatype Color =
    | RGBA(red: int, green: int, blue: int, alpha: int)
    | HSBA(hueNum: int, hueDen: int, saturation: int, brightness: int, alpha: int)

  /** Black with alpha 0: what a class that is "nothing detected" is painted with. */
  const ZeroAlpha: Color := RGBA(0, 0, 0, 0)

  /** The hue of class `index` is `index / HueSteps` of the colour wheel. */
  const HueSteps: int := 30

  /** The colour built on a miss: hue index/30, saturation, brightness and alpha 1. */
  function HueColor(index: int32): (c: Color)
    // opaque, so never mistaken for the transparent seed colour
    ensures c.alpha == 1 && c != ZeroAlpha
    // the hue of class `index` is `index / HueSteps` of the colour wheel
    ensures c.HSBA? && c.hueNum == index as int && c.hueDen == HueSteps
  {
    HSBA(index as int, HueSteps, 1, 1, 1)
  }

  /** The two classes the table is seeded with. */
  predicate Seeded(index: int32) {
    index == 0 || index == 20
  }

  /** The one colour class `index` is ever shown with: transparent for the
      seeded classes, the hue colour for every other one. */
  function Canonical(index: int32): (c: Color)
    ensures c.alpha == 0 <==> Seeded(index)
    ensures !Seeded(index) ==> c.HSBA? && c.hueNum == index as int && c.hueDen == HueSteps
  {
    if Seeded(index) then ZeroAlpha else HueColor(index)
  }

  type Table = map<int32, Color>

  /** The table before any lookup. */
  function InitialTable(): (t: Table)
    ensures t.Keys == {0, 20}
    ensures forall k :: k in t ==> t[k] == ZeroAlpha
  {
    map[0 := ZeroAlpha, 20 := ZeroAlpha]
  }

  /** The invariant every table the program can reach keeps: both seeds are
      present, and every entry holds the canonical colour of its class. */
  predicate Coherent(t: Table) {
    && 0 in t && 20 in t
    && forall k :: k in t ==> t[k] == Canonical(k)
  }

  /** The colour a table gives `index`, whether it holds it or would build it. */
  function Resolve(t: Table, index: int32): Color {
    if index in t then t[index] else HueColor(index)
  }

  /** One lookup-or-insert: the colour returned and the table afterwards. */
  function Lookup(t: Table, index: int32): (r: (Color, Table))
    // the looked-up index ends up in the table, holding the returned colour
    ensures index in r.1 && r.1[index] == r.0
    // the table grows by at most the looked-up index, and never loses a key
    ensures r.1.Keys == t.Keys + {index}
    // no entry that was there changes
    ensures forall k :: k in t ==> k in r.1 && r.1[k] == t[k]
    // a hit returns the stored colour and leaves the table as it was
    ensures index in t ==> r.0 == t[index] && r.1 == t
    // a miss returns the hue colour of the index
    ensures index !in t ==> r.0 == HueColor(index) && r.0.alpha == 1
  {
    if index in t then
      (t[index], t)
    else
      var color := HueColor(index);
      (color, t[index := color])
  }

  lemma InitialTableCoherent()
    ensures Coherent(InitialTable())
    ensures InitialTable().Keys == {0, 20}
  {
  }

  /** On a coherent table, a lookup returns the canonical colour and keeps the
      table coherent: colours are determined by the index alone. */
  lemma LookupCoherent(t: Table, index: int32)
    requires Coherent(t)
    ensures Lookup(t, index).0 == Canonical(index)
    ensures Coherent(Lookup(t, index).1)
  {
  }

  /** Looking the same index up twice gives the same colour, and the second
      lookup leaves the table as the first one left it. */
  lemma LookupIdempotent(t: Table, index: int32)
    ensures var (c, t1) := Lookup(t, index); Lookup(t1, index) == (c, t1)
  {
  }

  /** The seeded classes are always transparent, never a hue colour, and
      looking them up never changes the table. */
  lemma SeededAlwaysTransparent(t: Table, index: int32)
    requires Coherent(t) && Seeded(index)
    ensures Lookup(t, index) == (ZeroAlpha, t)
    ensures !Lookup(t, index).0.HSBA?
  {
  }

  /** `t1` extends `t` the way lookups do: it keeps every key of `t`, and every
      entry of `t1` is the colour `t` would have given that class. */
  predicate Extends(t: Table, t1: Table) {
    && t.Keys <= t1.Keys
    && forall k :: k in t1 ==> t1[k] == Resolve(t, k)
  }

  lemma ExtendsRefl(t: Table)
    ensures Extends(t, t)
  {
  }

  /** On a table reached from `t` by lookups, one more lookup returns the colour
      `t` itself gives the index, and the result still extends `t`. */
  lemma LookupExtends(t: Table, t1: Table, index: int32)
    requires Extends(t, t1)
    ensures Lookup(t1, index).0 == Resolve(t, index)
    ensures Extends(t, Lookup(t1, index).1)
  {
  }

  /** For a coherent table, the colour it gives is the canonical one. */
  lemma ResolveCoherent(t: Table, index: int32)
    requires Coherent(t)
    ensures Resolve(t, index) == Canonical(index)
  {
  }

  /** A table reached by lookups from a coherent table is coherent. */
  lemma ExtendsCoherent(t: Table, t1: Table)
    requires Coherent(t) && Extends(t, t1)
    ensures Coherent(t1)
  {
  }
}

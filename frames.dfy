/**
 * The input tables and row selection by a boolean mask.
 *
 * The feature table has one column per feature (metabolite) and one row per
 * sample; the metadata table has one column per attribute over the same rows.
 * `df[col][df[attribute] == target]` selects a column's values on the rows
 * whose attribute equals the target label: a boolean mask, then selection.
 */
module Frames {
  import opened Wrappers

  /** A metadata cell: a category label, or a missing value. */
  datatype AttrValue = NA | Text(s: string) | Number(x: real)

  /** A feature-table cell: an intensity, or a missing value (None). */
  type Intensity = Option<real>

  /** One feature column of the feature table, in sample-row order. */
  datatype Feature = Feature(name: string, values: seq<Intensity>)

  /** Every feature column has one cell per row of the attribute column. */
  predicate Aligned(data: seq<Feature>, attr: seq<AttrValue>)
  {
    forall j :: 0 <= j < |data| ==> |data[j].values| == |attr|
  }

  /** No two feature columns share a name. */
  predicate DistinctFeatures(data: seq<Feature>)
  {
    forall j, k :: 0 <= j < k < |data| ==> data[j].name != data[k].name
  }

  /** Element-wise `cell == target`; a missing cell equals nothing. */
  predicate Matches(v: AttrValue, target: AttrValue)
  {
    v != NA && v == target
  }

  /** The mask `df[attribute] == target`. */
  function EqMask(attr: seq<AttrValue>, target: AttrValue): seq<bool>
  {
    seq(|attr|, i requires 0 <= i < |attr| => Matches(attr[i], target))
  }

  /** The positions a mask selects, in ascending order: exactly the true positions. */
  function Where(mask: seq<bool>): (ix: seq<nat>)
    ensures forall k :: 0 <= k < |ix| ==> ix[k] < |mask| && mask[ix[k]]
    ensures forall k, l :: 0 <= k < l < |ix| ==> ix[k] < ix[l]
    ensures forall i :: 0 <= i < |mask| && mask[i] ==> i in ix
  {
    if mask == [] then []
    else
      var n := |mask| - 1;
      var prefix := Where(mask[..n]);
      if mask[n] then prefix + [n] else prefix
  }

  /** `s[mask]`: the elements of `s` whose mask entry is true, kept in order. */
  function Masked<T>(s: seq<T>, mask: seq<bool>): (r: seq<T>)
    requires |s| == |mask|
    ensures |r| == |Where(mask)|
  {
    if s == [] then []
    else
      var n := |s| - 1;
      var prefix := Masked(s[..n], mask[..n]);
      if mask[n] then prefix + [s[n]] else prefix
  }

  /** Selecting by a mask is gathering at the mask's true positions, in ascending order. */
  lemma {:induction false} MaskedInOrder<T>(s: seq<T>, mask: seq<bool>)
    requires |s| == |mask|
    ensures forall k :: 0 <= k < |Where(mask)| ==> Masked(s, mask)[k] == s[Where(mask)[k]]
  {
    if s != [] {
      var n := |s| - 1;
      MaskedInOrder(s[..n], mask[..n]);
      var ix0 := Where(mask[..n]);
      forall k | 0 <= k < |Where(mask)|
        ensures Masked(s, mask)[k] == s[Where(mask)[k]]
      {
        if k < |ix0| {
          assert Where(mask)[k] == ix0[k];
          assert Masked(s, mask)[k] == Masked(s[..n], mask[..n])[k];
        }
      }
    }
  }

  /** Number of rows labelled `target`: the size of either group, whichever feature column it is cut from. */
  function GroupSize(attr: seq<AttrValue>, target: AttrValue): nat
  {
    |Where(EqMask(attr, target))|
  }

  /** `df[col][df[attribute] == target]` for one feature column. */
  function SelectGroup(values: seq<Intensity>, attr: seq<AttrValue>, target: AttrValue): (g: seq<Intensity>)
    requires |values| == |attr|
    ensures |g| == GroupSize(attr, target)
  {
    Masked(values, EqMask(attr, target))
  }

  /**
   * A group is exactly the column's values on the rows labelled `target`, in
   * row order: its k-th value is read from the k-th such row.
   */
  lemma SelectGroupRows(values: seq<Intensity>, attr: seq<AttrValue>, target: AttrValue)
    requires |values| == |attr|
    ensures var g, rows := SelectGroup(values, attr, target), Where(EqMask(attr, target));
      && |g| == |rows|
      && (forall k :: 0 <= k < |rows| ==> rows[k] < |attr| && Matches(attr[rows[k]], target) && g[k] == values[rows[k]])
      && (forall k, l :: 0 <= k < l < |rows| ==> rows[k] < rows[l])
      && (forall i :: 0 <= i < |attr| && Matches(attr[i], target) ==> i in rows)
  {
    MaskedInOrder(values, EqMask(attr, target));
  }
}

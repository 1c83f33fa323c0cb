/**
 * The painter's decorations and the order in which `applyTextPresentation` and
 * `handleDrawRequest` visit them. Both run one pass over the decoration list per
 * layer, for layer = 0, 1, ... while layer < maxLayer, and every pass raises
 * maxLayer to the largest `layer + 1` it meets. This module defines that order
 * as a function of the list and proves what it is: each decoration with a
 * non-negative layer exactly once, in non-decreasing layer order.
 */
module Layers {
  import opened JavaTypes
  import opened Positions

  /** An SWT colour, by its red/green/blue components. */
  datatype Color = RGB(red: int, green: int, blue: int)

  /** The presentation of one annotation: where, in which colour, on which layer. */
  datatype Decoration = Decoration(position: Position, color: Color, layer: int)

  /** The decorations of `ds` on `layer`, in list order: one pass of the loop. */
  function OnLayer(ds: seq<Decoration>, layer: int): seq<Decoration> {
    if ds == [] then []
    else
      var last := ds[|ds| - 1];
      OnLayer(ds[..|ds| - 1], layer) + (if last.layer == layer then [last] else [])
  }

  /** A pass acts only on decorations of its own layer. */
  lemma {:induction false} OnLayerOnly(ds: seq<Decoration>, layer: int)
    ensures forall k :: 0 <= k < |OnLayer(ds, layer)| ==> OnLayer(ds, layer)[k].layer == layer
  {
    if ds != [] {
      OnLayerOnly(ds[..|ds| - 1], layer);
    }
  }

  /** The value of `maxLayer` after a pass over `ds` that started with `start`. */
  function LayerBound(start: int, ds: seq<Decoration>): int {
    if ds == [] then start
    else Max(LayerBound(start, ds[..|ds| - 1]), ds[|ds| - 1].layer + 1)
  }

  /** After the first pass, `maxLayer` lies above every layer of the list. */
  lemma {:induction false} LayerBoundAbove(start: int, ds: seq<Decoration>)
    ensures start <= LayerBound(start, ds)
    ensures forall k :: 0 <= k < |ds| ==> ds[k].layer < LayerBound(start, ds)
  {
    if ds != [] {
      var prefix := ds[..|ds| - 1];
      LayerBoundAbove(start, prefix);
      assert forall k :: 0 <= k < |prefix| ==> ds[k] == prefix[k];
    }
  }

  /**
   * ... and it is the start value or one more than some layer of the list: the
   * loop stops after the largest layer, which bounds the number of passes.
   */
  lemma {:induction false} LayerBoundAttained(start: int, ds: seq<Decoration>)
    ensures LayerBound(start, ds) == start ||
            exists k :: 0 <= k < |ds| && LayerBound(start, ds) == ds[k].layer + 1
  {
    if ds != [] {
      var prefix := ds[..|ds| - 1];
      LayerBoundAttained(start, prefix);
      if LayerBound(start, ds) != LayerBound(start, prefix) {
        assert LayerBound(start, ds) == ds[|ds| - 1].layer + 1;
      } else if LayerBound(start, prefix) != start {
        var k :| 0 <= k < |prefix| && LayerBound(start, prefix) == prefix[k].layer + 1;
        assert ds[k] == prefix[k];
      }
    }
  }

  /** The passes for the layers lo ..< hi, one after the other. */
  function Passes(ds: seq<Decoration>, lo: int, hi: int): seq<Decoration>
    decreases hi - lo
  {
    if hi <= lo then [] else Passes(ds, lo, hi - 1) + OnLayer(ds, hi - 1)
  }

  /** The passes for lo ..< hi act only on decorations with a layer in that range. */
  lemma {:induction false} PassesLayers(ds: seq<Decoration>, lo: int, hi: int)
    ensures forall k :: 0 <= k < |Passes(ds, lo, hi)| ==> lo <= Passes(ds, lo, hi)[k].layer < hi
    decreases hi - lo
  {
    if lo < hi {
      PassesLayers(ds, lo, hi - 1);
      OnLayerOnly(ds, hi - 1);
      var a, b := Passes(ds, lo, hi - 1), OnLayer(ds, hi - 1);
      var r: seq<Decoration> := a + b;
      assert Passes(ds, lo, hi) == r;
      forall k | 0 <= k < |r| ensures lo <= r[k].layer < hi {
        if k < |a| {
          assert r[k] == a[k];
        } else {
          assert r[k] == b[k - |a|];
        }
      }
    }
  }

  /** The order in which the layer loop acts on the decorations `ds`. */
  function LayerOrder(ds: seq<Decoration>): seq<Decoration> {
    Passes(ds, 0, LayerBound(1, ds))
  }

  /** The decorations with lo <= layer < hi, and those with a non-negative layer. */
  function InLayers(ds: seq<Decoration>, lo: int, hi: int): seq<Decoration> {
    if ds == [] then []
    else
      var last := ds[|ds| - 1];
      InLayers(ds[..|ds| - 1], lo, hi) + (if lo <= last.layer < hi then [last] else [])
  }

  function NonNegative(ds: seq<Decoration>): seq<Decoration> {
    if ds == [] then []
    else
      var last := ds[|ds| - 1];
      NonNegative(ds[..|ds| - 1]) + (if 0 <= last.layer then [last] else [])
  }

  /** What the loop produces when it acts on `ds` in order with `f`. */
  function FlatMap<T>(ds: seq<Decoration>, f: Decoration -> seq<T>): seq<T> {
    if ds == [] then [] else FlatMap(ds[..|ds| - 1], f) + f(ds[|ds| - 1])
  }

  lemma {:induction false} FlatMapConcat<T>(a: seq<Decoration>, b: seq<Decoration>, f: Decoration -> seq<T>)
    ensures FlatMap(a + b, f) == FlatMap(a, f) + FlatMap(b, f)
    decreases |b|
  {
    if b == [] {
      assert a + b == a;
    } else {
      var b' := b[..|b| - 1];
      assert (a + b)[..|a + b| - 1] == a + b';
      FlatMapConcat(a, b', f);
    }
  }

  /** One step of the inner loop: the pass over ds[..j+1] extends the one over ds[..j]. */
  lemma PassStep(ds: seq<Decoration>, j: int, layer: int)
    requires 0 <= j < |ds|
    ensures OnLayer(ds[..j + 1], layer) ==
              OnLayer(ds[..j], layer) + (if ds[j].layer == layer then [ds[j]] else [])
    ensures LayerBound(1, ds[..j + 1]) == Max(LayerBound(1, ds[..j]), ds[j].layer + 1)
  {
    assert ds[..j + 1][..j] == ds[..j];
  }

  /**
   * One step of the inner loop for `maxLayer`: during the first pass it is the
   * bound of the decorations seen so far, afterwards the bound of all of them,
   * which no decoration raises.
   */
  lemma MaxLayerStep(ds: seq<Decoration>, j: int, layer: int, maxLayer: int)
    requires 0 <= j < |ds|
    requires maxLayer == if layer == 0 then LayerBound(1, ds[..j]) else LayerBound(1, ds)
    ensures Max(maxLayer, ds[j].layer + 1) == if layer == 0 then LayerBound(1, ds[..j + 1]) else LayerBound(1, ds)
  {
    if layer == 0 {
      assert ds[..j + 1][..j] == ds[..j];
    } else {
      LayerBoundAbove(1, ds);
    }
  }

  /** One step of the inner loop, for what the loop produces with `f`. */
  lemma FlatMapPassStep<T>(ds: seq<Decoration>, j: int, layer: int, f: Decoration -> seq<T>)
    requires 0 <= j < |ds|
    ensures FlatMap(OnLayer(ds[..j + 1], layer), f) ==
              FlatMap(OnLayer(ds[..j], layer), f) + (if ds[j].layer == layer then f(ds[j]) else [])
    ensures LayerBound(1, ds[..j + 1]) == Max(LayerBound(1, ds[..j]), ds[j].layer + 1)
  {
    PassStep(ds, j, layer);
    var a := OnLayer(ds[..j], layer);
    if ds[j].layer == layer {
      FlatMapConcat(a, [ds[j]], f);
      assert [ds[j]][..0] == [];
    } else {
      assert a + [] == a;
    }
  }

  /** A finished pass over the whole list extends the passes before it. */
  lemma FlatMapPassesStep<T>(ds: seq<Decoration>, layer: int, f: Decoration -> seq<T>)
    requires 0 <= layer
    ensures FlatMap(Passes(ds, 0, layer + 1), f) == FlatMap(Passes(ds, 0, layer), f) + FlatMap(OnLayer(ds, layer), f)
  {
    FlatMapConcat(Passes(ds, 0, layer), OnLayer(ds, layer), f);
  }

  /** What the loop produces is what `f` gives for the decorations it visits. */
  lemma {:induction false} FlatMapMembers<T>(ds: seq<Decoration>, f: Decoration -> seq<T>, x: T)
    ensures x in FlatMap(ds, f) <==> exists d :: d in ds && x in f(d)
  {
    if ds != [] {
      var prefix := ds[..|ds| - 1];
      FlatMapMembers(prefix, f, x);
      if x in FlatMap(ds, f) && x !in FlatMap(prefix, f) {
        assert ds[|ds| - 1] in ds;
      }
      if d :| d in ds && x in f(d) {
        if d != ds[|ds| - 1] {
          assert d in prefix by {
            var k :| 0 <= k < |ds| && ds[k] == d;
            assert prefix[k] == d;
          }
        }
      }
    }
  }

  /** The decorations with a non-negative layer are exactly those of `ds` with such a layer. */
  lemma {:induction false} NonNegativeMembers(ds: seq<Decoration>, d: Decoration)
    ensures d in NonNegative(ds) <==> d in ds && 0 <= d.layer
  {
    if ds != [] {
      var prefix := ds[..|ds| - 1];
      NonNegativeMembers(prefix, d);
      assert ds == prefix + [ds[|ds| - 1]];
    }
  }

  /**
   * The layer loop visits exactly the decorations with a non-negative layer:
   * what it produces with `f` is what `f` gives for them.
   */
  lemma LayerOrderMembers<T>(ds: seq<Decoration>, f: Decoration -> seq<T>, x: T)
    ensures x in FlatMap(LayerOrder(ds), f) <==> exists d :: d in ds && 0 <= d.layer && x in f(d)
  {
    FlatMapMembers(LayerOrder(ds), f, x);
    LayerOrderIsPermutation(ds);
    forall d ensures d in LayerOrder(ds) <==> d in ds && 0 <= d.layer {
      NonNegativeMembers(ds, d);
      assert d in LayerOrder(ds) <==> d in multiset(LayerOrder(ds));
      assert d in NonNegative(ds) <==> d in multiset(NonNegative(ds));
    }
  }

  /** The empty layer range selects nothing. */
  lemma {:induction false} InLayersEmpty(ds: seq<Decoration>, lo: int)
    ensures InLayers(ds, lo, lo) == []
  {
    if ds != [] {
      InLayersEmpty(ds[..|ds| - 1], lo);
    }
  }

  /** Selecting the layers lo ..< l+1 is selecting lo ..< l and then layer l, as multisets. */
  lemma {:induction false} InLayersSplit(ds: seq<Decoration>, lo: int, l: int)
    requires lo <= l
    ensures multiset(InLayers(ds, lo, l + 1)) == multiset(InLayers(ds, lo, l)) + multiset(OnLayer(ds, l))
  {
    if ds != [] {
      InLayersSplit(ds[..|ds| - 1], lo, l);
    }
  }

  /** The passes for lo ..< hi visit exactly the decorations with lo <= layer < hi. */
  lemma {:induction false} PassesSelect(ds: seq<Decoration>, lo: int, hi: int)
    requires lo <= hi
    ensures multiset(Passes(ds, lo, hi)) == multiset(InLayers(ds, lo, hi))
    decreases hi - lo
  {
    if hi == lo {
      InLayersEmpty(ds, lo);
    } else {
      PassesSelect(ds, lo, hi - 1);
      InLayersSplit(ds, lo, hi - 1);
    }
  }

  /** When no layer reaches hi, the layers 0 ..< hi are all the non-negative ones. */
  lemma {:induction false} InLayersAll(ds: seq<Decoration>, hi: int)
    requires forall k :: 0 <= k < |ds| ==> ds[k].layer < hi
    ensures InLayers(ds, 0, hi) == NonNegative(ds)
  {
    if ds != [] {
      InLayersAll(ds[..|ds| - 1], hi);
    }
  }

  /**
   * The layer loop acts on every decoration with a non-negative layer exactly
   * once (as many times as it occurs in the list) and never on one with a
   * negative layer.
   */
  lemma LayerOrderIsPermutation(ds: seq<Decoration>)
    ensures multiset(LayerOrder(ds)) == multiset(NonNegative(ds))
  {
    var bound := LayerBound(1, ds);
    LayerBoundAbove(1, ds);
    PassesSelect(ds, 0, bound);
    InLayersAll(ds, bound);
  }

  /** Layers never decrease along `r`. */
  predicate SortedByLayer(r: seq<Decoration>) {
    forall j, k :: 0 <= j < k < |r| ==> r[j].layer <= r[k].layer
  }

  /** The passes for lo ..< hi come in non-decreasing layer order. */
  lemma {:induction false} PassesSorted(ds: seq<Decoration>, lo: int, hi: int)
    ensures SortedByLayer(Passes(ds, lo, hi))
    decreases hi - lo
  {
    if lo < hi {
      PassesSorted(ds, lo, hi - 1);
      PassesLayers(ds, lo, hi - 1);
      OnLayerOnly(ds, hi - 1);
      var a, b := Passes(ds, lo, hi - 1), OnLayer(ds, hi - 1);
      assert SortedByLayer(a);
      var r := a + b;
      assert r == Passes(ds, lo, hi);
      forall j, k | 0 <= j < k < |r| ensures r[j].layer <= r[k].layer {
        if k < |a| {
          assert r[j] == a[j] && r[k] == a[k];
          assert a[j].layer <= a[k].layer;
        } else if j < |a| {
          assert r[j] == a[j] && r[k] == b[k - |a|];
          assert a[j].layer < hi - 1 == b[k - |a|].layer;
        } else {
          assert r[j] == b[j - |a|] && r[k] == b[k - |a|];
          assert b[j - |a|].layer == hi - 1 == b[k - |a|].layer;
        }
      }
    }
  }

  /** The layer loop visits the decorations in non-decreasing layer order. */
  lemma LayerOrderSorted(ds: seq<Decoration>)
    ensures SortedByLayer(LayerOrder(ds))
  {
    assert LayerOrder(ds) == Passes(ds, 0, LayerBound(1, ds));
    PassesSorted(ds, 0, LayerBound(1, ds));
  }
}

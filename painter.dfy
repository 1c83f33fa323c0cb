/**
 * The annotation painter's state and the operations that change or read it:
 * the configured and allowed annotation types (the allowed sets cache which
 * types the configured ones cover), the colour table, and the decoration lists
 * and highlight range that `catchupWithModel` rebuilds from the annotation
 * model. The paint and presentation callbacks walk the decorations layer by
 * layer and return what they would draw or merge.
 */
module Painter {
  import opened JavaTypes
  import opened Positions
  import opened Layers
  import opened Clipping
  import opened AnnotationTypes

  /** A StyleRange merged into the text presentation: no foreground, the given background. */
  datatype StyleRange = StyleRange(start: int, length: int, background: Color)

  /**
   * What `applyTextPresentation` merges for one highlight: nothing unless the
   * viewer shows part of its position (`isVisible` is the viewer's
   * overlapsWithVisibleRegion) and the position touches the presentation's
   * extent, its end offset included.
   */
  function HighlightStyle(extent: Region, isVisible: (int, int) -> bool, d: Decoration): (r: seq<StyleRange>)
    ensures r == [] || r == [StyleRange(d.position.offset, d.position.length, d.color)]
    ensures r != [] <==>
              isVisible(d.position.offset, d.position.length) &&
              d.position.End() >= extent.offset && extent.End() > d.position.offset
  {
    var p := d.position;
    if !isVisible(p.offset, p.length) then []
    else if p.offset + p.length >= extent.offset && extent.offset + extent.length > p.offset then
      [StyleRange(p.offset, p.length, d.color)]
    else []
  }

  /**
   * Every merged style is the range and colour of a highlight with a
   * non-negative layer that is visible and touches the extent, and every such
   * highlight is merged.
   */
  lemma HighlightStylesExact(ds: seq<Decoration>, extent: Region, isVisible: (int, int) -> bool, s: StyleRange)
    ensures s in FlatMap(LayerOrder(ds), d => HighlightStyle(extent, isVisible, d)) <==>
              exists d :: d in ds && 0 <= d.layer && isVisible(d.position.offset, d.position.length) &&
                          d.position.End() >= extent.offset && extent.End() > d.position.offset &&
                          s == StyleRange(d.position.offset, d.position.length, d.color)
  {
    LayerOrderMembers(ds, d => HighlightStyle(extent, isVisible, d), s);
  }

  /** A squiggle drawn for a decoration is in its colour and lies in the visible region. */
  lemma DecorationDrawsInVisible(d: Decoration, vOffset: int, vLength: int, lines: seq<Region>,
                                 lineOf: int -> Option<nat>, visible: Region, r: DrawRequest)
    requires visible.length >= 0
    requires r in DecorationDraws(d, vOffset, vLength, lines, lineOf, visible)
    ensures r.color == d.color && 0 <= r.range.offset && r.range.End() <= visible.length
  {
    var p := d.position;
    var startLine := lineOf(p.offset).value;
    var endLine := lineOf(Max(p.offset, p.End() - 1)).value;
    LineDrawsInVisible(p, lines, startLine, Min(endLine + 1, |lines|), visible, d.color);
  }

  /**
   * Every squiggle drawn belongs to a decoration with a non-negative layer, in
   * its colour, and lies in the visible region; and the squiggles of every
   * such decoration are drawn.
   */
  lemma SquiggleDrawsExact(ds: seq<Decoration>, vOffset: int, vLength: int, lines: seq<Region>,
                           lineOf: int -> Option<nat>, visible: Region, r: DrawRequest)
    requires visible.length >= 0
    ensures var f := d => DecorationDraws(d, vOffset, vLength, lines, lineOf, visible);
      && (r in FlatMap(LayerOrder(ds), f) <==> exists d :: d in ds && 0 <= d.layer && r in f(d))
      && (r in FlatMap(LayerOrder(ds), f) ==>
            exists d :: d in ds && 0 <= d.layer && r.color == d.color &&
                        0 <= r.range.offset && r.range.End() <= visible.length)
  {
    var f := d => DecorationDraws(d, vOffset, vLength, lines, lineOf, visible);
    LayerOrderMembers(ds, f, r);
    if r in FlatMap(LayerOrder(ds), f) {
      var d :| d in ds && 0 <= d.layer && r in f(d);
      DecorationDrawsInVisible(d, vOffset, vLength, lines, lineOf, visible, r);
    }
  }

  class AnnotationPainter {
    const access: Access
    /** fDecorations and fHighlightedDecorations */
    var decorations: seq<Decoration>
    var highlightedDecorations: seq<Decoration>
    /** fColorTable */
    var colorTable: map<AnnotationType, Color>
    /** fConfiguredAnnotationTypes and its cache fAllowedAnnotationTypes */
    var configuredTypes: set<AnnotationType>
    var allowedTypes: set<AnnotationType>
    /** fConfiguredHighlightAnnotationTypes and its cache fAllowedHighlightAnnotationTypes */
    var configuredHighlightTypes: set<AnnotationType>
    var allowedHighlightTypes: set<AnnotationType>
    /** fHighlightAnnotationRange */
    var highlightRange: Position

    /** Both caches hold only types that their configured sets cover. */
    ghost predicate Valid()
      reads this
    {
      && CacheSound(access, allowedTypes, configuredTypes)
      && CacheSound(access, allowedHighlightTypes, configuredHighlightTypes)
    }

    /** A painter with nothing configured, no colours and no decorations. */
    constructor(access: Access)
      ensures Valid()
      ensures this.access == access
      ensures decorations == [] && highlightedDecorations == [] && colorTable == map[]
      ensures configuredTypes == {} && allowedTypes == {}
      ensures configuredHighlightTypes == {} && allowedHighlightTypes == {}
      ensures highlightRange == Position(INT_MAX, 0, false)
    {
      this.access := access;
      decorations := [];
      highlightedDecorations := [];
      colorTable := map[];
      configuredTypes := {};
      allowedTypes := {};
      configuredHighlightTypes := {};
      allowedHighlightTypes := {};
      highlightRange := Position(INT_MAX, 0, false);
    }

    /** `isCovered`: a search of `configured` for a supertype of `t`, or a plain membership test. */
    method IsCovered(t: AnnotationType, configured: set<AnnotationType>) returns (covered: bool)
      ensures covered == Covered(access, configured, t)
    {
      if access.isExtension {
        var rest := configured;
        while rest != {}
          invariant rest <= configured
          invariant forall c :: c in configured && c !in rest ==> !access.isSubtype(t, c)
          decreases |rest|
        {
          var c :| c in rest;
          if access.isSubtype(t, c) {
            return true;
          }
          rest := rest - {c};
        }
        return false;
      }
      return t in configured;
    }

    /**
     * `contains`: a type already allowed is contained; otherwise it is when
     * `configured` covers it, and then it joins the allowed set. A sound cache
     * stays sound, and then the answer is exactly whether `t` is covered.
     */
    method Contains(t: AnnotationType, allowed: set<AnnotationType>, configured: set<AnnotationType>)
      returns (covered: bool, allowedAfter: set<AnnotationType>)
      ensures covered <==> t in allowed || Covered(access, configured, t)
      ensures allowedAfter == if covered then allowed + {t} else allowed
      ensures CacheSound(access, allowed, configured) ==>
                CacheSound(access, allowedAfter, configured) && covered == Covered(access, configured, t)
    {
      if t in allowed {
        return true, allowed;
      }
      covered := IsCovered(t, configured);
      allowedAfter := allowed;
      if covered {
        allowedAfter := allowedAfter + {t};
      }
    }

    /** `shouldBeDrawn`: whether the configured types cover `t`, remembering a yes. */
    method ShouldBeDrawn(t: AnnotationType) returns (r: bool)
      requires Valid()
      modifies this`allowedTypes
      ensures Valid()
      ensures r == Covered(access, configuredTypes, t)
      ensures allowedTypes == if r then old(allowedTypes) + {t} else old(allowedTypes)
    {
      r, allowedTypes := Contains(t, allowedTypes, configuredTypes);
    }

    /** `shouldBeHighlighted`: the same for the highlight types. */
    method ShouldBeHighlighted(t: AnnotationType) returns (r: bool)
      requires Valid()
      modifies this`allowedHighlightTypes
      ensures Valid()
      ensures r == Covered(access, configuredHighlightTypes, t)
      ensures allowedHighlightTypes == if r then old(allowedHighlightTypes) + {t} else old(allowedHighlightTypes)
    {
      r, allowedHighlightTypes := Contains(t, allowedHighlightTypes, configuredHighlightTypes);
    }

    /** `findColor`: the type's own entry, else the supertypes from the last one down. */
    method FindColor(t: AnnotationType) returns (color: Option<Color>)
      ensures color == LookupColor(access, colorTable, t)
    {
      if t in colorTable {
        return Some(colorTable[t]);
      }
      if access.isExtension {
        var superTypes := access.supertypes(t);
        if superTypes.Some? {
          var supers := superTypes.value;
          var i := |supers| - 1;
          assert supers[..i + 1] == supers;
          while i > -1
            invariant -1 <= i < |supers|
            invariant SupertypeColor(colorTable, supers) == SupertypeColor(colorTable, supers[..i + 1])
          {
            assert supers[..i + 1][..i] == supers[..i];
            if supers[i] in colorTable {
              return Some(colorTable[supers[i]]);
            }
            i := i - 1;
          }
        }
      }
      return None;
    }

    /** `setAnnotationTypeColor`: a colour is stored for `t`, null removes its entry. */
    method SetAnnotationTypeColor(t: AnnotationType, color: Option<Color>)
      modifies this`colorTable
      ensures color.Some? ==> colorTable == old(colorTable)[t := color.value]
      ensures color.None? ==> colorTable == old(colorTable) - {t}
    {
      if color.Some? {
        colorTable := colorTable[t := color.value];
      } else {
        colorTable := colorTable - {t};
      }
    }

    /** `addAnnotationType`: the cache stays sound, since more types are covered. */
    method AddAnnotationType(t: AnnotationType)
      requires Valid()
      modifies this`configuredTypes
      ensures Valid()
      ensures configuredTypes == old(configuredTypes) + {t}
    {
      CoveredMonotonic(access, configuredTypes, configuredTypes + {t}, allowedTypes);
      configuredTypes := configuredTypes + {t};
    }

    /** `addHighlightAnnotationType`, without its text input listener. */
    method AddHighlightAnnotationType(t: AnnotationType)
      requires Valid()
      modifies this`configuredHighlightTypes
      ensures Valid()
      ensures configuredHighlightTypes == old(configuredHighlightTypes) + {t}
    {
      CoveredMonotonic(access, configuredHighlightTypes, configuredHighlightTypes + {t}, allowedHighlightTypes);
      configuredHighlightTypes := configuredHighlightTypes + {t};
    }

    /** `removeAnnotationType`: a type may cover less now, so the cache is dropped. */
    method RemoveAnnotationType(t: AnnotationType)
      requires Valid()
      modifies this`configuredTypes, this`allowedTypes
      ensures Valid()
      ensures configuredTypes == old(configuredTypes) - {t} && allowedTypes == {}
    {
      configuredTypes := configuredTypes - {t};
      allowedTypes := {};
    }

    /** `removeHighlightAnnotationType`, without its text input listener. */
    method RemoveHighlightAnnotationType(t: AnnotationType)
      requires Valid()
      modifies this`configuredHighlightTypes, this`allowedHighlightTypes
      ensures Valid()
      ensures configuredHighlightTypes == old(configuredHighlightTypes) - {t} && allowedHighlightTypes == {}
    {
      configuredHighlightTypes := configuredHighlightTypes - {t};
      allowedHighlightTypes := {};
    }

    /** `removeAllAnnotationTypes`: all four sets become empty. */
    method RemoveAllAnnotationTypes()
      modifies this`configuredTypes, this`allowedTypes, this`configuredHighlightTypes, this`allowedHighlightTypes
      ensures Valid()
      ensures configuredTypes == {} && allowedTypes == {}
      ensures configuredHighlightTypes == {} && allowedHighlightTypes == {}
      ensures forall t :: !Covered(access, configuredTypes, t) && !Covered(access, configuredHighlightTypes, t)
    {
      configuredTypes := {};
      allowedTypes := {};
      configuredHighlightTypes := {};
      allowedHighlightTypes := {};
    }

    /**
     * `isPaintingAnnotations`: some type is configured to be painted or
     * highlighted. When none is, no annotation is drawn or highlighted.
     */
    predicate IsPaintingAnnotations()
      reads this
      ensures !IsPaintingAnnotations() ==>
                forall t :: !Covered(access, configuredTypes, t) && !Covered(access, configuredHighlightTypes, t)
    {
      configuredTypes != {} || configuredHighlightTypes != {}
    }

    /**
     * One pass of the loop of `catchupWithModel`: the decoration of
     * `annotation`, when it has one, is appended to the squiggles if its type
     * is painted and to the highlights if its type is highlighted; in that last
     * case it is returned, so that the loop can widen its highlight range.
     */
    method CatchupAnnotation(annotation: Annotation) returns (highlight: Option<Decoration>)
      requires Valid()
      modifies this`decorations, this`highlightedDecorations, this`allowedTypes, this`allowedHighlightTypes
      ensures Valid()
      ensures old(allowedTypes) <= allowedTypes && old(allowedHighlightTypes) <= allowedHighlightTypes
      ensures var d := DecorationFor(access, colorTable, configuredTypes, configuredHighlightTypes, annotation);
        && decorations == old(decorations) +
             (if d.Some? && Covered(access, configuredTypes, annotation.annotationType) then [d.value] else [])
        && highlight == (if d.Some? && Covered(access, configuredHighlightTypes, annotation.annotationType) then d
                        else None)
        && highlightedDecorations == old(highlightedDecorations) + (if highlight.Some? then [highlight.value] else [])
    {
      highlight := None;
      if !annotation.markedDeleted {
        var color: Option<Color> := None;
        var annotationType := annotation.annotationType;
        var isHighlighting := ShouldBeHighlighted(annotationType);
        var isDrawingSquiggles := ShouldBeDrawn(annotationType);
        if isDrawingSquiggles || isHighlighting {
          color := FindColor(annotationType);
        }
        if color.Some? {
          var position := annotation.position;
          if position.Some? && !position.value.isDeleted {
            var layer := if access.isExtension then annotation.layer else DEFAULT_LAYER;
            var pp := Decoration(position.value, color.value, layer);
            if isDrawingSquiggles {
              decorations := decorations + [pp];
            }
            if isHighlighting {
              highlightedDecorations := highlightedDecorations + [pp];
              highlight := Some(pp);
            }
          }
        }
      }
    }

    /**
     * `catchupWithModel`: both decoration lists are rebuilt from the model's
     * annotations (emptied when there is no model), and when a highlight was
     * found the highlight range is widened to all highlights and clamped to the
     * document. Deciding the types fills the caches, which stay sound.
     */
    method CatchupWithModel(model: Option<seq<Annotation>>, documentLength: nat)
      requires Valid()
      modifies this`decorations, this`highlightedDecorations, this`allowedTypes, this`allowedHighlightTypes,
               this`highlightRange
      ensures Valid()
      ensures old(allowedTypes) <= allowedTypes && old(allowedHighlightTypes) <= allowedHighlightTypes
      ensures var annotations := if model.Some? then model.value else [];
        && decorations ==
             Selected(access, colorTable, configuredTypes, configuredHighlightTypes, annotations, configuredTypes)
        && highlightedDecorations ==
             Selected(access, colorTable, configuredTypes, configuredHighlightTypes, annotations, configuredHighlightTypes)
      ensures highlightRange ==
                if HighlightStart(highlightedDecorations) == INT_MAX then old(highlightRange)
                else WidenedRange(old(highlightRange), HighlightStart(highlightedDecorations),
                                  HighlightEnd(highlightedDecorations), documentLength)
    {
      decorations := [];
      highlightedDecorations := [];
      var highlightAnnotationRangeStart := INT_MAX;
      var highlightAnnotationRangeEnd := -1;
      if model.Some? {
        var annotations := model.value;
        var i := 0;
        while i < |annotations|
          invariant 0 <= i <= |annotations|
          invariant Valid()
          invariant old(allowedTypes) <= allowedTypes && old(allowedHighlightTypes) <= allowedHighlightTypes
          invariant decorations ==
                      Selected(access, colorTable, configuredTypes, configuredHighlightTypes, annotations[..i], configuredTypes)
          invariant highlightedDecorations ==
                      Selected(access, colorTable, configuredTypes, configuredHighlightTypes, annotations[..i],
                               configuredHighlightTypes)
          invariant highlightAnnotationRangeStart == HighlightStart(highlightedDecorations)
          invariant highlightAnnotationRangeEnd == HighlightEnd(highlightedDecorations)
          invariant highlightRange == old(highlightRange)
        {
          var annotation := annotations[i];
          ghost var hs := highlightedDecorations;
          SelectedStep(access, colorTable, configuredTypes, configuredHighlightTypes, annotations, i, configuredTypes);
          SelectedStep(access, colorTable, configuredTypes, configuredHighlightTypes, annotations, i,
                       configuredHighlightTypes);
          var highlight := CatchupAnnotation(annotation);
          if highlight.Some? {
            HighlightStep(hs, highlight.value);
            var position := highlight.value.position;
            highlightAnnotationRangeStart := Min(highlightAnnotationRangeStart, position.offset);
            highlightAnnotationRangeEnd := Max(highlightAnnotationRangeEnd, position.offset + position.length);
          } else {
            assert highlightedDecorations == hs;
          }
          i := i + 1;
        }
        assert annotations[..i] == annotations;
        if highlightAnnotationRangeStart != INT_MAX {
          var end := Max(highlightRange.offset + highlightRange.length, highlightAnnotationRangeEnd);
          end := Min(end, documentLength);
          var offset := Min(highlightRange.offset, highlightAnnotationRangeStart);
          offset := Min(offset, documentLength);
          highlightRange := Position(offset, end - offset, highlightRange.isDeleted);
        }
      }
    }

    /**
     * `applyTextPresentation`: the styles merged into the presentation, for the
     * highlights in layer order.
     */
    method ApplyTextPresentation(extent: Region, isVisible: (int, int) -> bool) returns (styles: seq<StyleRange>)
      ensures styles == FlatMap(LayerOrder(highlightedDecorations), d => HighlightStyle(extent, isVisible, d))
    {
      var ds := highlightedDecorations;
      ghost var f := d => HighlightStyle(extent, isVisible, d);
      assert 1 <= LayerBound(1, ds) by {
        LayerBoundAbove(1, ds);
      }
      styles := [];
      var layer := 0;
      var maxLayer := 1;
      while layer < maxLayer
        invariant 0 <= layer
        invariant layer == 0 ==> maxLayer == 1
        invariant layer > 0 ==> maxLayer == LayerBound(1, ds) && layer <= maxLayer
        invariant styles == FlatMap(Passes(ds, 0, layer), f)
        decreases LayerBound(1, ds) - layer
      {
        var passStyles;
        passStyles, maxLayer := HighlightPass(ds, layer, maxLayer, extent, isVisible);
        FlatMapPassesStep(ds, layer, f);
        styles := styles + passStyles;
        layer := layer + 1;
      }
    }

    /**
     * `handleDrawRequest`: the squiggles drawn for the decorations in layer order,
     * over the painted range that starts at `vOffset` and whose length is the
     * bottom line's end offset plus one.
     */
    method HandleDrawRequest(vOffset: int, bottomIndexEndOffset: int32, lines: seq<Region>,
                             lineOf: int -> Option<nat>, visible: Region)
      returns (draws: seq<DrawRequest>)
      ensures draws == FlatMap(LayerOrder(decorations),
                               d => DecorationDraws(d, vOffset, Wrap32(bottomIndexEndOffset + 1), lines, lineOf, visible))
    {
      var vLength := Wrap32(bottomIndexEndOffset + 1);
      draws := DrawLayers(decorations, vOffset, vLength, lines, lineOf, visible);
    }
  }

  /**
   * The inner loop of `applyTextPresentation`: the styles of the highlights on
   * `layer`, in list order, while `maxLayer` grows past every layer seen.
   */
  method HighlightPass(ds: seq<Decoration>, layer: int, maxLayer: int, extent: Region, isVisible: (int, int) -> bool)
    returns (styles: seq<StyleRange>, newMaxLayer: int)
    requires maxLayer == if layer == 0 then 1 else LayerBound(1, ds)
    ensures styles == FlatMap(OnLayer(ds, layer), d => HighlightStyle(extent, isVisible, d))
    ensures newMaxLayer == LayerBound(1, ds)
  {
    ghost var f := d => HighlightStyle(extent, isVisible, d);
    styles := [];
    newMaxLayer := maxLayer;
    assert ds[..0] == [];
    for j := 0 to |ds|
      invariant newMaxLayer == if layer == 0 then LayerBound(1, ds[..j]) else LayerBound(1, ds)
      invariant styles == FlatMap(OnLayer(ds[..j], layer), f)
    {
      var pp := ds[j];
      MaxLayerStep(ds, j, layer, newMaxLayer);
      FlatMapPassStep(ds, j, layer, f);
      // every decoration seen raises the bound past its own layer
      newMaxLayer := Max(newMaxLayer, pp.layer + 1);
      if pp.layer == layer {
        var p := pp.position;
        if isVisible(p.offset, p.length) {
          if p.offset + p.length >= extent.offset && extent.offset + extent.length > p.offset {
            styles := styles + [StyleRange(p.offset, p.length, pp.color)];
          }
        }
      }
    }
    assert ds[..|ds|] == ds;
  }

  /**
   * The outer loop of `handleDrawRequest` over the decorations `ds`: pass
   * after pass, the squiggles of the decorations on that pass's layer. `f`
   * names the squiggles of each of them.
   */
  method DrawLayers(ds: seq<Decoration>, vOffset: int, vLength: int, lines: seq<Region>,
                    lineOf: int -> Option<nat>, visible: Region)
    returns (draws: seq<DrawRequest>)
    ensures draws == FlatMap(LayerOrder(ds), d => DecorationDraws(d, vOffset, vLength, lines, lineOf, visible))
  {
    ghost var f := d => DecorationDraws(d, vOffset, vLength, lines, lineOf, visible);
    assert 1 <= LayerBound(1, ds) by {
      LayerBoundAbove(1, ds);
    }
    draws := [];
    var layer := 0;
    var maxLayer := 1;
    while layer < maxLayer
      invariant 0 <= layer
      invariant layer == 0 ==> maxLayer == 1
      invariant layer > 0 ==> maxLayer == LayerBound(1, ds) && layer <= maxLayer
      invariant draws == FlatMap(Passes(ds, 0, layer), f)
      decreases LayerBound(1, ds) - layer
    {
      var pieces;
      pieces, maxLayer := DrawPass(ds, layer, maxLayer, vOffset, vLength, lines, lineOf, visible);
      FlatMapPassesStep(ds, layer, f);
      draws := draws + pieces;
      layer := layer + 1;
    }
  }

  /**
   * The inner loop of `handleDrawRequest`: the squiggles of the decorations on
   * `layer`, in list order, while `maxLayer` grows past every layer seen.
   */
  method DrawPass(ds: seq<Decoration>, layer: int, maxLayer: int, vOffset: int, vLength: int, lines: seq<Region>,
                  lineOf: int -> Option<nat>, visible: Region)
    returns (pieces: seq<DrawRequest>, newMaxLayer: int)
    requires maxLayer == if layer == 0 then 1 else LayerBound(1, ds)
    ensures pieces == FlatMap(OnLayer(ds, layer), d => DecorationDraws(d, vOffset, vLength, lines, lineOf, visible))
    ensures newMaxLayer == LayerBound(1, ds)
  {
    ghost var f := d => DecorationDraws(d, vOffset, vLength, lines, lineOf, visible);
    pieces := [];
    newMaxLayer := maxLayer;
    assert ds[..0] == [];
    for j := 0 to |ds|
      invariant newMaxLayer == if layer == 0 then LayerBound(1, ds[..j]) else LayerBound(1, ds)
      invariant pieces == FlatMap(OnLayer(ds[..j], layer), f)
    {
      var pp := ds[j];
      MaxLayerStep(ds, j, layer, newMaxLayer);
      FlatMapPassStep(ds, j, layer, f);
      // every decoration seen raises the bound past its own layer
      newMaxLayer := Max(newMaxLayer, pp.layer + 1);
      if pp.layer == layer {
        var drawn := DrawDecoration(pp, vOffset, vLength, lines, lineOf, visible);
        pieces := pieces + drawn;
      }
    }
    assert ds[..|ds|] == ds;
  }
}

# AnnotationPainter and TestExtensionTreeData, modelled in Dafny

This project models two parts of the Eclipse platform UI sources.

**JFace's `AnnotationPainter`.** It draws squiggly underlines and
background highlights for the annotations of a source viewer. The model
covers the painter's bookkeeping and integer geometry, without the SWT
shell around them:

- the configured annotation types and the "allowed" caches of types they
  cover (`contains`, `isCovered`, `shouldBeDrawn`, `shouldBeHighlighted`,
  the add and remove methods, `isPaintingAnnotations`);
- the colour table, with its lookup that falls back over supertypes
  (`findColor`, `setAnnotationTypeColor`);
- rebuilding the squiggle and highlight decoration lists from the
  annotation model, and widening the highlight range (`catchupWithModel`);
- the layer-by-layer traversal of `applyTextPresentation` and
  `handleDrawRequest`, whose loop bound `maxLayer` grows while it runs;
- splitting a decoration into one piece per line;
- clipping a range to the visible region (`getWidgetRange`);
- the squiggle coordinates (`computePolyline`), in Java's 32-bit `int`
  arithmetic.

**The test navigator's tree node `TestExtensionTreeData`.**

- `getChildren` creates children lazily from a property table that maps a
  node name to its child names. It caches each child by name.
- Equality and hashing go by name.
- `toString` prints a node with its cached children.

Modules:

| file | module | contents |
|---|---|---|
| java_types.dfy | JavaTypes | `int` wrap-around, truncating division, `Math.max`/`min`, `Option` standing for null |
| positions.dfy | Positions | `Position`, `IRegion`, `Position.overlapsWith` |
| polyline.dfy | Polyline | `computePolyline` |
| layers.dfy | Layers | the decoration record and the layer-ordered traversal |
| clipping.dfy | Clipping | `getWidgetRange` and the per-line loop of `handleDrawRequest` |
| annotation_types.dfy | AnnotationTypes | type coverage, colour lookup, the decorations `catchupWithModel` builds, the highlight range |
| painter.dfy | Painter | the painter class, its state and its operations |
| tree_data.dfy | NavigatorTree | `TestExtensionTreeData` |

How the Java code maps onto the model:

- Calls into code that is not modelled become parameters:
  - the annotation access: is it an `IAnnotationAccessExtension`, and its `isSubtype`, `getSupertypes` and `getLayer`;
  - the annotation model;
  - the document's line table and `getLineOfOffset`, where `None` stands for `BadLocationException`;
  - the viewer's visible region and `overlapsWithVisibleRegion`;
  - the top offset of the painted range and the bottom line's end offset;
  - the document length.
- A loop that reads the state without changing it returns a value instead:
  - `handleDrawRequest` returns the sequence of `draw` calls it would make;
  - `applyTextPresentation` returns the style ranges it would merge.
- The class fields become Dafny fields: `seq` for the two decoration lists, `set` for the four type sets, `map` for the colour table.

## Model

| member | source | states |
|---|---|---|
| JavaTypes.Wrap32 | org.eclipse.jface.text/src/org/eclipse/jface/text/source/AnnotationPainter.java:735-737 | a Java `int` result equals the exact result when that fits, and otherwise differs from it by a multiple of 2^32 |
| JavaTypes.JavaDiv | org.eclipse.jface.text/src/org/eclipse/jface/text/source/AnnotationPainter.java:712 | Java's `/` rounds toward zero: the quotient times the divisor is at most the dividend in absolute value, and short of it by less than the divisor |
| Positions.OverlapsWith | org.eclipse.jface.text/src/org/eclipse/jface/text/source/AnnotationPainter.java:687 | ranges that overlap touch each other; two non-empty ranges that overlap share the offset where the later one starts |
| Positions.OverlapsIffShared | org.eclipse.jface.text/src/org/eclipse/jface/text/source/AnnotationPainter.java:637 | for non-empty ranges, `overlapsWith` holds exactly when the two ranges share an offset |
| Polyline.Peeks | org.eclipse.jface.text/src/org/eclipse/jface/text/source/AnnotationPainter.java:712 | the peak count is negative exactly when the wrapped `right.x - left.x` is at most -4, and it always lies in [-2^29, 2^29) |
| Polyline.Squiggle | org.eclipse.jface.text/src/org/eclipse/jface/text/source/AnnotationPainter.java:722-726 | the array is empty exactly when `((2*peeks)+1)*2 < 0`, and has length `4*peeks + 2` otherwise |
| Polyline.ComputePolyline | org.eclipse.jface.text/src/org/eclipse/jface/text/source/AnnotationPainter.java:706-746 | filling the array peak by peak and then adding the last point yields exactly the squiggle coordinates |
| Polyline.SquigglePeak | org.eclipse.jface.text/src/org/eclipse/jface/text/source/AnnotationPainter.java:728-739 | without overflow, peak i is (left.x + 4i, left.y + height - 1) followed by (left.x + 4i + 2, left.y + height - 3) |
| Polyline.SquiggleEnd | org.eclipse.jface.text/src/org/eclipse/jface/text/source/AnnotationPainter.java:741-743 | a non-empty squiggle ends in the point (left.x + 4*peeks, bottom), in wrapped arithmetic |
| Polyline.SquiggleXNonDecreasing | org.eclipse.jface.text/src/org/eclipse/jface/text/source/AnnotationPainter.java:712-743 | without overflow, the x coordinates never decrease and lie in [left.x, left.x + 4*peeks]; when right.x >= left.x, that last x is at most right.x and within one peak of it |
| Clipping.GetWidgetRange | org.eclipse.jface.text/src/org/eclipse/jface/text/source/AnnotationPainter.java:672-695 | null for a null position or offset Integer.MAX_VALUE; otherwise a range exactly when the position overlaps the visible region, and that range lies in [0, visible length] |
| Clipping.WidgetRangeIsIntersection | org.eclipse.jface.text/src/org/eclipse/jface/text/source/AnnotationPainter.java:685-690 | the widget range, moved back to document offsets, covers exactly the offsets in both the position and the visible region |
| Clipping.LinePieceInside | org.eclipse.jface.text/src/org/eclipse/jface/text/source/AnnotationPainter.java:648-650 | a line yields at most one piece; it is non-empty and lies inside both the position and the line |
| Clipping.LinePieceIsIntersection | org.eclipse.jface.text/src/org/eclipse/jface/text/source/AnnotationPainter.java:648-650 | a line yields a piece exactly when it shares an offset with the position, and the piece covers exactly the shared offsets |
| Clipping.LinePiecesInside | org.eclipse.jface.text/src/org/eclipse/jface/text/source/AnnotationPainter.java:646-656 | every piece of the line loop is non-empty and lies inside the position |
| Clipping.LinePiecesExact | org.eclipse.jface.text/src/org/eclipse/jface/text/source/AnnotationPainter.java:646-656 | every non-empty line piece is produced, and every produced piece is the piece of some line in startLine..endLine |
| Clipping.LinePiecesEndBy | org.eclipse.jface.text/src/org/eclipse/jface/text/source/AnnotationPainter.java:646-656 | when every line ends by some bound, so does every piece |
| Clipping.LinePiecesDisjoint | org.eclipse.jface.text/src/org/eclipse/jface/text/source/AnnotationPainter.java:646-656 | on lines in document order, the pieces are disjoint and in order |
| Clipping.LinePiecesCover | org.eclipse.jface.text/src/org/eclipse/jface/text/source/AnnotationPainter.java:646-656 | the pieces together cover exactly the offsets of the position that lie on the lines visited |
| Clipping.LineDrawsMembers | org.eclipse.jface.text/src/org/eclipse/jface/text/source/AnnotationPainter.java:646-656 | the loop draws exactly the pieces that have a widget range, each over that range and in the decoration's colour |
| Clipping.LineDrawsInVisible | org.eclipse.jface.text/src/org/eclipse/jface/text/source/AnnotationPainter.java:646-656 | at most one draw per line, each in the decoration's colour and inside the visible region |
| Clipping.DrawLines | org.eclipse.jface.text/src/org/eclipse/jface/text/source/AnnotationPainter.java:646-656 | the line loop makes the draws of the lines from startLine to endLine; a line past the last one ends the loop, as its BadLocationException does |
| Clipping.DrawDecoration | org.eclipse.jface.text/src/org/eclipse/jface/text/source/AnnotationPainter.java:636-659 | a decoration that does not overlap the painted range draws nothing, and a failed line lookup skips it; otherwise it draws its pieces from the line of its first offset to the line of its last one |
| Layers.OnLayerOnly | org.eclipse.jface.text/src/org/eclipse/jface/text/source/AnnotationPainter.java:633-634 | one pass acts only on decorations of its own layer |
| Layers.LayerBoundAbove | org.eclipse.jface.text/src/org/eclipse/jface/text/source/AnnotationPainter.java:626-632 | after the first pass, `maxLayer` is at least 1 and above every decoration's layer |
| Layers.LayerBoundAttained | org.eclipse.jface.text/src/org/eclipse/jface/text/source/AnnotationPainter.java:626-632 | `maxLayer` is 1 or some decoration's layer plus one, so the loop stops after the highest layer |
| Layers.PassesLayers | org.eclipse.jface.text/src/org/eclipse/jface/text/source/AnnotationPainter.java:398-405 | the passes for layers lo..hi-1 act only on decorations with a layer in that range |
| Layers.FlatMapConcat | org.eclipse.jface.text/src/org/eclipse/jface/text/source/AnnotationPainter.java:398-405 | what the loop produces for two runs of decorations is what it produces for each, concatenated |
| Layers.FlatMapMembers | org.eclipse.jface.text/src/org/eclipse/jface/text/source/AnnotationPainter.java:626-634 | the loop outputs something exactly when it comes from one of the decorations visited |
| Layers.NonNegativeMembers | org.eclipse.jface.text/src/org/eclipse/jface/text/source/AnnotationPainter.java:626-634 | a decoration is kept exactly when its layer is non-negative |
| Layers.LayerOrderMembers | org.eclipse.jface.text/src/org/eclipse/jface/text/source/AnnotationPainter.java:626-634 | the traversal outputs something exactly when it comes from a decoration with a non-negative layer |
| Layers.InLayersSplit | org.eclipse.jface.text/src/org/eclipse/jface/text/source/AnnotationPainter.java:626-634 | the decorations with layers lo..l are, as a multiset, those with layers lo..l-1 plus those on layer l |
| Layers.PassesSelect | org.eclipse.jface.text/src/org/eclipse/jface/text/source/AnnotationPainter.java:626-634 | the passes for layers lo..hi-1 visit, as a multiset, the decorations whose layer is in that range |
| Layers.InLayersAll | org.eclipse.jface.text/src/org/eclipse/jface/text/source/AnnotationPainter.java:626-634 | once every layer is below the bound, the layers from 0 on select exactly the non-negative decorations |
| Layers.LayerOrderIsPermutation | org.eclipse.jface.text/src/org/eclipse/jface/text/source/AnnotationPainter.java:626-634 | the traversal visits every decoration with a non-negative layer exactly once, and no other |
| Layers.PassesSorted | org.eclipse.jface.text/src/org/eclipse/jface/text/source/AnnotationPainter.java:398-405 | consecutive passes visit decorations in non-decreasing layer order |
| Layers.LayerOrderSorted | org.eclipse.jface.text/src/org/eclipse/jface/text/source/AnnotationPainter.java:626-634 | the traversal visits decorations in non-decreasing layer order |
| AnnotationTypes.CoveredMonotonic | org.eclipse.jface.text/src/org/eclipse/jface/text/source/AnnotationPainter.java:459-461 | configuring more types covers more types, so a sound allowed cache stays sound |
| AnnotationTypes.SupertypeColorIsLastEntry | org.eclipse.jface.text/src/org/eclipse/jface/text/source/AnnotationPainter.java:348-357 | the downward scan finds a colour exactly when some supertype has an entry, and then it is the entry of the highest-index one |
| AnnotationTypes.SupertypeColorFrame | org.eclipse.jface.text/src/org/eclipse/jface/text/source/AnnotationPainter.java:348-357 | the supertype colour depends only on the table entries of the supertypes |
| AnnotationTypes.LookupColorSpec | org.eclipse.jface.text/src/org/eclipse/jface/text/source/AnnotationPainter.java:342-360 | the type's own entry wins; any colour found comes from the table; null exactly when there is no own entry and no listed supertype has one |
| AnnotationTypes.SetColorThenLookup | org.eclipse.jface.text/src/org/eclipse/jface/text/source/AnnotationPainter.java:445-450 | a colour set for a type is then found for it, and types that neither are it nor list it as a supertype keep their colour, whether it was set or removed |
| AnnotationTypes.DecorationFor | org.eclipse.jface.text/src/org/eclipse/jface/text/source/AnnotationPainter.java:220-244 | an annotation gets a decoration exactly when it is not marked deleted, its type is drawn or highlighted, it has a colour, and its position is present and not deleted; the decoration has that position and colour, and the access's layer (DEFAULT_LAYER for a plain access) |
| AnnotationTypes.SelectedStep | org.eclipse.jface.text/src/org/eclipse/jface/text/source/AnnotationPainter.java:218-255 | one annotation more appends its decoration to a list exactly when its type is wanted there |
| AnnotationTypes.SelectedMembers | org.eclipse.jface.text/src/org/eclipse/jface/text/source/AnnotationPainter.java:217-255 | a list holds exactly the decorations of the annotations whose type it wants |
| AnnotationTypes.HighlightStart | org.eclipse.jface.text/src/org/eclipse/jface/text/source/AnnotationPainter.java:249-251 | the running minimum never exceeds Integer.MAX_VALUE |
| AnnotationTypes.HighlightEnd | org.eclipse.jface.text/src/org/eclipse/jface/text/source/AnnotationPainter.java:249-253 | the running maximum is at least -1 |
| AnnotationTypes.HighlightBounds | org.eclipse.jface.text/src/org/eclipse/jface/text/source/AnnotationPainter.java:249-253 | the start is at most every highlight's offset and equals one of them unless it is Integer.MAX_VALUE; the end is at least every highlight's end and equals one of them unless it is -1 |
| AnnotationTypes.HighlightStep | org.eclipse.jface.text/src/org/eclipse/jface/text/source/AnnotationPainter.java:249-253 | adding a highlight moves the start and the end as the loop's min and max do |
| AnnotationTypes.WidenedRange | org.eclipse.jface.text/src/org/eclipse/jface/text/source/AnnotationPainter.java:256-262 | the new offset is at most the old offset, the highlight start and the document length, and is one of them; the new end lies within the document and reaches both the old end and the highlight end, each clamped |
| AnnotationTypes.WidenedRangeCovers | org.eclipse.jface.text/src/org/eclipse/jface/text/source/AnnotationPainter.java:256-262 | the widened range contains the old range and every highlight, each cut off at the document's end |
| AnnotationTypes.FirstWideningReachesDocumentEnd | org.eclipse.jface.text/src/org/eclipse/jface/text/source/AnnotationPainter.java:116 | the initial range (Integer.MAX_VALUE, 0) ends beyond any document, so the first widening always reaches the end of the document |
| Painter.HighlightStyle | org.eclipse.jface.text/src/org/eclipse/jface/text/source/AnnotationPainter.java:407-412 | at most one style, that of the highlight's range and colour, and one exactly when the viewer shows the highlight and it touches the extent, its end offset included |
| Painter.HighlightStylesExact | org.eclipse.jface.text/src/org/eclipse/jface/text/source/AnnotationPainter.java:398-412 | a style is merged exactly when it is the range and colour of a highlight that has a non-negative layer, is visible and touches the extent (its end included) |
| Painter.DecorationDrawsInVisible | org.eclipse.jface.text/src/org/eclipse/jface/text/source/AnnotationPainter.java:636-659 | a squiggle drawn for one decoration is in its colour and inside the visible region |
| Painter.SquiggleDrawsExact | org.eclipse.jface.text/src/org/eclipse/jface/text/source/AnnotationPainter.java:615-663 | a squiggle is drawn exactly when it belongs to a decoration with a non-negative layer, and it then lies in the visible region in that decoration's colour |
| Painter.AnnotationPainter.constructor | org.eclipse.jface.text/src/org/eclipse/jface/text/source/AnnotationPainter.java:87-116 | a new painter has nothing configured, no colours, no decorations, and the highlight range (Integer.MAX_VALUE, 0) |
| Painter.AnnotationPainter.IsCovered | org.eclipse.jface.text/src/org/eclipse/jface/text/source/AnnotationPainter.java:323-334 | with an extended access, true exactly when the type is a subtype of some configured type; otherwise exactly when it is configured |
| Painter.AnnotationPainter.Contains | org.eclipse.jface.text/src/org/eclipse/jface/text/source/AnnotationPainter.java:301-310 | true when the type is already allowed or is covered; the allowed set gains the type only on true; a sound cache stays sound, and then the answer is exactly coverage |
| Painter.AnnotationPainter.ShouldBeDrawn | org.eclipse.jface.text/src/org/eclipse/jface/text/source/AnnotationPainter.java:275-277 | the answer is whether the configured types cover the type, and a yes is cached |
| Painter.AnnotationPainter.ShouldBeHighlighted | org.eclipse.jface.text/src/org/eclipse/jface/text/source/AnnotationPainter.java:287-289 | the same for the highlight types |
| Painter.AnnotationPainter.FindColor | org.eclipse.jface.text/src/org/eclipse/jface/text/source/AnnotationPainter.java:342-360 | the loop from the last supertype down returns exactly the colour lookup |
| Painter.AnnotationPainter.SetAnnotationTypeColor | org.eclipse.jface.text/src/org/eclipse/jface/text/source/AnnotationPainter.java:445-450 | a colour is stored for the type and null removes its entry; no other entry changes |
| Painter.AnnotationPainter.AddAnnotationType | org.eclipse.jface.text/src/org/eclipse/jface/text/source/AnnotationPainter.java:459-461 | the type joins the configured set, and the untouched cache stays sound |
| Painter.AnnotationPainter.AddHighlightAnnotationType | org.eclipse.jface.text/src/org/eclipse/jface/text/source/AnnotationPainter.java:471-490 | the type joins the configured highlight set, and that cache stays sound |
| Painter.AnnotationPainter.RemoveAnnotationType | org.eclipse.jface.text/src/org/eclipse/jface/text/source/AnnotationPainter.java:499-502 | the type leaves the configured set and the allowed cache is emptied, so the cache is sound again |
| Painter.AnnotationPainter.RemoveHighlightAnnotationType | org.eclipse.jface.text/src/org/eclipse/jface/text/source/AnnotationPainter.java:512-520 | the same for the highlight sets |
| Painter.AnnotationPainter.RemoveAllAnnotationTypes | org.eclipse.jface.text/src/org/eclipse/jface/text/source/AnnotationPainter.java:526-535 | all four sets become empty, and no type is then covered |
| Painter.AnnotationPainter.IsPaintingAnnotations | org.eclipse.jface.text/src/org/eclipse/jface/text/source/AnnotationPainter.java:543-545 | when it is false, no type is drawn or highlighted |
| Painter.AnnotationPainter.CatchupAnnotation | org.eclipse.jface.text/src/org/eclipse/jface/text/source/AnnotationPainter.java:220-254 | one annotation's decoration is appended to the squiggles when its type is drawn, and to the highlights when its type is highlighted; the caches stay sound and only grow |
| Painter.AnnotationPainter.CatchupWithModel | org.eclipse.jface.text/src/org/eclipse/jface/text/source/AnnotationPainter.java:207-265 | both lists are rebuilt as exactly the decorations of the annotations whose types they want, in model order, and both are empty without a model; when a highlight exists, the range is widened to all of them and clamped to the document, and otherwise it is unchanged |
| Painter.AnnotationPainter.ApplyTextPresentation | org.eclipse.jface.text/src/org/eclipse/jface/text/source/AnnotationPainter.java:395-415 | the merged styles are those of the highlights, visited in layer order |
| Painter.AnnotationPainter.HandleDrawRequest | org.eclipse.jface.text/src/org/eclipse/jface/text/source/AnnotationPainter.java:615-663 | the draws are those of the squiggle decorations, visited in layer order, over the range from vOffset with length bottom end offset + 1 |
| Painter.HighlightPass | org.eclipse.jface.text/src/org/eclipse/jface/text/source/AnnotationPainter.java:400-413 | one pass merges the styles of the highlights on its layer in list order, and leaves `maxLayer` one above the highest layer |
| Painter.DrawLayers | org.eclipse.jface.text/src/org/eclipse/jface/text/source/AnnotationPainter.java:626-662 | the passes together draw the decorations in layer order |
| Painter.DrawPass | org.eclipse.jface.text/src/org/eclipse/jface/text/source/AnnotationPainter.java:628-661 | one pass draws the decorations on its layer in list order, and leaves `maxLayer` one above the highest layer |
| NavigatorTree.Utf16 | tests/org.eclipse.ui.tests.navigator/src/org/eclipse/ui/tests/navigator/extension/TestExtensionTreeData.java:75-77 | a character of the Basic Multilingual Plane is one code unit; any other is a high and a low surrogate from which it decodes back |
| NavigatorTree.UnitsHash | tests/org.eclipse.ui.tests.navigator/src/org/eclipse/ui/tests/navigator/extension/TestExtensionTreeData.java:75-77 | the hash accumulated as h = 31h + c over the code units in `int` arithmetic is the polynomial sum u[i]*31^(n-1-i) reduced to an `int` |
| NavigatorTree.StringHash | tests/org.eclipse.ui.tests.navigator/src/org/eclipse/ui/tests/navigator/extension/TestExtensionTreeData.java:75-77 | `String.hashCode` of a string is the polynomial of its UTF-16 code units, reduced to an `int` |
| NavigatorTree.NonBmpHash | tests/org.eclipse.ui.tests.navigator/src/org/eclipse/ui/tests/navigator/extension/TestExtensionTreeData.java:75-77 | a character outside the Basic Multilingual Plane, such as U+1F600, hashes as its two surrogates: 31 * 0xD83D + 0xDE00 |
| NavigatorTree.TestExtensionTreeData.HashCode | tests/org.eclipse.ui.tests.navigator/src/org/eclipse/ui/tests/navigator/extension/TestExtensionTreeData.java:75-77 | a node hashes as the polynomial of its name's code units, so the hash depends on the name alone |
| NavigatorTree.TestExtensionTreeData.Equals | tests/org.eclipse.ui.tests.navigator/src/org/eclipse/ui/tests/navigator/extension/TestExtensionTreeData.java:80-83 | true only for a non-null tree node, whose hash then equals this node's; always true for the node itself |
| NavigatorTree.TestExtensionTreeData.ToString | tests/org.eclipse.ui.tests.navigator/src/org/eclipse/ui/tests/navigator/extension/TestExtensionTreeData.java:86-96 | the string starts with the name and ":[" and ends with "]" |
| NavigatorTree.TestExtensionTreeData.constructor | tests/org.eclipse.ui.tests.navigator/src/org/eclipse/ui/tests/navigator/extension/TestExtensionTreeData.java:36-42 | the node keeps its parent, name, model and file (read back by getParent, getName and getFile), and its cache starts empty |
| NavigatorTree.TestExtensionTreeData.GetChildren | tests/org.eclipse.ui.tests.navigator/src/org/eclipse/ui/tests/navigator/extension/TestExtensionTreeData.java:48-68 | cached entries are kept unchanged; the cache gains exactly the listed names; new entries are fresh nodes with this parent, model and file and an empty cache; the result is the cached child of each listed name, and empty without a model or an entry |
| NavigatorTree.OneChildPerName | tests/org.eclipse.ui.tests.navigator/src/org/eclipse/ui/tests/navigator/extension/TestExtensionTreeData.java:53-63 | every returned child carries a listed name, each listed name has a returned child, and no two returned children share a name |
| NavigatorTree.GetChildrenTwice | tests/org.eclipse.ui.tests.navigator/src/org/eclipse/ui/tests/navigator/extension/TestExtensionTreeData.java:55-62 | a second call creates nothing and returns the same children as the first, each with a listed name and this node as parent |
| NavigatorTree.EqualsIsEquivalence | tests/org.eclipse.ui.tests.navigator/src/org/eclipse/ui/tests/navigator/extension/TestExtensionTreeData.java:75-83 | `equals` is reflexive, symmetric and transitive, holds exactly between nodes with the same name, and equal nodes hash alike |
| NavigatorTree.ListingShowsEach | tests/org.eclipse.ui.tests.navigator/src/org/eclipse/ui/tests/navigator/extension/TestExtensionTreeData.java:91-93 | the concatenation of the cached children's strings contains each child's string |
| NavigatorTree.ToStringShowsChildren | tests/org.eclipse.ui.tests.navigator/src/org/eclipse/ui/tests/navigator/extension/TestExtensionTreeData.java:86-96 | the string contains the string of every cached child |
| NavigatorTree.LeafToString | tests/org.eclipse.ui.tests.navigator/src/org/eclipse/ui/tests/navigator/extension/TestExtensionTreeData.java:86-96 | a node with an empty cache prints as its name followed by ":[]" |

## Left out

- SWT painting: `draw`, `GC.drawPolyline`, `redrawRange`, `getLocationAtOffset`,
  `paintControl`, `enablePainting`, `disablePainting`, `updatePainting`,
  `invalidateTextPresentation`, `paint`, `deactivate`, `dispose` and
  `setPositionManager`. These are toolkit calls.
  - The model stops at the `draw` calls the painter makes, and at the
    coordinates `computePolyline` computes for them.
- Threading: `modelChanged` with its `Display.asyncExec`, the `synchronized` blocks, and the `fIsActive`, `fIsPainting` and `fIsSettingModel` flags.
- `setModel` and the listener wiring:
  - the annotation model is a parameter of `CatchupWithModel`;
  - the text input listener that `addHighlightAnnotationType` installs and `removeHighlightAnnotationType` uninstalls is not modelled; only their set updates are.
- The viewer mapping and its pixel metrics:
  - `getWidgetRange` is modelled only for viewers without `ITextViewerExtension3`; `modelRange2WidgetRange` belongs to the viewer;
  - `getInclusiveTopIndexStartOffset` is the parameter `vOffset`;
  - the bottom line's end offset is a parameter;
  - `overlapsWithVisibleRegion` is the parameter `isVisible`;
  - line lookup is the parameters `lineOf` (with `None` for `BadLocationException`) and `lines`.
- `Position.java` is not part of this model. `Position.overlapsWith` is written out from JFace's documented behaviour.
- `Position` is a value, so the aliasing between decorations and the annotation model's positions is not captured.
- 32-bit overflow is modelled in `computePolyline`, in `vLength` and in `hashCode`. Elsewhere offsets, lengths and layers are unbounded integers:
  - position ends and the highlight range stay far below 2^31 for any real document;
  - a layer is whatever `getLayer` returns, and there the difference shows (next line).
- Layers.LayerOrderIsPermutation: a decoration on layer Integer.MAX_VALUE counts as visited. In Java, `pp.fLayer + 1` wraps to Integer.MIN_VALUE for it, so `maxLayer` never passes that layer and the decoration is never drawn or highlighted. The model's layers do not wrap. The same goes for `Layers.LayerOrderMembers`, `Painter.HighlightStylesExact` and `Painter.SquiggleDrawsExact`.
- Painter.AnnotationPainter.HandleDrawRequest: does not model the early return when the text widget is already disposed.
- `mergeStyleRange`: `applyTextPresentation` returns the style ranges it would merge. Merging them into the presentation belongs to `TextPresentation`.
- Painter.AnnotationPainter.CatchupWithModel: does not model a null `fDecorations`, which the painter sets only in `dispose`.
- Loop bodies as separate methods: `CatchupAnnotation` is the body of the loop of `catchupWithModel`. `HighlightPass` and `DrawPass` are the inner loops of the layer traversals, and `DrawLines` is the line loop.
- `TestExtensionTreeData`:
  - Its `Properties` is a map from a name to the already-split child list; the corner cases of `String.split` (dropped trailing empty strings) are not modelled.
  - Its `IFile` is an uninterpreted value.
  - `getChildren` returns a set. Its conversion to an array with `toArray`, and the order of that array, are not modelled.
- NavigatorTree.TestExtensionTreeData.ToString: a ghost function whose `fuel` bounds the depth printed. The Java recursion has no such bound; it terminates because the child graph is a tree, and the model does not track that.
  - The HashMap iteration order is unspecified, so the lemmas state only that each child's string appears, not the order.
- NavigatorTree.CodeUnits: a Dafny `char` is a Unicode scalar value, so strings holding a lone surrogate, which Java allows, cannot be expressed.
- A null name is not modelled: `equals` and `hashCode` would throw on it.

/**
 * What the annotation painter decides about annotation types, as functions of
 * its configuration: whether a type is covered by a set of configured types
 * (directly, or through the access's subtype relation), which colour a type is
 * painted in (its own table entry, or that of its last supertype that has one),
 * and which decorations `catchupWithModel` builds from the annotation model,
 * together with the range that must then contain every highlight.
 */
module AnnotationTypes {
  import opened JavaTypes
  import opened Positions
  import opened Layers

  /** An annotation type, as the access reports it. */
  type AnnotationType = string

  /**
   * The painter's IAnnotationAccess. When it is an IAnnotationAccessExtension it
   * also answers subtype and supertype questions and reports layers.
   */
  datatype Access = Access(
    isExtension: bool,
    isSubtype: (AnnotationType, AnnotationType) -> bool,
    supertypes: AnnotationType -> Option<seq<AnnotationType>>)

  /** IAnnotationAccessExtension.DEFAULT_LAYER */
  const DEFAULT_LAYER: int := 0

  /**
   * An annotation of the model: whether it is marked deleted, its type, the layer
   * an extended access reports for it, and the position the model holds for it
   * (None when the model has none).
   */
  datatype Annotation = Annotation(
    markedDeleted: bool,
    annotationType: AnnotationType,
    layer: int,
    position: Option<Position>)

  /**
   * `isCovered`: with an extended access, `t` is covered when it is a subtype of
   * some configured type; otherwise when it is configured itself.
   */
  predicate Covered(access: Access, configured: set<AnnotationType>, t: AnnotationType) {
    if access.isExtension then exists c :: c in configured && access.isSubtype(t, c)
    else t in configured
  }

  /** A cache of allowed types is sound when it holds only covered types. */
  predicate CacheSound(access: Access, allowed: set<AnnotationType>, configured: set<AnnotationType>) {
    forall t :: t in allowed ==> Covered(access, configured, t)
  }

  /** Configuring more types covers more: a sound cache stays sound. */
  lemma CoveredMonotonic(access: Access, configured: set<AnnotationType>, more: set<AnnotationType>,
                         allowed: set<AnnotationType>)
    requires configured <= more
    requires CacheSound(access, allowed, configured)
    ensures forall t :: Covered(access, configured, t) ==> Covered(access, more, t)
    ensures CacheSound(access, allowed, more)
  {
    forall t | Covered(access, configured, t) ensures Covered(access, more, t) {
      if access.isExtension {
        var c :| c in configured && access.isSubtype(t, c);
        assert c in more;
      }
    }
  }

  /**
   * The colour of the last type of `supers` that has a table entry: the loop of
   * `findColor` runs from the end of the supertype array to its start.
   */
  function SupertypeColor(table: map<AnnotationType, Color>, supers: seq<AnnotationType>): Option<Color> {
    if supers == [] then None
    else
      var last := supers[|supers| - 1];
      if last in table then Some(table[last]) else SupertypeColor(table, supers[..|supers| - 1])
  }

  /**
   * There is a supertype colour exactly when some supertype has an entry, and
   * then it is the entry of the highest-index such supertype.
   */
  lemma {:induction false} SupertypeColorIsLastEntry(table: map<AnnotationType, Color>, supers: seq<AnnotationType>)
    ensures SupertypeColor(table, supers).Some? <==> exists i :: 0 <= i < |supers| && supers[i] in table
    ensures SupertypeColor(table, supers).Some? ==>
              exists i :: 0 <= i < |supers| && supers[i] in table &&
                          SupertypeColor(table, supers).value == table[supers[i]] &&
                          forall j :: i < j < |supers| ==> supers[j] !in table
  {
    if supers != [] {
      var n := |supers| - 1;
      var prefix := supers[..n];
      SupertypeColorIsLastEntry(table, prefix);
      if supers[n] !in table {
        forall i | 0 <= i < n ensures supers[i] == prefix[i] { }
        if SupertypeColor(table, prefix).Some? {
          var i :| 0 <= i < |prefix| && prefix[i] in table &&
                   SupertypeColor(table, prefix).value == table[prefix[i]] &&
                   forall j :: i < j < |prefix| ==> prefix[j] !in table;
          assert supers[i] in table;
        }
      }
    }
  }

  /** The supertype colour depends only on the table entries of the supertypes. */
  lemma {:induction false} SupertypeColorFrame(t1: map<AnnotationType, Color>, t2: map<AnnotationType, Color>,
                                               supers: seq<AnnotationType>)
    requires forall i :: 0 <= i < |supers| ==>
               (supers[i] in t1 <==> supers[i] in t2) && (supers[i] in t1 ==> t1[supers[i]] == t2[supers[i]])
    ensures SupertypeColor(t1, supers) == SupertypeColor(t2, supers)
  {
    if supers != [] {
      var prefix := supers[..|supers| - 1];
      assert forall i :: 0 <= i < |prefix| ==> prefix[i] == supers[i];
      SupertypeColorFrame(t1, t2, prefix);
    }
  }

  /**
   * `findColor`: the table entry of the type itself, else (with an extended
   * access that lists supertypes) the entry of its last listed supertype that
   * has one, else null.
   */
  function LookupColor(access: Access, table: map<AnnotationType, Color>, t: AnnotationType): Option<Color> {
    if t in table then Some(table[t])
    else if access.isExtension then
      match access.supertypes(t)
      case None => None
      case Some(supers) => SupertypeColor(table, supers)
    else None
  }

  /**
   * The lookup prefers the type's own entry, finds only colours of the table,
   * and finds nothing for a type without an entry unless an extended access
   * lists a supertype that has one.
   */
  lemma LookupColorSpec(access: Access, table: map<AnnotationType, Color>, t: AnnotationType)
    ensures t in table ==> LookupColor(access, table, t) == Some(table[t])
    ensures LookupColor(access, table, t).Some? ==>
              exists u :: u in table && table[u] == LookupColor(access, table, t).value
    ensures LookupColor(access, table, t).None? <==>
              t !in table &&
              (!access.isExtension || access.supertypes(t).None? ||
               forall i :: 0 <= i < |access.supertypes(t).value| ==> access.supertypes(t).value[i] !in table)
  {
    if t !in table && access.isExtension && access.supertypes(t).Some? {
      var supers := access.supertypes(t).value;
      SupertypeColorIsLastEntry(table, supers);
      if SupertypeColor(table, supers).Some? {
        var i :| 0 <= i < |supers| && supers[i] in table &&
                 SupertypeColor(table, supers).value == table[supers[i]] &&
                 forall j :: i < j < |supers| ==> supers[j] !in table;
        assert table[supers[i]] == LookupColor(access, table, t).value;
      }
    }
  }

  /**
   * `setAnnotationTypeColor(t, c)` followed by `findColor`: a colour set for `t`
   * is found for `t`; and the colour of any other type whose supertypes do not
   * include `t` is the same as before, whether `t` was set or removed.
   */
  lemma SetColorThenLookup(access: Access, table: map<AnnotationType, Color>, t: AnnotationType,
                           color: Option<Color>, u: AnnotationType)
    ensures var table' := if color.Some? then table[t := color.value] else table - {t};
      && (color.Some? ==> LookupColor(access, table', t) == color)
      && (u != t && (access.supertypes(u).Some? ==> t !in access.supertypes(u).value) ==>
            LookupColor(access, table', u) == LookupColor(access, table, u))
  {
    var table' := if color.Some? then table[t := color.value] else table - {t};
    if u != t && access.supertypes(u).Some? && t !in access.supertypes(u).value {
      var supers := access.supertypes(u).value;
      forall i | 0 <= i < |supers|
        ensures (supers[i] in table <==> supers[i] in table') && (supers[i] in table ==> table[supers[i]] == table'[supers[i]])
      {
        assert supers[i] != t;
      }
      SupertypeColorFrame(table, table', supers);
    }
  }

  /**
   * The decoration `catchupWithModel` makes for one annotation, if any: none for
   * an annotation marked deleted, for one whose type is neither drawn nor
   * highlighted, for one without a colour, and for one whose position is null or
   * deleted; otherwise its position, its colour and its layer (DEFAULT_LAYER
   * unless the access is extended).
   */
  function DecorationFor(access: Access, table: map<AnnotationType, Color>, configured: set<AnnotationType>,
                         configuredHighlight: set<AnnotationType>, a: Annotation): (r: Option<Decoration>)
    ensures r.Some? <==>
              && !a.markedDeleted
              && (Covered(access, configured, a.annotationType) || Covered(access, configuredHighlight, a.annotationType))
              && LookupColor(access, table, a.annotationType).Some?
              && a.position.Some? && !a.position.value.isDeleted
    ensures r.Some? ==>
              && r.value.position == a.position.value
              && Some(r.value.color) == LookupColor(access, table, a.annotationType)
              && r.value.layer == (if access.isExtension then a.layer else DEFAULT_LAYER)
  {
    if a.markedDeleted then None
    else
      var t := a.annotationType;
      var isHighlighting := Covered(access, configuredHighlight, t);
      var isDrawingSquiggles := Covered(access, configured, t);
      var color := if isDrawingSquiggles || isHighlighting then LookupColor(access, table, t) else None;
      if color.None? then None
      else if a.position.None? || a.position.value.isDeleted then None
      else Some(Decoration(a.position.value, color.value, if access.isExtension then a.layer else DEFAULT_LAYER))
  }

  /**
   * The decorations `catchupWithModel` keeps in one of its lists, in model
   * order: those of the annotations whose type `wanted` covers. With `wanted`
   * the configured types this is fDecorations, with the configured highlight
   * types fHighlightedDecorations.
   */
  function Selected(access: Access, table: map<AnnotationType, Color>, configured: set<AnnotationType>,
                    configuredHighlight: set<AnnotationType>, annotations: seq<Annotation>,
                    wanted: set<AnnotationType>): seq<Decoration>
  {
    if annotations == [] then []
    else
      var a := annotations[|annotations| - 1];
      var d := DecorationFor(access, table, configured, configuredHighlight, a);
      Selected(access, table, configured, configuredHighlight, annotations[..|annotations| - 1], wanted) +
      (if d.Some? && Covered(access, wanted, a.annotationType) then [d.value] else [])
  }

  /** One step of the loop of `catchupWithModel` over the annotations. */
  lemma SelectedStep(access: Access, table: map<AnnotationType, Color>, configured: set<AnnotationType>,
                     configuredHighlight: set<AnnotationType>, annotations: seq<Annotation>, i: int,
                     wanted: set<AnnotationType>)
    requires 0 <= i < |annotations|
    ensures var d := DecorationFor(access, table, configured, configuredHighlight, annotations[i]);
      Selected(access, table, configured, configuredHighlight, annotations[..i + 1], wanted) ==
        Selected(access, table, configured, configuredHighlight, annotations[..i], wanted) +
        (if d.Some? && Covered(access, wanted, annotations[i].annotationType) then [d.value] else [])
  {
    assert annotations[..i + 1][..i] == annotations[..i];
  }

  /**
   * A decoration is kept exactly when it is the decoration of an annotation
   * whose type is wanted.
   */
  lemma {:induction false} SelectedMembers(access: Access, table: map<AnnotationType, Color>,
                                           configured: set<AnnotationType>, configuredHighlight: set<AnnotationType>,
                                           annotations: seq<Annotation>, wanted: set<AnnotationType>)
    ensures forall d :: d in Selected(access, table, configured, configuredHighlight, annotations, wanted) ==>
              exists i :: 0 <= i < |annotations| &&
                          DecorationFor(access, table, configured, configuredHighlight, annotations[i]) == Some(d) &&
                          Covered(access, wanted, annotations[i].annotationType)
    ensures forall i :: 0 <= i < |annotations| &&
                        DecorationFor(access, table, configured, configuredHighlight, annotations[i]).Some? &&
                        Covered(access, wanted, annotations[i].annotationType) ==>
              DecorationFor(access, table, configured, configuredHighlight, annotations[i]).value in
                Selected(access, table, configured, configuredHighlight, annotations, wanted)
  {
    if annotations != [] {
      var n := |annotations| - 1;
      var prefix := annotations[..n];
      SelectedMembers(access, table, configured, configuredHighlight, prefix, wanted);
      var rest := Selected(access, table, configured, configuredHighlight, prefix, wanted);
      var all := Selected(access, table, configured, configuredHighlight, annotations, wanted);
      assert forall i :: 0 <= i < n ==> prefix[i] == annotations[i];
      forall d | d in all
        ensures exists i :: 0 <= i < |annotations| &&
                            DecorationFor(access, table, configured, configuredHighlight, annotations[i]) == Some(d) &&
                            Covered(access, wanted, annotations[i].annotationType)
      {
        if d !in rest {
          assert DecorationFor(access, table, configured, configuredHighlight, annotations[n]) == Some(d);
        }
      }
    }
  }

  /**
   * The smallest offset of the highlights (Integer.MAX_VALUE for none), as the
   * loop of `catchupWithModel` accumulates it.
   */
  function HighlightStart(hs: seq<Decoration>): (r: nat)
    ensures r <= INT_MAX
  {
    if hs == [] then INT_MAX
    else Min(HighlightStart(hs[..|hs| - 1]), hs[|hs| - 1].position.offset)
  }

  /** The largest end offset of the highlights (-1 for none). */
  function HighlightEnd(hs: seq<Decoration>): (r: int)
    ensures -1 <= r
  {
    if hs == [] then -1
    else Max(HighlightEnd(hs[..|hs| - 1]), hs[|hs| - 1].position.End())
  }

  /**
   * The start is at most every highlight's offset and is one of them unless it
   * is Integer.MAX_VALUE; the end is at least every highlight's end and is one
   * of them unless it is -1.
   */
  lemma {:induction false} HighlightBounds(hs: seq<Decoration>)
    ensures forall k :: 0 <= k < |hs| ==> HighlightStart(hs) <= hs[k].position.offset
    ensures HighlightStart(hs) == INT_MAX || exists k :: 0 <= k < |hs| && HighlightStart(hs) == hs[k].position.offset
    ensures forall k :: 0 <= k < |hs| ==> hs[k].position.End() <= HighlightEnd(hs)
    ensures HighlightEnd(hs) == -1 || exists k :: 0 <= k < |hs| && HighlightEnd(hs) == hs[k].position.End()
  {
    if hs != [] {
      var prefix := hs[..|hs| - 1];
      HighlightBounds(prefix);
      assert forall k :: 0 <= k < |prefix| ==> prefix[k] == hs[k];
    }
  }

  /** Adding a highlight to the list moves the start and end as the loop does. */
  lemma HighlightStep(hs: seq<Decoration>, d: Decoration)
    ensures HighlightStart(hs + [d]) == Min(HighlightStart(hs), d.position.offset)
    ensures HighlightEnd(hs + [d]) == Max(HighlightEnd(hs), d.position.End())
  {
    assert (hs + [d])[..|hs|] == hs;
  }

  /**
   * The highlight range after `catchupWithModel` found highlights starting at
   * `start` and ending at `end`: widened to them, then clamped to the document.
   */
  function WidenedRange(range: Position, start: nat, end: int, documentLength: nat): (r: Position)
    ensures r.offset <= range.offset && r.offset <= start && r.offset <= documentLength
    ensures r.offset == range.offset || r.offset == start || r.offset == documentLength
    ensures r.End() <= documentLength
    ensures Min(range.End(), documentLength) <= r.End() && Min(end, documentLength) <= r.End()
    ensures r.isDeleted == range.isDeleted
  {
    var e := Min(Max(range.offset + range.length, end), documentLength);
    var offset := Min(Min(range.offset, start), documentLength);
    Position(offset, e - offset, range.isDeleted)
  }

  /**
   * After widening, the range contains the old range and every highlight, each
   * cut off at the end of the document.
   */
  lemma {:induction false} WidenedRangeCovers(range: Position, hs: seq<Decoration>, documentLength: nat)
    ensures var r := WidenedRange(range, HighlightStart(hs), HighlightEnd(hs), documentLength);
      && r.offset <= Min(range.offset, documentLength)
      && Min(range.End(), documentLength) <= r.End()
      && forall k :: 0 <= k < |hs| ==>
           r.offset <= Min(hs[k].position.offset, documentLength) &&
           Min(hs[k].position.End(), documentLength) <= r.End()
  {
    var r := WidenedRange(range, HighlightStart(hs), HighlightEnd(hs), documentLength);
    HighlightBounds(hs);
    forall k | 0 <= k < |hs|
      ensures r.offset <= Min(hs[k].position.offset, documentLength)
      ensures Min(hs[k].position.End(), documentLength) <= r.End()
    {
      assert HighlightStart(hs) <= hs[k].position.offset;
      assert hs[k].position.End() <= HighlightEnd(hs);
    }
  }

  /**
   * The painter starts with the range (Integer.MAX_VALUE, 0), whose end lies
   * beyond any document; so the first widening always reaches the end of the
   * document, however short the highlights are.
   */
  lemma {:induction false} FirstWideningReachesDocumentEnd(hs: seq<Decoration>, documentLength: nat)
    requires documentLength <= INT_MAX
    ensures WidenedRange(Position(INT_MAX, 0, false), HighlightStart(hs), HighlightEnd(hs), documentLength).End()
              == documentLength
  {
    var r := WidenedRange(Position(INT_MAX, 0, false), HighlightStart(hs), HighlightEnd(hs), documentLength);
    assert Min(Position(INT_MAX, 0, false).End(), documentLength) == documentLength;
  }
}

/**
 * How `handleDrawRequest` turns one squiggle decoration into draw requests:
 * the decoration's position is cut at line boundaries (a piece per line, empty
 * pieces, which lie inside a line delimiter, dropped), and every piece is
 * clipped against the viewer's visible region and rebased to widget
 * coordinates by `getWidgetRange`.
 */
module Clipping {
  import opened JavaTypes
  import opened Positions
  import opened Layers

  /** One call of `draw(gc, offset, length, color)`: a squiggle over a widget range. */
  datatype DrawRequest = DrawRequest(range: Region, color: Color)

  /**
   * `getWidgetRange` for a viewer without ITextViewerExtension3: a null
   * position, or one at offset Integer.MAX_VALUE, has no widget range; otherwise
   * the position is intersected with the visible region (when it overlaps it)
   * and the result is made relative to the region's start.
   */
  function GetWidgetRange(p: Option<Position>, visible: Region): (r: Option<Region>)
    ensures p.None? || p.value.offset == INT_MAX ==> r.None?
    ensures p.Some? && p.value.offset != INT_MAX ==>
              (r.Some? <==> OverlapsWith(p.value, visible.offset, visible.length))
    ensures r.Some? && visible.length >= 0 ==>
              0 <= r.value.offset && 0 <= r.value.length && r.value.End() <= visible.length
  {
    if p.None? || p.value.offset == INT_MAX then None
    else if OverlapsWith(p.value, visible.offset, visible.length) then
      var p1 := Max(visible.offset, p.value.offset);
      var p2 := Min(visible.offset + visible.length, p.value.End());
      Some(Region(p1 - visible.offset, p2 - p1))
    else None
  }

  /**
   * The widget range, moved back by the visible region's offset, covers exactly
   * the document offsets that lie both in the position and in the visible
   * region; and for non-empty ranges there is a widget range exactly when the
   * two share an offset.
   */
  lemma WidgetRangeIsIntersection(p: Position, visible: Region)
    requires visible.length >= 0 && p.offset != INT_MAX
    ensures var r := GetWidgetRange(Some(p), visible);
      r.Some? ==> forall x :: Region(visible.offset + r.value.offset, r.value.length).Covers(x) <==>
                               p.Covers(x) && visible.Covers(x)
    ensures p.length > 0 && visible.length > 0 ==>
              (GetWidgetRange(Some(p), visible).Some? <==> exists x :: p.Covers(x) && visible.Covers(x))
  {
    if p.length > 0 && visible.length > 0 {
      OverlapsIffShared(p, visible.offset, visible.length);
      assert visible == Region(visible.offset, visible.length);
    }
  }

  /**
   * The piece of `p` on one line: [max(line.offset, p.offset), min(line end, p end)),
   * or nothing when that is empty.
   */
  function LinePiece(p: Position, line: Region): seq<Position> {
    var paintStart := Max(line.offset, p.offset);
    var paintEnd := Min(line.End(), p.End());
    if paintEnd > paintStart then [Position(paintStart, paintEnd - paintStart, false)] else []
  }

  /** A line's piece is at most one non-empty position, inside both `p` and the line. */
  lemma LinePieceInside(p: Position, line: Region)
    ensures |LinePiece(p, line)| <= 1
    ensures forall q :: q in LinePiece(p, line) ==>
              && q.length > 0 && !q.isDeleted
              && p.offset <= q.offset && q.End() <= p.End()
              && line.offset <= q.offset && q.End() <= line.End()
  {
  }

  /** A line's piece covers exactly the offsets that lie both in `p` and on the line. */
  lemma LinePieceIsIntersection(p: Position, line: Region)
    ensures LinePiece(p, line) == [] <==> !exists x :: p.Covers(x) && line.Covers(x)
    ensures LinePiece(p, line) != [] ==>
              forall x :: LinePiece(p, line)[0].Covers(x) <==> p.Covers(x) && line.Covers(x)
  {
    if LinePiece(p, line) == [] {
      forall x | p.Covers(x) ensures !line.Covers(x) { }
    } else {
      var x := LinePiece(p, line)[0].offset;
      assert p.Covers(x) && line.Covers(x);
    }
  }

  /** The pieces of `p` on the lines lo ..< hi, in line order. */
  function LinePieces(p: Position, lines: seq<Region>, lo: nat, hi: nat): seq<Position>
    requires hi <= |lines|
    decreases hi
  {
    if hi <= lo then [] else LinePieces(p, lines, lo, hi - 1) + LinePiece(p, lines[hi - 1])
  }

  /** Every piece is non-empty and lies inside `p`. */
  lemma {:induction false} LinePiecesInside(p: Position, lines: seq<Region>, lo: nat, hi: nat)
    requires hi <= |lines|
    ensures forall q :: q in LinePieces(p, lines, lo, hi) ==>
              q.length > 0 && p.offset <= q.offset && q.End() <= p.End()
    decreases hi
  {
    if lo < hi {
      LinePiecesInside(p, lines, lo, hi - 1);
      assert LinePieces(p, lines, lo, hi) == LinePieces(p, lines, lo, hi - 1) + LinePiece(p, lines[hi - 1]);
    }
  }

  /** A piece is produced for line i exactly when the line and `p` share an offset. */
  lemma {:induction false} LinePiecesExact(p: Position, lines: seq<Region>, lo: nat, hi: nat)
    requires hi <= |lines|
    ensures forall i :: lo <= i < hi && LinePiece(p, lines[i]) != [] ==>
              LinePiece(p, lines[i])[0] in LinePieces(p, lines, lo, hi)
    ensures forall q :: q in LinePieces(p, lines, lo, hi) ==>
              exists i :: lo <= i < hi && LinePiece(p, lines[i]) == [q]
    decreases hi
  {
    if lo < hi {
      LinePiecesExact(p, lines, lo, hi - 1);
      var a := LinePieces(p, lines, lo, hi - 1);
      var b := LinePiece(p, lines[hi - 1]);
      assert LinePieces(p, lines, lo, hi) == a + b;
      forall q | q in a + b ensures exists i :: lo <= i < hi && LinePiece(p, lines[i]) == [q] {
        if q !in a {
          assert b == [q];
        }
      }
    }
  }

  /** Each line ends before the next one starts. */
  predicate LinesInOrder(lines: seq<Region>) {
    forall i, j :: 0 <= i < j < |lines| ==> lines[i].End() <= lines[j].offset
  }

  /** When every line lo ..< hi ends by `bound`, so does every piece. */
  lemma {:induction false} LinePiecesEndBy(p: Position, lines: seq<Region>, lo: nat, hi: nat, bound: int)
    requires hi <= |lines|
    requires forall i :: lo <= i < hi ==> lines[i].End() <= bound
    ensures forall k :: 0 <= k < |LinePieces(p, lines, lo, hi)| ==> LinePieces(p, lines, lo, hi)[k].End() <= bound
    decreases hi
  {
    if lo < hi {
      LinePiecesEndBy(p, lines, lo, hi - 1, bound);
      var a := LinePieces(p, lines, lo, hi - 1);
      var b := LinePiece(p, lines[hi - 1]);
      var r := a + b;
      assert r == LinePieces(p, lines, lo, hi);
      forall k | 0 <= k < |r| ensures r[k].End() <= bound {
        if k < |a| {
          assert r[k] == a[k];
          assert a[k].End() <= bound;
        } else {
          assert r[k] == b[0] && b[0] in b;
          assert b[0].End() <= lines[hi - 1].End();
          assert r[k].End() <= lines[hi - 1].End();
        }
      }
    }
  }

  /** On a document whose lines are in order, the pieces are disjoint and in order. */
  lemma {:induction false} LinePiecesDisjoint(p: Position, lines: seq<Region>, lo: nat, hi: nat)
    requires hi <= |lines| && LinesInOrder(lines)
    ensures forall j, k :: 0 <= j < k < |LinePieces(p, lines, lo, hi)| ==>
              LinePieces(p, lines, lo, hi)[j].End() <= LinePieces(p, lines, lo, hi)[k].offset
    decreases hi
  {
    if lo < hi {
      LinePiecesDisjoint(p, lines, lo, hi - 1);
      var a := LinePieces(p, lines, lo, hi - 1);
      var b := LinePiece(p, lines[hi - 1]);
      var r := a + b;
      assert r == LinePieces(p, lines, lo, hi);
      if b == [] {
        assert r == a;
      } else {
        forall i | lo <= i < hi - 1 ensures lines[i].End() <= lines[hi - 1].offset { }
        LinePiecesEndBy(p, lines, lo, hi - 1, lines[hi - 1].offset);
        assert b[0] in b;
        assert lines[hi - 1].offset <= b[0].offset;
        forall j, k | 0 <= j < k < |r| ensures r[j].End() <= r[k].offset {
          assert r[j] == a[j];
          if k < |a| {
            assert r[k] == a[k];
          } else {
            assert r[k] == b[0];
          }
        }
      }
    }
  }

  /** The pieces together cover exactly the offsets of `p` that lie on the lines lo ..< hi. */
  lemma {:induction false} LinePiecesCover(p: Position, lines: seq<Region>, lo: nat, hi: nat, x: int)
    requires hi <= |lines|
    ensures (exists q :: q in LinePieces(p, lines, lo, hi) && q.Covers(x)) <==>
              p.Covers(x) && exists i :: lo <= i < hi && lines[i].Covers(x)
    decreases hi
  {
    if lo < hi {
      LinePiecesCover(p, lines, lo, hi - 1, x);
      LinePieceIsIntersection(p, lines[hi - 1]);
      var a := LinePieces(p, lines, lo, hi - 1);
      var b := LinePiece(p, lines[hi - 1]);
      assert LinePieces(p, lines, lo, hi) == a + b;
      if p.Covers(x) && lines[hi - 1].Covers(x) {
        assert b[0] in a + b && b[0].Covers(x);
      }
      if exists i :: lo <= i < hi - 1 && lines[i].Covers(x) {
        var i :| lo <= i < hi - 1 && lines[i].Covers(x);
        assert lo <= i < hi && lines[i].Covers(x);
      }
      if q :| q in a + b && q.Covers(x) {
        if q !in a {
          assert q == b[0];
        }
      }
    }
  }

  /** The request for one line's piece: drawn when it is not empty and has a widget range. */
  function PieceDraws(piece: seq<Position>, visible: Region, color: Color): seq<DrawRequest> {
    if piece == [] then []
    else match GetWidgetRange(Some(piece[0]), visible)
      case None => []
      case Some(range) => [DrawRequest(range, color)]
  }

  /** The requests of the line loop over the lines lo ..< hi, line by line. */
  function LineDraws(p: Position, lines: seq<Region>, lo: nat, hi: nat, visible: Region, color: Color)
    : seq<DrawRequest>
    requires hi <= |lines|
    decreases hi
  {
    if hi <= lo then []
    else LineDraws(p, lines, lo, hi - 1, visible, color) + PieceDraws(LinePiece(p, lines[hi - 1]), visible, color)
  }

  /**
   * The line loop draws exactly the pieces of `p` that have a widget range,
   * each over that range and in the decoration's colour.
   */
  lemma {:induction false} LineDrawsMembers(p: Position, lines: seq<Region>, lo: nat, hi: nat,
                                            visible: Region, color: Color, r: DrawRequest)
    requires hi <= |lines|
    ensures r in LineDraws(p, lines, lo, hi, visible, color) <==>
              r.color == color &&
              exists q :: q in LinePieces(p, lines, lo, hi) && GetWidgetRange(Some(q), visible) == Some(r.range)
    decreases hi
  {
    if lo < hi {
      LineDrawsMembers(p, lines, lo, hi - 1, visible, color, r);
      var piece := LinePiece(p, lines[hi - 1]);
      assert LinePieces(p, lines, lo, hi) == LinePieces(p, lines, lo, hi - 1) + piece;
      if piece != [] {
        assert piece == [piece[0]];
      }
    }
  }

  /**
   * At most one request per line, and each one inside the visible region in
   * widget coordinates.
   */
  lemma {:induction false} LineDrawsInVisible(p: Position, lines: seq<Region>, lo: nat, hi: nat,
                                              visible: Region, color: Color)
    requires hi <= |lines| && visible.length >= 0
    ensures |LineDraws(p, lines, lo, hi, visible, color)| <= hi - lo || hi <= lo
    ensures forall r :: r in LineDraws(p, lines, lo, hi, visible, color) ==>
              && r.color == color
              && 0 <= r.range.offset && 0 <= r.range.length && r.range.End() <= visible.length
    decreases hi
  {
    if lo < hi {
      LineDrawsInVisible(p, lines, lo, hi - 1, visible, color);
    }
  }

  /**
   * One more line for the loop: the piece [paintStart, paintEnd) of `p` on
   * line i is drawn when it is not empty and has a widget range.
   */
  lemma LineDrawsStep(p: Position, lines: seq<Region>, lo: nat, i: nat, visible: Region, color: Color,
                      paintStart: int, paintEnd: int, drawn: seq<DrawRequest>)
    requires lo <= i < |lines|
    requires paintStart == Max(lines[i].offset, p.offset)
    requires paintEnd == Min(lines[i].offset + lines[i].length, p.offset + p.length)
    requires paintEnd > paintStart ==>
               var range := GetWidgetRange(Some(Position(paintStart, paintEnd - paintStart, false)), visible);
               drawn == if range.Some? then [DrawRequest(range.value, color)] else []
    requires paintEnd <= paintStart ==> drawn == []
    ensures LineDraws(p, lines, lo, i + 1, visible, color) == LineDraws(p, lines, lo, i, visible, color) + drawn
  {
  }

  /**
   * The line loop of `handleDrawRequest` for one decoration: one piece per line
   * from startLine to endLine, drawn when it is not empty and has a widget range.
   * Asking for a line past the last one throws BadLocationException, which ends
   * the loop.
   */
  method DrawLines(p: Position, color: Color, lines: seq<Region>, startLine: nat, endLine: nat, visible: Region)
    returns (draws: seq<DrawRequest>)
    ensures draws == LineDraws(p, lines, startLine, Min(endLine + 1, |lines|), visible, color)
  {
    draws := [];
    ghost var hi := Min(endLine + 1, |lines|);
    var i := startLine;
    while i <= endLine
      invariant startLine <= i
      invariant i <= hi ==> draws == LineDraws(p, lines, startLine, i, visible, color)
      invariant i > hi ==> i == startLine && draws == []
    {
      if i >= |lines| {
        break;
      }
      var line := lines[i];
      var paintStart := Max(line.offset, p.offset);
      var paintEnd := Min(line.offset + line.length, p.offset + p.length);
      ghost var before := draws;
      ghost var drawn := [];
      if paintEnd > paintStart {
        // an empty piece lies in the line terminator and is not drawn
        var widgetRange := GetWidgetRange(Some(Position(paintStart, paintEnd - paintStart, false)), visible);
        if widgetRange.Some? {
          drawn := [DrawRequest(widgetRange.value, color)];
          draws := draws + [DrawRequest(widgetRange.value, color)];
        }
      }
      LineDrawsStep(p, lines, startLine, i, visible, color, paintStart, paintEnd, drawn);
      i := i + 1;
    }
  }

  /**
   * All draw requests of `handleDrawRequest` for one decoration: nothing unless
   * its position overlaps the painted range [vOffset, vOffset + vLength); then
   * the pieces on the lines from that of its first offset to that of its last
   * one (its first one when it is empty). `lineOf` is the document's
   * getLineOfOffset, None standing for BadLocationException.
   */
  function DecorationDraws(d: Decoration, vOffset: int, vLength: int, lines: seq<Region>,
                           lineOf: int -> Option<nat>, visible: Region): seq<DrawRequest>
  {
    var p := d.position;
    if !OverlapsWith(p, vOffset, vLength) then []
    else match lineOf(p.offset)
      case None => []
      case Some(startLine) =>
        match lineOf(Max(p.offset, p.End() - 1))
        case None => []
        case Some(endLine) => LineDraws(p, lines, startLine, Min(endLine + 1, |lines|), visible, d.color)
  }

  /**
   * The body of the decoration loop of `handleDrawRequest` for a decoration on
   * the current layer: the line range of its position, then the line loop. A
   * BadLocationException from the line lookup skips the decoration.
   */
  method DrawDecoration(pp: Decoration, vOffset: int, vLength: int, lines: seq<Region>,
                        lineOf: int -> Option<nat>, visible: Region)
    returns (draws: seq<DrawRequest>)
    ensures draws == DecorationDraws(pp, vOffset, vLength, lines, lineOf, visible)
  {
    draws := [];
    var p := pp.position;
    if OverlapsWith(p, vOffset, vLength) {
      var startLine := lineOf(p.offset);
      if startLine.Some? {
        var lastInclusive := Max(p.offset, p.offset + p.length - 1);
        var endLine := lineOf(lastInclusive);
        if endLine.Some? {
          draws := DrawLines(p, pp.color, lines, startLine.value, endLine.value, visible);
        }
      }
    }
  }
}

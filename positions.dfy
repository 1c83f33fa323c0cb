/**
 * Document ranges as the annotation painter sees them: JFace's `Position`
 * (a range whose constructor insists on a non-negative offset and length, and
 * which the document marks deleted when its text goes away) and `IRegion`
 * (a plain offset/length pair, used for lines, visible regions and widget ranges).
 */
module Positions {
  import opened JavaTypes

  datatype Position = Position(offset: nat, length: nat, isDeleted: bool) {
    function End(): int { offset + length }
    /** Whether the character at offset `x` lies in this position. */
    predicate Covers(x: int) { offset <= x < End() }
  }

  datatype Region = Region(offset: int, length: int) {
    function End(): int { offset + length }
    predicate Covers(x: int) { offset <= x < End() }
  }

  /**
   * `Position.overlapsWith(rangeOffset, rangeLength)`: two non-empty ranges
   * overlap when they share an offset; an empty range overlaps a non-empty one
   * when it sits inside it (its end excluded); two empty ranges overlap when
   * they sit at the same offset.
   */
  predicate OverlapsWith(p: Position, rangeOffset: int, rangeLength: int)
    ensures OverlapsWith(p, rangeOffset, rangeLength) && rangeLength >= 0 ==>
              rangeOffset <= p.End() && p.offset <= rangeOffset + rangeLength
    ensures OverlapsWith(p, rangeOffset, rangeLength) && p.length > 0 && rangeLength > 0 ==>
              p.Covers(Max(p.offset, rangeOffset)) && Region(rangeOffset, rangeLength).Covers(Max(p.offset, rangeOffset))
  {
    var end := rangeOffset + rangeLength;
    var thisEnd := p.offset + p.length;
    if rangeLength > 0 then
      if p.length > 0 then p.offset < end && rangeOffset < thisEnd
      else rangeOffset <= p.offset && p.offset < end
    else if p.length > 0 then p.offset <= rangeOffset && rangeOffset < thisEnd
    else p.offset == rangeOffset
  }

  /** For two non-empty ranges, overlapping means sharing at least one offset. */
  lemma OverlapsIffShared(p: Position, rangeOffset: int, rangeLength: int)
    requires p.length > 0 && rangeLength > 0
    ensures OverlapsWith(p, rangeOffset, rangeLength) <==>
              exists x :: p.Covers(x) && Region(rangeOffset, rangeLength).Covers(x)
  {
    if OverlapsWith(p, rangeOffset, rangeLength) {
      var x := Max(p.offset, rangeOffset);
      assert p.Covers(x) && Region(rangeOffset, rangeLength).Covers(x);
    }
  }
}

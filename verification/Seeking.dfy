/** Moving a 64-bit stream position by a signed 64-bit offset. */
module Seeking {
  import opened Common
  import opened MultiVolumeSpec

  /** What moving `position` by `offset` answers. */
  function ShiftStatus(position: nat, offset: int): Status {
    if offset < 0 && (offset == -TWO_63 || position + offset < 0) then NegativeSeek
    else if position + offset >= TWO_64 then InvalidArgument
    else Ok
  }

  /**
    * The new position is the exact sum whenever that sum is a 64-bit position, and the position is
    * left alone otherwise. One offset is refused although its sum may be a position: the most
    * negative one, whose negation does not fit.
    */
  method SeekToOffset(position: nat, offset: int) returns (status: Status, target: nat)
    requires position < TWO_64 && -TWO_63 <= offset < TWO_63
    ensures status == Ok <==> offset != -TWO_63 && 0 <= position + offset < TWO_64
    ensures status == Ok ==> target == position + offset
    ensures status != Ok ==> target == position
    ensures status == NegativeSeek <==> offset < 0 && (offset == -TWO_63 || position + offset < 0)
    ensures status == InvalidArgument <==> position + offset >= TWO_64
    ensures status == ShiftStatus(position, offset)
  {
    target := position;
    if offset < 0 {
      if offset == -TWO_63 {
        return NegativeSeek, target;
      }
      var positiveOffset := -offset;
      if position < positiveOffset {
        return NegativeSeek, target;
      }
      target := target - positiveOffset;
    } else if offset > 0 {
      var seekPosition := (position + offset) % TWO_64;
      if seekPosition < position {
        return InvalidArgument, target;
      }
      target := seekPosition;
    }
    status := Ok;
  }

  /**
    * Where the refusal is too strict: a move to a valid position is refused exactly when it goes back by
    * 2^63 from a position in the upper half of the range.
    */
  lemma UpperHalfRewind(position: nat, offset: int)
    requires position < TWO_64 && -TWO_63 <= offset < TWO_63
    ensures 0 <= position + offset < TWO_64 && ShiftStatus(position, offset) != Ok
            <==> offset == -TWO_63 && position >= TWO_63
    ensures ShiftStatus(TWO_63, -TWO_63) == NegativeSeek
  {
  }

  /** The origins a caller may name; any other number is refused. */
  const SEEK_SET: nat := 0
  const SEEK_CUR: nat := 1
  const SEEK_END: nat := 2

  /** Moving by `offset` from `base` is carried out: the sum is a position, and it is not the one offset refused. */
  predicate CanMove(base: nat, offset: int) {
    offset != -TWO_63 && 0 <= base + offset < TWO_64
  }

  /** What a seek on a stream answers, given its cursor and its size. */
  function SeekStatus(cursor: nat, size: nat, offset: int, origin: nat): Status {
    if origin > SEEK_END then InvalidFunction
    else ShiftStatus(if origin == SEEK_SET then 0 else if origin == SEEK_CUR then cursor else size, offset)
  }

  /** Where a seek on a stream ends up, given its cursor and its size; None when the seek is refused. */
  function SeekTarget(cursor: nat, size: nat, offset: int, origin: nat): (t: Option<nat>)
    ensures t.Some? <==> SeekStatus(cursor, size, offset, origin) == Ok
  {
    if origin > SEEK_END || offset == -TWO_63 then None
    else
      var base := if origin == SEEK_SET then 0 else if origin == SEEK_CUR then cursor else size;
      if 0 <= base + offset < TWO_64 then Some(base + offset) else None
  }
}

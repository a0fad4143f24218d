/** Error numbers returned (negated) by the read path. */
module Errno {
  const EINVAL: int := 22
}

/**
 * `simple_read_from_buffer(to, count, ppos, from, available)` of the kernel's
 * libfs: copy up to `count` bytes of the first `available` bytes of `from`,
 * starting at position `*ppos`, to the caller, advance `*ppos` by what was
 * copied and return that number. It returns 0 when the position is at or past
 * `available` or when `count` is 0, and -EINVAL for a negative position.
 */
module LibFs {
  import opened Errno

  /** What the routine returns, the bytes it hands over, and the new position. */
  datatype Copy = Copy(ret: int, data: seq<bv8>, pos: int)

  function SimpleReadFromBuffer(count: nat, pos: int, from: seq<bv8>, available: nat): (c: Copy)
    requires available <= |from|
    ensures pos < 0 ==> c == Copy(-EINVAL, [], pos)
    ensures pos >= 0 ==> 0 <= c.ret <= count && |c.data| == c.ret && c.pos == pos + c.ret
    ensures pos >= 0 && c.ret > 0 ==> pos + c.ret <= available && c.data == from[pos..pos + c.ret]
    // nothing is copied exactly when nothing is asked for or nothing is left
    ensures pos >= 0 ==> (c.ret == 0 <==> count == 0 || pos >= available)
    // otherwise as much is copied as both limits allow
    ensures pos >= 0 && c.ret > 0 ==> c.ret == count || pos + c.ret == available
  {
    if pos < 0 then Copy(-EINVAL, [], pos)
    else if pos >= available || count == 0 then Copy(0, [], pos)
    else
      var n := if count > available - pos then available - pos else count;
      Copy(n, from[pos..pos + n], pos + n)
  }
}

/** What several modules share. */
module Prelude {
  datatype Option<T> = None | Some(value: T)

  type u8 = x: int | 0 <= x < 256

  function Abs(v: int): nat { if v < 0 then -v else v }

  /** A request for memory or to a device: it may fail, unless such requests never do. */
  method Granted(always: bool) returns (ok: bool)
    ensures always ==> ok
  {
    ok := *;
    if always { ok := true; }
  }

  /** A number below 256 as a byte and back. */
  lemma ThereAndBack(b: int)
    requires 0 <= b < 256
    ensures (b as bv8) as int == b
  {
    if b >= 16 {
      var h, l := b / 16, b % 16;
      Nibble(h);
      Nibble(l);
      TwoNibbles(h as bv8, l as bv8, h, l);
    } else {
      Nibble(b);
    }
  }

  lemma Nibble(b: int)
    requires 0 <= b < 16
    ensures (b as bv8) as int == b
  {}

  lemma TwoNibbles(x: bv8, y: bv8, h: int, l: int)
    requires 0 <= h < 16 && 0 <= l < 16 && x as int == h && y as int == l
    ensures (16 * x + y) as int == 16 * h + l
  {}
}

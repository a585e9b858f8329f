/**
 * Android colour ints (`@ColorInt`), taken as their 32-bit pattern AARRGGBB.
 * `Alpha` is `Color.alpha` (`c >>> 24`), `Pack` is `Color.argb`
 * (`(a << 24) | (r << 16) | (g << 8) | b`).
 */
module Argb {

  function Alpha(c: bv32): bv8 { (c >> 24) as bv8 }

  function Red(c: bv32): bv8 { ((c >> 16) & 0xff) as bv8 }

  function Green(c: bv32): bv8 { ((c >> 8) & 0xff) as bv8 }

  function Blue(c: bv32): bv8 { (c & 0xff) as bv8 }

  /** `Color.argb`: the four channels occupy disjoint byte lanes, so each reads back unchanged. */
  function Pack(a: bv8, r: bv8, g: bv8, b: bv8): (c: bv32)
    ensures Alpha(c) == a && Red(c) == r && Green(c) == g && Blue(c) == b
  {
    ((a as bv32) << 24) | ((r as bv32) << 16) | ((g as bv32) << 8) | (b as bv32)
  }

  /** A colour is determined by its four channels. */
  lemma PackChannels(c: bv32)
    ensures Pack(Alpha(c), Red(c), Green(c), Blue(c)) == c
  {
  }
}

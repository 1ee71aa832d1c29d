/**
  The keyboard-state test of main.cpp (`keyIsPressed`). The X server reports
  the keyboard as a 256-bit vector packed into 32 bytes: keycode `kc` is bit
  `kc % 8` of byte `kc / 8`. The C bit operations on these non-negative
  values are written out on integers: `>> 3` is division by 8, `& 7` is the
  remainder modulo 8, `1 << j` is `Pow2(j)`, and `&` is `And`.
*/
module Keymap {
  import opened Bytes

  /** An X keycode (`KeyCode` is an unsigned char). */
  type KeyCode = c: int | 0 <= c < 256

  /** The `char keys[32]` that `XQueryKeymap` fills in. */
  type KeyVector = k: seq<Byte> | |k| == 32 witness seq(32, _ => 0)

  /** `1 << j`. */
  function Pow2(j: nat): (p: nat)
    ensures p >= 1
  {
    if j == 0 then 1 else 2 * Pow2(j - 1)
  }

  /** Bitwise AND of two non-negative integers, one binary digit at a time. */
  function And(a: nat, b: nat): (c: nat)
    decreases a
  {
    if a == 0 || b == 0 then 0
    else 2 * And(a / 2, b / 2) + (if a % 2 == 1 && b % 2 == 1 then 1 else 0)
  }

  /**
    `keyIsPressed` once `XKeysymToKeycode` has turned the keysym into the
    keycode `kc`: byte `kc >> 3` masked with `1 << (kc & 7)`. Every 8-bit
    keycode indexes one of the 32 bytes, so the access is always in bounds.
  */
  function KeyIsPressed(keys: KeyVector, kc: KeyCode): (pressed: bool) {
    And(keys[kc / 8], Pow2(kc % 8)) != 0
  }

  /** Bit `j` of the binary numeral of `v`: the reference meaning of a keymap bit. */
  ghost predicate Bit(v: nat, j: nat)
    decreases j
  {
    if j == 0 then v % 2 == 1 else Bit(v / 2, j - 1)
  }

  /** `keyIsPressed` reports bit `kc % 8` of byte `kc / 8` of the keymap. */
  lemma KeyIsPressedReadsBit(keys: KeyVector, kc: KeyCode)
    ensures KeyIsPressed(keys, kc) <==> Bit(keys[kc / 8], kc % 8)
  {
    MaskTestsBit(keys[kc / 8], kc % 8);
  }

  /** Masking with `1 << j` tests exactly bit `j`. */
  lemma {:induction false} MaskTestsBit(b: nat, j: nat)
    ensures And(b, Pow2(j)) != 0 <==> Bit(b, j)
    decreases j
  {
    if j == 0 {
      assert And(b / 2, 0) == 0;
    } else {
      var p := Pow2(j - 1);
      assert Pow2(j) == 2 * p;
      AndEven(b, p);
      MaskTestsBit(b / 2, j - 1);
    }
  }

  /** An even mask drops the lowest bit: `b & 2p` is twice `(b >> 1) & p`. */
  lemma AndEven(b: nat, p: nat)
    requires p >= 1
    ensures And(b, 2 * p) == 2 * And(b / 2, p)
  {
    if b == 0 {
      assert And(0, p) == 0;
    } else {
      assert (2 * p) / 2 == p && (2 * p) % 2 == 0;
      assert And(b, 2 * p) == 2 * And(b / 2, p) + 0;
    }
  }
}

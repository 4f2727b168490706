/** LED pins of a board and the register macros that drive them.

    A 32-bit register or mask is the set of the bit positions that are 1, so `&` is `*`, `|` is `+`,
    `x & ~m` is `x - m`, `x ^ y` is `Xor` and `1 << p` is `{p}`. */
module Boards {
  import opened Common

  type Pin = p: int | 0 <= p < 32
  type Word = set<Pin>

  function Xor(x: Word, y: Word): Word { (x - y) + (y - x) }

  /** `leds` is every LED pin, `inv` the pins that are lit when driven low. */
  datatype Board = Board(leds: Word, inv: Word, led0: Pin, led1: Pin, led2: Option<Pin>) {

    ghost predicate Valid() {
      && led0 in leds && led1 in leds && led0 != led1
      && (led2.Some? ==> led2.value in leds && led2.value != led0 && led2.value != led1)
    }

    /** The LED used for alerts: LED 2 where the board has one, LED 1 otherwise. */
    function Alert(): Pin { if led2.Some? then led2.value else led1 }
  }

  /** The same board with another polarity. */
  function Rewired(b: Board, inv: Word): Board { b.(inv := inv) }

  /** The LEDs that are lit when the OUT register holds `out`. */
  function Lit(b: Board, out: Word): Word { Xor(out, b.inv) * b.leds }

  // ----- The macros, as functions of the OUT register -----

  function LedsOff(b: Board, mask: Word, out: Word): Word {
    (out + mask * (b.leds * b.inv)) - mask * (b.leds - b.inv)
  }

  function LedsOn(b: Board, mask: Word, out: Word): Word {
    (out - mask * (b.leds * b.inv)) + mask * (b.leds - b.inv)
  }

  predicate LedIsOn(b: Board, mask: Word, out: Word) { mask * Xor(out, b.inv) != {} }

  function LedsInvert(mask: Word, out: Word): Word {
    (out + (mask - out)) - mask * out
  }

  // ----- What they do to the LEDs, whatever the polarity -----

  lemma OffRefines(b: Board, mask: Word, out: Word)
    ensures Lit(b, LedsOff(b, mask, out)) == Lit(b, out) - mask
    ensures LedsOff(b, mask, out) - b.leds == out - b.leds
  {
  }

  lemma OnRefines(b: Board, mask: Word, out: Word)
    ensures Lit(b, LedsOn(b, mask, out)) == Lit(b, out) + mask * b.leds
    ensures LedsOn(b, mask, out) - b.leds == out - b.leds
  {
  }

  /** Inverting does not filter with the LED mask, so only the part of the mask inside it is an LED
      change; the rest of the mask toggles other pins. */
  lemma InvertRefines(b: Board, mask: Word, out: Word)
    ensures Lit(b, LedsInvert(mask, out)) == Xor(Lit(b, out), mask * b.leds)
    ensures LedsInvert(mask, out) - b.leds == Xor(out - b.leds, mask - b.leds)
  {
  }

  lemma IsOnReadsLit(b: Board, led: Pin, out: Word)
    requires led in b.leds
    ensures LedIsOn(b, {led}, out) <==> led in Lit(b, out)
  {
    assert LedIsOn(b, {led}, out) <==> led in {led} * Xor(out, b.inv);
  }

  /** The lit LEDs and the other pins together determine the OUT register, pin by pin: where the LEDs
      agree outside `except`, so do the pins. */
  lemma OutDetermined(b: Board, x: Word, y: Word, except: Word)
    requires Lit(b, x) - except == Lit(b, y) - except && x - b.leds == y - b.leds
    ensures x - except == y - except
  {
    forall p: Pin | p !in except ensures p in x <==> p in y {
      assert p in Lit(b, x) - except <==> p in Lit(b, y) - except;
      assert p in x - b.leds <==> p in y - b.leds;
    }
  }
}

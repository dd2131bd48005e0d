/**
 * The typing effect: a fixed text revealed one character per timer tick into
 * an element's text, after which the blinking cursor is hidden. The header
 * name and each section title run the same state machine; only the tick
 * interval differs.
 */
module Typing {
  import opened Viewport

  class Typewriter {
    /** The text being typed. */
    const text: string
    /** The target element's `textContent`. */
    var shown: string
    /** The `charIndex` of the closure. */
    var charIndex: nat
    /** Whether the cursor carries the `hide` class. */
    var cursorHidden: bool

    /** What is shown is always the first `charIndex` characters. */
    ghost predicate Valid()
      reads this
    {
      charIndex <= |text| && shown == text[..charIndex]
    }

    /** Typing set up: the element emptied, nothing typed yet, cursor visible. */
    constructor (text: string)
      ensures Valid() && this.text == text
      ensures charIndex == 0 && shown == [] && !cursorHidden
    {
      this.text := text;
      shown := [];
      charIndex := 0;
      cursorHidden := false;
    }

    /** One run of `type()`: append the next character, or, once all are
        shown, hide the cursor. */
    method Step() returns (done: bool)
      requires Valid()
      modifies this
      ensures Valid()
      ensures done <==> old(charIndex) == |text|
      ensures !done ==> charIndex == old(charIndex) + 1 && shown == old(shown) + [text[old(charIndex)]]
                        && cursorHidden == old(cursorHidden)
      ensures done ==> charIndex == old(charIndex) && shown == old(shown) && cursorHidden
    {
      if charIndex < |text| {
        assert text[..charIndex + 1] == text[..charIndex] + [text[charIndex]];
        shown := shown + [text[charIndex]];
        charIndex := charIndex + 1;
        done := false;
      } else {
        cursorHidden := true;
        done := true;
      }
    }

    /** `k` ticks of the timer chain. */
    method Run(k: nat)
      requires Valid()
      modifies this
      ensures Valid()
      ensures charIndex == Min(old(charIndex) + k, |text|)
      ensures shown == text[..charIndex]
      ensures cursorHidden <==> old(cursorHidden) || old(charIndex) + k > |text|
    {
      var ticks := 0;
      while ticks < k
        invariant 0 <= ticks <= k
        invariant Valid()
        invariant charIndex == Min(old(charIndex) + ticks, |text|)
        invariant cursorHidden <==> old(cursorHidden) || old(charIndex) + ticks > |text|
      {
        var done := Step();
        ticks := ticks + 1;
      }
    }
  }
}

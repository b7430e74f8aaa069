/** `PicoKeyboardInput` (src/platform/pico/PicoInput.cpp and PicoInput.hpp): the
    keyboard state kept from the southbridge's event FIFO. Each 16-bit event
    word carries a key state in its high byte and a key code in its low byte.
    `keyDown_` holds one byte per key code, and `pressedBits_` holds one bit
    per key code in eight 32-bit words, set for the keys pressed during the
    current frame. The FIFO is modelled as the sequence of words that
    `sb_read_keyboard` would return while `sb_available` holds. */
module PicoInput {
  import opened Ints

  const KEY_STATE_IDLE: int := 0
  const KEY_STATE_PRESSED: int := 1
  const KEY_STATE_HOLD: int := 2
  const KEY_STATE_RELEASED: int := 3
  /** The drain loop's cap on events read per update. */
  const MAX_EVENTS: nat := 64

  datatype Keyboard = Keyboard(keyDown: seq<byte>, pressedBits: seq<bv32>)
  {
    predicate Valid() { |keyDown| == 256 && |pressedBits| == 8 }
  }

  /** `1u << (key & 31)`: the bit of `key` inside its word. */
  function KeyBit(key: byte): bv32 {
    (1 as bv32) << (key % 32)
  }

  /** `down(key)`. */
  predicate Down(kb: Keyboard, key: byte)
    requires kb.Valid()
  {
    kb.keyDown[key] != 0
  }

  /** `pressed(key)`: bit `key & 31` of word `key >> 5`. */
  predicate Pressed(kb: Keyboard, key: byte)
    requires kb.Valid()
  {
    kb.pressedBits[key / 32] & KeyBit(key) != 0
  }

  /** Two keys share a bit only if they are the same key. */
  lemma KeyBitsDistinct(a: byte, b: byte)
    requires a / 32 == b / 32 && a != b
    ensures KeyBit(a) & KeyBit(b) == 0
  {
    KeyBitInjective(a, b);
    KeyBitOneBit(a);
    KeyBitOneBit(b);
    OneBitsDisjoint(KeyBit(a), KeyBit(b));
  }

  lemma KeyBitOneBit(a: byte)
    ensures OneBit(KeyBit(a))
  {
    ShiftOneBit(a % 32);
  }

  lemma KeyBitInjective(a: byte, b: byte)
    requires a / 32 == b / 32 && a != b
    ensures KeyBit(a) != KeyBit(b)
  {
    assert a % 32 != b % 32;
    if a % 32 < b % 32 {
      ShiftInjective(a % 32, b % 32);
    } else {
      ShiftInjective(b % 32, a % 32);
    }
  }

  /** A word with exactly one bit set. */
  predicate OneBit(x: bv32) { x != 0 && x & (x - 1) == 0 }

  lemma ShiftOneBit(n: int)
    requires 0 <= n < 32
    ensures OneBit((1 as bv32) << n)
  {
  }

  lemma ShiftInjective(n: int, m: int)
    requires 0 <= n < m < 32
    ensures (1 as bv32) << n != (1 as bv32) << m
  {
  }

  lemma OneBitsDisjoint(x: bv32, y: bv32)
    requires OneBit(x) && OneBit(y) && x != y
    ensures x & y == 0
  {
  }

  /** `clearPressedBits`: no key is pressed, the down state is untouched. */
  function ClearPressedBits(kb: Keyboard): (r: Keyboard)
    requires kb.Valid()
    ensures r.Valid() && r.keyDown == kb.keyDown
    ensures forall key: byte :: !Pressed(r, key)
  {
    kb.(pressedBits := seq(8, _ => 0 as bv32))
  }

  /** `markPressed`: sets exactly the bit `pressed(key)` tests, so the pressed
      keys afterwards are those before plus `key`. */
  function MarkPressed(kb: Keyboard, key: byte): (r: Keyboard)
    requires kb.Valid()
    ensures r.Valid() && r.keyDown == kb.keyDown
    ensures forall k: byte :: Pressed(r, k) <==> Pressed(kb, k) || k == key
  {
    var w := key / 32;
    var r := kb.(pressedBits := kb.pressedBits[w := kb.pressedBits[w] | KeyBit(key)]);
    assert forall k: byte :: Pressed(r, k) <==> Pressed(kb, k) || k == key by {
      forall k: byte ensures Pressed(r, k) <==> Pressed(kb, k) || k == key {
        MarkedBit(kb.pressedBits, key, k);
      }
    }
    r
  }

  /** After setting `key`'s bit, the bit of `k` is set exactly when it was
      set before or `k` is `key`. */
  lemma MarkedBit(bits: seq<bv32>, key: byte, k: byte)
    requires |bits| == 8
    ensures var b := bits[key / 32 := bits[key / 32] | KeyBit(key)];
      b[k / 32] & KeyBit(k) != 0 <==> bits[k / 32] & KeyBit(k) != 0 || k == key
  {
    if k / 32 == key / 32 {
      SameWordBit(bits[k / 32], key, k);
    }
  }

  /** Within one word, or-ing in `key`'s bit sets `k`'s bit exactly when it
      was set or `k` is `key`. */
  lemma SameWordBit(x: bv32, key: byte, k: byte)
    requires k / 32 == key / 32
    ensures (x | KeyBit(key)) & KeyBit(k) != 0 <==> x & KeyBit(k) != 0 || k == key
  {
    if k != key {
      KeyBitsDistinct(k, key);
      OrOtherBit(x, KeyBit(key), KeyBit(k));
    } else {
      KeyBitOneBit(k);
      OrOwnBit(x, KeyBit(k));
    }
  }

  lemma OrOwnBit(x: bv32, a: bv32)
    ensures (x | a) & a == a
  {
  }

  lemma OrOtherBit(x: bv32, a: bv32, b: bv32)
    requires a & b == 0
    ensures (x | a) & b == x & b
  {
  }

  /** `init`: no key down, none pressed. The southbridge start-up is not modelled. */
  function Init(): (r: Keyboard)
    ensures r.Valid()
    ensures forall key: byte :: !Down(r, key) && !Pressed(r, key)
  {
    ClearPressedBits(Keyboard(seq(256, _ => 0), seq(8, _ => 0)))
  }

  /** The key state of an event word, `(uint8_t)(ev >> 8)`. */
  function Status(ev: u16): byte { ev / 0x100 }

  /** The key code of an event word, `(uint8_t)(ev & 0xFF)`. */
  function Code(ev: u16): byte { ev % 0x100 }

  predicate IsPressEvent(ev: u16, key: byte) {
    Status(ev) == KEY_STATE_PRESSED && Code(ev) == key
  }

  /** One event of the `switch`: PRESSED sets down and pressed, HOLD sets down,
      RELEASED clears down (a pressed bit set earlier this frame stays), and any
      other state changes nothing. Other keys are never affected. */
  function ApplyEvent(kb: Keyboard, ev: u16): (r: Keyboard)
    requires kb.Valid()
    ensures r.Valid()
    ensures forall key: byte :: Down(r, key) == DownStep(Down(kb, key), ev, key)
    ensures forall key: byte :: Pressed(r, key) <==> Pressed(kb, key) || IsPressEvent(ev, key)
  {
    var st, code := Status(ev), Code(ev);
    if st == KEY_STATE_PRESSED then MarkPressed(kb.(keyDown := kb.keyDown[code := 1]), code)
    else if st == KEY_STATE_HOLD then kb.(keyDown := kb.keyDown[code := 1])
    else if st == KEY_STATE_RELEASED then kb.(keyDown := kb.keyDown[code := 0])
    else kb
  }

  /** The effect of one event on whether a given key is down. */
  function DownStep(down: bool, ev: u16, key: byte): bool {
    if Code(ev) != key then down
    else if Status(ev) == KEY_STATE_PRESSED || Status(ev) == KEY_STATE_HOLD then true
    else if Status(ev) == KEY_STATE_RELEASED then false
    else down
  }

  /** Whether a key is down after a series of events: only that key's own
      events count, the last PRESSED/HOLD or RELEASED one deciding. */
  function DownAfter(down: bool, evs: seq<u16>, key: byte): bool
    decreases |evs|
  {
    if |evs| == 0 then down else DownStep(DownAfter(down, evs[..|evs| - 1], key), evs[|evs| - 1], key)
  }

  /** `update`: clear the pressed bits, then read at most 64 words, stopping
      early when the FIFO runs dry or at a word with state 0 (which is read and
      dropped). Returns the new state and the number of words read. */
  method Update(kb: Keyboard, fifo: seq<u16>) returns (r: Keyboard, used: nat)
    requires kb.Valid()
    ensures r.Valid()
    ensures used <= MAX_EVENTS && used <= |fifo|
    ensures forall j :: 0 <= j < used - 1 ==> Status(fifo[j]) != KEY_STATE_IDLE
    ensures used == MAX_EVENTS || used == |fifo| || (used > 0 && Status(fifo[used - 1]) == KEY_STATE_IDLE)
    ensures forall key: byte :: Pressed(r, key) <==> exists j :: 0 <= j < used && IsPressEvent(fifo[j], key)
    ensures forall key: byte :: Down(r, key) == DownAfter(Down(kb, key), fifo[..used], key)
  {
    r := ClearPressedBits(kb);
    var i := 0;
    var stop := false;
    while i < MAX_EVENTS && !stop
      invariant r.Valid()
      invariant i <= MAX_EVENTS && i <= |fifo|
      invariant forall j :: 0 <= j < i - 1 ==> Status(fifo[j]) != KEY_STATE_IDLE
      invariant !stop ==> forall j :: 0 <= j < i ==> Status(fifo[j]) != KEY_STATE_IDLE
      invariant stop ==> (i == |fifo| || (i > 0 && Status(fifo[i - 1]) == KEY_STATE_IDLE))
      invariant forall key: byte :: Pressed(r, key) <==> exists j :: 0 <= j < i && IsPressEvent(fifo[j], key)
      invariant forall key: byte :: Down(r, key) == DownAfter(Down(kb, key), fifo[..i], key)
      decreases MAX_EVENTS - i, !stop
    {
      if i >= |fifo| {
        stop := true;
      } else {
        var ev := fifo[i];
        var prev := r;
        if Status(ev) == KEY_STATE_IDLE {
          stop := true;
        } else {
          r := ApplyEvent(r, ev);
        }
        assert fifo[..i + 1][..i] == fifo[..i];
        assert forall key: byte :: Pressed(r, key) <==> Pressed(prev, key) || IsPressEvent(ev, key);
        i := i + 1;
      }
    }
    used := i;
  }

  // ---------------------------------------------------------------------------
  // Single events

  /** A PRESSED event for `key` makes it both down and pressed. */
  lemma PressedEventSetsBoth(kb: Keyboard, key: byte)
    requires kb.Valid()
    ensures var r := ApplyEvent(kb, KEY_STATE_PRESSED * 0x100 + key); Down(r, key) && Pressed(r, key)
  {
    var ev: u16 := KEY_STATE_PRESSED * 0x100 + key;
    assert Status(ev) == KEY_STATE_PRESSED && Code(ev) == key;
  }

  /** A HOLD event for `key` makes it down and leaves every pressed bit alone. */
  lemma HoldEventSetsDownOnly(kb: Keyboard, key: byte)
    requires kb.Valid()
    ensures var r := ApplyEvent(kb, KEY_STATE_HOLD * 0x100 + key);
      Down(r, key) && forall k: byte :: Pressed(r, k) == Pressed(kb, k)
  {
    var ev: u16 := KEY_STATE_HOLD * 0x100 + key;
    assert Status(ev) == KEY_STATE_HOLD && Code(ev) == key;
  }

  /** A RELEASED event for `key` clears its down state and keeps a pressed bit
      set earlier in the frame. */
  lemma ReleasedEventClearsDown(kb: Keyboard, key: byte)
    requires kb.Valid()
    ensures var r := ApplyEvent(kb, KEY_STATE_RELEASED * 0x100 + key);
      !Down(r, key) && Pressed(r, key) == Pressed(kb, key)
  {
    var ev: u16 := KEY_STATE_RELEASED * 0x100 + key;
    assert Status(ev) == KEY_STATE_RELEASED && Code(ev) == key;
  }

  /** A key pressed and released within one frame reads as pressed but not down. */
  lemma PressThenReleaseInOneFrame(kb: Keyboard, key: byte)
    requires kb.Valid()
    ensures var r := ApplyEvent(ApplyEvent(ClearPressedBits(kb), KEY_STATE_PRESSED * 0x100 + key), KEY_STATE_RELEASED * 0x100 + key);
      Pressed(r, key) && !Down(r, key)
  {
    var c := ClearPressedBits(kb);
    PressedEventSetsBoth(c, key);
    ReleasedEventClearsDown(ApplyEvent(c, KEY_STATE_PRESSED * 0x100 + key), key);
  }
}

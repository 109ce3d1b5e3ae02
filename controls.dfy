/**
 * `ControlsContext`: the buttons a screen of the game responds to, sorted
 * by type and code so that a key event finds its button by binary search,
 * each with a two-bit state: bit 0 says whether the button is held, bit 1
 * whether that changed since the last frame.
 *
 * The button objects become values; the table of `ButtonState` objects
 * becomes the sorted sequence `buttons` with the array `states` beside it.
 * The overridable hooks `onControlPressed` and the like do nothing here.
 */
module Controls {
  import opened Java

  /** A mouse or keyboard button: its type (`TYPE_MOUSE` 0 or `TYPE_KEYBOARD` 1) and its code. */
  datatype Button = Button(kind: byte, code: int32)

  const TYPE_MOUSE: byte := 0
  const TYPE_KEYBOARD: byte := 1

  // The two-bit states.
  const PREVIOUSLY_RELEASED: byte := 0
  const NEWLY_RELEASED: byte := 2
  const PREVIOUSLY_PRESSED: byte := 1
  const NEWLY_PRESSED: byte := 3

  /** `ControlsQuery.State`. */
  datatype State = PREVIOUSLY_PRESSED_STATE | PREVIOUSLY_RELEASED_STATE | NEWLY_PRESSED_STATE | NEWLY_RELEASED_STATE

  /** `compareButtons` as written: the difference of the types, or of the codes, in int arithmetic. */
  function CompareButtons(a: Button, b: Button): int32
  {
    if a.kind == b.kind then ToInt32(a.code - b.code) else a.kind - b.kind
  }

  /**
   * Two codes more than `Integer.MAX_VALUE` apart overflow the subtraction:
   * each of the two buttons then compares below the other, which breaks the
   * contract `Arrays.sort` and the binary search rely on.
   */
  lemma CompareOverflows()
    ensures CompareButtons(Button(TYPE_KEYBOARD, INT_MAX), Button(TYPE_KEYBOARD, -1)) < 0
    ensures CompareButtons(Button(TYPE_KEYBOARD, -1), Button(TYPE_KEYBOARD, INT_MAX)) < 0
  {
  }

  /** The comparison as intended: the same differences, without overflow. */
  function Compare(a: Button, b: Button): int
  {
    if a.kind == b.kind then a.code - b.code else a.kind - b.kind
  }

  /** A button's place in the order by type, then code. */
  function Rank(b: Button): int
  {
    b.kind * 0x1_0000_0000 + b.code
  }

  /**
   * The intended comparison orders buttons by type, then code: it is
   * negative, zero or positive as the first button ranks below, equal to or
   * above the second, and only equal buttons rank equally. Whenever the
   * codes' difference fits in an int, the comparison as written agrees.
   */
  lemma CompareOrders(a: Button, b: Button)
    ensures Compare(a, b) < 0 <==> Rank(a) < Rank(b)
    ensures Compare(a, b) == 0 <==> a == b
    ensures Compare(a, b) == 0 <==> Rank(a) == Rank(b)
    ensures -0x8000_0000 <= a.code - b.code <= INT_MAX ==> CompareButtons(a, b) == Compare(a, b)
  {
    if a.kind != b.kind {
      assert Rank(a) - Rank(b) == (a.kind - b.kind) * 0x1_0000_0000 + (a.code - b.code);
    }
  }

  /** Ordered by type, then code. */
  predicate Sorted(s: seq<Button>)
  {
    forall i, j | 0 <= i < j < |s| :: Rank(s[i]) <= Rank(s[j])
  }

  /** `b` placed into a sorted sequence after every button that does not rank above it. */
  function Insert(b: Button, s: seq<Button>): (r: seq<Button>)
    requires Sorted(s)
    ensures Sorted(r) && multiset(r) == multiset(s) + multiset{b} && |r| == |s| + 1
  {
    if |s| == 0 then [b]
    else if Rank(b) < Rank(s[0]) then [b] + s
    else
      var rest := Insert(b, s[1..]);
      InsertBehind(b, s, rest);
      [s[0]] + rest
  }

  /** A button that does not rank below the head of a sorted sequence stays behind it. */
  lemma InsertBehind(b: Button, s: seq<Button>, rest: seq<Button>)
    requires Sorted(s) && |s| > 0 && Rank(s[0]) <= Rank(b)
    requires Sorted(rest) && multiset(rest) == multiset(s[1..]) + multiset{b}
    ensures Sorted([s[0]] + rest) && multiset([s[0]] + rest) == multiset(s) + multiset{b}
  {
    assert s == [s[0]] + s[1..];
    forall k | 0 <= k < |rest|
      ensures Rank(s[0]) <= Rank(rest[k])
    {
      assert rest[k] in multiset(rest);
    }
  }

  /** `Arrays.sort(controls, ControlsContext::compareButtons)`, with the intended comparison. */
  function Sort(s: seq<Button>): (r: seq<Button>)
    ensures Sorted(r) && multiset(r) == multiset(s) && |r| == |s|
  {
    if |s| == 0 then []
    else
      assert s == s[..|s| - 1] + [s[|s| - 1]];
      Insert(s[|s| - 1], Sort(s[..|s| - 1]))
  }

  /** `state()`'s switch: the four two-bit codes, and `IllegalStateException` for any other byte. */
  function Decode(state: byte): (r: Result<State>)
    ensures r.Ok? <==> 0 <= state <= 3
    ensures r.Err? ==> r.error == IllegalState
  {
    if state == PREVIOUSLY_PRESSED then Ok(PREVIOUSLY_PRESSED_STATE)
    else if state == PREVIOUSLY_RELEASED then Ok(PREVIOUSLY_RELEASED_STATE)
    else if state == NEWLY_PRESSED then Ok(NEWLY_PRESSED_STATE)
    else if state == NEWLY_RELEASED then Ok(NEWLY_RELEASED_STATE)
    else Err(IllegalState)
  }

  /**
   * The meaning of the two bits: bit 0 is set exactly in the pressed
   * states, bit 1 exactly in the new ones; clearing bit 1, as `nextFrame`
   * does, turns a new state into the previous state of the same kind.
   */
  lemma StateBits(state: byte)
    requires 0 <= state <= 3
    ensures state % 2 == 1 <==> Decode(state).value in {PREVIOUSLY_PRESSED_STATE, NEWLY_PRESSED_STATE}
    ensures state / 2 == 1 <==> Decode(state).value in {NEWLY_PRESSED_STATE, NEWLY_RELEASED_STATE}
    ensures Decode(state % 2).value == match Decode(state).value
      case NEWLY_PRESSED_STATE => PREVIOUSLY_PRESSED_STATE
      case NEWLY_RELEASED_STATE => PREVIOUSLY_RELEASED_STATE
      case other => other
  {
  }

  class ControlsContext {
    const buttons: seq<Button>
    const states: array<byte>
    /** The code points `onCharacterTyped` collected. */
    var characters: seq<int32>

    /** The table is sorted, one state per button, every state one of the four. */
    ghost predicate Valid()
      reads this, states
    {
      Sorted(buttons) && states.Length == |buttons| <= INT_MAX
      && forall k | 0 <= k < states.Length :: 0 <= states[k] <= 3
    }

    /** `new ControlsContext(controls...)`: the buttons sorted, all previously released. */
    constructor(controls: seq<Button>)
      requires |controls| <= INT_MAX
      ensures Valid() && fresh(states)
      ensures buttons == Sort(controls)
      ensures forall k | 0 <= k < states.Length :: states[k] == PREVIOUSLY_RELEASED
      ensures characters == []
    {
      buttons := Sort(controls);
      states := new byte[|controls|](_ => PREVIOUSLY_RELEASED);
      characters := [];
    }

    /**
     * `indexOf(type, code)`, the binary search: the index of a button with
     * that type and code, or, when there is none, `-(p + 1)` for the
     * position `p` the button would be inserted at.
     */
    method IndexOf(kind: byte, code: int32) returns (r: int32)
      requires Valid()
      ensures r >= 0 ==> r < |buttons| && buttons[r] == Button(kind, code)
      ensures r < 0 ==> Button(kind, code) !in buttons
      ensures r < 0 ==> (-(r as int + 1) <= |buttons|
        && (forall k | 0 <= k < -(r as int + 1) :: Rank(buttons[k]) < Rank(Button(kind, code)))
        && (forall k | -(r as int + 1) <= k < |buttons| :: Rank(buttons[k]) > Rank(Button(kind, code))))
    {
      var key := Button(kind, code);
      var low, high := 0, |buttons| - 1;
      while low <= high
        invariant 0 <= low <= high + 1 <= |buttons|
        invariant forall k | 0 <= k < low :: Rank(buttons[k]) < Rank(key)
        invariant forall k | high < k < |buttons| :: Rank(buttons[k]) > Rank(key)
        decreases high - low
      {
        // `(low + high) >>> 1`: the unsigned shift keeps the mean right even when the sum overflows
        var mid := (low + high) / 2;
        var cmp := Compare(buttons[mid], key);
        CompareOrders(buttons[mid], key);
        if cmp < 0 {
          low := mid + 1;
        } else if cmp > 0 {
          high := mid - 1;
        } else {
          return mid as int32;
        }
      }
      return -(low + 1) as int32;
    }

    /** `press(type, key)`: a registered button becomes newly pressed; any other key changes nothing. */
    method Press(kind: byte, key: int32)
      requires Valid()
      modifies states
      ensures Valid()
      ensures Button(kind, key) !in buttons ==> states[..] == old(states[..])
      ensures Button(kind, key) in buttons ==> exists i | 0 <= i < |buttons| && buttons[i] == Button(kind, key)
        :: states[..] == old(states[..])[i := NEWLY_PRESSED]
    {
      var index := IndexOf(kind, key);
      if index >= 0 && buttons[index] == Button(kind, key) {
        states[index] := NEWLY_PRESSED;
      }
    }

    /** `release(type, key)`: a registered button becomes newly released; any other key changes nothing. */
    method Release(kind: byte, key: int32)
      requires Valid()
      modifies states
      ensures Valid()
      ensures Button(kind, key) !in buttons ==> states[..] == old(states[..])
      ensures Button(kind, key) in buttons ==> exists i | 0 <= i < |buttons| && buttons[i] == Button(kind, key)
        :: states[..] == old(states[..])[i := NEWLY_RELEASED]
    {
      var index := IndexOf(kind, key);
      if index >= 0 && buttons[index] == Button(kind, key) {
        states[index] := NEWLY_RELEASED;
      }
    }

    /**
     * `repeat(type, key)`: changes no state; the result says whether the
     * repeat hook runs, which it does for a registered button.
     */
    method Repeat(kind: byte, key: int32) returns (repeated: bool)
      requires Valid()
      ensures repeated <==> Button(kind, key) in buttons
    {
      var index := IndexOf(kind, key);
      repeated := index >= 0 && buttons[index] == Button(kind, key);
    }

    /** `nextFrame`: every state loses its "new" bit and keeps its "pressed" bit. */
    method NextFrame()
      requires Valid()
      modifies states
      ensures Valid()
      ensures forall k | 0 <= k < states.Length :: states[k] == old(states[k]) % 2
    {
      for i := 0 to states.Length
        invariant forall k | 0 <= k < i :: states[k] == old(states[k]) % 2
        invariant forall k | i <= k < states.Length :: states[k] == old(states[k])
      {
        // `state &= 1` on a state from 0 to 3
        states[i] := states[i] % 2;
      }
    }

    /** `onCharacterTyped`: the code point is collected. */
    method OnCharacterTyped(codePoint: int32)
      modifies this
      ensures characters == old(characters) + [codePoint]
    {
      characters := characters + [codePoint];
    }

    /**
     * `state(control)`: the state of the control's entry; for a control not
     * in the table the negative index is an `ArrayIndexOutOfBoundsException`.
     */
    method GetState(control: Button) returns (r: Result<State>)
      requires Valid()
      ensures control !in buttons ==> r == Err(IndexOutOfBounds)
      ensures control in buttons ==> exists i | 0 <= i < |buttons| && buttons[i] == control :: r == Decode(states[i])
      ensures control in buttons ==> r.Ok?
    {
      var index := IndexOf(control.kind, control.code);
      if index < 0 {
        return Err(IndexOutOfBounds);
      }
      return Decode(states[index]);
    }

    /** `isPressed(control)`: bit 0 of its state. */
    method IsPressed(control: Button) returns (r: Result<bool>)
      requires Valid()
      ensures control !in buttons ==> r == Err(IndexOutOfBounds)
      ensures control in buttons ==> exists i | 0 <= i < |buttons| && buttons[i] == control
        :: r == Ok(states[i] == PREVIOUSLY_PRESSED || states[i] == NEWLY_PRESSED)
    {
      var index := IndexOf(control.kind, control.code);
      if index < 0 {
        return Err(IndexOutOfBounds);
      }
      return Ok(states[index] % 2 == 1);
    }

    /** `isNewlyPressed(control)`: its state is `NEWLY_PRESSED`. */
    method IsNewlyPressed(control: Button) returns (r: Result<bool>)
      requires Valid()
      ensures control !in buttons ==> r == Err(IndexOutOfBounds)
      ensures control in buttons ==> exists i | 0 <= i < |buttons| && buttons[i] == control
        :: r == Ok(states[i] == NEWLY_PRESSED)
    {
      var index := IndexOf(control.kind, control.code);
      if index < 0 {
        return Err(IndexOutOfBounds);
      }
      return Ok(states[index] == NEWLY_PRESSED);
    }

    /** `isNewlyReleased(control)`: its state is `NEWLY_RELEASED`. */
    method IsNewlyReleased(control: Button) returns (r: Result<bool>)
      requires Valid()
      ensures control !in buttons ==> r == Err(IndexOutOfBounds)
      ensures control in buttons ==> exists i | 0 <= i < |buttons| && buttons[i] == control
        :: r == Ok(states[i] == NEWLY_RELEASED)
    {
      var index := IndexOf(control.kind, control.code);
      if index < 0 {
        return Err(IndexOutOfBounds);
      }
      return Ok(states[index] == NEWLY_RELEASED);
    }
  }
}

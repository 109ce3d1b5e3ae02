/**
 * `Protocol`: the constants client and server agree on, the console message
 * layout, and `PlayerState`, the short that carries a player's movement flags,
 * action flags and selected inventory slot.
 */
module Protocol {
  import opened Java
  import Bytes
  import Utility

  const TIMEOUT_DISCONNECT: int := Utility.MillisToNanos(1000)
  const RESEND_COUNT: int := 10
  const RESEND_INTERVAL: int := TIMEOUT_DISCONNECT / RESEND_COUNT

  const HEADER_SIZE: int := 5
  const MAX_PACKET_SIZE: int := 1024
  const MAX_MESSAGE_LENGTH: int := MAX_PACKET_SIZE - HEADER_SIZE

  const MAX_UPDATE_TIMESTEP: int := Utility.MillisToNanos(200)
  const MAX_UPDATE_TIME_ALLOWED: int := Utility.MillisToNanos(10000)

  /** Packet kinds: the byte after a packet's message ID. */
  const RESPONSE_TYPE: byte := 1
  const RELIABLE_TYPE: byte := 2
  const UNRELIABLE_TYPE: byte := 3

  /** Message types: the first two bytes of a message. */
  const TYPE_CONSOLE_MESSAGE: short := 0
  const TYPE_SERVER_CONNECT_ACKNOWLEDGMENT: short := 1
  const TYPE_SERVER_WORLD_HEAD: short := 2
  const TYPE_SERVER_WORLD_DATA: short := 3
  const TYPE_SERVER_ENTITY_UPDATE: short := 4
  const TYPE_SERVER_ADD_ENTITY: short := 5
  const TYPE_SERVER_REMOVE_ENTITY: short := 6
  const TYPE_SERVER_CLIENT_DISCONNECT: short := 7
  const TYPE_SERVER_REMOVE_BLOCK: short := 9
  const TYPE_CLIENT_CONNECT_REQUEST: short := 10
  const TYPE_CLIENT_DISCONNECT: short := 11
  const TYPE_CLIENT_PLAYER_STATE: short := 12
  const TYPE_CLIENT_BREAK_BLOCK: short := 13
  const TYPE_PING: short := 14
  const TYPE_CLIENT_BOMB_THROW: short := 16
  const TYPE_CLIENT_WORLD_BUILT: short := 17
  const TYPE_CLIENT_PLACE_BLOCK: short := 18
  const TYPE_SERVER_PLACE_BLOCK: short := 19

  /** The status byte of a connect acknowledgment. */
  const CONNECT_STATUS_REJECTED: byte := 0
  const CONNECT_STATUS_WORLD: byte := 1
  const CONNECT_STATUS_LOBBY: byte := 2

  /** A message leaves the header's room in a packet; resends spread over the timeout. */
  lemma Sizes()
    ensures MAX_MESSAGE_LENGTH == 1019
    ensures RESEND_INTERVAL * RESEND_COUNT == TIMEOUT_DISCONNECT == 1_000_000_000
  {
  }

  /**
   * `buildConsoleMessage`: the console message type, then the message's bytes
   * (the UTF-8 encoding is done by the caller here).
   */
  method BuildConsoleMessage(msg: seq<byte>) returns (packet: seq<byte>)
    requires |msg| <= INT_MAX - 2
    ensures packet == Bytes.ShortBytes(TYPE_CONSOLE_MESSAGE) + msg
    ensures Bytes.GetShort(packet, 0) == TYPE_CONSOLE_MESSAGE && packet[2..] == msg
  {
    var p := new byte[2 + |msg|](_ => 0);
    Bytes.PutShort(p, 0, TYPE_CONSOLE_MESSAGE);
    var header := Bytes.ShortBytes(TYPE_CONSOLE_MESSAGE);
    assert p[..2] == header;
    var _ := Bytes.Copy(msg, p, 2);
    packet := p[..];
    assert packet == header + msg;
    assert Bytes.Splice(packet, 0, header) == packet;
    Bytes.ShortRoundTrip(packet, 0, TYPE_CONSOLE_MESSAGE);
  }

  // PlayerState

  /** The flag bits `getState` sets, lowest first: left, right, up, down, primary, secondary. */
  function Flags(left: bool, right: bool, up: bool, down: bool, primary: bool, secondary: bool): seq<bool>
  {
    [left, right, up, down, primary, secondary]
  }

  /** `isPrimary`: `(state & PRIMARY_ACTION) == PRIMARY_ACTION`. */
  predicate IsPrimary(state: short)
  {
    Bit(state, 4)
  }

  /** `isSecondary`: `(state & SECONDARY_ACTION) == SECONDARY_ACTION`. */
  predicate IsSecondary(state: short)
  {
    Bit(state, 5)
  }

  /** `state >>> 8`: the short is widened to an int, then shifted in without sign. */
  function SlotOf(state: short): (r: int)
    ensures 0 <= r < 0x100_0000
  {
    (state % 0x1_0000_0000) / 0x100
  }

  /**
   * The player fields `PlayerState` reads and writes. `selected` is a byte;
   * `setSlot` only accepts an index of the player's inventory.
   */
  class Player {
    var left: bool
    var right: bool
    var up: bool
    var down: bool
    var selected: byte
    const inventorySize: nat

    constructor(size: nat)
      ensures inventorySize == size && selected == 0
      ensures !left && !right && !up && !down
    {
      inventorySize := size;
      selected := 0;
      left, right, up, down := false, false, false, false;
    }

    /** `setSlot`: `Objects.checkIndex` against the inventory size, then a byte cast. */
    method SetSlot(slot: int) returns (r: Result<()>)
      modifies this
      ensures left == old(left) && right == old(right) && up == old(up) && down == old(down)
      ensures 0 <= slot < inventorySize ==> r == Ok(()) && selected == ToByte(slot)
      ensures !(0 <= slot < inventorySize) ==> r == Err(IndexOutOfBounds) && selected == old(selected)
    {
      if !(0 <= slot < inventorySize) {
        return Err(IndexOutOfBounds);
      }
      selected := ToByte(slot);
      return Ok(());
    }
  }

  /**
   * `getState`: bits 0 to 5 are the flags and the slot is shifted into the
   * high byte. The slot's low byte is clear, so the or-ing is an addition.
   */
  function GetState(left: bool, right: bool, up: bool, down: bool, selected: byte, primary: bool, secondary: bool)
    : (state: short)
    ensures forall i :: 0 <= i < 6 ==> Bit(state, i) == Flags(left, right, up, down, primary, secondary)[i]
    ensures !Bit(state, 6) && !Bit(state, 7)
    ensures state / 0x100 == selected
  {
    var flags := Pack(Flags(left, right, up, down, primary, secondary));
    assert Pow2(6) == 0x40;
    DivModUnique(selected * 0x100 + flags, 0x100, selected, flags);
    GetStateBits(selected, Flags(left, right, up, down, primary, secondary));
    selected * 0x100 + flags
  }

  lemma GetStateBits(selected: byte, flags: seq<bool>)
    requires |flags| == 6
    ensures forall i :: 0 <= i < 6 ==> Bit(selected * 0x100 + Pack(flags), i) == flags[i]
    ensures !Bit(selected * 0x100 + Pack(flags), 6) && !Bit(selected * 0x100 + Pack(flags), 7)
  {
    var p := Pack(flags);
    forall i | 0 <= i < 6
      ensures Bit(selected * 0x100 + p, i) == flags[i]
    {
      HighByteKeepsBit(selected, p, i);
      BitsOfPack(flags, i);
    }
    HighByteKeepsBit(selected, p, 6);
    HighByteKeepsBit(selected, p, 7);
    PackHighBitsClear(flags);
  }

  /** Six packed flags leave bits 6 and 7 clear. */
  lemma PackHighBitsClear(flags: seq<bool>)
    requires |flags| == 6
    ensures !Bit(Pack(flags), 6) && !Bit(Pack(flags), 7)
  {
    var p := Pack(flags);
    assert Pow2(6) == 0x40 && Pow2(7) == 0x80;
    DivModUnique(p, 0x40, 0, p);
    DivModUnique(p, 0x80, 0, p);
  }

  /**
   * `updatePlayer`: the four movement flags from bits 0 to 3, then the slot
   * from `state >>> 8`. A rejected slot leaves the flags already set.
   */
  method UpdatePlayer(player: Player, state: short) returns (r: Result<()>)
    modifies player
    ensures player.left == Bit(state, 0) && player.right == Bit(state, 1)
    ensures player.up == Bit(state, 2) && player.down == Bit(state, 3)
    ensures 0 <= SlotOf(state) < player.inventorySize ==> r == Ok(()) && player.selected == ToByte(SlotOf(state))
    ensures !(0 <= SlotOf(state) < player.inventorySize) ==> r == Err(IndexOutOfBounds) && player.selected == old(player.selected)
  {
    player.left := Bit(state, 0);
    player.right := Bit(state, 1);
    player.up := Bit(state, 2);
    player.down := Bit(state, 3);
    r := player.SetSlot(SlotOf(state));
  }

  /** `isPrimary` and `isSecondary` read back what `getState` was given. */
  lemma ActionsRoundTrip(left: bool, right: bool, up: bool, down: bool, selected: byte, primary: bool, secondary: bool)
    ensures IsPrimary(GetState(left, right, up, down, selected, primary, secondary)) == primary
    ensures IsSecondary(GetState(left, right, up, down, selected, primary, secondary)) == secondary
  {
    var f := Flags(left, right, up, down, primary, secondary);
    assert f[4] == primary && f[5] == secondary;
  }

  /**
   * A non-negative slot comes back out of `state >>> 8`; so `updatePlayer`
   * restores the movement flags and the slot `getState` encoded.
   */
  lemma SlotRoundTrip(left: bool, right: bool, up: bool, down: bool, selected: byte, primary: bool, secondary: bool)
    requires selected >= 0
    ensures var state := GetState(left, right, up, down, selected, primary, secondary);
      SlotOf(state) == selected
      && Bit(state, 0) == left && Bit(state, 1) == right && Bit(state, 2) == up && Bit(state, 3) == down
  {
    var state := GetState(left, right, up, down, selected, primary, secondary);
    var f := Flags(left, right, up, down, primary, secondary);
    assert f[0] == left && f[1] == right && f[2] == up && f[3] == down;
    DivModUnique(state, 0x1_0000_0000, 0, state);
    WrapId(selected, 0x100);
  }

  /**
   * A negative `selected` (possible once an inventory has more than 127
   * slots) sets the state's sign bit; `state >>> 8` then drags the sign bits
   * along and yields a slot no smaller than 2^24 - 128.
   */
  lemma NegativeSlotOverflows(left: bool, right: bool, up: bool, down: bool, selected: byte, primary: bool, secondary: bool)
    requires selected < 0
    ensures SlotOf(GetState(left, right, up, down, selected, primary, secondary)) >= 0x100_0000 - 0x80
  {
    var state := GetState(left, right, up, down, selected, primary, secondary);
    var flags := state - selected * 0x100;
    assert 0 <= flags < 0x100;
    DivModUnique(state, 0x1_0000_0000, -1, state + 0x1_0000_0000);
    DivModUnique(state + 0x1_0000_0000, 0x100, 0x100_0000 + selected, flags);
  }
}

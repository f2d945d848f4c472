/**
 * The inbound handler (main.py, mqtt_callback): a payload "XYS" of three
 * decimal digits names the key (X, Y) and its status S. Status 1 colours the
 * key by the colour chain, any other status restores the idle colour, and a
 * payload that does not decode changes nothing, because the handler catches
 * the error.
 */
module Inbound {
  import opened Wrappers
  import opened Text
  import opened Colours

  /** A key's coordinates (x, y), as the keypad library numbers them. */
  type Coord = (int, int)

  /** A decoded inbound message: key column, key row and status digit. */
  datatype Command = Command(x: int, y: int, status: int)

  predicate DigitFields(c: Command) {
    0 <= c.x <= 9 && 0 <= c.y <= 9 && 0 <= c.status <= 9
  }

  /**
   * int(payload[0]), int(payload[1]), int(payload[2]): fails (None) when the
   * payload has fewer than three characters or one of the first three is not
   * a digit; characters after the third are never looked at.
   */
  function DecodePayload(p: string): (r: Option<Command>)
    ensures r.Some? ==> DigitFields(r.value)
    ensures r.None? <==> |p| < 3 || !IsDigit(p[0]) || !IsDigit(p[1]) || !IsDigit(p[2])
  {
    if |p| >= 3 && IsDigit(p[0]) && IsDigit(p[1]) && IsDigit(p[2]) then
      Some(Command(DigitValue(p[0]), DigitValue(p[1]), DigitValue(p[2])))
    else
      None
  }

  /** The three-character payload a sender writes for a command. */
  function EncodePayload(c: Command): (p: string)
    requires DigitFields(c)
    ensures |p| == 3
  {
    [DigitChar(c.x), DigitChar(c.y), DigitChar(c.status)]
  }

  /** Decoding an encoded command gives it back, whatever follows the third character. */
  lemma DecodeEncode(c: Command, rest: string)
    requires DigitFields(c)
    ensures DecodePayload(EncodePayload(c) + rest) == Some(c)
  {
    var p := EncodePayload(c) + rest;
    assert p[0] == DigitChar(c.x) && p[1] == DigitChar(c.y) && p[2] == DigitChar(c.status);
  }

  /** A payload that decodes is the encoding of its command followed by ignored characters. */
  lemma EncodeDecode(p: string)
    requires DecodePayload(p).Some?
    ensures EncodePayload(DecodePayload(p).value) == p[..3]
    ensures DecodePayload(p[..3]) == DecodePayload(p)
  {
    DigitCharValue(p[0]);
    DigitCharValue(p[1]);
    DigitCharValue(p[2]);
  }

  // ---------------------------------------------------------------------
  // The key grid.

  /** The coordinates of the 16 keys. */
  function GridKeys(): (ks: set<Coord>)
    ensures forall x, y :: (x, y) in ks <==> InGrid(x, y)
  {
    set x, y | 0 <= x < Columns && 0 <= y < Rows :: (x, y)
  }

  /** Every key at the idle colour: `keypad.color = default_keypad_color` at start-up. */
  function IdleGrid(idle: Rgb): (g: map<Coord, Rgb>)
    ensures g.Keys == GridKeys()
    ensures forall k :: k in g ==> g[k] == idle
  {
    map k | k in GridKeys() :: idle
  }

  /** The colour the handler gives the addressed key. */
  function NewColour(c: Command, idle: Rgb): Rgb {
    if c.status == 1 then ColourFor(c.x, c.y) else idle
  }

  /**
   * A payload that decodes addresses a key of `grid`. What the keypad
   * library does with a key outside the grid is not part of this model.
   */
  predicate Addressable(grid: map<Coord, Rgb>, p: string) {
    match DecodePayload(p)
    case None => true
    case Some(c) => (c.x, c.y) in grid
  }

  /** The grid after the handler has processed payload `p`. */
  function ApplyPayload(grid: map<Coord, Rgb>, idle: Rgb, p: string): (g: map<Coord, Rgb>)
    requires Addressable(grid, p)
    ensures g.Keys == grid.Keys
  {
    match DecodePayload(p)
    case None => grid
    case Some(c) => grid[(c.x, c.y) := NewColour(c, idle)]
  }

  /** Status 1 gives the addressed key its chain colour; any other status gives it the idle colour. */
  lemma ApplyAddressedKey(grid: map<Coord, Rgb>, idle: Rgb, p: string)
    requires Addressable(grid, p) && DecodePayload(p).Some?
    ensures var c := DecodePayload(p).value;
      var g := ApplyPayload(grid, idle, p);
      && (c.status == 1 ==> g[(c.x, c.y)] == Resolve(SourceTable, c.x, c.y))
      && (c.status != 1 ==> g[(c.x, c.y)] == idle)
  {
    var c := DecodePayload(p).value;
    ColourForIsFirstMatch(c.x, c.y);
  }

  /** A message changes the colour of the addressed key only. */
  lemma ApplyOnlyAddressed(grid: map<Coord, Rgb>, idle: Rgb, p: string, k: Coord)
    requires Addressable(grid, p) && k in grid
    requires DecodePayload(p).None? || k != (DecodePayload(p).value.x, DecodePayload(p).value.y)
    ensures ApplyPayload(grid, idle, p)[k] == grid[k]
  {
  }

  /** A payload that does not decode leaves every key's colour as it was. */
  lemma ApplyMalformed(grid: map<Coord, Rgb>, idle: Rgb, p: string)
    requires |p| < 3 || !IsDigit(p[0]) || !IsDigit(p[1]) || !IsDigit(p[2])
    ensures ApplyPayload(grid, idle, p) == grid
  {
  }

  /** Processing the same message twice gives the grid that processing it once gives. */
  lemma ApplyIdempotent(grid: map<Coord, Rgb>, idle: Rgb, p: string)
    requires Addressable(grid, p)
    ensures Addressable(ApplyPayload(grid, idle, p), p)
    ensures ApplyPayload(ApplyPayload(grid, idle, p), idle, p) == ApplyPayload(grid, idle, p)
  {
  }

  /** Only the first three characters of a payload matter. */
  lemma ApplyIgnoresTail(grid: map<Coord, Rgb>, idle: Rgb, p: string, rest: string)
    requires |p| == 3 && Addressable(grid, p)
    ensures Addressable(grid, p + rest)
    ensures ApplyPayload(grid, idle, p + rest) == ApplyPayload(grid, idle, p)
  {
    var q := p + rest;
    assert q[0] == p[0] && q[1] == p[1] && q[2] == p[2];
  }

  /** The keypad's LEDs, one colour per key, and the configured idle colour. */
  class Keypad {
    var colors: map<Coord, Rgb>
    const idle: Rgb

    ghost predicate Valid()
      reads this
    {
      colors.Keys == GridKeys()
    }

    /** Start-up: every key shows the idle colour. */
    constructor (idle: Rgb)
      ensures Valid() && this.idle == idle
      ensures colors == IdleGrid(idle)
    {
      this.idle := idle;
      colors := IdleGrid(idle);
    }

    /** mqtt_callback: decode the payload and set the addressed key's colour. */
    method OnMessage(payload: string)
      requires Valid()
      requires Addressable(colors, payload)
      modifies this
      ensures Valid()
      ensures colors == ApplyPayload(old(colors), idle, payload)
    {
      var decoded := DecodePayload(payload);
      if decoded.Some? {
        var c := decoded.value;
        var key := (c.x, c.y);
        if c.status == 1 {
          if c.x == 1 && c.y == 0 {
            colors := colors[key := Blue];
          } else if c.y == 3 {
            colors := colors[key := Orange];
          } else if c.x == 2 && c.y == 0 {
            colors := colors[key := Purple];
          } else if c.y == 1 || c.y == 2 {
            colors := colors[key := Green];
          } else {
            colors := colors[key := Red];
          }
        } else {
          colors := colors[key := idle];
        }
      }
    }
  }
}

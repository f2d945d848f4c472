# Keypad controller core: colour handler, debounce tracker and button scan

This project models the core of a standalone MicroPython controller for a 4 x 4 RGB keypad that talks to a home-automation broker over MQTT. The core has three parts, all in `main.py`.

- **Inbound colour handler** (`mqtt_callback`). A payload `"XYS"` of three decimal digits names a key (X is the column, Y the row) and a status S.
  - Status 1 colours the key through an if/elif chain: Blue at (1,0), Orange on row 3, Purple at (2,0), Green on rows 1 and 2, and Red everywhere else.
  - Any other status restores the configured idle colour, `default_keypad_color` = (6,6,6) in `config.py`.
  - A payload that does not decode changes nothing, because the handler catches the error.
  - At start-up every key shows the idle colour.
- **Debounce tracker** (`is_valid_press`). A table maps each key to the tick count of its last accepted press.
  - A key's first press is accepted and its tick is recorded.
  - A later press is accepted, and recorded, only when `ticks_diff(now, last) >= 200`.
  - A rejected press changes nothing.
- **Button scan** (`check_buttons`). The scan walks a snapshot of the pressed flags in key-index order.
  - The condition `key.y <= 2 and pressed and is_valid_press(key)` is evaluated left to right. The tracker is therefore consulted only for a pressed key in rows 0 to 2.
  - Each accepted press publishes payload `"1"` on topic `"<root>/<x><y>"`.
  - A publish that fails is dropped, and the scan goes on.

The modules:

- `Colours` holds the colour chain (`ColourFor`). It also holds an independent reference definition: an ordered rule table with positional wildcards ("any", one value, or a set of values) and a fallback, evaluated first-match-wins (`Resolve`, `SourceTable`).
- `Text` holds decimal digits and Python's `str()` of an integer.
- `Inbound` holds the payload decoder, the grid as a map from coordinates to colours, and the class `Keypad`, whose `OnMessage` is `mqtt_callback`.
- `Debounce` holds MicroPython's tick arithmetic, the pure acceptance rule (`Accepts`, `AfterPress`), and the class `DebounceTracker`, whose `IsValidPress` updates the `lastPress` map in place.
- `Buttons` holds the topic format and the message type.
  - `ScanPrefix` is the specification of the scan: a left fold of `ScanKey` over key indices that yields the debounce table and the accepted indices.
  - `Publishes` and `Delivered` give the messages for the accepted indices.
  - The methods `PressKey` (one iteration) and `CheckButtons` (the loop) are proved against these.

The publish-failure oracle enters only `Delivered`. So the final debounce table and the accepted keys do not depend on which publishes fail: a failed publish never stops or changes the rest of the scan.

Where the design description and the code differ, the model follows the code:

- The design describes the colour policy as a declarative rule table. The code is an if/elif chain. The chain is the modelled operation, and `ColourForIsFirstMatch` proves that it equals the first-match evaluation of the rule table it encodes.
- The design says that a payload of the wrong length is rejected. The code reads only `payload[0..2]`, so a longer payload whose first three characters are digits is accepted, and the rest is ignored (`ApplyIgnoresTail`). Only a payload shorter than three characters, or one with a non-digit among the first three, is ignored as a whole.
- The design asks for a monotonic clock or unsigned wrap-around arithmetic. The code uses MicroPython's `ticks_diff`, a signed difference modulo the tick period. The model uses that (`TicksDiff`), so a press exactly half a period or more after the last accepted one can be rejected again.

## Model

| member | source | states |
|---|---|---|
| Colours.ColourForIsFirstMatch | main.py:67-82 | For every (x, y), the colour chain gives what first-match evaluation of the ordered table gives. The table is Blue at (1,0), Orange for y=3, Purple at (2,0), Green for y in {1,2}, with fallback Red. |
| Colours.ResolveFirstMatch | main.py:68-79 | When rule i matches and no earlier rule does, the table resolves to rule i's colour: the first matching rule wins. |
| Colours.ResolveFallback | main.py:80-81 | When no positional rule matches, the table resolves to its fallback. |
| Colours.ColourRegions | main.py:67-82 | On the 4 x 4 grid, each colour is given exactly on its region, in both directions: Blue only at (1,0), Orange exactly on row 3, Purple only at (2,0), Green exactly on rows 1-2, and Red exactly at the rest of row 0. |
| Text.DigitChar | main.py:62-64 | The digit character for 0..9 is a digit whose int() value is that number. |
| Text.DigitCharValue | main.py:62-64 | A digit character is the digit character of its own value, so int() of one character loses nothing. |
| Text.NatToStringDigits | main.py:115 | str(n) of a natural number is a non-empty string of digits, and it is one character long exactly when n < 10. |
| Text.IntToStringSign | main.py:115 | str(i) is non-empty and starts with '-' exactly when i is negative. |
| Text.ParseNatToString | main.py:115 | Reading str(n) back as decimal digits gives n. |
| Text.IntToStringInjective | main.py:115 | Different integers have different str() images. |
| Inbound.DecodePayload | main.py:58-64 | The payload decodes exactly when it has at least three characters and the first three are digits. The fields are then single digits. |
| Inbound.DecodeEncode | main.py:62-64 | Decoding the three-digit encoding of a command, followed by anything at all, gives the command back. |
| Inbound.EncodeDecode | main.py:62-64 | A payload that decodes is its command's encoding followed by ignored characters. Its first three characters decode alike. |
| Inbound.IdleGrid | main.py:52 | The start-up grid has exactly the 16 keys of the 4 x 4 grid, each at the idle colour. |
| Inbound.ApplyPayload | main.py:54-87 | Handling a message never adds or removes a key of the grid. |
| Inbound.ApplyAddressedKey | main.py:66-85 | Status 1 gives the addressed key the colour the first-match rule table resolves to. Any other status gives it the idle colour. |
| Inbound.ApplyOnlyAddressed | main.py:66-85 | Every key other than the addressed one keeps its colour. |
| Inbound.ApplyMalformed | main.py:58-64 | A payload that is too short or has a non-digit among its first three characters leaves the grid unchanged. |
| Inbound.ApplyIdempotent | main.py:66-85 | Handling the same message twice gives the same grid as handling it once. |
| Inbound.ApplyIgnoresTail | main.py:62-64 | Characters after the third never change the outcome. |
| Inbound.Keypad.constructor | main.py:52 | The keypad starts with every key of the grid at the idle colour. |
| Inbound.Keypad.OnMessage | main.py:54-87 | The if/elif chain, run on the LED map in place, leaves the grid that ApplyPayload specifies, and the grid keeps its 16 keys. |
| Debounce.TicksDiff | main.py:98 | ticks_diff always lies in [-2^29, 2^29). |
| Debounce.TicksDiffElapsed | main.py:98 | ticks_diff recovers any elapsed time shorter than half the tick period, including across a wrap of the counter. |
| Debounce.AfterPressFrame | main.py:94-103 | After a press of k, k has an entry: the new tick if the press was accepted, the old tick if not. No other key's entry is added, removed or changed. |
| Debounce.FirstPressAccepted | main.py:94-96 | A key's first press is accepted, and its tick is recorded. |
| Debounce.RejectedPressUnchanged | main.py:98-103 | A rejected press leaves the whole table unchanged. |
| Debounce.PressWithinWindowRejected | main.py:98-103 | After an accepted press at t, a press of the same key fewer than 200 ticks later is rejected. |
| Debounce.PressAfterWindowAccepted | main.py:98-101 | After an accepted press at t, a press of the same key at least 200 ticks later, and under half a period, is accepted. |
| Debounce.DebounceTracker.constructor | main.py:38 | The table of last press times starts empty. |
| Debounce.DebounceTracker.IsValidPress | main.py:89-103 | The result is whether the press is accepted: no entry yet, or ticks_diff >= 200. The table afterwards is the one AfterPress specifies, so only an accepted press writes it. |
| Buttons.PressMessage | main.py:115-119 | An accepted press publishes payload "1" on the key's topic. |
| Buttons.TopicOfGridKey | main.py:115 | For a grid key, the topic is the root, '/', then the column digit and the row digit. |
| Buttons.TopicInjective | main.py:115 | Two grid keys never share a topic. |
| Buttons.ConfiguredTopicExample | main.py:115 | With the shipped root "RGBKEY", key (2,1) publishes on "RGBKEY/21". |
| Buttons.ScanAcceptsEligibleInOrder | main.py:110-114 | Only pressed keys in rows 0-2 are accepted, each index at most once, in increasing key-index order. |
| Buttons.ScanLeavesIneligibleKeys | main.py:114 | A key that is never pressed in rows 0-2 during the scan is never written in the debounce table. This covers row-3 keys and unpressed keys. |
| Buttons.ScanOnDistinctKeys | main.py:110-114 | With distinct keys, key i is accepted exactly when it is pressed, is in rows 0-2, and the table before the scan accepts it. Each such key's entry afterwards is what one press leaves. Ineligible keys keep their presence in the table. |
| Buttons.PublishesAt | main.py:110-119 | The j-th publish is the press message of the j-th accepted key. |
| Buttons.DeliveredWithoutFailures | main.py:118-121 | When no publish fails, every attempted message reaches the broker. |
| Buttons.AppendAccepted | main.py:114-121 | Accepting one more key appends its message to the attempted ones. It also appends it to the delivered ones unless that publish fails, in which case the delivered ones stay as they were. |
| Buttons.PressKey | main.py:111-121 | One pass of the loop body changes the table and accepted indices as ScanKey does. An accepted press is handed to publish, and reaches the broker unless the publish fails. |
| Buttons.CheckButtons | main.py:105-121 | After the scan, the tracker holds the table of the specification fold over all keys. The attempted messages are exactly the press messages of the accepted keys, in key-index order. The delivered ones are those whose publish did not fail. |

## Left out

- WiFi set-up, the MQTT client and its connection, subscribe and reconnect logic, the main loop and the hardware timer are left out. They are I/O and scheduling, not logic of the core.
- The keypad driver is left out. `get_keys_pressed` is the `pressed` snapshot, and `keypad.keys[i]` is `keys[i]`.
- Debug printing, `set_debug_mode` and `last_activity_time` are left out, because none of them affects a key colour, the debounce table or a publish.
- The 4-character `"BXYS"` payload layout and the power and button-set toggles are left out. They are not in this version of `main.py`.
- `msg.decode('utf-8')` is not modelled: the payload is taken as already-decoded text, and a decode error is not modelled.
- MicroPython's `int()` on one character is taken to accept only the ASCII digits '0'..'9'.
- The real tick clock is not modelled. Each `is_valid_press` call receives the value `ticks_ms()` would return (`times[i]` for key index i). The tick period is fixed at 2^30, the value on 32-bit ports.
- Whether a publish call raises is not modelled from the network. It is a parameter (`fails[i]` for key index i). The messages a failed publish "attempted" are kept apart from those delivered.
- Inbound.Keypad.OnMessage: requires that a decoded key lies on the 4 x 4 grid, because what the keypad library's `get_key` does for coordinates outside the grid is not part of this model.
- Inbound.ApplyIgnoresTail: requires the leading part to be exactly three characters. A shorter payload that fails alone can decode once more characters follow.
- Debounce.PressAfterWindowAccepted: only covers gaps under half the tick period, because a longer gap wraps in `ticks_diff` and can read as a short or negative one.
- Buttons.ScanOnDistinctKeys: assumes the keys are distinct. With a repeated key, a later index sees the table as an earlier index left it, and that case is covered only by `CheckButtons` and the fold.

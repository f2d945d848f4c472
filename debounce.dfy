/**
 * The debounce tracker (main.py, is_valid_press): a table from key to the
 * tick count of its last accepted press. A first press is accepted; a later
 * press is accepted when at least DebounceTimeMs ticks have passed since the
 * last accepted one, and only an accepted press updates the table.
 */
module Debounce {

  /** The key identifier `(key.x, key.y)`. */
  type KeyId = (int, int)

  /** DEBOUNCE_TIME_MS. */
  const DebounceTimeMs: int := 200

  /**
   * MicroPython's millisecond tick counter wraps at this period on 32-bit
   * ports (2^30); ticks_ms() returns values in [0, TicksPeriod).
   */
  const TicksPeriod: int := 0x4000_0000

  /**
   * time.ticks_diff(a, b): the signed difference of two tick values, taken
   * modulo the period and folded into [-TicksPeriod/2, TicksPeriod/2).
   */
  function TicksDiff(a: int, b: int): (d: int)
    ensures -TicksPeriod / 2 <= d < TicksPeriod / 2
  {
    (a - b + TicksPeriod / 2) % TicksPeriod - TicksPeriod / 2
  }

  /** time.ticks_add(t, d): the tick value d milliseconds after t. */
  function TicksAdd(t: int, d: int): (u: int)
    ensures 0 <= u < TicksPeriod
  {
    (t + d) % TicksPeriod
  }

  /** ticks_diff recovers any elapsed time shorter than half the period, across a wrap too. */
  lemma TicksDiffElapsed(t: int, d: int)
    requires 0 <= d < TicksPeriod / 2
    ensures TicksDiff(TicksAdd(t, d), t) == d
  {
    var h := TicksPeriod / 2;
    var q := (t + d) / TicksPeriod;
    assert TicksAdd(t, d) == t + d - q * TicksPeriod;
    var e := TicksAdd(t, d) - t + h;
    assert e == (d + h) + (-q) * TicksPeriod;
    ModShift(d + h, -q);
  }

  lemma ModShift(a: int, q: int)
    requires 0 <= a < TicksPeriod
    ensures (a + q * TicksPeriod) % TicksPeriod == a
  {
  }

  /** Whether a press of `k` at tick `now` is accepted against `table`. */
  predicate Accepts(table: map<KeyId, int>, k: KeyId, now: int) {
    k !in table || TicksDiff(now, table[k]) >= DebounceTimeMs
  }

  /** The table after a press of `k` at tick `now`. */
  function AfterPress(table: map<KeyId, int>, k: KeyId, now: int): map<KeyId, int> {
    if Accepts(table, k, now) then table[k := now] else table
  }

  /**
   * After a press of k, k has an entry: the press's tick if it was accepted,
   * its old tick otherwise; no other key's entry is added, removed or changed.
   */
  lemma AfterPressFrame(table: map<KeyId, int>, k: KeyId, now: int)
    ensures var t := AfterPress(table, k, now);
      && k in t && t[k] == (if Accepts(table, k, now) then now else table[k])
      && (forall j :: j != k ==> (j in t <==> j in table))
      && (forall j :: j != k && j in table ==> t[j] == table[j])
  {
  }

  /** The first press of a key is accepted and its tick recorded. */
  lemma FirstPressAccepted(table: map<KeyId, int>, k: KeyId, now: int)
    requires k !in table
    ensures Accepts(table, k, now) && AfterPress(table, k, now) == table[k := now]
  {
  }

  /** A rejected press leaves the whole table unchanged. */
  lemma RejectedPressUnchanged(table: map<KeyId, int>, k: KeyId, now: int)
    requires !Accepts(table, k, now)
    ensures AfterPress(table, k, now) == table
  {
  }

  /** After an accepted press, a press of the same key less than DebounceTimeMs later is rejected. */
  lemma PressWithinWindowRejected(table: map<KeyId, int>, k: KeyId, t: int, d: int)
    requires Accepts(table, k, t)
    requires 0 <= d < DebounceTimeMs
    ensures !Accepts(AfterPress(table, k, t), k, TicksAdd(t, d))
  {
    TicksDiffElapsed(t, d);
  }

  /** After an accepted press, a press at least DebounceTimeMs (and under half a tick period) later is accepted. */
  lemma PressAfterWindowAccepted(table: map<KeyId, int>, k: KeyId, t: int, d: int)
    requires Accepts(table, k, t)
    requires DebounceTimeMs <= d < TicksPeriod / 2
    ensures Accepts(AfterPress(table, k, t), k, TicksAdd(t, d))
  {
    TicksDiffElapsed(t, d);
  }

  /** last_press_times and the method that consults and updates it. */
  class DebounceTracker {
    var lastPress: map<KeyId, int>

    /** The table starts empty. */
    constructor ()
      ensures lastPress == map[]
    {
      lastPress := map[];
    }

    /** is_valid_press(key) with `now` the value ticks_ms() returns during the call. */
    method IsValidPress(k: KeyId, now: int) returns (ok: bool)
      modifies this
      ensures ok == Accepts(old(lastPress), k, now)
      ensures lastPress == AfterPress(old(lastPress), k, now)
    {
      if k !in lastPress {
        lastPress := lastPress[k := now];
        return true;
      }
      var diff := TicksDiff(now, lastPress[k]);
      if diff >= DebounceTimeMs {
        lastPress := lastPress[k := now];
        return true;
      }
      return false;
    }
  }
}

/**
 * The button scan (main.py, check_buttons): walk a snapshot of the pressed
 * flags in key-index order; a key in rows 0..2 that is pressed consults the
 * debounce tracker, and each accepted press is published on
 * "<publish topic>/<x><y>" with payload "1". A failed publish is dropped and
 * the scan goes on.
 */
module Buttons {
  import opened Text
  import opened Colours
  import opened Debounce

  /** One publish call: topic and payload. */
  datatype Message = Message(topic: string, payload: string)

  /** "{}/{}{}".format(mqtt_publish_topic, key.x, key.y) */
  function Topic(root: string, k: KeyId): string {
    root + "/" + IntToString(k.0) + IntToString(k.1)
  }

  /** The payload of every key-press message. */
  const PressPayload: string := "1"

  /** The message check_buttons publishes for an accepted press of key k. */
  function PressMessage(root: string, k: KeyId): (m: Message)
    ensures m.topic == Topic(root, k) && m.payload == "1"
  {
    Message(Topic(root, k), PressPayload)
  }

  /** For a key of the grid the topic ends in exactly two digits, the key's column and row. */
  lemma TopicOfGridKey(root: string, k: KeyId)
    requires InGrid(k.0, k.1)
    ensures Topic(root, k) == root + "/" + [DigitChar(k.0), DigitChar(k.1)]
    ensures |Topic(root, k)| == |root| + 3
  {
  }

  /** Two keys of the grid never publish on the same topic. */
  lemma TopicInjective(root: string, k1: KeyId, k2: KeyId)
    requires InGrid(k1.0, k1.1) && InGrid(k2.0, k2.1)
    requires Topic(root, k1) == Topic(root, k2)
    ensures k1 == k2
  {
    TopicOfGridKey(root, k1);
    TopicOfGridKey(root, k2);
    var t := Topic(root, k1);
    assert t[|root| + 1] == DigitChar(k1.0) && t[|root| + 2] == DigitChar(k1.1);
    assert Topic(root, k2)[|root| + 1] == DigitChar(k2.0);
    assert Topic(root, k2)[|root| + 2] == DigitChar(k2.1);
  }

  /** With the shipped configuration, key (2, 1) publishes on "RGBKEY/21". */
  lemma ConfiguredTopicExample()
    ensures Topic("RGBKEY", (2, 1)) == "RGBKEY/21"
  {
    TopicOfGridKey("RGBKEY", (2, 1));
  }

  /** `key.y <= 2 and pressed`: the part of the condition checked before the debounce call. */
  predicate Eligible(k: KeyId, pressed: bool) {
    k.1 <= 2 && pressed
  }

  /** The state of a scan: the debounce table and the key indices whose press was accepted so far. */
  datatype Scan = Scan(table: map<KeyId, int>, accepted: seq<nat>)

  /**
   * The inputs of one scan: the key list (index to coordinates), the
   * pressed-flag snapshot, the tick count is_valid_press reads for each key
   * index.
   */
  predicate ScanInputs(keys: seq<KeyId>, pressed: seq<bool>, times: seq<int>) {
    |pressed| <= |keys| && |times| == |pressed|
  }

  /**
   * One iteration for key index i: `key.y <= 2 and pressed and
   * is_valid_press(key)`, so the tracker is consulted only for an eligible
   * key, and only a press it accepts is recorded.
   */
  function ScanKey(s: Scan, i: nat, k: KeyId, pressed: bool, now: int): Scan {
    if !Eligible(k, pressed) then s
    else if !Accepts(s.table, k, now) then Scan(AfterPress(s.table, k, now), s.accepted)
    else Scan(AfterPress(s.table, k, now), s.accepted + [i])
  }

  /** The scan after the first n keys, starting from debounce table `table`. */
  function ScanPrefix(table: map<KeyId, int>, keys: seq<KeyId>, pressed: seq<bool>, times: seq<int>, n: nat): Scan
    requires ScanInputs(keys, pressed, times) && n <= |pressed|
    decreases n
  {
    if n == 0 then Scan(table, [])
    else
      ScanKey(ScanPrefix(table, keys, pressed, times, n - 1),
              n - 1, keys[n - 1], pressed[n - 1], times[n - 1])
  }

  /** Every index in `acc` is below n and names a pressed key in rows 0..2; the indices increase. */
  predicate AcceptedEligibleInOrder(keys: seq<KeyId>, pressed: seq<bool>, acc: seq<nat>, n: nat)
    requires n <= |pressed| <= |keys|
  {
    && (forall j :: 0 <= j < |acc| ==> acc[j] < n && Eligible(keys[acc[j]], pressed[acc[j]]))
    && (forall j1, j2 :: 0 <= j1 < j2 < |acc| ==> acc[j1] < acc[j2])
  }

  /**
   * Only pressed keys in rows 0..2 are ever accepted, each at most once, and
   * they are accepted in key-index order.
   */
  lemma {:induction false} ScanAcceptsEligibleInOrder(table: map<KeyId, int>, keys: seq<KeyId>,
                                                     pressed: seq<bool>, times: seq<int>, n: nat)
    requires ScanInputs(keys, pressed, times) && n <= |pressed|
    ensures AcceptedEligibleInOrder(keys, pressed, ScanPrefix(table, keys, pressed, times, n).accepted, n)
    decreases n
  {
    if n > 0 {
      ScanAcceptsEligibleInOrder(table, keys, pressed, times, n - 1);
      var prev := ScanPrefix(table, keys, pressed, times, n - 1).accepted;
      var acc := ScanPrefix(table, keys, pressed, times, n).accepted;
      assert acc == prev || (acc == prev + [n - 1] && Eligible(keys[n - 1], pressed[n - 1]));
      forall j | 0 <= j < |acc|
        ensures acc[j] < n && Eligible(keys[acc[j]], pressed[acc[j]])
      {
        if j < |prev| {
          assert acc[j] == prev[j];
        } else {
          assert acc[j] == n - 1;
        }
      }
      forall j1, j2 | 0 <= j1 < j2 < |acc|
        ensures acc[j1] < acc[j2]
      {
        assert acc[j1] == prev[j1];
        if j2 < |prev| { assert acc[j2] == prev[j2]; }
      }
    }
  }

  /** The messages published for the accepted key indices, in order. */
  function Publishes(root: string, keys: seq<KeyId>, accepted: seq<nat>): (ms: seq<Message>)
    requires forall j :: 0 <= j < |accepted| ==> accepted[j] < |keys|
    ensures |ms| == |accepted|
    decreases |accepted|
  {
    if accepted == [] then []
    else
      var last := accepted[|accepted| - 1];
      Publishes(root, keys, accepted[..|accepted| - 1]) + [PressMessage(root, keys[last])]
  }

  /** The j-th published message is the press message of the j-th accepted key. */
  lemma {:induction false} PublishesAt(root: string, keys: seq<KeyId>, accepted: seq<nat>, j: nat)
    requires forall i :: 0 <= i < |accepted| ==> accepted[i] < |keys|
    requires j < |accepted|
    ensures Publishes(root, keys, accepted)[j] == PressMessage(root, keys[accepted[j]])
    decreases |accepted|
  {
    var init := accepted[..|accepted| - 1];
    if j < |init| {
      PublishesAt(root, keys, init, j);
    }
  }

  /** The messages that reach the broker: those of the accepted keys whose publish did not fail. */
  function Delivered(root: string, keys: seq<KeyId>, accepted: seq<nat>, fails: seq<bool>): (ms: seq<Message>)
    requires forall j :: 0 <= j < |accepted| ==> accepted[j] < |keys| && accepted[j] < |fails|
    ensures |ms| <= |accepted|
    decreases |accepted|
  {
    if accepted == [] then []
    else
      var last := accepted[|accepted| - 1];
      var earlier := Delivered(root, keys, accepted[..|accepted| - 1], fails);
      if fails[last] then earlier else earlier + [PressMessage(root, keys[last])]
  }

  /** When no publish fails, every attempted message is delivered. */
  lemma {:induction false} DeliveredWithoutFailures(root: string, keys: seq<KeyId>, accepted: seq<nat>, fails: seq<bool>)
    requires forall j :: 0 <= j < |accepted| ==> accepted[j] < |keys| && accepted[j] < |fails|
    requires forall i :: 0 <= i < |fails| ==> !fails[i]
    ensures Delivered(root, keys, accepted, fails) == Publishes(root, keys, accepted)
    decreases |accepted|
  {
    if accepted != [] {
      DeliveredWithoutFailures(root, keys, accepted[..|accepted| - 1], fails);
    }
  }

  /** Accepting one more key index appends its message to the attempted ones, and to the delivered ones unless it fails. */
  lemma AppendAccepted(root: string, keys: seq<KeyId>, accepted: seq<nat>, fails: seq<bool>, i: nat)
    requires forall j :: 0 <= j < |accepted| ==> accepted[j] < |keys| && accepted[j] < |fails|
    requires i < |keys| && i < |fails|
    ensures Publishes(root, keys, accepted + [i]) == Publishes(root, keys, accepted) + [PressMessage(root, keys[i])]
    ensures fails[i] ==> Delivered(root, keys, accepted + [i], fails) == Delivered(root, keys, accepted, fails)
    ensures !fails[i] ==> Delivered(root, keys, accepted + [i], fails) == Delivered(root, keys, accepted, fails) + [PressMessage(root, keys[i])]
  {
    assert (accepted + [i])[..|accepted|] == accepted;
  }

  /** Every accepted index names a key and a publish outcome. */
  predicate IndicesValid(accepted: seq<nat>, keys: seq<KeyId>, fails: seq<bool>) {
    forall j :: 0 <= j < |accepted| ==> accepted[j] < |keys| && accepted[j] < |fails|
  }

  /**
   * A key that is never pressed in rows 0..2 during the scan (unpressed, or in
   * the bottom row) is never looked up or written in the debounce table.
   */
  lemma {:induction false} ScanLeavesIneligibleKeys(table: map<KeyId, int>, keys: seq<KeyId>,
                                                    pressed: seq<bool>, times: seq<int>, n: nat, c: KeyId)
    requires ScanInputs(keys, pressed, times) && n <= |pressed|
    requires forall i :: 0 <= i < n && keys[i] == c ==> !Eligible(c, pressed[i])
    ensures var t := ScanPrefix(table, keys, pressed, times, n).table;
      (c in t <==> c in table) && (c in table ==> t[c] == table[c])
    decreases n
  {
    if n > 0 {
      ScanLeavesIneligibleKeys(table, keys, pressed, times, n - 1, c);
    }
  }

  predicate Distinct(keys: seq<KeyId>, n: nat)
    requires n <= |keys|
  {
    forall i, j :: 0 <= i < j < n ==> keys[i] != keys[j]
  }

  /**
   * On a keypad whose keys are distinct, key i is accepted exactly when it is
   * pressed, lies in rows 0..2 and the table from before the scan accepts it,
   * and the table afterwards holds, for each such key, what one press of it
   * leaves there.
   */
  lemma {:induction false} ScanOnDistinctKeys(table: map<KeyId, int>, keys: seq<KeyId>,
                                              pressed: seq<bool>, times: seq<int>, n: nat)
    requires ScanInputs(keys, pressed, times) && n <= |pressed| && Distinct(keys, n)
    ensures var s := ScanPrefix(table, keys, pressed, times, n);
      forall i :: 0 <= i < n ==>
        && (i in s.accepted <==> Eligible(keys[i], pressed[i]) && Accepts(table, keys[i], times[i]))
        && (Eligible(keys[i], pressed[i]) ==> keys[i] in s.table && s.table[keys[i]] == AfterPress(table, keys[i], times[i])[keys[i]])
        && (!Eligible(keys[i], pressed[i]) ==> (keys[i] in s.table <==> keys[i] in table))
    decreases n
  {
    if n > 0 {
      var m := n - 1;
      ScanOnDistinctKeys(table, keys, pressed, times, m);
      ScanAcceptsEligibleInOrder(table, keys, pressed, times, m);
      var prev := ScanPrefix(table, keys, pressed, times, m);
      var s := ScanPrefix(table, keys, pressed, times, n);
      var k := keys[m];
      // The first m steps did not touch key m.
      ScanLeavesIneligibleKeys(table, keys, pressed, times, m, k);
      assert m !in prev.accepted;
      forall i | 0 <= i < n
        ensures i in s.accepted <==> Eligible(keys[i], pressed[i]) && Accepts(table, keys[i], times[i])
        ensures Eligible(keys[i], pressed[i]) ==> keys[i] in s.table && s.table[keys[i]] == AfterPress(table, keys[i], times[i])[keys[i]]
        ensures !Eligible(keys[i], pressed[i]) ==> (keys[i] in s.table <==> keys[i] in table)
      {
        if i < m {
          assert keys[i] != k;
        }
      }
    }
  }

  /**
   * One pass of check_buttons' loop body for key index i: the tracker is
   * consulted only for a pressed key in rows 0..2, and an accepted press is
   * handed to publish, reaching the broker unless the publish fails.
   */
  method PressKey(tracker: DebounceTracker, root: string, i: nat, key: KeyId, pressed: bool, now: int, failed: bool,
                  ghost accepted: seq<nat>, attempted: seq<Message>, delivered: seq<Message>)
      returns (ok: bool, attempted': seq<Message>, delivered': seq<Message>)
    modifies tracker
    ensures Scan(tracker.lastPress, if ok then accepted + [i] else accepted)
         == ScanKey(Scan(old(tracker.lastPress), accepted), i, key, pressed, now)
    ensures ok ==> attempted' == attempted + [PressMessage(root, key)]
    ensures ok && !failed ==> delivered' == delivered + [PressMessage(root, key)]
    ensures !(ok && !failed) ==> delivered' == delivered
    ensures !ok ==> attempted' == attempted
  {
    ok, attempted', delivered' := false, attempted, delivered;
    if key.1 <= 2 && pressed {
      ok := tracker.IsValidPress(key, now);
      if ok {
        var message := PressMessage(root, key);
        attempted' := attempted + [message];
        if !failed {
          delivered' := delivered + [message];
        }
      }
    }
  }

  /**
   * check_buttons: scan the snapshot, consult the tracker, publish accepted
   * presses. The tracker ends as the scan leaves it, the messages handed to
   * publish are those of the accepted keys in key-index order, and those that
   * reach the broker are the ones whose publish did not fail.
   */
  method CheckButtons(tracker: DebounceTracker, root: string, keys: seq<KeyId>, pressed: seq<bool>,
                      times: seq<int>, fails: seq<bool>)
      returns (attempted: seq<Message>, delivered: seq<Message>)
    requires ScanInputs(keys, pressed, times) && |fails| == |pressed|
    modifies tracker
    ensures var s := ScanPrefix(old(tracker.lastPress), keys, pressed, times, |pressed|);
      && tracker.lastPress == s.table
      && IndicesValid(s.accepted, keys, fails)
      && attempted == Publishes(root, keys, s.accepted)
      && delivered == Delivered(root, keys, s.accepted, fails)
  {
    ghost var start := tracker.lastPress;
    ghost var accepted: seq<nat> := [];
    attempted, delivered := [], [];
    var i: nat := 0;
    while i < |pressed|
      invariant i <= |pressed|
      invariant ScanPrefix(start, keys, pressed, times, i) == Scan(tracker.lastPress, accepted)
      invariant IndicesValid(accepted, keys, fails)
      invariant attempted == Publishes(root, keys, accepted)
      invariant delivered == Delivered(root, keys, accepted, fails)
    {
      var ok;
      ok, attempted, delivered := PressKey(tracker, root, i, keys[i], pressed[i], times[i], fails[i],
                                           accepted, attempted, delivered);
      if ok {
        AppendAccepted(root, keys, accepted, fails, i);
        accepted := accepted + [i];
      }
      i := i + 1;
    }
  }
}

/**
 * The colour policy of the inbound handler (main.py, mqtt_callback): the
 * if/elif chain that picks a key's colour when its status digit is 1, and an
 * independent reference definition of the same policy as an ordered rule
 * table with a mandatory fallback, evaluated first-match-wins.
 */
module Colours {

  /** A key's LED colour: three channel intensities. */
  datatype Rgb = Rgb(r: int, g: int, b: int)

  const Blue: Rgb := Rgb(0, 0, 255)
  const Orange: Rgb := Rgb(255, 75, 0)
  const Purple: Rgb := Rgb(120, 0, 160)
  const Green: Rgb := Rgb(0, 225, 0)
  const Red: Rgb := Rgb(255, 0, 0)

  /** The idle colour shipped in config.py (default_keypad_color). */
  const ConfigDefaultKeypadColor: Rgb := Rgb(6, 6, 6)

  /** The keypad is a 4 x 4 grid; x is the column, y the row. */
  const Columns: int := 4
  const Rows: int := 4

  predicate InGrid(x: int, y: int) {
    0 <= x < Columns && 0 <= y < Rows
  }

  /** The colour chain of mqtt_callback for a key whose status is 1. */
  function ColourFor(x: int, y: int): Rgb {
    if x == 1 && y == 0 then Blue
    else if y == 3 then Orange
    else if x == 2 && y == 0 then Purple
    else if y == 1 || y == 2 then Green
    else Red
  }

  // ---------------------------------------------------------------------
  // Reference definition: an ordered rule table with positional wildcards.

  /** One axis of a rule's condition: any value, one value, or a set of values. */
  datatype Axis = Any | Exact(v: int) | OneOf(vs: set<int>)

  predicate AxisMatches(a: Axis, v: int) {
    match a
    case Any => true
    case Exact(w) => v == w
    case OneOf(ws) => v in ws
  }

  datatype Rule = Rule(xMatch: Axis, yMatch: Axis, colour: Rgb)

  predicate RuleMatches(rule: Rule, x: int, y: int) {
    AxisMatches(rule.xMatch, x) && AxisMatches(rule.yMatch, y)
  }

  /** Positional rules in evaluation order, and the fallback used when none matches. */
  datatype Table = Table(rules: seq<Rule>, fallback: Rgb)

  /** The colour of the first rule in `rules` that matches (x, y), or `fallback`. */
  function FirstMatch(rules: seq<Rule>, fallback: Rgb, x: int, y: int): Rgb
    decreases |rules|
  {
    if rules == [] then fallback
    else if RuleMatches(rules[0], x, y) then rules[0].colour
    else FirstMatch(rules[1..], fallback, x, y)
  }

  function Resolve(t: Table, x: int, y: int): Rgb {
    FirstMatch(t.rules, t.fallback, x, y)
  }

  /** Resolve returns the colour of rule i when rule i is the first rule that matches. */
  lemma {:induction false} ResolveFirstMatch(t: Table, x: int, y: int, i: nat)
    requires i < |t.rules| && RuleMatches(t.rules[i], x, y)
    requires forall j :: 0 <= j < i ==> !RuleMatches(t.rules[j], x, y)
    ensures Resolve(t, x, y) == t.rules[i].colour
  {
    FirstMatchAt(t.rules, t.fallback, x, y, i);
  }

  lemma {:induction false} FirstMatchAt(rules: seq<Rule>, fallback: Rgb, x: int, y: int, i: nat)
    requires i < |rules| && RuleMatches(rules[i], x, y)
    requires forall j :: 0 <= j < i ==> !RuleMatches(rules[j], x, y)
    ensures FirstMatch(rules, fallback, x, y) == rules[i].colour
    decreases i
  {
    if i > 0 {
      assert !RuleMatches(rules[0], x, y);
      FirstMatchAt(rules[1..], fallback, x, y, i - 1);
    }
  }

  /** Resolve returns the fallback exactly when no positional rule matches. */
  lemma {:induction false} ResolveFallback(t: Table, x: int, y: int)
    requires forall j :: 0 <= j < |t.rules| ==> !RuleMatches(t.rules[j], x, y)
    ensures Resolve(t, x, y) == t.fallback
  {
    FirstMatchNone(t.rules, t.fallback, x, y);
  }

  lemma {:induction false} FirstMatchNone(rules: seq<Rule>, fallback: Rgb, x: int, y: int)
    requires forall j :: 0 <= j < |rules| ==> !RuleMatches(rules[j], x, y)
    ensures FirstMatch(rules, fallback, x, y) == fallback
    decreases |rules|
  {
    if rules != [] {
      assert !RuleMatches(rules[0], x, y);
      FirstMatchNone(rules[1..], fallback, x, y);
    }
  }

  /** The rule table that mqtt_callback's chain encodes, in the chain's order. */
  const SourceTable: Table := Table(
    [ Rule(Exact(1), Exact(0), Blue),
      Rule(Any, Exact(3), Orange),
      Rule(Exact(2), Exact(0), Purple),
      Rule(Any, OneOf({1, 2}), Green) ],
    Red)

  /** The if/elif chain is the first-match evaluation of SourceTable, for every key. */
  lemma ColourForIsFirstMatch(x: int, y: int)
    ensures ColourFor(x, y) == Resolve(SourceTable, x, y)
  {
    var rs := SourceTable.rules;
    if x == 1 && y == 0 {
      ResolveFirstMatch(SourceTable, x, y, 0);
    } else if y == 3 {
      ResolveFirstMatch(SourceTable, x, y, 1);
    } else if x == 2 && y == 0 {
      ResolveFirstMatch(SourceTable, x, y, 2);
    } else if y == 1 || y == 2 {
      ResolveFirstMatch(SourceTable, x, y, 3);
    } else {
      assert forall j :: 0 <= j < |rs| ==> !RuleMatches(rs[j], x, y);
      ResolveFallback(SourceTable, x, y);
    }
  }

  /**
   * Every key of the grid gets exactly one of the five colours, and each
   * colour covers exactly its region of the grid.
   */
  lemma ColourRegions(x: int, y: int)
    requires InGrid(x, y)
    ensures ColourFor(x, y) == Blue <==> x == 1 && y == 0
    ensures ColourFor(x, y) == Orange <==> y == 3
    ensures ColourFor(x, y) == Purple <==> x == 2 && y == 0
    ensures ColourFor(x, y) == Green <==> y == 1 || y == 2
    ensures ColourFor(x, y) == Red <==> y == 0 && x != 1 && x != 2
  {
  }
}

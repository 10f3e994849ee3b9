/**
 * The keyword emergency detector of server/redflags/check.py. The rule file
 * is read by the caller and handed to the constructor as its ordered list of
 * (key, rule) entries; a compiled pattern is represented by its source text,
 * and the case-insensitive regular-expression search `pat.search(t)` is the
 * parameter `matches(pattern, t)`.
 */
module RedFlags {
  import opened Wrappers
  import opened Text

  /** One rule of the rule file: its label (`category`) and its patterns, in file order. */
  datatype Rule = Rule(category: string, patterns: seq<string>)

  /** The result of `detect`; `category` is its `label`, `None` when no rule matched. */
  datatype Detection = Detection(isEmergency: bool, category: Option<string>, triggers: seq<string>)

  /** `bool(label)`: the label is set, and not the empty string. */
  predicate CategorySet(category: Option<string>)
  {
    category.Some? && category.value != ""
  }

  /** The first pattern that matches `t`. */
  function FirstMatch(patterns: seq<string>, t: string, matches: (string, string) -> bool): (r: Option<string>)
    ensures r.Some? ==> r.value in patterns && matches(r.value, t)
  {
    if patterns == [] then None
    else if matches(patterns[0], t) then Some(patterns[0])
    else FirstMatch(patterns[1..], t, matches)
  }

  /** No pattern of the list matches `t` exactly when `FirstMatch` finds none. */
  lemma {:induction false} FirstMatchNone(patterns: seq<string>, t: string, matches: (string, string) -> bool)
    ensures FirstMatch(patterns, t, matches).None? <==> forall p :: p in patterns ==> !matches(p, t)
  {
    if patterns != [] {
      FirstMatchNone(patterns[1..], t, matches);
      assert patterns == [patterns[0]] + patterns[1..];
    }
  }

  /** The pattern found is the earliest matching one. */
  lemma {:induction false} FirstMatchIsFirst(patterns: seq<string>, t: string, matches: (string, string) -> bool) returns (k: nat)
    requires FirstMatch(patterns, t, matches).Some?
    ensures k < |patterns| && patterns[k] == FirstMatch(patterns, t, matches).value
    ensures forall j :: 0 <= j < k ==> !matches(patterns[j], t)
  {
    if matches(patterns[0], t) {
      k := 0;
    } else {
      var k' := FirstMatchIsFirst(patterns[1..], t, matches);
      k := k' + 1;
    }
  }

  /**
   * The rule loop from the state (`label`, `triggers`) on: each rule records
   * its first matching pattern and its label, and the loop stops once the
   * label is set. A rule whose label is "" records a trigger but does not stop it.
   */
  function Scan(rules: seq<Rule>, t: string, matches: (string, string) -> bool, category: Option<string>, triggers: seq<string>)
    : (r: (Option<string>, seq<string>))
    ensures |r.1| <= |triggers| + |rules|
  {
    if rules == [] then (category, triggers)
    else
      var hit := FirstMatch(rules[0].patterns, t, matches);
      var category', triggers' := if hit.Some? then Some(rules[0].category) else category, if hit.Some? then triggers + [hit.value] else triggers;
      if CategorySet(category') then (category', triggers') else Scan(rules[1..], t, matches, category', triggers')
  }

  /** What `detect(text)` returns (`text` being `None` reads as ""). */
  function Detected(rules: seq<Rule>, text: Option<string>, matches: (string, string) -> bool): Detection
  {
    var t := Strip(if text.Some? then text.value else "");
    if t == [] then Detection(false, None, [])
    else
      var r := Scan(rules, t, matches, None, []);
      Detection(CategorySet(r.0), r.0, r.1)
  }

  /** Some pattern of `rule` matches `t`. */
  predicate RuleMatches(rule: Rule, t: string, matches: (string, string) -> bool)
  {
    exists p :: p in rule.patterns && matches(p, t)
  }

  class RedFlagChecker {
    var rules: seq<Rule>
    const matches: (string, string) -> bool

    /** `__init__`: keeps the rules of the file in order, dropping their keys. */
    constructor(data: seq<(string, Rule)>, matches: (string, string) -> bool)
      ensures |rules| == |data| && forall i :: 0 <= i < |data| ==> rules[i] == data[i].1
      ensures this.matches == matches
    {
      var list: seq<Rule> := [];
      for i := 0 to |data|
        invariant |list| == i && forall k :: 0 <= k < i ==> list[k] == data[k].1
      {
        var rule := data[i].1;
        list := list + [Rule(rule.category, rule.patterns)];
      }
      this.matches := matches;
      rules := list;
    }

    /**
     * `detect(text)`. Missing, empty or whitespace-only text is never an
     * emergency and triggers nothing; `is_emergency` is exactly "the label is
     * set and not empty".
     */
    method Detect(text: Option<string>) returns (d: Detection)
      ensures d == Detected(rules, text, matches)
      ensures text.None? || IsBlank(text.value) ==> d == Detection(false, None, [])
      ensures d.isEmergency <==> d.category.Some? && d.category.value != ""
    {
      var t := Strip(if text.Some? then text.value else "");
      if t == [] {
        return Detection(false, None, []);
      }
      var triggers: seq<string> := [];
      var category: Option<string> := None;
      var i := 0;
      while i < |rules|
        invariant i <= |rules| && !CategorySet(category)
        invariant Scan(rules[i..], t, matches, category, triggers) == Scan(rules, t, matches, None, [])
      {
        var hit := FirstMatching(rules[i].patterns, t);
        if hit.Some? {
          triggers := triggers + [hit.value];
          category := Some(rules[i].category);
        }
        assert rules[i..][1..] == rules[i + 1..];
        if CategorySet(category) {
          break;
        }
        i := i + 1;
      }
      d := Detection(CategorySet(category), category, triggers);
    }

    /** The inner loop of `detect`: the patterns of one rule, up to the first that matches. */
    method FirstMatching(pats: seq<string>, t: string) returns (hit: Option<string>)
      ensures hit == FirstMatch(pats, t, matches)
    {
      hit := None;
      var j := 0;
      while j < |pats|
        invariant j <= |pats| && FirstMatch(pats[j..], t, matches) == FirstMatch(pats, t, matches)
      {
        assert pats[j..][1..] == pats[j + 1..];
        if matches(pats[j], t) {
          hit := Some(pats[j]);
          break;
        }
        j := j + 1;
      }
    }
  }

  /**
   * With non-empty labels, the label is that of the earliest rule with a
   * matching pattern, and the only trigger is that rule's first matching pattern.
   */
  lemma {:induction false} EarliestRuleWins(rules: seq<Rule>, t: string, matches: (string, string) -> bool, k: nat)
    requires forall r :: r in rules ==> r.category != ""
    requires k < |rules| && RuleMatches(rules[k], t, matches)
    requires forall i :: 0 <= i < k ==> !RuleMatches(rules[i], t, matches)
    ensures FirstMatch(rules[k].patterns, t, matches).Some?
    ensures Scan(rules, t, matches, None, [])
      == (Some(rules[k].category), [FirstMatch(rules[k].patterns, t, matches).value])
  {
    FirstMatchNone(rules[k].patterns, t, matches);
    assert rules[0] in rules;
    if k == 0 {
      var hit := FirstMatch(rules[0].patterns, t, matches);
      assert [] + [hit.value] == [hit.value];
    } else {
      FirstMatchNone(rules[0].patterns, t, matches);
      assert !RuleMatches(rules[0], t, matches);
      assert rules[1..][k - 1] == rules[k];
      forall i | 0 <= i < k - 1 ensures !RuleMatches(rules[1..][i], t, matches) {
        assert rules[1..][i] == rules[i + 1];
      }
      EarliestRuleWins(rules[1..], t, matches, k - 1);
    }
  }

  /** When no pattern of any rule matches, nothing is detected. */
  lemma {:induction false} NoMatchNoLabel(rules: seq<Rule>, t: string, matches: (string, string) -> bool)
    requires forall r :: r in rules ==> !RuleMatches(r, t, matches)
    ensures Scan(rules, t, matches, None, []) == (None, [])
  {
    if rules != [] {
      assert rules[0] in rules;
      FirstMatchNone(rules[0].patterns, t, matches);
      NoMatchNoLabel(rules[1..], t, matches);
    }
  }
}

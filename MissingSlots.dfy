/**
 * The missing-slot resolver (`compute_missing` in
 * server/orchestrator/slot_enforcer.py): required slots that are not filled,
 * plus the slots of conditional rules whose predicate holds, stably sorted by
 * the intent's ask order.
 */
module MissingSlots {
  import opened Wrappers
  import opened Seqs
  import opened Sorting
  import opened SlotValues

  /**
   * A conditional-requirement predicate. The source evaluates a Python
   * expression over the slot values; this is the fragment such rules use.
   */
  datatype Pred =
    | Name(slot: string)                   // a bare slot name, read for its truthiness
    | Equals(slot: string, literal: Value) // `slot == literal`
    | Literal(b: bool)                     // `True` / `False`
    | Not(p: Pred)
    | And(left: Pred, right: Pred)
    | Or(left: Pred, right: Pred)

  function BoolAsInt(b: bool): int
  {
    if b then 1 else 0
  }

  /** Python `==` on slot values (`True == 1` and `False == 0` included). */
  predicate PyEquals(a: Value, b: Value)
  {
    match (a, b)
    case (Null, Null) => true
    case (Str(x), Str(y)) => x == y
    case (StrList(x), StrList(y)) => x == y
    case (Bool(x), Bool(y)) => x == y
    case (Bool(x), Int(y)) => BoolAsInt(x) == y
    case (Int(x), Bool(y)) => x == BoolAsInt(y)
    case (Int(x), Int(y)) => x == y
    case _ => false
  }

  /**
   * `bool(eval(cond, {}, slots))`; `None` where Python raises (a name that is
   * not a slot). `and`/`or` short-circuit, so an error on the right is not
   * reached when the left side decides.
   */
  function Eval(p: Pred, slots: Slots): Option<bool>
  {
    match p
    case Name(n) => if n in slots then Some(Truthy(slots[n])) else None
    case Equals(n, lit) => if n in slots then Some(PyEquals(slots[n], lit)) else None
    case Literal(b) => Some(b)
    case Not(q) => (match Eval(q, slots) case None => None case Some(b) => Some(!b))
    case And(l, r) => (match Eval(l, slots) case None => None case Some(b) => if !b then Some(false) else Eval(r, slots))
    case Or(l, r) => (match Eval(l, slots) case None => None case Some(b) => if b then Some(true) else Eval(r, slots))
  }

  /** A rule fires when its condition is present and evaluates to true; a missing condition or an error is false. */
  predicate Holds(cond: Option<Pred>, slots: Slots)
  {
    cond.Some? && Eval(cond.value, slots) == Some(true)
  }

  datatype Rule = Rule(cond: Option<Pred>, names: seq<string>)

  /** One intent's policy: `required_slots`, optional `ask_order`, `conditional_required`. */
  datatype IntentPolicy = IntentPolicy(required: seq<string>, askOrder: Option<seq<string>>, conditional: seq<Rule>)

  type SlotPolicy = map<string, IntentPolicy>

  /** An intent without a policy: nothing is required. */
  function PolicyFor(policy: SlotPolicy, intent: string): (cfg: IntentPolicy)
    ensures intent !in policy ==> cfg.required == [] && cfg.conditional == []
  {
    if intent in policy then policy[intent] else IntentPolicy([], None, [])
  }

  /** `_get_ask_order`: the configured ask order, else the required slots. */
  function AskOrder(cfg: IntentPolicy): (order: seq<string>)
    ensures cfg.askOrder.None? ==> order == cfg.required
    ensures cfg.askOrder.Some? ==> order == cfg.askOrder.value
  {
    match cfg.askOrder
    case Some(order) => order
    case None => cfg.required
  }

  function IndexOf(s: seq<string>, x: string): (r: nat)
    requires x in s
    ensures r < |s| && s[r] == x && forall j :: 0 <= j < r ==> s[j] != x
  {
    if s[0] == x then 0 else 1 + IndexOf(s[1..], x)
  }

  /** The sort key: `order.index(x) if x in order else 999`. */
  function Rank(order: seq<string>, x: string): int
  {
    if x in order then IndexOf(order, x) else 999
  }

  function ByRank(order: seq<string>): (string, string) -> bool
  {
    (a: string, b: string) => Rank(order, a) <= Rank(order, b)
  }

  lemma ByRankIsPreorder(order: seq<string>)
    ensures TotalPreorder(ByRank(order))
  {
  }

  /** `[name for name in required if not _is_filled(slots.get(name))]`. */
  function RequiredMissing(required: seq<string>, slots: Slots): (r: seq<string>)
    ensures forall n :: n in r <==> n in required && !IsFilled(Get(slots, n))
  {
    if required == [] then []
    else
      (if IsFilled(Get(slots, required[0])) then [] else [required[0]]) + RequiredMissing(required[1..], slots)
  }

  /** Appends each unfilled name of `names` that is not already listed. */
  function AppendUnfilled(acc: seq<string>, names: seq<string>, slots: Slots): seq<string>
  {
    if names == [] then acc
    else
      var prev := AppendUnfilled(acc, names[..|names| - 1], slots);
      var n := names[|names| - 1];
      if !IsFilled(Get(slots, n)) && n !in prev then prev + [n] else prev
  }

  /** The conditional-requirements loop over `rules`. */
  function AddConditional(acc: seq<string>, rules: seq<Rule>, slots: Slots): seq<string>
  {
    if rules == [] then acc
    else
      var prev := AddConditional(acc, rules[..|rules| - 1], slots);
      var rule := rules[|rules| - 1];
      if Holds(rule.cond, slots) then AppendUnfilled(prev, rule.names, slots) else prev
  }

  /** The missing list before sorting. */
  function Unsorted(cfg: IntentPolicy, slots: Slots): seq<string>
  {
    AddConditional(RequiredMissing(cfg.required, slots), cfg.conditional, slots)
  }

  /** `compute_missing` as a function of the policy and the slots. */
  function Missing(cfg: IntentPolicy, slots: Slots): seq<string>
  {
    Sort(Unsorted(cfg, slots), ByRank(AskOrder(cfg)))
  }

  method ComputeMissing(intent: string, slots: Slots, policy: SlotPolicy) returns (missing: seq<string>)
    ensures missing == Missing(PolicyFor(policy, intent), slots)
    ensures forall n :: n in missing ==> !IsFilled(Get(slots, n))
    ensures forall i, j :: 0 <= i < j < |missing| ==>
              Rank(AskOrder(PolicyFor(policy, intent)), missing[i]) <= Rank(AskOrder(PolicyFor(policy, intent)), missing[j])
  {
    var cfg := PolicyFor(policy, intent);
    var conds := cfg.conditional;
    missing := RequiredMissing(cfg.required, slots);
    ghost var base := missing;
    var i := 0;
    while i < |conds|
      invariant 0 <= i <= |conds|
      invariant missing == AddConditional(base, conds[..i], slots)
    {
      var rule := conds[i];
      if Holds(rule.cond, slots) {
        ghost var before := missing;
        var j := 0;
        while j < |rule.names|
          invariant 0 <= j <= |rule.names|
          invariant missing == AppendUnfilled(before, rule.names[..j], slots)
        {
          assert rule.names[..j + 1][..j] == rule.names[..j];
          var name := rule.names[j];
          if !IsFilled(Get(slots, name)) && name !in missing {
            missing := missing + [name];
          }
          j := j + 1;
        }
        assert rule.names[..j] == rule.names;
      }
      assert conds[..i + 1][..i] == conds[..i];
      i := i + 1;
    }
    assert conds[..i] == conds;
    var order := AskOrder(cfg);
    missing := Sort(missing, ByRank(order));
    assert missing == Missing(cfg, slots);
    MissingUnfilled(cfg, slots);
    assert Sorted(missing, ByRank(order)) by {
      ByRankIsPreorder(order);
      SortSorted(Unsorted(cfg, slots), ByRank(order));
    }
  }

  lemma {:induction false} AppendUnfilledExactly(acc: seq<string>, names: seq<string>, slots: Slots)
    ensures forall n :: n in AppendUnfilled(acc, names, slots) <==> n in acc || (n in names && !IsFilled(Get(slots, n)))
    ensures Distinct(acc) ==> Distinct(AppendUnfilled(acc, names, slots))
  {
    if names != [] {
      var init := names[..|names| - 1];
      AppendUnfilledExactly(acc, init, slots);
      assert names == init + [names[|names| - 1]];
    }
  }

  lemma {:induction false} AddConditionalExactly(acc: seq<string>, rules: seq<Rule>, slots: Slots)
    ensures forall n :: n in AddConditional(acc, rules, slots) <==>
      n in acc || (!IsFilled(Get(slots, n)) && exists i :: 0 <= i < |rules| && Holds(rules[i].cond, slots) && n in rules[i].names)
    ensures Distinct(acc) ==> Distinct(AddConditional(acc, rules, slots))
  {
    if rules != [] {
      var init, rule := rules[..|rules| - 1], rules[|rules| - 1];
      AddConditionalExactly(acc, init, slots);
      AppendUnfilledExactly(AddConditional(acc, init, slots), rule.names, slots);
      forall i | 0 <= i < |init| ensures rules[i] == init[i] { }
    }
  }

  /** Every missing name is unfilled. */
  lemma MissingUnfilled(cfg: IntentPolicy, slots: Slots)
    ensures forall n :: n in Unsorted(cfg, slots) ==> !IsFilled(Get(slots, n))
    ensures forall n :: n in Missing(cfg, slots) ==> !IsFilled(Get(slots, n))
  {
    AddConditionalExactly(RequiredMissing(cfg.required, slots), cfg.conditional, slots);
    var u := Unsorted(cfg, slots);
    SortPermutes(u, ByRank(AskOrder(cfg)));
    forall n | n in Missing(cfg, slots) ensures n in u {
      assert n in multiset(Missing(cfg, slots));
    }
  }

  /**
   * A name is missing exactly when it is unfilled and either required or
   * named by a rule whose predicate holds (an erroring predicate does not).
   */
  lemma MissingExactly(cfg: IntentPolicy, slots: Slots)
    ensures forall n :: n in Missing(cfg, slots) <==>
      !IsFilled(Get(slots, n)) &&
      (n in cfg.required ||
       exists i :: 0 <= i < |cfg.conditional| && Holds(cfg.conditional[i].cond, slots) && n in cfg.conditional[i].names)
  {
    AddConditionalExactly(RequiredMissing(cfg.required, slots), cfg.conditional, slots);
    var u := Unsorted(cfg, slots);
    SortPermutes(u, ByRank(AskOrder(cfg)));
    assert multiset(Missing(cfg, slots)) == multiset(u);
    forall n ensures n in Missing(cfg, slots) <==> n in u {
      assert n in Missing(cfg, slots) <==> n in multiset(Missing(cfg, slots));
      assert n in u <==> n in multiset(u);
    }
  }

  /**
   * The order: ascending rank in the ask order, and among names of equal rank
   * (in particular all names absent from the ask order) the encounter order.
   * A conditional name is never listed twice.
   */
  lemma MissingOrder(cfg: IntentPolicy, slots: Slots, y: string)
    ensures Sorted(Missing(cfg, slots), ByRank(AskOrder(cfg)))
    ensures ClassOf(Missing(cfg, slots), y, ByRank(AskOrder(cfg))) == ClassOf(Unsorted(cfg, slots), y, ByRank(AskOrder(cfg)))
    ensures Distinct(RequiredMissing(cfg.required, slots)) ==> multiset(Missing(cfg, slots)) == multiset(Unsorted(cfg, slots)) && Distinct(Unsorted(cfg, slots))
  {
    ByRankIsPreorder(AskOrder(cfg));
    SortSorted(Unsorted(cfg, slots), ByRank(AskOrder(cfg)));
    SortPermutes(Unsorted(cfg, slots), ByRank(AskOrder(cfg)));
    SortStable(Unsorted(cfg, slots), y, ByRank(AskOrder(cfg)));
    AddConditionalExactly(RequiredMissing(cfg.required, slots), cfg.conditional, slots);
  }

  /** An intent without a policy has nothing missing. */
  lemma NoPolicyNothingMissing(policy: SlotPolicy, intent: string, slots: Slots)
    requires intent !in policy
    ensures Missing(PolicyFor(policy, intent), slots) == []
  {
    var cfg := PolicyFor(policy, intent);
    assert Unsorted(cfg, slots) == [];
  }

  /** The names of `r` are names of `list`, in the order they have there. */
  predicate InListOrder(r: seq<string>, list: seq<string>)
  {
    forall i, j :: 0 <= i < j < |r| ==> r[i] in list && r[j] in list && IndexOf(list, r[i]) < IndexOf(list, r[j])
  }

  /** The unfilled required names keep their order in the required list. */
  lemma {:induction false} RequiredMissingInOrder(required: seq<string>, slots: Slots)
    requires Distinct(required)
    ensures InListOrder(RequiredMissing(required, slots), required)
  {
    if required != [] {
      var h, tail := required[0], required[1..];
      IndexAfterHead(required);
      RequiredMissingInOrder(tail, slots);
      var r' := RequiredMissing(tail, slots);
      var front := if IsFilled(Get(slots, h)) then [] else [h];
      assert RequiredMissing(required, slots) == front + r';
      ConsInOrder(required, front, r');
    }
  }

  /** Putting the head of the list (or nothing) before names of its tail in the tail's order gives the list's order. */
  lemma ConsInOrder(required: seq<string>, front: seq<string>, rest: seq<string>)
    requires required != [] && Distinct(required) && (front == [] || front == [required[0]])
    requires forall x :: x in rest ==> x in required[1..]
    requires InListOrder(rest, required[1..])
    ensures InListOrder(front + rest, required)
  {
    IndexAfterHead(required);
    var r, d := front + rest, |front|;
    forall i, j | 0 <= i < j < |r| ensures r[i] in required && r[j] in required && IndexOf(required, r[i]) < IndexOf(required, r[j]) {
      var b := rest[j - d];
      assert r[j] == b && b in rest;
      if i >= d {
        var a := rest[i - d];
        assert r[i] == a && a in rest;
      } else {
        assert r[i] == required[0];
      }
    }
  }

  /** In a list without repetitions, a later name sits one place further than in the list's tail. */
  lemma IndexAfterHead(required: seq<string>)
    requires required != [] && Distinct(required)
    ensures Distinct(required[1..])
    ensures forall x :: x in required[1..] ==> x in required && x != required[0] && IndexOf(required, x) == 1 + IndexOf(required[1..], x)
  {
    var tail := required[1..];
    forall i, j | 0 <= i < j < |tail| ensures tail[i] != tail[j] {
      assert tail[i] == required[i + 1] && tail[j] == required[j + 1];
    }
    forall x | x in tail ensures x != required[0] {
      var k :| 0 <= k < |tail| && tail[k] == x;
      assert required[k + 1] == x;
    }
  }

  /** Appending unfilled names keeps `acc` in front and adds only names that are not required. */
  lemma {:induction false} AppendUnfilledAppends(acc: seq<string>, names: seq<string>, slots: Slots, required: seq<string>)
    requires forall n :: n in required && !IsFilled(Get(slots, n)) ==> n in acc
    ensures var r := AppendUnfilled(acc, names, slots);
      |acc| <= |r| && r[..|acc|] == acc && forall i :: |acc| <= i < |r| ==> r[i] !in required
  {
    if names != [] {
      var prev := AppendUnfilled(acc, names[..|names| - 1], slots);
      AppendUnfilledAppends(acc, names[..|names| - 1], slots, required);
      var n := names[|names| - 1];
      if !IsFilled(Get(slots, n)) && n !in prev {
        forall m | m in acc ensures m in prev {
          var k :| 0 <= k < |acc| && acc[k] == m;
          assert prev[k] == m;
        }
        assert (prev + [n])[..|acc|] == prev[..|acc|];
      }
    }
  }

  /** The conditional rules keep `acc` in front and add only names that are not required. */
  lemma {:induction false} AddConditionalAppends(acc: seq<string>, rules: seq<Rule>, slots: Slots, required: seq<string>)
    requires forall n :: n in required && !IsFilled(Get(slots, n)) ==> n in acc
    ensures var r := AddConditional(acc, rules, slots);
      |acc| <= |r| && r[..|acc|] == acc && forall i :: |acc| <= i < |r| ==> r[i] !in required
  {
    if rules != [] {
      var prev := AddConditional(acc, rules[..|rules| - 1], slots);
      AddConditionalAppends(acc, rules[..|rules| - 1], slots, required);
      var rule := rules[|rules| - 1];
      if Holds(rule.cond, slots) {
        forall m | m in acc ensures m in prev {
          var k :| 0 <= k < |acc| && acc[k] == m;
          assert prev[k] == m;
        }
        AppendUnfilledAppends(prev, rule.names, slots, required);
        var r := AppendUnfilled(prev, rule.names, slots);
        assert r[..|acc|] == r[..|prev|][..|acc|];
      }
    }
  }

  /**
   * Without `ask_order` the required list is the ask order, and the missing
   * list is the unfilled required names in their listed order followed by the
   * names the conditional rules add, in the order they add them: sorting
   * changes nothing. The fallback rank 999 must lie above every position in
   * the list, hence at most 1000 required names.
   */
  lemma DefaultAskOrder(cfg: IntentPolicy, slots: Slots)
    requires cfg.askOrder.None? && Distinct(cfg.required) && |cfg.required| <= 1000
    ensures Missing(cfg, slots) == Unsorted(cfg, slots)
    ensures var r, m := RequiredMissing(cfg.required, slots), Missing(cfg, slots);
      && |r| <= |m| && m[..|r|] == r
      && InListOrder(r, cfg.required)
      && (forall i :: |r| <= i < |m| ==> m[i] !in cfg.required)
  {
    var r, u := RequiredMissing(cfg.required, slots), Unsorted(cfg, slots);
    RequiredMissingInOrder(cfg.required, slots);
    AddConditionalAppends(r, cfg.conditional, slots, cfg.required);
    RequiredFirstSorted(cfg.required, r, u);
    SortOfSorted(u, ByRank(AskOrder(cfg)));
  }

  /**
   * Required names in their listed order followed by names outside the list
   * are sorted by rank in that list.
   */
  lemma RequiredFirstSorted(required: seq<string>, r: seq<string>, u: seq<string>)
    requires |required| <= 1000 && |r| <= |u| && u[..|r|] == r
    requires forall x :: x in r ==> x in required
    requires InListOrder(r, required)
    requires forall i :: |r| <= i < |u| ==> u[i] !in required
    ensures Sorted(u, ByRank(required))
  {
    forall i, j | 0 <= i < j < |u| ensures ByRank(required)(u[i], u[j]) {
      if j < |r| {
        assert u[i] == r[i] && u[j] == r[j];
      } else if i < |r| {
        assert u[i] == r[i] && r[i] in r;
      }
    }
  }

  /** A rule whose predicate errors or is false adds nothing. */
  lemma FailingRuleAddsNothing(acc: seq<string>, rules: seq<Rule>, rule: Rule, slots: Slots)
    requires rule.cond.None? || Eval(rule.cond.value, slots) != Some(true)
    ensures AddConditional(acc, rules + [rule], slots) == AddConditional(acc, rules, slots)
  {
    assert (rules + [rule])[..|rules|] == rules;
  }

  /** Required `[a, b, c]` with ask order `[c, a, b]` and `a`, `c` unfilled gives `[c, a]`. */
  lemma AskOrderExample(a: string, b: string, c: string, slots: Slots)
    requires a != b && b != c && a != c
    requires !IsFilled(Get(slots, a)) && IsFilled(Get(slots, b)) && !IsFilled(Get(slots, c))
    ensures Missing(IntentPolicy([a, b, c], Some([c, a, b]), []), slots) == [c, a]
  {
    var cfg := IntentPolicy([a, b, c], Some([c, a, b]), []);
    assert AskOrder(cfg) == [c, a, b];
    assert Unsorted(cfg, slots) == [a, c] by {
      assert RequiredMissing([c], slots) == [c];
      assert RequiredMissing([b, c], slots) == [c] by { assert [b, c][1..] == [c]; }
      assert [a, b, c][1..] == [b, c];
    }
    SortTwoByRank(a, b, c);
  }

  lemma SortTwoByRank(a: string, b: string, c: string)
    requires a != b && b != c && a != c
    ensures Sort([a, c], ByRank([c, a, b])) == [c, a]
  {
    var order := [c, a, b];
    var le := ByRank(order);
    assert Rank(order, c) == 0;
    assert Rank(order, a) == 1 by {
      assert order[1..] == [a, b];
      assert IndexOf(order, a) == 1 + IndexOf([a, b], a);
    }
    assert Sort([a], le) == [a] by { assert [a][..0] == []; }
    assert Sort([a, c], le) == Insert(c, [a], le) by { assert [a, c][..1] == [a]; }
    assert !le(a, c);
  }
}

/**
 * The state merger (`merge_states` in server/orchestrator/slot_enforcer.py,
 * its reachable part): intent resolution, slot merge without erasure, and the
 * reset that follows an intent change.
 */
module StateMerge {
  import opened Wrappers
  import opened SlotValues

  const MainSymptoms := "main_symptoms"
  const Uncertain := "uncertain"

  /** Keys exempt from the intent-change drop. */
  const KeepGeneral: set<string> := {"risk_factors", "meds_allergies"}
  const DermOnly: set<string> := {"rash", "rash_morphology", "rash_location_primary", "rash_extent", "associated", "suspected_triggers", "vulnerable_groups"}
  const RespOnly: set<string> := {"fever", "cough", "sore_throat", "runny_nose", "fever_measured", "fever_max_c", "fever_method"}

  /**
   * The conversation state. `intent == ""` stands for an absent or empty
   * intent (both are falsy to the source); `asked` is `asked_slots`, which the
   * source builds through Python sets.
   */
  datatype State = State(
    intent: string,
    slots: Slots,
    asked: set<string>,
    missing: seq<string>,
    requiredFilled: bool,
    soapReady: Option<bool>,
    soapJson: Option<Slots>)

  const EmptyState := State("", map[], {}, [], false, None, None)

  /** The new intent if it is set and not "uncertain", else the previous, else the new, else "uncertain". */
  function ResolveIntent(prevIntent: string, newIntent: string): string
  {
    if newIntent != "" && newIntent != Uncertain then newIntent
    else if prevIntent != "" then prevIntent
    else if newIntent != "" then newIntent
    else Uncertain
  }

  predicate IntentChanged(prevIntent: string, newIntent: string)
  {
    prevIntent != "" && newIntent != "" && newIntent != prevIntent
  }

  /** The keys an intent change drops: respiratory ones for `derm_rash`, skin ones otherwise. */
  function DropOnChange(intent: string): set<string>
  {
    if intent == "derm_rash" then RespOnly else DermOnly
  }

  /** `ps` after `ps[k] = v` for every meaningful `v` of `ns` whose key is in `ks`. */
  function MergedOn(ps: Slots, ns: Slots, ks: set<string>): Slots
  {
    map k | k in ps.Keys + (ks * ns.Keys) && (k in ps || Meaningful(ns[k])) ::
      if k in ks && k in ns && Meaningful(ns[k]) then ns[k] else ps[k]
  }

  /** The slot merge: meaningful new values win, every other previous value stays. */
  function MergedSlots(ps: Slots, ns: Slots): Slots
  {
    MergedOn(ps, ns, ns.Keys)
  }

  /** The slots after an intent change: dropped domain keys and `main_symptoms` removed. */
  function Pruned(slots: Slots, intent: string): Slots
  {
    map k | k in slots && !(k in DropOnChange(intent) && k !in KeepGeneral) && k != MainSymptoms :: slots[k]
  }

  /** `merge_states` as a function of the two states. */
  function Merge(prev: State, incoming: State): State
  {
    var intent := ResolveIntent(prev.intent, incoming.intent);
    var changed := IntentChanged(prev.intent, incoming.intent);
    var merged := MergedSlots(prev.slots, incoming.slots);
    prev.(intent := intent,
          slots := if changed then Pruned(merged, intent) else merged,
          asked := if changed then {} else prev.asked + incoming.asked)
  }

  /** The merge loop over the new slots. */
  method MergeSlotValues(ps0: Slots, ns: Slots) returns (ps: Slots)
    ensures ps == MergedSlots(ps0, ns)
  {
    ps := ps0;
    var todo := ns.Keys;
    while todo != {}
      invariant todo <= ns.Keys
      invariant ps == MergedOn(ps0, ns, ns.Keys - todo)
      decreases todo
    {
      var k :| k in todo;
      MergedOnStep(ps0, ns, ns.Keys - todo, k);
      ps := Overlay(ps, ns, k);
      assert ns.Keys - (todo - {k}) == (ns.Keys - todo) + {k};
      todo := todo - {k};
    }
    assert ns.Keys - todo == ns.Keys;
  }

  lemma MergedOnStep(ps: Slots, ns: Slots, ks: set<string>, k: string)
    requires k in ns && k !in ks
    ensures MergedOn(ps, ns, ks + {k}) == Overlay(MergedOn(ps, ns, ks), ns, k)
  {
  }

  /** One step of the merge: `ps[k] = ns[k]` when that value is meaningful. */
  function Overlay(ps: Slots, ns: Slots, k: string): Slots
    requires k in ns
  {
    if Meaningful(ns[k]) then ps[k := ns[k]] else ps
  }

  /** The drop loop that follows an intent change. */
  method PruneSlots(merged: Slots, intent: string) returns (ps: Slots)
    ensures ps == Pruned(merged, intent)
  {
    var drop := DropOnChange(intent);
    ps := merged;
    var keys := merged.Keys;
    while keys != {}
      invariant keys <= merged.Keys
      invariant ps == map k | k in merged && !(k in drop && k !in KeepGeneral && k !in keys) :: merged[k]
      decreases |keys|
    {
      var k :| k in keys;
      if k in drop && k !in KeepGeneral {
        ps := ps - {k};
      }
      keys := keys - {k};
    }
    ps := ps - {MainSymptoms};
  }

  method MergeStates(prev: State, incoming: State) returns (out: State)
    ensures out == Merge(prev, incoming)
  {
    var intent := ResolveIntent(prev.intent, incoming.intent);
    var changed := IntentChanged(prev.intent, incoming.intent);
    var ps := MergeSlotValues(prev.slots, incoming.slots);
    if changed {
      ps := PruneSlots(ps, intent);
    }
    out := prev.(intent := intent, slots := ps, asked := if changed then {} else prev.asked + incoming.asked);
  }

  /** The resolved intent is never empty; a set, non-"uncertain" new intent always wins. */
  lemma ResolveIntentFacts(prevIntent: string, newIntent: string)
    ensures ResolveIntent(prevIntent, newIntent) != ""
    ensures newIntent != "" && newIntent != Uncertain ==> ResolveIntent(prevIntent, newIntent) == newIntent
    ensures (newIntent == "" || newIntent == Uncertain) && prevIntent != "" ==> ResolveIntent(prevIntent, newIntent) == prevIntent
    ensures ResolveIntent(prevIntent, newIntent) in {prevIntent, newIntent, Uncertain}
  {
  }

  /**
   * A new intent of "uncertain" after a set previous intent counts as a change,
   * although the resolved intent stays the previous one: the asked slots are
   * reset all the same.
   */
  lemma UncertainCountsAsChange(prev: State, incoming: State)
    requires prev.intent != "" && prev.intent != Uncertain && incoming.intent == Uncertain
    ensures IntentChanged(prev.intent, incoming.intent)
    ensures Merge(prev, incoming).intent == prev.intent
    ensures Merge(prev, incoming).asked == {}
  {
  }

  /**
   * The merge never erases: a key missing from the new slots, or whose new
   * value is not meaningful (None, blank, "null", []), keeps its previous
   * value; a meaningful new value replaces it. Only an intent change drops keys.
   */
  lemma MergeNeverErases(prev: State, incoming: State, k: string)
    requires !IntentChanged(prev.intent, incoming.intent)
    ensures k in prev.slots && (k !in incoming.slots || !Meaningful(incoming.slots[k])) ==>
              k in Merge(prev, incoming).slots && Merge(prev, incoming).slots[k] == prev.slots[k]
    ensures k in incoming.slots && Meaningful(incoming.slots[k]) ==> Get(Merge(prev, incoming).slots, k) == incoming.slots[k]
    ensures k in Merge(prev, incoming).slots <==> k in prev.slots || (k in incoming.slots && Meaningful(incoming.slots[k]))
  {
  }

  /** An explicit `False` or `0` is an answer: it is stored over any previous value. */
  lemma MergeStoresFalse(prev: State, incoming: State, k: string)
    requires k in incoming.slots && (incoming.slots[k] == Bool(false) || incoming.slots[k] == Int(0))
    requires !IntentChanged(prev.intent, incoming.intent) ||
             (k != MainSymptoms && k !in DropOnChange(ResolveIntent(prev.intent, incoming.intent)))
    ensures k in Merge(prev, incoming).slots && Merge(prev, incoming).slots[k] == incoming.slots[k]
  {
  }

  /**
   * On an intent change the asked slots are cleared, `main_symptoms` and the
   * other domain's keys are removed, and every other key survives the merge.
   */
  lemma IntentChangeResets(prev: State, incoming: State)
    requires IntentChanged(prev.intent, incoming.intent)
    ensures var out := Merge(prev, incoming);
      && out.asked == {}
      && MainSymptoms !in out.slots
      && (forall k :: k in DropOnChange(out.intent) ==> k !in out.slots)
      && (forall k :: k in MergedSlots(prev.slots, incoming.slots) && k != MainSymptoms && k !in DropOnChange(out.intent) ==>
            k in out.slots && out.slots[k] == MergedSlots(prev.slots, incoming.slots)[k])
  {
    assert KeepGeneral !! DermOnly && KeepGeneral !! RespOnly;
  }

  /** Without an intent change the asked slots are the union of both, so they only grow. */
  lemma AskedGrowsWithinIntent(prev: State, incoming: State)
    requires !IntentChanged(prev.intent, incoming.intent)
    ensures Merge(prev, incoming).asked == prev.asked + incoming.asked
    ensures prev.asked <= Merge(prev, incoming).asked
  {
  }
}

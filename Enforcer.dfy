/**
 * The slot enforcer (`enforce_state` in server/orchestrator/slot_enforcer.py):
 * one turn of the orchestrator. It merges the model's proposed state into the
 * persisted one, normalises aliased keys, runs the extractors, recomputes the
 * missing slots and either asks exactly one question or passes the model's
 * reply through.
 */
module Enforcer {
  import opened Wrappers
  import opened Seqs
  import opened Sorting
  import opened SlotValues
  import opened StateMerge
  import E = Extractors
  import M = MissingSlots

  /** The fallback question when the intent has no text for the slot. */
  const GenericQuestion := "ขอข้อมูลเพิ่มเติมเพื่อเก็บรายละเอียดอาการให้ครบค่ะ"

  /** Alias keys and their canonical slot, in the source's order. */
  const Aliases: seq<(string, string)> := [
    ("severity", "severity_overall"),
    ("symptoms", "co_symptoms"),
    ("medications", "meds_allergies")]

  /** Question texts: intent to slot to question. */
  type Questions = map<string, map<string, string>>

  /** What a turn returns: the reply shown to the user and the new state. */
  datatype Turn = Turn(reply: string, state: State)

  /** The alias loop over `table`: copy the alias value only when the canonical key is absent. */
  function ApplyAliases(slots: Slots, table: seq<(string, string)>): Slots
  {
    if table == [] then slots
    else
      var s := ApplyAliases(slots, table[..|table| - 1]);
      var pair := table[|table| - 1];
      if pair.0 in s && pair.1 !in s then s[pair.1 := s[pair.0]] else s
  }

  /** The extractor pipeline, in the source's order; the boolean fold and the refinement can raise. */
  function Extracted(userText: string, intent: string, slots: Slots): Result<Slots>
  {
    var s1 := E.SymptomsFromText(userText, slots);
    match E.FoldBooleans(s1)
    case Failure(e) => Failure(e)
    case Ok(s2) =>
      var s3 := E.DurationFromText(userText, s2);
      var s4 := E.UnknownsNormalised(userText, s3);
      E.RefineForIntent(intent, s4)
  }

  /** `[m for m in missing if m not in asked]`. */
  function NotAsked(missing: seq<string>, asked: set<string>): (r: seq<string>)
    ensures forall n :: n in r <==> n in missing && n !in asked
    ensures |r| <= |missing|
  {
    if missing == [] then []
    else (if missing[0] in asked then [] else [missing[0]]) + NotAsked(missing[1..], asked)
  }

  /** `slot_questions.get(intent, {}).get(slot) or GENERIC`: a missing or empty text falls back. */
  function QuestionFor(questions: Questions, intent: string, slot: string): (q: string)
    ensures q != ""
    ensures intent in questions && slot in questions[intent] && questions[intent][slot] != "" ==> q == questions[intent][slot]
  {
    if intent in questions && slot in questions[intent] && questions[intent][slot] != "" then questions[intent][slot]
    else GenericQuestion
  }

  /** `state.get("intent") or "uncertain"`. */
  function TurnIntent(merged: State): string
  {
    if merged.intent != "" then merged.intent else Uncertain
  }

  /** `enforce_state` as a function of its inputs. */
  function Enforce(prev: State, incoming: State, policy: M.SlotPolicy, questions: Questions,
                   userView: string, userText: string): Result<Turn>
  {
    var merged := Merge(prev, incoming);
    var intent := TurnIntent(merged);
    match Extracted(userText, intent, ApplyAliases(merged.slots, Aliases))
    case Failure(e) => Failure(e)
    case Ok(slots) =>
      var missing := NotAsked(M.Missing(M.PolicyFor(policy, intent), slots), merged.asked);
      var st := merged.(slots := slots, missing := missing, requiredFilled := |missing| == 0);
      if missing != [] then
        Ok(Turn(QuestionFor(questions, intent, missing[0]),
                st.(asked := merged.asked + {missing[0]}, soapReady := Some(false), soapJson := Some(map[]))))
      else Ok(Turn(userView, st))
  }

  method EnforceState(prev: State, incoming: State, policy: M.SlotPolicy, questions: Questions,
                      userView: string, userText: string) returns (r: Result<Turn>)
    ensures r == Enforce(prev, incoming, policy, questions, userView, userText)
  {
    var state := MergeStates(prev, incoming);
    var intent := if state.intent != "" then state.intent else Uncertain;
    var slots := state.slots;

    var i := 0;
    while i < |Aliases|
      invariant 0 <= i <= |Aliases|
      invariant slots == ApplyAliases(state.slots, Aliases[..i])
    {
      assert Aliases[..i + 1][..i] == Aliases[..i];
      var (src, dst) := (Aliases[i].0, Aliases[i].1);
      if src in slots && dst !in slots {
        slots := slots[dst := slots[src]];
      }
      i := i + 1;
    }
    assert Aliases[..i] == Aliases;

    slots := E.AutoFillMainSymptoms(userText, slots);
    var folded := E.FoldBooleanSymptoms(slots);
    if folded.Failure? {
      return Failure(folded.error);
    }
    slots := E.AutoFillDuration(userText, folded.value);
    slots := E.UnknownsNormalised(userText, slots);
    var refined := E.RefineForIntent(intent, slots);
    if refined.Failure? {
      return Failure(refined.error);
    }
    slots := refined.value;

    var asked := state.asked;
    var missing := M.ComputeMissing(intent, slots, policy);
    missing := NotAsked(missing, asked);

    state := state.(slots := slots, missing := missing, requiredFilled := |missing| == 0);
    if missing != [] {
      var next := missing[0];
      asked := asked + {next};
      state := state.(asked := asked, soapReady := Some(false), soapJson := Some(map[]));
      return Ok(Turn(QuestionFor(questions, intent, next), state));
    }
    return Ok(Turn(userView, state));
  }

  /* ---------------- Alias normalisation ---------------- */

  /** The alias pass never overwrites or removes a key, and only ever adds canonical keys. */
  lemma {:induction false} AliasesOnlyAdd(slots: Slots, table: seq<(string, string)>)
    ensures forall k :: k in slots ==> k in ApplyAliases(slots, table) && ApplyAliases(slots, table)[k] == slots[k]
    ensures forall k :: k in ApplyAliases(slots, table) && k !in slots ==> exists j :: 0 <= j < |table| && table[j].1 == k
  {
    if table != [] {
      var init := table[..|table| - 1];
      AliasesOnlyAdd(slots, init);
      forall k | k in ApplyAliases(slots, table) && k !in slots
        ensures exists j :: 0 <= j < |table| && table[j].1 == k
      {
        if k !in ApplyAliases(slots, init) {
          assert table[|table| - 1].1 == k;
        } else {
          var j :| 0 <= j < |init| && init[j].1 == k;
          assert table[j].1 == k;
        }
      }
    }
  }

  /** With the source's table: an alias value reaches its canonical slot exactly when that slot is empty. */
  lemma AliasTableCopies(slots: Slots)
    ensures var out := ApplyAliases(slots, Aliases);
      && (forall k :: k in slots ==> k in out && out[k] == slots[k])
      && (forall j :: 0 <= j < |Aliases| && Aliases[j].0 in slots && Aliases[j].1 !in slots ==>
            Aliases[j].1 in out && out[Aliases[j].1] == slots[Aliases[j].0])
      && (forall k :: k !in {"severity_overall", "co_symptoms", "meds_allergies"} ==> Get(out, k) == Get(slots, k))
  {
    AliasesOnlyAdd(slots, Aliases);
    var t1 := [Aliases[0]];
    var t2 := [Aliases[0], Aliases[1]];
    assert t1[..0] == [] && t2[..1] == t1 && Aliases[..2] == t2;
    assert Aliases[0] == ("severity", "severity_overall") && Aliases[1] == ("symptoms", "co_symptoms");
    assert ApplyAliases(slots, t1[..0]) == slots;
    var a1 := ApplyAliases(slots, t1);
    assert a1 == if "severity" in slots && "severity_overall" !in slots then slots["severity_overall" := slots["severity"]] else slots;
    var a2 := ApplyAliases(slots, t2);
    assert a2 == if "symptoms" in a1 && "co_symptoms" !in a1 then a1["co_symptoms" := a1["symptoms"]] else a1;
    var out := ApplyAliases(slots, Aliases);
    assert out == if "medications" in a2 && "meds_allergies" !in a2 then a2["meds_allergies" := a2["medications"]] else a2;
  }

  /* ---------------- One turn ---------------- */

  /**
   * A turn that asks asks exactly one slot: the head of the reported missing
   * list (the first in ask order, by `AskedSlotComesFirst`), not asked before
   * in this intent, unfilled after the extractors, and SOAP output is withheld. A turn that asks nothing passes the model's
   * reply through and adds nothing to the asked slots.
   */
  lemma OneQuestionPerTurn(prev: State, incoming: State, policy: M.SlotPolicy, questions: Questions,
                           userView: string, userText: string)
    ensures var r := Enforce(prev, incoming, policy, questions, userView, userText);
      var merged := Merge(prev, incoming);
      r.Ok? ==>
        && merged.asked <= r.value.state.asked
        && |r.value.state.asked - merged.asked| <= 1
        && (forall s :: s in r.value.state.asked - merged.asked ==>
              !IsFilled(Get(r.value.state.slots, s)) && s in r.value.state.missing
              && r.value.reply == QuestionFor(questions, merged.intent, s)
              && r.value.state.soapReady == Some(false) && r.value.state.soapJson == Some(map[]))
        && (r.value.state.missing == [] ==> r.value.reply == userView && r.value.state.asked == merged.asked)
        && (r.value.state.missing != [] ==> r.value.state.asked - merged.asked == {r.value.state.missing[0]})
  {
    var r := Enforce(prev, incoming, policy, questions, userView, userText);
    var merged := Merge(prev, incoming);
    ResolveIntentFacts(prev.intent, incoming.intent);
    if r.Ok? {
      var slots := r.value.state.slots;
      var cfg := M.PolicyFor(policy, merged.intent);
      M.MissingUnfilled(cfg, slots);
      var missing := r.value.state.missing;
      if missing != [] {
        assert missing[0] in M.Missing(cfg, slots) && missing[0] !in merged.asked;
        assert r.value.state.asked - merged.asked == {missing[0]};
      }
    }
  }

  /** The filter keeps the order of `missing`: what it keeps is a subsequence. */
  lemma {:induction false} NotAskedSubsequence(missing: seq<string>, asked: set<string>)
    ensures IsSubsequence(NotAsked(missing, asked), missing)
  {
    if missing != [] {
      var tail := NotAsked(missing[1..], asked);
      NotAskedSubsequence(missing[1..], asked);
      if missing[0] in asked {
        assert NotAsked(missing, asked) == tail;
        if tail != [] {
          assert tail[0] in tail;
        }
      } else {
        var r := [missing[0]] + tail;
        assert NotAsked(missing, asked) == r;
        assert r[0] == missing[0] && r[1..] == tail;
      }
    }
  }

  /** Filtering a sorted list leaves it sorted. */
  lemma {:induction false} NotAskedSorted(missing: seq<string>, asked: set<string>, le: (string, string) -> bool)
    requires Sorted(missing, le)
    ensures Sorted(NotAsked(missing, asked), le)
  {
    if missing != [] {
      var tail := NotAsked(missing[1..], asked);
      SortedTail(missing, le);
      NotAskedSorted(missing[1..], asked, le);
      if missing[0] !in asked {
        assert NotAsked(missing, asked) == [missing[0]] + tail;
        forall y | y in tail ensures le(missing[0], y) {
          var m :| 0 <= m < |missing[1..]| && missing[1..][m] == y;
          assert missing[m + 1] == y;
        }
        ConsSorted(missing[0], tail, le);
      }
    }
  }

  /** A name below every element of a sorted list can go in front of it. */
  lemma ConsSorted(x: string, t: seq<string>, le: (string, string) -> bool)
    requires Sorted(t, le) && forall y :: y in t ==> le(x, y)
    ensures Sorted([x] + t, le)
  {
    var r := [x] + t;
    forall i, j | 0 <= i < j < |r| ensures le(r[i], r[j]) {
      assert r[j] == t[j - 1];
      if i > 0 {
        assert r[i] == t[i - 1];
      }
    }
  }

  lemma SortedTail(s: seq<string>, le: (string, string) -> bool)
    requires s != [] && Sorted(s, le)
    ensures Sorted(s[1..], le)
  {
    forall i, j | 0 <= i < j < |s| - 1 ensures le(s[1..][i], s[1..][j]) {
      assert s[1..][i] == s[i + 1] && s[1..][j] == s[j + 1];
    }
  }

  /** The head of a filtered sorted list is below every name the filter keeps. */
  lemma FilteredHeadLeast(full: seq<string>, asked: set<string>, order: seq<string>)
    requires Sorted(full, M.ByRank(order)) && NotAsked(full, asked) != []
    ensures forall n :: n in full && n !in asked ==> M.Rank(order, NotAsked(full, asked)[0]) <= M.Rank(order, n)
  {
    var kept := NotAsked(full, asked);
    NotAskedSorted(full, asked, M.ByRank(order));
    forall n | n in full && n !in asked ensures M.Rank(order, kept[0]) <= M.Rank(order, n) {
      assert n in kept;
      var j :| 0 <= j < |kept| && kept[j] == n;
      if j > 0 {
        assert M.ByRank(order)(kept[0], kept[j]);
      }
    }
  }

  /** The missing list a turn reports is the policy's missing list less the slots already asked. */
  lemma ReportedMissing(prev: State, incoming: State, policy: M.SlotPolicy, questions: Questions,
                        userView: string, userText: string)
    ensures var r := Enforce(prev, incoming, policy, questions, userView, userText);
      var merged := Merge(prev, incoming);
      r.Ok? ==> r.value.state.missing == NotAsked(M.Missing(M.PolicyFor(policy, merged.intent), r.value.state.slots), merged.asked)
  {
    ResolveIntentFacts(prev.intent, incoming.intent);
  }

  /**
   * The reported missing slots are in ask order, so a turn that asks asks a
   * slot of least rank in the ask order among the slots the policy still
   * needs and that were not asked before in this intent.
   */
  lemma AskedSlotComesFirst(prev: State, incoming: State, policy: M.SlotPolicy, questions: Questions,
                            userView: string, userText: string)
    ensures var r := Enforce(prev, incoming, policy, questions, userView, userText);
      var merged := Merge(prev, incoming);
      r.Ok? ==>
        var cfg := M.PolicyFor(policy, merged.intent);
        && Sorted(r.value.state.missing, M.ByRank(M.AskOrder(cfg)))
        && IsSubsequence(r.value.state.missing, M.Missing(cfg, r.value.state.slots))
        && (r.value.state.missing != [] ==>
              forall n :: n in M.Missing(cfg, r.value.state.slots) && n !in merged.asked ==>
                M.Rank(M.AskOrder(cfg), r.value.state.missing[0]) <= M.Rank(M.AskOrder(cfg), n))
  {
    var r := Enforce(prev, incoming, policy, questions, userView, userText);
    var merged := Merge(prev, incoming);
    ReportedMissing(prev, incoming, policy, questions, userView, userText);
    if r.Ok? {
      var cfg := M.PolicyFor(policy, merged.intent);
      var order := M.AskOrder(cfg);
      var full := M.Missing(cfg, r.value.state.slots);
      M.ByRankIsPreorder(order);
      SortSorted(M.Unsorted(cfg, r.value.state.slots), M.ByRank(order));
      assert Sorted(full, M.ByRank(order));
      NotAskedSubsequence(full, merged.asked);
      NotAskedSorted(full, merged.asked, M.ByRank(order));
      if r.value.state.missing != [] {
        FilteredHeadLeast(full, merged.asked, order);
      }
    }
  }

  /**
   * The missing list and the completion flag: a slot is reported missing
   * exactly when the policy still needs it and it was not asked before, and
   * the required slots count as filled exactly when every slot the policy
   * still needs has already been asked.
   */
  lemma MissingAfterTurn(prev: State, incoming: State, policy: M.SlotPolicy, questions: Questions,
                         userView: string, userText: string)
    ensures var r := Enforce(prev, incoming, policy, questions, userView, userText);
      var merged := Merge(prev, incoming);
      r.Ok? ==>
        var cfg := M.PolicyFor(policy, merged.intent);
        && r.value.state.intent == merged.intent
        && (forall n :: n in r.value.state.missing <==> n in M.Missing(cfg, r.value.state.slots) && n !in merged.asked)
        && (r.value.state.requiredFilled <==> forall n :: n in M.Missing(cfg, r.value.state.slots) ==> n in merged.asked)
  {
    ResolveIntentFacts(prev.intent, incoming.intent);
  }

  /**
   * An intent without a policy needs nothing: the turn asks nothing, passes
   * the model's reply through and counts the required slots as filled.
   */
  lemma NoPolicyPassesThrough(prev: State, incoming: State, policy: M.SlotPolicy, questions: Questions,
                              userView: string, userText: string)
    requires Merge(prev, incoming).intent !in policy
    ensures var r := Enforce(prev, incoming, policy, questions, userView, userText);
      r.Ok? ==>
        && r.value.reply == userView && r.value.state.missing == [] && r.value.state.requiredFilled
        && r.value.state.asked == Merge(prev, incoming).asked
  {
    var r := Enforce(prev, incoming, policy, questions, userView, userText);
    ReportedMissing(prev, incoming, policy, questions, userView, userText);
    OneQuestionPerTurn(prev, incoming, policy, questions, userView, userText);
    MissingAfterTurn(prev, incoming, policy, questions, userView, userText);
    if r.Ok? {
      M.NoPolicyNothingMissing(policy, Merge(prev, incoming).intent, r.value.state.slots);
    }
  }

  /** A turn fails exactly when an extractor raises on the merged, alias-normalised slots. */
  lemma TurnFailsOnlyInExtractors(prev: State, incoming: State, policy: M.SlotPolicy, questions: Questions,
                                  userView: string, userText: string)
    ensures var merged := Merge(prev, incoming);
      Enforce(prev, incoming, policy, questions, userView, userText).Failure? <==>
        Extracted(userText, merged.intent, ApplyAliases(merged.slots, Aliases)).Failure?
  {
    ResolveIntentFacts(prev.intent, incoming.intent);
  }

  /* ---------------- Across turns ---------------- */

  /**
   * Within one intent the asked slots only grow, so no slot is asked twice:
   * a slot asked in one turn is not asked again in the next unless the
   * intent changes in between.
   */
  lemma NoRepeatedQuestion(prev: State, in1: State, in2: State, policy: M.SlotPolicy, questions: Questions,
                           view1: string, text1: string, view2: string, text2: string)
    requires Enforce(prev, in1, policy, questions, view1, text1).Ok?
    requires var s1 := Enforce(prev, in1, policy, questions, view1, text1).value.state;
      !IntentChanged(s1.intent, in2.intent) && Enforce(s1, in2, policy, questions, view2, text2).Ok?
    ensures var t1 := Enforce(prev, in1, policy, questions, view1, text1).value;
      var t2 := Enforce(t1.state, in2, policy, questions, view2, text2).value;
      && t1.state.asked <= t2.state.asked
      && (t1.state.asked - Merge(prev, in1).asked) !! (t2.state.asked - Merge(t1.state, in2).asked)
  {
    var t1 := Enforce(prev, in1, policy, questions, view1, text1).value;
    OneQuestionPerTurn(prev, in1, policy, questions, view1, text1);
    OneQuestionPerTurn(t1.state, in2, policy, questions, view2, text2);
    AskedGrowsWithinIntent(t1.state, in2);
  }
}

/**
 * Slot values and the value normaliser of server/orchestrator/slot_enforcer.py:
 * what counts as "filled", "meaningful" and (Python) truthy.
 */
module SlotValues {
  import opened Text
  import opened Wrappers

  /** A JSON-shaped slot value: `None`, a string, a boolean, a number or a list of strings. */
  datatype Value = Null | Str(s: string) | Bool(b: bool) | Int(i: int) | StrList(items: seq<string>)

  type Slots = map<string, Value>

  /** `slots.get(k)`: a missing key reads as `None`. */
  function Get(slots: Slots, k: string): (v: Value)
    ensures k !in slots ==> v == Null
    ensures k in slots ==> v == slots[k]
  {
    if k in slots then slots[k] else Null
  }

  /** `_is_filled`. */
  predicate IsFilled(v: Value)
  {
    match v
    case Null => false
    case Str(s) => !IsBlank(s) && s != "null"
    case StrList(items) => |items| > 0
    case Bool(_) => true
    case Int(_) => true
  }

  /** `_meaningful`: every boolean, otherwise `_is_filled`. */
  predicate Meaningful(v: Value)
  {
    if v.Bool? then true else IsFilled(v)
  }

  /** Python truthiness, `bool(v)`. */
  predicate Truthy(v: Value)
  {
    match v
    case Null => false
    case Str(s) => s != ""
    case StrList(items) => items != []
    case Bool(b) => b
    case Int(i) => i != 0
  }

  /**
   * `list(v or [])`: a falsy value gives `[]`, a string its one-character
   * strings, a list itself; a truthy bool or number is not iterable and raises.
   */
  function ListOf(v: Value): (r: Result<seq<string>>)
    ensures r.Failure? <==> (v.Bool? || v.Int?) && Truthy(v)
    ensures r.Ok? && Truthy(v) && v.StrList? ==> r.value == v.items
    ensures r.Ok? && Truthy(v) && v.Str? ==> |r.value| == |v.s| && forall i :: 0 <= i < |v.s| ==> r.value[i] == [v.s[i]]
    ensures r.Ok? && !Truthy(v) ==> r.value == []
  {
    if !Truthy(v) then Ok([])
    else match v
      case Str(s) => Ok(Chars(s))
      case StrList(items) => Ok(items)
      case _ => Failure("TypeError: object is not iterable")
  }

  /** Iterating a Python string: one single-character string per code point. */
  function Chars(s: string): (r: seq<string>)
    ensures |r| == |s| && forall i :: 0 <= i < |s| ==> r[i] == [s[i]]
  {
    if s == [] then [] else [[s[0]]] + Chars(s[1..])
  }

  /** Unfilled exactly for None, blank or "null" strings and empty lists; numbers and booleans, False and 0 included, are filled. */
  lemma FilledExactly(v: Value)
    ensures !IsFilled(v) <==> v == Null || (v.Str? && (AllSpace(v.s) || v.s == "null")) || v == StrList([])
    ensures v == Bool(false) || v == Int(0) ==> IsFilled(v)
  {
    if v.Str? {
      StripFacts(v.s);
    }
  }

  /** The boolean case of `_meaningful` adds nothing: booleans are already filled. */
  lemma MeaningfulIsFilled(v: Value)
    ensures Meaningful(v) <==> IsFilled(v)
  {
  }

  /**
   * The extractors guard on truthiness, `compute_missing` on `_is_filled`:
   * a filled string or list is truthy, but "null" and blank strings are truthy
   * without being filled.
   */
  lemma FilledVersusTruthy(v: Value)
    ensures (v.Str? || v.StrList?) && IsFilled(v) ==> Truthy(v)
    ensures v == Str("null") ==> Truthy(v) && !IsFilled(v)
    ensures v.Str? && v.s != "" && AllSpace(v.s) ==> Truthy(v) && !IsFilled(v)
  {
    if v.Str? {
      StripFacts(v.s);
    }
  }
}

/**
 * Splitting the language model's raw output (`parse_llm_output` in
 * server/app.py) into the text shown to the user and the proposed state.
 * JSON decoding is a parameter: `decode` is `json.loads`, `None` standing for
 * the exception it raises, and `empty` is the empty object `{}`.
 */
module LlmOutput {
  import opened Wrappers
  import opened Text

  const UserViewMarker := "[USER_VIEW]"
  const StateMarker := "[STATE_JSON]"
  const Fence := "```"

  /** Python's `s[a:b]` for `0 <= a <= |s|` and `0 <= b <= |s|`: empty when `b <= a`. */
  function Slice(s: string, a: nat, b: nat): (r: string)
    requires a <= |s| && b <= |s|
    ensures b <= a ==> r == []
    ensures a < b ==> r == s[a..b]
  {
    if a < b then s[a..b] else []
  }

  /**
   * The code-fence trim: a state text opening with a fence that has a later
   * fence keeps only the text between the two (`split("```", 2)[1]`); one
   * with no later fence loses its opening fence; anything else is kept.
   */
  function Unfenced(s: string): string
  {
    if |s| >= 3 && StartsWith(s, Fence) then
      var k := Find(s[3..], Fence);
      if k != -1 then s[3..3 + k] else s[3..]
    else s
  }

  /** The outermost `{...}` of `s`, when it has a `{` and a later `}`. */
  function Braced(s: string): Option<string>
  {
    var first := Find(s, "{");
    var last := RFind(s, "}");
    if first != -1 && last != -1 && last > first then Some(s[first..last + 1]) else None
  }

  /** Both markers were found. */
  predicate HasMarkers(raw: string)
  {
    Find(raw, UserViewMarker) != -1 && Find(raw, StateMarker) != -1
  }

  /** The state text: everything after `[STATE_JSON]`, stripped, then unfenced. */
  function StateText(raw: string): string
    requires Find(raw, StateMarker) != -1
  {
    var sj := Find(raw, StateMarker);
    Unfenced(Strip(raw[sj + |StateMarker|..]))
  }

  /** The user view: the stripped text between the end of `[USER_VIEW]` and the start of `[STATE_JSON]`. */
  function UserView(raw: string): string
    requires HasMarkers(raw)
  {
    var uv := Find(raw, UserViewMarker);
    var sj := Find(raw, StateMarker);
    Strip(Slice(raw, uv + |UserViewMarker|, sj))
  }

  /** Strict decoding, then the `{...}` fallback, then `{}`: every failure ends in `empty`. */
  function DecodeState<J>(st: string, decode: string -> Option<J>, empty: J): J
  {
    match decode(st)
    case Some(v) => v
    case None =>
      match Braced(st)
      case None => empty
      case Some(b) =>
        match decode(b)
        case Some(v) => v
        case None => empty
  }

  /** `parse_llm_output`: the user view and the decoded state. */
  function ParseLlmOutput<J>(raw: string, decode: string -> Option<J>, empty: J): (string, J)
  {
    if HasMarkers(raw) then (UserView(raw), DecodeState(StateText(raw), decode, empty))
    else (raw, empty)
  }

  /** Without both markers the whole text goes to the user and the state is `{}`. */
  lemma MissingMarkerFallback<J>(raw: string, decode: string -> Option<J>, empty: J)
    ensures !Contains(raw, UserViewMarker) || !Contains(raw, StateMarker) ==>
              ParseLlmOutput(raw, decode, empty) == (raw, empty)
    ensures HasMarkers(raw) <==> Contains(raw, UserViewMarker) && Contains(raw, StateMarker)
  {
    FindFacts(raw, UserViewMarker);
    FindFacts(raw, StateMarker);
  }

  /**
   * With both markers the user view is a slice of the raw text that starts
   * right after the first `[USER_VIEW]`, ends at or before the first
   * `[STATE_JSON]`, and has no surrounding whitespace; it is empty when the
   * markers are out of order.
   */
  lemma UserViewBetweenMarkers<J>(raw: string, decode: string -> Option<J>, empty: J)
    requires HasMarkers(raw)
    ensures var view := ParseLlmOutput(raw, decode, empty).0;
      var from := Find(raw, UserViewMarker) + |UserViewMarker|;
      var to := Find(raw, StateMarker);
      && (to <= from ==> view == [])
      && (from < to ==> exists i, j :: from <= i <= j <= to && view == raw[i..j]
                                      && AllSpace(raw[from..i]) && AllSpace(raw[j..to]))
      && (view != [] ==> !IsSpace(view[0]) && !IsSpace(view[|view| - 1]))
  {
    var from := Find(raw, UserViewMarker) + |UserViewMarker|;
    var to := Find(raw, StateMarker);
    if from < to {
      var i, j := StripOfSlice(raw, from, to);
    }
  }

  /** Stripping a slice of `raw` leaves a slice of `raw` with only whitespace cut on either side. */
  lemma StripOfSlice(raw: string, from: nat, to: nat) returns (i: nat, j: nat)
    requires from <= to <= |raw|
    ensures from <= i <= j <= to && Strip(raw[from..to]) == raw[i..j]
    ensures AllSpace(raw[from..i]) && AllSpace(raw[j..to])
    ensures i < j ==> !IsSpace(raw[i]) && !IsSpace(raw[j - 1])
  {
    var a, b := StripIndices(raw[from..to]);
    i, j := from + a, from + b;
    SliceOfSlice(raw, from, to, a, b);
    AllSpacePrefix(raw, from, to, a);
    AllSpaceSuffix(raw, from, to, b);
  }

  /** `StripOfSlice` without the whitespace facts. */
  lemma StripSlice(raw: string, from: nat, to: nat) returns (i: nat, j: nat)
    requires from <= to <= |raw|
    ensures from <= i <= j <= to && Strip(raw[from..to]) == raw[i..j]
  {
    var mid := raw[from..to];
    var a := LeadingSpace(mid);
    var b := |mid| - TrailingSpace(mid[a..]);
    i, j := from + a, from + b;
    SliceOfSlice(raw, from, to, a, b);
  }

  lemma SliceOfSlice(raw: string, from: nat, to: nat, a: nat, b: nat)
    requires from <= to <= |raw| && a <= b <= to - from
    ensures raw[from..to][a..b] == raw[from + a..from + b]
  {
    assert forall k :: 0 <= k < b - a ==> raw[from..to][a..b][k] == raw[from + a..from + b][k];
  }

  lemma AllSpacePrefix(raw: string, from: nat, to: nat, a: nat)
    requires from <= to <= |raw| && a <= to - from
    requires AllSpace(raw[from..to][..a])
    ensures AllSpace(raw[from..from + a])
  {
    var mid := raw[from..to];
    var t := raw[from..from + a];
    forall k | 0 <= k < |t| ensures IsSpace(t[k]) {
      assert t[k] == mid[..a][k];
    }
  }

  lemma AllSpaceSuffix(raw: string, from: nat, to: nat, b: nat)
    requires from <= to <= |raw| && b <= to - from
    requires AllSpace(raw[from..to][b..])
    ensures AllSpace(raw[from + b..to])
  {
    var mid := raw[from..to];
    var t := raw[from + b..to];
    forall k | 0 <= k < |t| ensures IsSpace(t[k]) {
      assert t[k] == mid[b..][k];
    }
  }

  /**
   * A state text fenced on both sides is parsed from the text between the
   * first two fences only: that text holds no fence and is followed by one.
   */
  lemma FenceTrimmed(s: string)
    requires StartsWith(s, Fence) && |s| >= 3 && Contains(s[3..], Fence)
    ensures var inner := Unfenced(s);
      && s[..3 + |inner|] == Fence + inner
      && OccursAt(s, Fence, 3 + |inner|)
      && !Contains(inner, Fence)
  {
    var rest := s[3..];
    FindFacts(rest, Fence);
    var k := Find(rest, Fence);
    var inner := rest[..k];
    assert inner == s[3..3 + k];
    assert s[..3 + k] == s[..3] + inner;
    assert s[3 + k..3 + k + 3] == rest[k..k + 3];
    if Contains(inner, Fence) {
      var i :| 0 <= i <= |inner| && OccursAt(inner, Fence, i);
      assert inner[i..i + 3] == rest[i..i + 3];
      assert OccursAt(rest, Fence, i);
      assert false;
    }
  }

  /**
   * The state is what strict decoding of the state text gives; failing that,
   * what decoding its outermost `{...}` gives; failing that, `{}`.
   */
  lemma StateDecoding<J>(raw: string, decode: string -> Option<J>, empty: J)
    requires HasMarkers(raw)
    ensures var st := StateText(raw);
      var state := ParseLlmOutput(raw, decode, empty).1;
      && (decode(st).Some? ==> state == decode(st).value)
      && (decode(st).None? && Braced(st).Some? && decode(Braced(st).value).Some? ==> state == decode(Braced(st).value).value)
      && (decode(st).None? && (Braced(st).None? || decode(Braced(st).value).None?) ==> state == empty)
  {
  }

  /**
   * `{...}` is cut from the first `{` to the last `}` of the text, and exists
   * exactly when some `{` comes before some `}`.
   */
  lemma BracedIsOutermost(s: string)
    ensures Braced(s).Some? <==> exists p, q :: 0 <= p < q < |s| && s[p] == '{' && s[q] == '}'
    ensures Braced(s).Some? ==>
      var first := Find(s, "{");
      var last := RFind(s, "}");
      && 0 <= first < last < |s|
      && Braced(s).value == s[first..last + 1]
      && s[first] == '{' && s[last] == '}'
      && (forall j :: 0 <= j < first ==> s[j] != '{')
      && (forall j :: last < j < |s| ==> s[j] != '}')
  {
    FindFacts(s, "{");
    RFindFacts(s, "}");
    var first := Find(s, "{");
    var last := RFind(s, "}");
    if first != -1 {
      assert s[first..first + 1] == "{";
    }
    if last != -1 {
      assert s[last..last + 1] == "}";
    }
    forall j | 0 <= j < first ensures s[j] != '{' {
      if s[j] == '{' {
        assert s[j..j + 1] == "{";
        assert OccursAt(s, "{", j);
      }
    }
    forall j | last < j < |s| ensures s[j] != '}' {
      if s[j] == '}' {
        assert s[j..j + 1] == "}";
        assert OccursAt(s, "}", j);
      }
    }
    if Braced(s).Some? {
      assert s[first] == '{' && s[last] == '}';
    }
    if exists p, q :: 0 <= p < q < |s| && s[p] == '{' && s[q] == '}' {
      var p, q :| 0 <= p < q < |s| && s[p] == '{' && s[q] == '}';
      assert s[p..p + 1] == "{" && s[q..q + 1] == "}";
      assert OccursAt(s, "{", p) && OccursAt(s, "}", q);
    }
  }

  /**
   * Parsing never fails: the state is either `{}` or the decoding of some
   * contiguous piece of the raw text.
   */
  lemma StateComesFromRaw<J>(raw: string, decode: string -> Option<J>, empty: J)
    ensures var state := ParseLlmOutput(raw, decode, empty).1;
      state == empty || exists i, j :: 0 <= i <= j <= |raw| && decode(raw[i..j]) == Some(state)
  {
    if HasMarkers(raw) && DecodeState(StateText(raw), decode, empty) != empty {
      var i, j := StateSource(raw, decode, empty);
    }
  }

  /** Where a non-empty state was decoded from. */
  lemma StateSource<J>(raw: string, decode: string -> Option<J>, empty: J) returns (i: nat, j: nat)
    requires Find(raw, StateMarker) != -1
    requires DecodeState(StateText(raw), decode, empty) != empty
    ensures i <= j <= |raw| && decode(raw[i..j]) == Some(DecodeState(StateText(raw), decode, empty))
  {
    var p, q := StateTextSlice(raw);
    var st := StateText(raw);
    if decode(st).Some? {
      i, j := p, q;
    } else {
      var first, last := BracedBounds(st);
      SliceOfSlice(raw, p, q, first, last + 1);
      i, j := p + first, p + last + 1;
    }
  }

  lemma BracedBounds(s: string) returns (first: nat, last: nat)
    requires Braced(s).Some?
    ensures first < last < |s| && Braced(s).value == s[first..last + 1]
  {
    first, last := Find(s, "{"), RFind(s, "}");
  }

  /** The state text is a slice of the raw text. */
  lemma StateTextSlice(raw: string) returns (p: nat, q: nat)
    requires Find(raw, StateMarker) != -1
    ensures p <= q <= |raw| && StateText(raw) == raw[p..q]
  {
    var base := Find(raw, StateMarker) + |StateMarker|;
    assert raw[base..] == raw[base..|raw|];
    var a, b := StripSlice(raw, base, |raw|);
    var lo, hi := UnfencedSlice(raw[a..b]);
    SliceOfSlice(raw, a, b, lo, hi);
    p, q := a + lo, a + hi;
  }

  /** The unfenced text is a slice of its input. */
  lemma UnfencedSlice(s: string) returns (lo: nat, hi: nat)
    ensures lo <= hi <= |s| && Unfenced(s) == s[lo..hi]
  {
    if |s| >= 3 && StartsWith(s, Fence) {
      var k := Find(s[3..], Fence);
      if k != -1 {
        lo, hi := 3, 3 + k;
      } else {
        lo, hi := 3, |s|;
      }
    } else {
      lo, hi := 0, |s|;
    }
  }
}

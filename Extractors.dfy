/**
 * The best-effort text extractors and normalisers of
 * server/orchestrator/slot_enforcer.py. In the source each one mutates the
 * slot dictionary in place; here each takes the slots and returns the updated
 * map. Every extractor has a specification function (used by the lemmas) and,
 * where the source loops, a method with the loop proved against it.
 */
module Extractors {
  import opened Text
  import opened Wrappers
  import opened Seqs
  import opened SlotValues

  const MainSymptoms := "main_symptoms"
  const Duration := "duration"

  /** `SYM_KEYWORDS`: symptom label and its keyword variants, in dictionary order. */
  const SymKeywords: seq<(string, seq<string>)> := [
    ("ไข้", ["ไข้"]),
    ("ไอ", ["ไอ"]),
    ("เจ็บคอ", ["เจ็บคอ"]),
    ("น้ำมูก", ["น้ำมูก", "น้ำมูกไหล", "คัดจมูก"]),
    ("ผื่น", ["ผื่น", "ลมพิษ", "ตุ่ม", "ตุ่มน้ำ", "ปื้นแดง"]),
    ("คัน", ["คัน"])
  ]

  /** The two-word numbers replaced before the single words. */
  const Elevens: seq<(string, string)> := [("สิบเอ็ด", "11"), ("สิบสอง", "12")]

  /** `THAI_NUM_WORDS` in dictionary order, with the digits `str(n)` gives. */
  const ThaiNumberWords: seq<(string, string)> := [
    ("ศูนย์", "0"), ("หนึ่ง", "1"), ("สอง", "2"), ("สาม", "3"), ("สี่", "4"), ("ห้า", "5"),
    ("หก", "6"), ("เจ็ด", "7"), ("แปด", "8"), ("เก้า", "9"), ("สิบ", "10"), ("สิบเอ็ด", "11"), ("สิบสอง", "12")
  ]

  /** The alternatives of `DUR_UNITS`, in the order the regex tries them. */
  const DurationUnits: seq<string> := ["วัน", "ชั่วโมง", "ชม.", "ช.ม.", "สัปดาห์", "อาทิตย์", "เดือน"]

  const UnknownMarkers: seq<string> := ["ไม่ทราบ", "ไม่ได้วัด", "ไม่มีเทอร์โมมิเตอร์", "ไม่มีที่วัดไข้"]

  /** Boolean symptom flags and the symptom each folds into, in dictionary order. */
  const BoolSymptoms: seq<(string, string)> := [
    ("fever", "ไข้"), ("cough", "ไอ"), ("sore_throat", "เจ็บคอ"), ("runny_nose", "น้ำมูก"), ("rash", "ผื่น")
  ]

  const Rash := "ผื่น"
  const DermSym: set<string> := {"ผื่น", "คัน"}
  const RespSym: set<string> := {"ไข้", "ไอ", "เจ็บคอ", "น้ำมูก"}

  /* ---------------- Symptom keywords ---------------- */

  predicate MentionsAny(t: string, kws: seq<string>)
  {
    exists kw | kw in kws :: Contains(t, kw)
  }

  /** The labels of `table` that have a keyword occurring in `t`, in table order. */
  function MentionedLabels(t: string, table: seq<(string, seq<string>)>): seq<string>
  {
    if table == [] then []
    else
      var last := table[|table| - 1];
      MentionedLabels(t, table[..|table| - 1]) + (if MentionsAny(t, last.1) then [last.0] else [])
  }

  /** `auto_fill_main_symptoms_from_text`, as a function of the text and the old slots. */
  function SymptomsFromText(userText: string, slots: Slots): Slots
  {
    if Truthy(Get(slots, MainSymptoms)) then slots
    else
      var found := MentionedLabels(Strip(userText), SymKeywords);
      if found == [] then slots else slots[MainSymptoms := StrList(found)]
  }

  method AutoFillMainSymptoms(userText: string, slots: Slots) returns (out: Slots)
    ensures out == SymptomsFromText(userText, slots)
  {
    if Truthy(Get(slots, MainSymptoms)) {
      return slots;
    }
    var found: seq<string> := [];
    var t := Strip(userText);
    var i := 0;
    while i < |SymKeywords|
      invariant 0 <= i <= |SymKeywords|
      invariant found == MentionedLabels(t, SymKeywords[..i])
    {
      var symptom, kws := SymKeywords[i].0, SymKeywords[i].1;
      var j := 0;
      while j < |kws|
        invariant 0 <= j <= |kws|
        invariant forall m :: 0 <= m < j ==> !Contains(t, kws[m])
      {
        if Contains(t, kws[j]) {
          found := found + [symptom];
          break;
        }
        j := j + 1;
      }
      assert SymKeywords[..i + 1][..i] == SymKeywords[..i];
      i := i + 1;
    }
    assert SymKeywords[..i] == SymKeywords;
    out := if found == [] then slots else slots[MainSymptoms := StrList(found)];
  }

  /** A symptom is found exactly when one of its keywords occurs; labels keep table order. */
  lemma {:induction false} MentionedLabelsExactly(t: string, table: seq<(string, seq<string>)>, symptom: string)
    ensures symptom in MentionedLabels(t, table) <==>
            exists i :: 0 <= i < |table| && table[i].0 == symptom && MentionsAny(t, table[i].1)
    ensures IsSubsequence(MentionedLabels(t, table), Labels(table))
  {
    if table != [] {
      var init, last := table[..|table| - 1], table[|table| - 1];
      var keep := MentionsAny(t, last.1);
      MentionedLabelsExactly(t, init, symptom);
      assert MentionedLabels(t, table) == if keep then MentionedLabels(t, init) + [last.0] else MentionedLabels(t, init);
      SubsequenceSnoc(MentionedLabels(t, init), Labels(init), last.0, keep);
      assert Labels(table) == Labels(init) + [last.0];
      forall i | 0 <= i < |init| ensures init[i] == table[i] { }
    }
  }

  function Labels(table: seq<(string, seq<string>)>): (r: seq<string>)
    ensures |r| == |table| && forall i :: 0 <= i < |table| ==> r[i] == table[i].0
  {
    if table == [] then [] else Labels(table[..|table| - 1]) + [table[|table| - 1].0]
  }

  /** With distinct labels in the table, no symptom is reported twice (so `dict.fromkeys` changes nothing). */
  lemma {:induction false} MentionedLabelsDistinct(t: string, table: seq<(string, seq<string>)>)
    requires Distinct(Labels(table))
    ensures Distinct(MentionedLabels(t, table))
  {
    if table != [] {
      var init, last := table[..|table| - 1], table[|table| - 1];
      assert Labels(init) == Labels(table)[..|table| - 1];
      MentionedLabelsDistinct(t, init);
      MentionedLabelsExactly(t, init, last.0);
    }
  }

  /** The keyword table lists six distinct labels. */
  lemma SymKeywordLabelsDistinct()
    ensures Distinct(Labels(SymKeywords))
  {
    assert Labels(SymKeywords) == ["ไข้", "ไอ", "เจ็บคอ", "น้ำมูก", "ผื่น", "คัน"];
  }

  /** `auto_fill_main_symptoms_from_text` only fills an empty slot, touches no other key and is idempotent. */
  lemma SymptomsFromTextOnlyFills(userText: string, slots: Slots)
    ensures Truthy(Get(slots, MainSymptoms)) ==> SymptomsFromText(userText, slots) == slots
    ensures forall k :: k != MainSymptoms ==> Get(SymptomsFromText(userText, slots), k) == Get(slots, k)
    ensures SymptomsFromText(userText, SymptomsFromText(userText, slots)) == SymptomsFromText(userText, slots)
    ensures SymptomsFromText(userText, slots) != slots ==>
      var v := Get(SymptomsFromText(userText, slots), MainSymptoms);
      v.StrList? && v.items == MentionedLabels(Strip(userText), SymKeywords) && Distinct(v.items)
  {
    SymKeywordLabelsDistinct();
    MentionedLabelsDistinct(Strip(userText), SymKeywords);
  }

  /* ---------------- Thai number words ---------------- */

  predicate NonEmptyWords(table: seq<(string, string)>)
  {
    forall i :: 0 <= i < |table| ==> table[i].0 != []
  }

  /** Applies `text.replace(w, n)` for each pair of `table`, in order. */
  function ReplaceAll(text: string, table: seq<(string, string)>): string
    requires NonEmptyWords(table)
  {
    if table == [] then text
    else
      var last := table[|table| - 1];
      Replace(ReplaceAll(text, table[..|table| - 1]), last.0, last.1)
  }

  /** A text that mentions none of the words is left unchanged. */
  lemma {:induction false} ReplaceAllUnchanged(text: string, table: seq<(string, string)>)
    requires NonEmptyWords(table)
    requires forall i :: 0 <= i < |table| ==> !Contains(text, table[i].0)
    ensures ReplaceAll(text, table) == text
  {
    if table != [] {
      ReplaceAllUnchanged(text, table[..|table| - 1]);
    }
  }

  /** `_thai_words_to_number`. */
  method ThaiWordsToNumber(text: string) returns (r: string)
    ensures r == NormaliseNumbers(text)
  {
    r := text;
    var i := 0;
    while i < |Elevens|
      invariant 0 <= i <= |Elevens|
      invariant r == ReplaceAll(text, Elevens[..i])
    {
      assert Elevens[..i + 1][..i] == Elevens[..i];
      r := Replace(r, Elevens[i].0, Elevens[i].1);
      i := i + 1;
    }
    assert Elevens[..i] == Elevens;
    var once := r;
    i := 0;
    while i < |ThaiNumberWords|
      invariant 0 <= i <= |ThaiNumberWords|
      invariant r == ReplaceAll(once, ThaiNumberWords[..i])
    {
      assert ThaiNumberWords[..i + 1][..i] == ThaiNumberWords[..i];
      r := Replace(r, ThaiNumberWords[i].0, ThaiNumberWords[i].1);
      i := i + 1;
    }
    assert ThaiNumberWords[..i] == ThaiNumberWords;
  }

  /** `_thai_words_to_number` as a function: the two-word numbers first, then every word in table order. */
  function NormaliseNumbers(text: string): string
  {
    assert NonEmptyWords(Elevens) && NonEmptyWords(ThaiNumberWords);
    ReplaceAll(ReplaceAll(text, Elevens), ThaiNumberWords)
  }

  /** A character that starts no word of the table rules out every occurrence of a word. */
  lemma {:induction false} ReplaceAllNoStart(text: string, table: seq<(string, string)>)
    requires NonEmptyWords(table)
    requires forall i, c :: 0 <= i < |table| && c in text ==> c != table[i].0[0]
    ensures ReplaceAll(text, table) == text
  {
    forall i | 0 <= i < |table| ensures !Contains(text, table[i].0) {
      forall p | 0 <= p <= |text| ensures !OccursAt(text, table[i].0, p) {
        if p < |text| {
          assert text[p] in text;
        }
      }
    }
    ReplaceAllUnchanged(text, table);
  }

  /** The characters the number words begin with. */
  const NumberWordStarts: set<char> := {'ศ', 'ห', 'ส', 'เ', 'แ'}

  /** The shape of the two word tables that the replacement relies on. */
  lemma NumberWordTable()
    ensures NonEmptyWords(Elevens) && NonEmptyWords(ThaiNumberWords)
    ensures Elevens == ThaiNumberWords[11..]
    ensures forall i :: 0 <= i < |ThaiNumberWords| ==> |ThaiNumberWords[i].0| >= 2 && ThaiNumberWords[i].0[0] in NumberWordStarts
    ensures forall i, c :: 0 <= i < |ThaiNumberWords| && c in ThaiNumberWords[i].1 ==> '0' <= c <= '9'
  {
  }

  /** No word up to "สิบ" has a word's first character after its own first. */
  lemma NumberWordInner()
    ensures forall i, j :: 0 <= i <= 10 && 1 <= j < |ThaiNumberWords[i].0| ==> ThaiNumberWords[i].0[j] !in NumberWordStarts
  {
  }

  /**
   * Two different words, the first up to "สิบ", differ in their first two
   * characters, except that "สิบ" begins "สิบเอ็ด" and "สิบสอง", whose next
   * character begins a word.
   */
  lemma NumberWordPrefixes()
    ensures forall i, m :: 0 <= i <= 10 && 0 <= m < |ThaiNumberWords| && i != m ==>
      ThaiNumberWords[i].0[0] != ThaiNumberWords[m].0[0] || ThaiNumberWords[i].0[1] != ThaiNumberWords[m].0[1] || (i == 10 && m >= 11)
    ensures |ThaiNumberWords[10].0| == 3
    ensures forall m :: 11 <= m < |ThaiNumberWords| ==> |ThaiNumberWords[m].0| > 3 && ThaiNumberWords[m].0[3] in NumberWordStarts
  {
  }

  /** A text without the first character of `pat` does not contain `pat`. */
  lemma StartAbsent(s: string, pat: string)
    requires pat != [] && forall c :: c in s ==> c != pat[0]
    ensures !Contains(s, pat)
  {
    forall i | 0 <= i <= |s| ensures !OccursAt(s, pat, i) {
      if i + |pat| <= |s| {
        assert s[i..i + |pat|][0] == s[i] && s[i] in s;
      }
    }
  }

  /**
   * `pat` is not in `w + rest` when it does not start there (it differs from
   * `w + rest` at `d`), cannot start inside `w` after its first character,
   * and `rest` holds no character `pat` begins with.
   */
  lemma WordAbsent(w: string, rest: string, pat: string, d: nat)
    requires d < |pat| && ((d < |w| && w[d] != pat[d]) || (d == |w| && (rest == [] || rest[0] != pat[d])))
    requires forall j {:trigger w[j]} :: 1 <= j < |w| ==> w[j] != pat[0] || (j + 1 < |w| && 1 < |pat| && w[j + 1] != pat[1])
    requires forall c :: c in rest ==> c != pat[0]
    ensures !Contains(w + rest, pat)
  {
    var s := w + rest;
    forall i | 0 <= i <= |s| ensures !OccursAt(s, pat, i) {
      if i + |pat| <= |s| {
        var m := s[i..i + |pat|];
        assert m[0] == s[i];
        if i == 0 {
          assert m[d] == s[d];
          if d < |w| {
            assert s[d] == w[d];
          } else {
            assert s[d] == rest[0];
          }
        } else if i < |w| {
          assert s[i] == w[i];
          if w[i] == pat[0] {
            assert i + 1 < |w| && 1 < |pat|;
            assert m[1] == s[i + 1] == w[i + 1];
          }
        } else {
          assert s[i] == rest[i - |w|] && rest[i - |w|] in rest;
        }
      }
    }
  }

  /** When the first word of `table` that occurs in `t` is the `k`-th, and no later word occurs after replacing it, the fold stops there. */
  lemma {:induction false} ReplaceAllFirstHit(t: string, table: seq<(string, string)>, k: nat, u: string)
    requires NonEmptyWords(table) && k < |table|
    requires forall i :: 0 <= i < k ==> !Contains(t, table[i].0)
    requires Replace(t, table[k].0, table[k].1) == u
    requires forall i :: k < i < |table| ==> !Contains(u, table[i].0)
    ensures ReplaceAll(t, table) == u
  {
    var init := table[..|table| - 1];
    if k == |table| - 1 {
      ReplaceAllUnchanged(t, init);
    } else {
      ReplaceAllFirstHit(t, init, k, u);
    }
  }

  /**
   * A number word followed by text in which no number word can begin becomes
   * its digits: the text "สาม" + rest normalises to "3" + rest, and the
   * two-word numbers "สิบเอ็ด" and "สิบสอง" become "11" and "12", not "101"
   * or "102".
   */
  lemma NumberWordBecomesDigits(k: nat, rest: string)
    requires k < |ThaiNumberWords|
    requires forall c :: c in rest ==> c !in NumberWordStarts
    ensures NormaliseNumbers(ThaiNumberWords[k].0 + rest) == ThaiNumberWords[k].1 + rest
  {
    NumberWordTable();
    var w, n := ThaiNumberWords[k].0, ThaiNumberWords[k].1;
    DigitsStayPut(n, rest);
    StartAbsent(rest, w);
    var t := w + rest;
    assert t[..|w|] == w && t[|w|..] == rest;
    assert Replace(t, w, n) == n + rest;
    if k <= 10 {
      SingleWordAlone(k, rest);
      forall i | 0 <= i < |Elevens| ensures !Contains(t, Elevens[i].0) {
        assert Elevens[i] == ThaiNumberWords[11 + i];
      }
      ReplaceAllUnchanged(t, Elevens);
      ReplaceAllFirstHit(t, ThaiNumberWords, k, n + rest);
    } else {
      assert Elevens[k - 11] == ThaiNumberWords[k];
      if k == 12 {
        var pat := Elevens[0].0;
        assert w == "สิบสอง" && pat == "สิบเอ็ด";
        WordAbsent(w, rest, pat, 3);
      }
      forall i | k - 11 < i < |Elevens| ensures !Contains(n + rest, Elevens[i].0) {
        assert Elevens[i] == ThaiNumberWords[11 + i];
      }
      ReplaceAllFirstHit(t, Elevens, k - 11, n + rest);
      ReplaceAllUnchanged(n + rest, ThaiNumberWords);
    }
  }

  /** Digits followed by such a text contain no number word. */
  lemma DigitsStayPut(n: string, rest: string)
    requires forall c :: c in n ==> '0' <= c <= '9'
    requires forall c :: c in rest ==> c !in NumberWordStarts
    ensures forall i :: 0 <= i < |ThaiNumberWords| ==> !Contains(n + rest, ThaiNumberWords[i].0)
  {
    NumberWordTable();
    forall i | 0 <= i < |ThaiNumberWords| ensures !Contains(n + rest, ThaiNumberWords[i].0) {
      forall c | c in n + rest ensures c != ThaiNumberWords[i].0[0] {
        if c in n {
          assert '0' <= c <= '9';
        }
      }
      StartAbsent(n + rest, ThaiNumberWords[i].0);
    }
  }

  /** A word up to "สิบ" followed by such a text contains no other word of the table. */
  lemma SingleWordAlone(k: nat, rest: string)
    requires k <= 10
    requires forall c :: c in rest ==> c !in NumberWordStarts
    ensures forall i :: 0 <= i < |ThaiNumberWords| && i != k ==> !Contains(ThaiNumberWords[k].0 + rest, ThaiNumberWords[i].0)
  {
    NumberWordTable();
    NumberWordInner();
    NumberWordPrefixes();
    var w := ThaiNumberWords[k].0;
    forall i | 0 <= i < |ThaiNumberWords| && i != k ensures !Contains(w + rest, ThaiNumberWords[i].0) {
      var pat := ThaiNumberWords[i].0;
      if w[0] != pat[0] {
        WordAbsent(w, rest, pat, 0);
      } else if w[1] != pat[1] {
        WordAbsent(w, rest, pat, 1);
      } else {
        assert rest != [] ==> rest[0] in rest;
        WordAbsent(w, rest, pat, |w|);
      }
    }
  }

  /* ---------------- Duration ---------------- */

  /** `\d`: ASCII and Thai decimal digits. */
  predicate IsDigit(c: char)
  {
    ('0' <= c <= '9') || ('๐' <= c <= '๙')
  }

  /** End of the longest run of `p`-characters starting at `i`. */
  function RunEnd(s: string, i: nat, p: char -> bool): (r: nat)
    requires i <= |s|
    ensures i <= r <= |s|
    decreases |s| - i
  {
    if i < |s| && p(s[i]) then RunEnd(s, i + 1, p) else i
  }

  /** The run is maximal: every character in it satisfies `p`, the next one does not. */
  lemma {:induction false} RunEndMaximal(s: string, i: nat, p: char -> bool)
    requires i <= |s|
    ensures forall m :: i <= m < RunEnd(s, i, p) ==> p(s[m])
    ensures RunEnd(s, i, p) < |s| ==> !p(s[RunEnd(s, i, p)])
    decreases |s| - i
  {
    if i < |s| && p(s[i]) {
      RunEndMaximal(s, i + 1, p);
    }
  }

  /** The first unit alternative that occurs at `i`. */
  function UnitAt(s: string, i: nat, units: seq<string>): (r: Option<string>)
    ensures r.Some? ==> r.value in units
  {
    if units == [] then None
    else if OccursAt(s, units[0], i) then Some(units[0])
    else UnitAt(s, i, units[1..])
  }

  /** The first alternative that occurs at `i` is chosen; none occurs when the result is `None`. */
  lemma {:induction false} UnitAtFirst(s: string, i: nat, units: seq<string>)
    ensures UnitAt(s, i, units).None? <==> forall u :: u in units ==> !OccursAt(s, u, i)
    ensures UnitAt(s, i, units).Some? ==>
      exists k :: (0 <= k < |units| && units[k] == UnitAt(s, i, units).value
        && OccursAt(s, units[k], i) && (forall m :: 0 <= m < k ==> !OccursAt(s, units[m], i)))
  {
    if units != [] && !OccursAt(s, units[0], i) {
      UnitAtFirst(s, i, units[1..]);
      if UnitAt(s, i, units).Some? {
        var k :| 0 <= k < |units[1..]| && units[1..][k] == UnitAt(s, i, units).value
          && OccursAt(s, units[1..][k], i) && forall m :: 0 <= m < k ==> !OccursAt(s, units[1..][m], i);
        assert units[k + 1] == units[1..][k];
        forall m | 0 <= m < k + 1 ensures !OccursAt(s, units[m], i) {
          if m > 0 {
            assert units[m] == units[1..][m - 1];
          }
        }
      }
      forall u | u in units ensures !OccursAt(s, u, i) <== UnitAt(s, i, units).None? {
        if u != units[0] {
          assert u in units[1..];
        }
      }
    }
  }

  datatype DurationMatch = DurationMatch(number: string, unit: string)

  /**
   * The match of `(\d+(?:\.\d+)?)\s*(units)` starting at `i`, read greedily.
   * No unit begins with a digit, a dot or whitespace, which is why the greedy
   * reading is taken to agree with the regex's backtracking one; that
   * agreement rests on inspection and is not proved here.
   */
  function MatchAt(s: string, i: nat): (r: Option<DurationMatch>)
    ensures r.Some? ==> i < |s| && IsDigit(s[i]) && r.value.unit in DurationUnits && |r.value.number| > 0
  {
    if i >= |s| || !IsDigit(s[i]) then None
    else
      var j := RunEnd(s, i, IsDigit);
      var k := if j + 1 < |s| && s[j] == '.' && IsDigit(s[j + 1]) then RunEnd(s, j + 1, IsDigit) else j;
      var w := RunEnd(s, k, IsSpace);
      match UnitAt(s, w, DurationUnits)
      case Some(u) => Some(DurationMatch(s[i..k], u))
      case None => None
  }

  /** `re.search` from position `from`: the leftmost match at or after it. */
  function SearchFrom(s: string, from: nat): Option<DurationMatch>
    decreases |s| - from
  {
    if from >= |s| then None
    else if MatchAt(s, from).Some? then MatchAt(s, from)
    else SearchFrom(s, from + 1)
  }

  /** `SearchFrom` gives the leftmost match at or after `from`, or none when there is none. */
  lemma SearchFromLeftmost(s: string, from: nat)
    ensures SearchFrom(s, from).None? ==> forall i :: from <= i ==> MatchAt(s, i).None?
    ensures SearchFrom(s, from).Some? ==>
      exists i :: from <= i < |s| && MatchAt(s, i) == SearchFrom(s, from) && forall j :: from <= j < i ==> MatchAt(s, j).None?
  {
    if SearchFrom(s, from).Some? {
      var i := SearchFromWitness(s, from);
    } else {
      SearchFromNone(s, from);
    }
  }

  lemma {:induction false} SearchFromWitness(s: string, from: nat) returns (i: nat)
    requires SearchFrom(s, from).Some?
    ensures from <= i < |s| && MatchAt(s, i) == SearchFrom(s, from)
    ensures forall j :: from <= j < i ==> MatchAt(s, j).None?
    decreases |s| - from
  {
    var here := MatchAt(s, from);
    if here.Some? {
      i := from;
    } else {
      assert SearchFrom(s, from) == SearchFrom(s, from + 1);
      i := SearchFromWitness(s, from + 1);
      assert forall j :: from + 1 <= j < i ==> MatchAt(s, j).None?;
    }
  }

  lemma {:induction false} SearchFromNone(s: string, from: nat)
    requires SearchFrom(s, from).None?
    ensures forall i :: from <= i ==> MatchAt(s, i).None?
    decreases |s| - from
  {
    if from < |s| {
      SearchFromNone(s, from + 1);
    }
  }

  method ScanDuration(s: string) returns (m: Option<DurationMatch>)
    ensures m.None? ==> forall i :: MatchAt(s, i).None?
    ensures m.Some? ==> exists i :: 0 <= i < |s| && MatchAt(s, i) == m && forall j :: 0 <= j < i ==> MatchAt(s, j).None?
    ensures m == SearchFrom(s, 0)
  {
    var i := 0;
    while i < |s|
      invariant 0 <= i <= |s|
      invariant forall j :: 0 <= j < i ==> MatchAt(s, j).None?
      invariant SearchFrom(s, 0) == SearchFrom(s, i)
    {
      var here := MatchAt(s, i);
      if here.Some? {
        return here;
      }
      i := i + 1;
    }
    return None;
  }

  /** `auto_fill_duration_from_text`, as a function of the text and the old slots. */
  function DurationFromText(userText: string, slots: Slots): Slots
  {
    var t := Strip(userText);
    if Truthy(Get(slots, Duration)) || t == [] then slots
    else match SearchFrom(NormaliseNumbers(t), 0)
      case Some(m) => slots[Duration := Str(m.number + " " + m.unit)]
      case None => slots
  }

  method AutoFillDuration(userText: string, slots: Slots) returns (out: Slots)
    ensures out == DurationFromText(userText, slots)
  {
    if Truthy(Get(slots, Duration)) {
      return slots;
    }
    var t := Strip(userText);
    if t == [] {
      return slots;
    }
    var normalised := ThaiWordsToNumber(t);
    var m := ScanDuration(normalised);
    assert m == SearchFrom(NormaliseNumbers(t), 0);
    match m
    case Some(found) => out := slots[Duration := Str(found.number + " " + found.unit)];
    case None => out := slots;
  }

  /**
   * The duration extractor only fills an empty slot, touches no other key, is
   * idempotent, and writes "<number> <unit>" of the leftmost match.
   */
  lemma DurationFromTextOnlyFills(userText: string, slots: Slots)
    ensures Truthy(Get(slots, Duration)) ==> DurationFromText(userText, slots) == slots
    ensures forall k :: k != Duration ==> Get(DurationFromText(userText, slots), k) == Get(slots, k)
    ensures DurationFromText(userText, DurationFromText(userText, slots)) == DurationFromText(userText, slots)
    ensures DurationFromText(userText, slots) != slots ==>
      exists m :: SearchFrom(NormaliseNumbers(Strip(userText)), 0) == Some(m) &&
        DurationFromText(userText, slots)[Duration] == Str(m.number + " " + m.unit)
  {
  }

  /** The answer "3 วัน" ("3 days"). */
  predicate IsThreeDays(s: string)
  {
    |s| == 5 && s[0] == '3' && s[1] == ' ' && s[2..] == "วัน"
  }

  /** An answer of "3 days" fills an absent duration with "3 วัน". */
  lemma DurationOfThreeDays(answer: string, slots: Slots)
    requires IsThreeDays(answer) && Duration !in slots
    ensures Get(DurationFromText(answer, slots), Duration) == Str(answer)
  {
    var m := DurationMatch("3", "วัน");
    assert Strip(answer) == answer by { StripThreeDays(answer); }
    assert NormaliseNumbers(answer) == answer by { NormaliseThreeDays(answer); }
    assert SearchFrom(answer, 0) == Some(m) by { SearchThreeDays(answer); }
    DurationWritten(answer, slots, m);
    ThreeDaysSpelled(answer);
  }

  /** "สามวัน", three days with the number in words, fills an empty duration with "3 วัน". */
  lemma DurationOfThreeDaysInWords(slots: Slots)
    requires !Truthy(Get(slots, Duration))
    ensures Get(DurationFromText("สามวัน", slots), Duration) == Str("3 วัน")
  {
    var t, m := "สามวัน", DurationMatch("3", "วัน");
    assert Strip(t) == t by { StripThreeDaysInWords(); }
    assert SearchFrom(NormaliseNumbers(Strip(t)), 0) == Some(m) by {
      NormaliseThreeDaysInWords();
      SearchThreeDaysInDigits();
    }
    DurationWritten(t, slots, m);
    assert m.number + " " + m.unit == "3 วัน" by { ThreeDaysSpelled("3 วัน"); }
  }

  lemma StripThreeDaysInWords()
    ensures Strip("สามวัน") == "สามวัน"
  {
    var t := "สามวัน";
    assert LeadingSpace(t) == 0;
    assert TrailingSpace(t) == 0;
  }

  lemma NormaliseThreeDaysInWords()
    ensures NormaliseNumbers("สามวัน") == "3วัน"
  {
    assert ThaiNumberWords[3] == ("สาม", "3") && "สาม" + "วัน" == "สามวัน";
    NumberWordBecomesDigits(3, "วัน");
    assert "3" + "วัน" == "3วัน";
  }

  lemma SearchThreeDaysInDigits()
    ensures SearchFrom("3วัน", 0) == Some(DurationMatch("3", "วัน"))
  {
    var u := "3วัน";
    assert u[0..1] == "3";
    assert RunEnd(u, 0, IsDigit) == 1;
    assert RunEnd(u, 1, IsSpace) == 1;
    assert OccursAt(u, DurationUnits[0], 1);
    assert UnitAt(u, 1, DurationUnits) == Some("วัน");
    assert MatchAt(u, 0) == Some(DurationMatch("3", "วัน"));
  }

  lemma ThreeDaysSpelled(s: string)
    requires IsThreeDays(s)
    ensures "3" + " " + "วัน" == s
  {
    var t := "3" + " " + "วัน";
    assert |t| == |s|;
    forall k | 0 <= k < |s| ensures t[k] == s[k] {
      if k >= 2 {
        assert s[k] == s[2..][k - 2];
      }
    }
  }

  lemma DurationWritten(userText: string, slots: Slots, m: DurationMatch)
    requires !Truthy(Get(slots, Duration)) && Strip(userText) != []
    requires SearchFrom(NormaliseNumbers(Strip(userText)), 0) == Some(m)
    ensures Get(DurationFromText(userText, slots), Duration) == Str(m.number + " " + m.unit)
  {
  }

  lemma StripThreeDays(s: string)
    requires IsThreeDays(s)
    ensures Strip(s) == s
  {
    assert LeadingSpace(s) == 0;
    assert TrailingSpace(s) == 0;
  }

  lemma NormaliseThreeDays(s: string)
    requires IsThreeDays(s)
    ensures NormaliseNumbers(s) == s
  {
    assert NonEmptyWords(Elevens) && NonEmptyWords(ThaiNumberWords);
    ReplaceAllNoStart(s, Elevens);
    ReplaceAllNoStart(s, ThaiNumberWords);
  }

  lemma SearchThreeDays(s: string)
    requires IsThreeDays(s)
    ensures SearchFrom(s, 0) == Some(DurationMatch("3", "วัน"))
  {
    assert s[0] == '3' && s[1] == ' ' && s[0..1] == "3";
    assert RunEnd(s, 0, IsDigit) == 1;
    assert RunEnd(s, 1, IsSpace) == 2;
    assert OccursAt(s, DurationUnits[0], 2);
    assert UnitAt(s, 2, DurationUnits) == Some("วัน");
    assert MatchAt(s, 0) == Some(DurationMatch("3", "วัน"));
  }

  /* ---------------- Boolean symptom folding ---------------- */

  /** Appends, in table order, the symptom of every flag that is exactly `True` and not yet listed. */
  function AppendTrueFlags(arr: seq<string>, table: seq<(string, string)>, slots: Slots): seq<string>
  {
    if table == [] then arr
    else
      var prev := AppendTrueFlags(arr, table[..|table| - 1], slots);
      var (k, symptom) := table[|table| - 1];
      if Get(slots, k) == Bool(true) && symptom !in prev then prev + [symptom] else prev
  }

  /** `fold_boolean_symptoms_into_main`; `Failure` when `main_symptoms` is a truthy bool or number. */
  function FoldBooleans(slots: Slots): Result<Slots>
  {
    match ListOf(Get(slots, MainSymptoms))
    case Failure(e) => Failure(e)
    case Ok(arr) =>
      var folded := AppendTrueFlags(arr, BoolSymptoms, slots);
      if folded != [] then Ok(slots[MainSymptoms := StrList(folded)]) else Ok(slots)
  }

  method FoldBooleanSymptoms(slots: Slots) returns (r: Result<Slots>)
    ensures r == FoldBooleans(slots)
  {
    var listed := ListOf(Get(slots, MainSymptoms));
    if listed.Failure? {
      return Failure(listed.error);
    }
    var arr := listed.value;
    var i := 0;
    while i < |BoolSymptoms|
      invariant 0 <= i <= |BoolSymptoms|
      invariant arr == AppendTrueFlags(listed.value, BoolSymptoms[..i], slots)
    {
      assert BoolSymptoms[..i + 1][..i] == BoolSymptoms[..i];
      var k, symptom := BoolSymptoms[i].0, BoolSymptoms[i].1;
      if Get(slots, k) == Bool(true) && symptom !in arr {
        arr := arr + [symptom];
      }
      i := i + 1;
    }
    assert BoolSymptoms[..i] == BoolSymptoms;
    r := if arr != [] then Ok(slots[MainSymptoms := StrList(arr)]) else Ok(slots);
  }

  /**
   * Folding keeps the old list as a prefix, adds only labels of flags that are
   * exactly `True`, and afterwards lists the symptom of every such flag.
   */
  lemma {:induction false} AppendTrueFlagsSound(arr: seq<string>, table: seq<(string, string)>, slots: Slots)
    ensures arr <= AppendTrueFlags(arr, table, slots)
    ensures forall x :: x in AppendTrueFlags(arr, table, slots) && x !in arr ==>
              exists i :: 0 <= i < |table| && table[i].1 == x && Get(slots, table[i].0) == Bool(true)
    ensures forall i :: 0 <= i < |table| && Get(slots, table[i].0) == Bool(true) ==>
              table[i].1 in AppendTrueFlags(arr, table, slots)
  {
    if table != [] {
      var init := table[..|table| - 1];
      AppendTrueFlagsSound(arr, init, slots);
      forall i | 0 <= i < |table| - 1 ensures table[i] == init[i] { }
    }
  }

  /** Once every true flag's symptom is listed, folding adds nothing. */
  lemma {:induction false} AppendTrueFlagsSettled(arr: seq<string>, table: seq<(string, string)>, slots: Slots)
    requires forall i :: 0 <= i < |table| && Get(slots, table[i].0) == Bool(true) ==> table[i].1 in arr
    ensures AppendTrueFlags(arr, table, slots) == arr
  {
    if table != [] {
      AppendTrueFlagsSettled(arr, table[..|table| - 1], slots);
    }
  }

  /** Folding touches only `main_symptoms` and is idempotent. */
  lemma FoldBooleansIdempotent(slots: Slots)
    requires FoldBooleans(slots).Ok?
    ensures forall k :: k != MainSymptoms ==> Get(FoldBooleans(slots).value, k) == Get(slots, k)
    ensures FoldBooleans(FoldBooleans(slots).value) == FoldBooleans(slots)
  {
    var arr := ListOf(Get(slots, MainSymptoms)).value;
    var folded := AppendTrueFlags(arr, BoolSymptoms, slots);
    AppendTrueFlagsSound(arr, BoolSymptoms, slots);
    if folded != [] {
      var s2 := slots[MainSymptoms := StrList(folded)];
      assert FoldBooleans(slots) == Ok(s2);
      forall i | 0 <= i < |BoolSymptoms| && Get(s2, BoolSymptoms[i].0) == Bool(true)
        ensures BoolSymptoms[i].1 in folded
      {
        assert BoolSymptoms[i].0 != MainSymptoms;
      }
      AppendTrueFlagsSettled(folded, BoolSymptoms, s2);
      assert ListOf(Get(s2, MainSymptoms)) == Ok(folded);
      assert s2[MainSymptoms := StrList(folded)] == s2;
    }
  }

  /* ---------------- Intent-scoped refinement ---------------- */

  function FilterIn(arr: seq<string>, keep: set<string>): (r: seq<string>)
    ensures forall x :: x in r <==> x in arr && x in keep
    ensures IsSubsequence(r, arr)
  {
    if arr == [] then []
    else
      var rest := FilterIn(arr[1..], keep);
      assert arr == [arr[0]] + arr[1..];
      if arr[0] in keep then
        assert IsSubsequence([arr[0]] + rest, arr) by { assert ([arr[0]] + rest)[1..] == rest; }
        [arr[0]] + rest
      else
        rest
  }

  /** `refine_main_symptoms_for_intent`; `Failure` when `main_symptoms` is a truthy bool or number. */
  function RefineForIntent(intent: string, slots: Slots): (r: Result<Slots>)
    ensures r.Ok? ==> forall k :: k != MainSymptoms ==> Get(r.value, k) == Get(slots, k)
  {
    match ListOf(Get(slots, MainSymptoms))
    case Failure(e) => Failure(e)
    case Ok(arr) =>
      if arr == [] then
        if intent == "derm_rash" && Get(slots, "rash") == Bool(true) then Ok(slots[MainSymptoms := StrList([Rash])])
        else Ok(slots)
      else if intent == "derm_rash" then
        var kept := FilterIn(arr, DermSym);
        Ok(slots[MainSymptoms := StrList(if Get(slots, "rash") == Bool(true) && Rash !in kept then kept + [Rash] else kept)])
      else if intent == "resp_upper" then
        Ok(slots[MainSymptoms := StrList(FilterIn(arr, RespSym))])
      else
        Ok(slots[MainSymptoms := StrList(arr)])
  }

  /**
   * For `derm_rash` only skin labels remain, and the rash label is present when
   * `rash` is `True`; for `resp_upper` only respiratory labels remain. Every
   * label of the listed symptoms that belongs to the domain is kept, in order;
   * the rash label is the only one ever added. Other intents keep the list as
   * it is. Refining twice is refining once.
   */
  lemma RefineKeepsDomain(intent: string, slots: Slots)
    requires RefineForIntent(intent, slots).Ok?
    ensures var out := Get(RefineForIntent(intent, slots).value, MainSymptoms);
      && (intent == "derm_rash" && out.StrList? ==> forall x :: x in out.items ==> x in DermSym)
      && (intent == "derm_rash" && Get(slots, "rash") == Bool(true) ==> out.StrList? && Rash in out.items)
      && (intent == "resp_upper" && out.StrList? ==> forall x :: x in out.items ==> x in RespSym)
    ensures var arr, out := ListOf(Get(slots, MainSymptoms)).value, Get(RefineForIntent(intent, slots).value, MainSymptoms);
      arr != [] ==>
        && out.StrList?
        && (intent == "derm_rash" ==>
              && out.items[..|FilterIn(arr, DermSym)|] == FilterIn(arr, DermSym)
              && (Get(slots, "rash") == Bool(true) && Rash !in FilterIn(arr, DermSym) ==> out.items == FilterIn(arr, DermSym) + [Rash])
              && (Get(slots, "rash") != Bool(true) || Rash in FilterIn(arr, DermSym) ==> out.items == FilterIn(arr, DermSym))
              && (forall x :: x in arr && x in DermSym ==> x in out.items))
        && (intent == "resp_upper" ==>
              && out.items == FilterIn(arr, RespSym)
              && (forall x :: x in arr && x in RespSym ==> x in out.items))
        && (intent != "derm_rash" && intent != "resp_upper" ==> out.items == arr)
    ensures RefineForIntent(intent, RefineForIntent(intent, slots).value) == RefineForIntent(intent, slots)
  {
    var arr := ListOf(Get(slots, MainSymptoms)).value;
    var out := RefineForIntent(intent, slots).value;
    if arr != [] {
      var items := Get(out, MainSymptoms).items;
      assert out == slots[MainSymptoms := StrList(items)];
      assert Get(out, "rash") == Get(slots, "rash");
      if items == [] {
        assert !(intent == "derm_rash" && Get(slots, "rash") == Bool(true));
        assert RefineForIntent(intent, out) == Ok(out);
      } else {
        assert ListOf(Get(out, MainSymptoms)) == Ok(items);
        if intent == "derm_rash" {
          FilterInFixed(items, DermSym);
        } else if intent == "resp_upper" {
          FilterInFixed(items, RespSym);
        }
        assert out[MainSymptoms := StrList(items)] == out;
      }
    } else if intent == "derm_rash" && Get(slots, "rash") == Bool(true) {
      assert out == slots[MainSymptoms := StrList([Rash])];
      assert ListOf(Get(out, MainSymptoms)) == Ok([Rash]);
      assert FilterIn([Rash], DermSym) == [Rash];
      assert out[MainSymptoms := StrList([Rash])] == out;
    }
  }

  lemma {:induction false} FilterInFixed(arr: seq<string>, keep: set<string>)
    requires forall x :: x in arr ==> x in keep
    ensures FilterIn(arr, keep) == arr
  {
    if arr != [] {
      FilterInFixed(arr[1..], keep);
      assert arr == [arr[0]] + arr[1..];
    }
  }

  /* ---------------- "Unknown" answers ---------------- */

  /** `normalize_unknowns`: a "don't know / not measured" phrase sets the fever measurement slots. */
  function UnknownsNormalised(userText: string, slots: Slots): Slots
  {
    if MentionsAny(Lower(userText), UnknownMarkers) then
      slots["fever_measured" := Bool(false)]["fever_max_c" := Null]["fever_method" := Null]
    else slots
  }

  /** Only the three fever keys change, only when a marker occurs, and applying it twice changes nothing more. */
  lemma UnknownsOnlyOnMarker(userText: string, slots: Slots)
    ensures !MentionsAny(Lower(userText), UnknownMarkers) ==> UnknownsNormalised(userText, slots) == slots
    ensures MentionsAny(Lower(userText), UnknownMarkers) ==>
      var out := UnknownsNormalised(userText, slots);
      out["fever_measured"] == Bool(false) && out["fever_max_c"] == Null && out["fever_method"] == Null
    ensures forall k :: k !in {"fever_measured", "fever_max_c", "fever_method"} ==>
      Get(UnknownsNormalised(userText, slots), k) == Get(slots, k)
    ensures UnknownsNormalised(userText, UnknownsNormalised(userText, slots)) == UnknownsNormalised(userText, slots)
  {
  }
}

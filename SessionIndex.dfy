/**
 * The browser-side session index of web/lib/sessionIndex.ts: a list of session
 * summaries kept as JSON under one localStorage key. `Store` holds what the
 * key contains and whether a browser window exists at all; the wall clock that
 * `touchSession` reads is a parameter.
 */
module SessionIndex {
  import opened Sorting
  import opened Seqs

  datatype Status = Active | Ended

  /** `SessionMeta`; timestamps are ISO-8601 strings. `intent` is "" when absent. */
  datatype SessionMeta = SessionMeta(id: string, intent: string, createdAt: string, updatedAt: string, lastStatus: Status)

  /** What the storage key holds: nothing, text that does not parse as JSON, or a parsed list. */
  datatype Stored = Missing | Unparsable | Entries(list: seq<SessionMeta>)

  /** `a <= b` in the order of `localeCompare`, taken here as code-point order. */
  predicate LexLe(a: string, b: string)
  {
    a == [] || (b != [] && (a[0] < b[0] || (a[0] == b[0] && LexLe(a[1..], b[1..]))))
  }

  lemma {:induction false} LexTotal(a: string, b: string)
    ensures LexLe(a, b) || LexLe(b, a)
  {
    if a != [] && b != [] && a[0] == b[0] {
      LexTotal(a[1..], b[1..]);
    }
  }

  lemma {:induction false} LexTransitive(a: string, b: string, c: string)
    requires LexLe(a, b) && LexLe(b, c)
    ensures LexLe(a, c)
  {
    if a != [] && a[0] == b[0] && b[0] == c[0] {
      LexTransitive(a[1..], b[1..], c[1..]);
    }
  }

  /** The comparator of `listSessions`: `a` may come first when it was updated no earlier than `b`. */
  predicate Newer(a: SessionMeta, b: SessionMeta)
  {
    LexLe(b.updatedAt, a.updatedAt)
  }

  lemma NewerIsPreorder()
    ensures TotalPreorder(Newer)
  {
    forall a: SessionMeta, b: SessionMeta ensures Newer(a, b) || Newer(b, a) {
      LexTotal(a.updatedAt, b.updatedAt);
    }
    forall a: SessionMeta, b: SessionMeta, c: SessionMeta | Newer(a, b) && Newer(b, c) ensures Newer(a, c) {
      LexTransitive(c.updatedAt, b.updatedAt, a.updatedAt);
    }
  }

  /**
   * The list ordered most recently updated first. `Array.prototype.sort` is
   * stable, so `Sort` gives the same order.
   */
  function ByRecency(list: seq<SessionMeta>): (r: seq<SessionMeta>)
    ensures multiset(r) == multiset(list)
    ensures forall i, j :: 0 <= i < j < |r| ==> LexLe(r[j].updatedAt, r[i].updatedAt)
  {
    NewerIsPreorder();
    SortPermutes(list, Newer);
    SortSorted(list, Newer);
    Sort(list, Newer)
  }

  /** Sessions updated at the same instant stay in their stored order. */
  lemma ByRecencyStable(list: seq<SessionMeta>, y: SessionMeta)
    ensures ClassOf(ByRecency(list), y, Newer) == ClassOf(list, y, Newer)
  {
    NewerIsPreorder();
    SortStable(list, y, Newer);
  }

  /** `list.filter((s) => s.id !== id)`. */
  function WithoutId(list: seq<SessionMeta>, id: string): (r: seq<SessionMeta>)
    ensures |r| <= |list|
  {
    if list == [] then []
    else (if list[0].id == id then [] else [list[0]]) + WithoutId(list[1..], id)
  }

  /**
   * Filtering out `id` removes every entry with that id and keeps every other
   * entry, in order: the result is the subsequence of entries with another id.
   */
  lemma {:induction false} WithoutIdExactly(list: seq<SessionMeta>, id: string)
    ensures forall s :: s in WithoutId(list, id) <==> s in list && s.id != id
    ensures IsSubsequence(WithoutId(list, id), list)
  {
    if list != [] {
      var rest := WithoutId(list[1..], id);
      WithoutIdExactly(list[1..], id);
      assert list == [list[0]] + list[1..];
      if list[0].id == id {
        assert WithoutId(list, id) == rest;
        if rest != [] {
          assert rest[0] in rest;
          assert rest[0] != list[0];
        }
      } else {
        assert ([list[0]] + rest)[1..] == rest;
      }
    }
  }

  /** Index of the first entry with `id`, or -1 (`findIndex`). */
  function FirstIndex(list: seq<SessionMeta>, id: string): (r: int)
    ensures -1 <= r < |list|
  {
    if list == [] then -1
    else if list[0].id == id then 0
    else var k := FirstIndex(list[1..], id); if k < 0 then -1 else k + 1
  }

  lemma {:induction false} FirstIndexFacts(list: seq<SessionMeta>, id: string)
    ensures FirstIndex(list, id) == -1 <==> forall s :: s in list ==> s.id != id
    ensures FirstIndex(list, id) >= 0 ==> list[FirstIndex(list, id)].id == id
    ensures forall j :: 0 <= j < FirstIndex(list, id) ==> list[j].id != id
  {
    if list != [] && list[0].id != id {
      FirstIndexFacts(list[1..], id);
      assert list == [list[0]] + list[1..];
    }
  }

  /** The list after `touchSession(id)` at time `now`, when an entry has `id`. */
  function Touched(list: seq<SessionMeta>, id: string, now: string): (r: seq<SessionMeta>)
    requires FirstIndex(list, id) >= 0
  {
    var i := FirstIndex(list, id);
    list[i := list[i].(updatedAt := now)]
  }

  /**
   * Touching changes only the `updatedAt` of the first entry with `id`: the
   * length, every other entry and every other field stay the same.
   */
  lemma TouchedOnlyStamps(list: seq<SessionMeta>, id: string, now: string)
    requires FirstIndex(list, id) >= 0
    ensures var r, i := Touched(list, id, now), FirstIndex(list, id);
      && |r| == |list|
      && r[i].id == id && r[i].updatedAt == now
      && r[i] == SessionMeta(list[i].id, list[i].intent, list[i].createdAt, now, list[i].lastStatus)
      && (forall j :: 0 <= j < |list| && j != i ==> r[j] == list[j])
      && (forall j :: 0 <= j < i ==> r[j].id != id)
  {
    FirstIndexFacts(list, id);
  }

  /** After adding `meta`, it comes first and no other entry has its id; the others keep their order. */
  lemma AddedFirst(list: seq<SessionMeta>, meta: SessionMeta)
    ensures var r := [meta] + WithoutId(list, meta.id);
      && r[0] == meta
      && (forall j :: 0 < j < |r| ==> r[j].id != meta.id)
      && (forall s :: s in list && s.id != meta.id ==> s in r)
      && IsSubsequence(r[1..], list)
  {
    WithoutIdExactly(list, meta.id);
    var r := [meta] + WithoutId(list, meta.id);
    assert r[1..] == WithoutId(list, meta.id);
    forall j | 0 < j < |r| ensures r[j].id != meta.id {
      assert r[j] in WithoutId(list, meta.id);
    }
  }

  /** The localStorage key, and whether there is a browser window to reach it through. */
  class Store {
    var hasWindow: bool
    var stored: Stored

    constructor(hasWindow: bool, stored: Stored)
      ensures this.hasWindow == hasWindow && this.stored == stored
    {
      this.hasWindow := hasWindow;
      this.stored := stored;
    }

    /** `read()`: no window, no stored value or unparsable text all read as the empty list. */
    function Read(): (r: seq<SessionMeta>)
      reads this
      ensures !hasWindow || !stored.Entries? ==> r == []
      ensures hasWindow && stored.Entries? ==> r == stored.list
    {
      if hasWindow && stored.Entries? then stored.list else []
    }

    /** `listSessions()`: the stored entries, most recently updated first. */
    function ListSessions(): (r: seq<SessionMeta>)
      reads this
      ensures !hasWindow || !stored.Entries? ==> r == []
      ensures multiset(r) == multiset(Read())
      ensures forall i, j :: 0 <= i < j < |r| ==> LexLe(r[j].updatedAt, r[i].updatedAt)
    {
      ByRecency(Read())
    }

    /**
     * `addSession(meta)`: drops any entry with `meta.id` and puts `meta` in
     * front. Without a window, writing throws and nothing changes (`ok` false).
     */
    method AddSession(meta: SessionMeta) returns (ok: bool)
      modifies this
      ensures ok == old(hasWindow) && hasWindow == old(hasWindow)
      ensures ok ==> stored == Entries([meta] + WithoutId(old(Read()), meta.id))
      ensures ok ==> Read() == [meta] + WithoutId(old(Read()), meta.id)
      ensures ok && !old(stored).Entries? ==> Read() == [meta]
      ensures !ok ==> stored == old(stored)
    {
      var list := Read();
      if !hasWindow {
        return false;
      }
      var filtered := WithoutId(list, meta.id);
      filtered := [meta] + filtered;
      stored := Entries(filtered);
      return true;
    }

    /** `removeSession(id)`: keeps the entries with another id. Without a window, writing throws. */
    method RemoveSession(id: string) returns (ok: bool)
      modifies this
      ensures ok == old(hasWindow) && hasWindow == old(hasWindow)
      ensures ok ==> stored == Entries(WithoutId(old(Read()), id))
      ensures ok ==> Read() == WithoutId(old(Read()), id)
      ensures !ok ==> stored == old(stored)
    {
      var list := WithoutId(Read(), id);
      if !hasWindow {
        return false;
      }
      stored := Entries(list);
      return true;
    }

    /**
     * `touchSession(id)` at time `now`: stamps the first entry with `id` and
     * writes the list back; when no entry has `id` nothing is written.
     */
    method TouchSession(id: string, now: string)
      modifies this
      ensures hasWindow == old(hasWindow)
      ensures FirstIndex(old(Read()), id) >= 0 ==> stored == Entries(Touched(old(Read()), id, now))
      ensures FirstIndex(old(Read()), id) >= 0 ==> Read() == Touched(old(Read()), id, now)
      ensures FirstIndex(old(Read()), id) < 0 ==> stored == old(stored)
    {
      var list := Read();
      var i := FirstIndex(list, id);
      if i >= 0 {
        list := list[i := list[i].(updatedAt := now)];
        stored := Entries(list);
      }
    }
  }
}

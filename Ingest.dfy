/**
 * The knowledge-base chunker of server/rag/ingest.py: `split_len` cuts a text
 * into fixed-size windows that overlap, and `chunk_markdown` first groups the
 * inline text of a Markdown document by heading and then cuts each group.
 * The Markdown parser is not modelled: `chunk_markdown` works on its token
 * stream, reduced to the three kinds of token the chunker tells apart.
 */
module Ingest {
  import opened Text

  /** The characters `text[lo:hi]` of one chunk. */
  datatype Window = Window(lo: nat, hi: nat)

  function Min(a: int, b: int): int
  {
    if a < b then a else b
  }

  /**
   * Where the window after `w` starts: `overlap` characters before the end of
   * `w`, unless that would not move past the start of `w`.
   */
  function NextStart(w: Window, overlap: int): (r: nat)
    requires w.lo < w.hi
    ensures w.lo < r
    ensures r == w.hi || r == w.hi - overlap
  {
    if w.hi - overlap > w.lo then w.hi - overlap else w.hi
  }

  /** The windows `split_len` cuts from a text of length `n`, beginning at `start`. */
  function Windows(n: nat, target: nat, overlap: int, start: nat): (ws: seq<Window>)
    requires target > 0
    ensures forall w :: w in ws ==> w.lo < w.hi <= n
    decreases n - start
  {
    if start >= n then []
    else
      var w := Window(start, Min(start + target, n));
      [w] + Windows(n, target, overlap, NextStart(w, overlap))
  }

  function Slices(text: string, ws: seq<Window>): (r: seq<string>)
    requires forall w :: w in ws ==> w.lo <= w.hi <= |text|
  {
    seq(|ws|, i requires 0 <= i < |ws| => text[ws[i].lo..ws[i].hi])
  }

  /** The pieces `split_len` cuts from `text`, from `start` on. */
  function SplitFrom(text: string, target: nat, overlap: int, start: nat): seq<string>
    requires target > 0
    decreases |text| - start
  {
    if start >= |text| then []
    else
      var end := Min(start + target, |text|);
      var next := if end - overlap > start then end - overlap else end;
      [text[start..end]] + SplitFrom(text, target, overlap, next)
  }

  /** `split_len(text, target, overlap)`. */
  function Split(text: string, target: nat, overlap: int): seq<string>
    requires target > 0
  {
    SplitFrom(text, target, overlap, 0)
  }

  /** `split_len`. A `target` of 0 or less would never advance, so it is excluded. */
  method SplitLen(text: string, target: nat, overlap: int) returns (out: seq<string>)
    requires target > 0
    ensures out == Split(text, target, overlap)
  {
    out := [];
    var start: nat := 0;
    var n := |text|;
    while start < n
      invariant out + SplitFrom(text, target, overlap, start) == Split(text, target, overlap)
      decreases n - start
    {
      var end := Min(start + target, n);
      var next := if end - overlap > start then end - overlap else end;
      assert out + SplitFrom(text, target, overlap, start)
        == (out + [text[start..end]]) + SplitFrom(text, target, overlap, next);
      out := out + [text[start..end]];
      start := next;
    }
  }

  /** The pieces are the texts of the windows, in order. */
  lemma {:induction false} SplitFromWindows(text: string, target: nat, overlap: int, start: nat)
    requires target > 0
    ensures SplitFrom(text, target, overlap, start) == Slices(text, Windows(|text|, target, overlap, start))
    decreases |text| - start
  {
    if start < |text| {
      var w := Window(start, Min(start + target, |text|));
      SplitFromWindows(text, target, overlap, NextStart(w, overlap));
      SlicesCons(text, w, Windows(|text|, target, overlap, NextStart(w, overlap)));
    }
  }

  lemma SlicesCons(text: string, w: Window, ws: seq<Window>)
    requires w.lo <= w.hi <= |text|
    requires forall v :: v in ws ==> v.lo <= v.hi <= |text|
    ensures Slices(text, [w] + ws) == [text[w.lo..w.hi]] + Slices(text, ws)
  {
    var l, r := Slices(text, [w] + ws), [text[w.lo..w.hi]] + Slices(text, ws);
    assert |l| == |r|;
    forall i | 0 <= i < |l| ensures l[i] == r[i] {
      if i > 0 {
        assert ([w] + ws)[i] == ws[i - 1];
      }
    }
  }

  /**
   * There is no window exactly when `start >= n`; the first starts at `start`.
   * With a non-negative overlap the last ends at `n`; a negative one can jump
   * past the end and stop short of it.
   */
  lemma {:induction false} WindowsEnds(n: nat, target: nat, overlap: int, start: nat)
    requires target > 0
    ensures var ws := Windows(n, target, overlap, start);
      && (ws == [] <==> start >= n)
      && (ws != [] ==> ws[0].lo == start)
      && (ws != [] && overlap >= 0 ==> ws[|ws| - 1].hi == n)
    decreases n - start
  {
    if start < n {
      var w := Window(start, Min(start + target, n));
      var rest := Windows(n, target, overlap, NextStart(w, overlap));
      WindowsEnds(n, target, overlap, NextStart(w, overlap));
      if rest != [] {
        assert ([w] + rest)[|rest|] == rest[|rest| - 1];
      }
    }
  }

  /** Every window is `target` characters long, or shorter because the text ends. */
  lemma {:induction false} WindowsSized(n: nat, target: nat, overlap: int, start: nat)
    requires target > 0
    ensures forall w :: w in Windows(n, target, overlap, start) ==> w.hi == Min(w.lo + target, n)
    decreases n - start
  {
    if start < n {
      var w := Window(start, Min(start + target, n));
      var rest := Windows(n, target, overlap, NextStart(w, overlap));
      WindowsSized(n, target, overlap, NextStart(w, overlap));
      assert Windows(n, target, overlap, start) == [w] + rest;
    }
  }

  /** Each window after the first starts where `NextStart` puts it. */
  lemma {:induction false} WindowsLinked(n: nat, target: nat, overlap: int, start: nat)
    requires target > 0
    ensures var ws := Windows(n, target, overlap, start);
      forall i :: 0 <= i < |ws| - 1 ==> ws[i + 1].lo == NextStart(ws[i], overlap)
    decreases n - start
  {
    if start < n {
      var w := Window(start, Min(start + target, n));
      var rest := Windows(n, target, overlap, NextStart(w, overlap));
      WindowsLinked(n, target, overlap, NextStart(w, overlap));
      WindowsEnds(n, target, overlap, NextStart(w, overlap));
      assert forall i :: 0 < i < |rest| + 1 ==> ([w] + rest)[i] == rest[i - 1];
    }
  }

  /**
   * The pieces of `split_len`: none for an empty text; otherwise contiguous
   * slices `text[lo:hi]` of 1 to `target` characters, the first starting at 0
   * and, when `overlap` is not negative, the last ending at the end of the text.
   */
  lemma SplitPieces(text: string, target: nat, overlap: int)
    requires target > 0
    ensures var ws, ps := Windows(|text|, target, overlap, 0), Split(text, target, overlap);
      && (ps == [] <==> text == [])
      && |ps| == |ws|
      && (forall i :: 0 <= i < |ws| ==> ws[i].lo < ws[i].hi <= |text| && ps[i] == text[ws[i].lo..ws[i].hi])
      && (forall i :: 0 <= i < |ws| ==> 0 < |ps[i]| <= target)
      && (ws != [] ==> ws[0].lo == 0)
      && (ws != [] && overlap >= 0 ==> ws[|ws| - 1].hi == |text|)
  {
    var ws := Windows(|text|, target, overlap, 0);
    SplitFromWindows(text, target, overlap, 0);
    WindowsEnds(|text|, target, overlap, 0);
    WindowsSized(|text|, target, overlap, 0);
    assert forall i :: 0 <= i < |ws| ==> ws[i] in ws;
  }

  /**
   * Consecutive pieces: each starts strictly after the previous one, and
   * either overlaps it by exactly `overlap` characters or, when that would not
   * advance, starts where the previous one ended.
   */
  lemma SplitOverlaps(text: string, target: nat, overlap: int)
    requires target > 0
    ensures var ws := Windows(|text|, target, overlap, 0);
      && (forall i :: 0 <= i < |ws| - 1 ==> ws[i].lo < ws[i + 1].lo)
      && (forall i :: 0 <= i < |ws| - 1 && ws[i].hi - overlap > ws[i].lo ==> ws[i].hi - ws[i + 1].lo == overlap)
      && (forall i :: 0 <= i < |ws| - 1 && ws[i].hi - overlap <= ws[i].lo ==> ws[i + 1].lo == ws[i].hi)
  {
    var ws := Windows(|text|, target, overlap, 0);
    WindowsLinked(|text|, target, overlap, 0);
    assert forall i :: 0 <= i < |ws| ==> ws[i] in ws;
  }

  /**
   * With a non-negative overlap no character is skipped: every position of the
   * text lies in some window.
   */
  lemma {:induction false} WindowCovering(n: nat, target: nat, overlap: int, start: nat, k: nat) returns (i: nat)
    requires target > 0 && overlap >= 0 && start <= k < n
    ensures var ws := Windows(n, target, overlap, start);
      i < |ws| && ws[i].lo <= k < ws[i].hi
    decreases n - start
  {
    var w := Window(start, Min(start + target, n));
    if k < w.hi {
      i := 0;
    } else {
      var j := WindowCovering(n, target, overlap, NextStart(w, overlap), k);
      i := j + 1;
    }
  }

  /** `"".join(ss)`. */
  function Join(ss: seq<string>): string
  {
    if ss == [] then [] else ss[0] + Join(ss[1..])
  }

  /**
   * When consecutive windows never overlap (`overlap` is 0, or at least
   * `target`), joining the pieces gives back the text.
   */
  lemma SplitJoins(text: string, target: nat, overlap: int)
    requires target > 0 && (overlap == 0 || overlap >= target)
    ensures Join(Split(text, target, overlap)) == text
  {
    JoinFrom(text, target, overlap, 0);
  }

  lemma {:induction false} JoinFrom(text: string, target: nat, overlap: int, start: nat)
    requires target > 0 && (overlap == 0 || overlap >= target) && start <= |text|
    ensures Join(SplitFrom(text, target, overlap, start)) == text[start..]
    decreases |text| - start
  {
    if start < |text| {
      var end := Min(start + target, |text|);
      var ps := SplitFrom(text, target, overlap, start);
      JoinFrom(text, target, overlap, end);
      assert ps == [text[start..end]] + SplitFrom(text, target, overlap, end);
      assert ps[1..] == SplitFrom(text, target, overlap, end);
      assert text[start..] == text[start..end] + text[end..];
    }
  }

  /** The Markdown tokens the chunker tells apart; every other token is `Other`. */
  datatype Token = HeadingOpen | Inline(content: string) | Other

  /**
   * The lines of inline text grouped by heading: the group before the first
   * heading, then one group per heading, each line being an inline token's
   * content followed by a newline.
   */
  function Sections(tokens: seq<Token>): (ss: seq<seq<string>>)
    ensures |ss| >= 1
  {
    if tokens == [] then [[]]
    else
      var ss := Sections(tokens[..|tokens| - 1]);
      match tokens[|tokens| - 1]
      case HeadingOpen => ss + [[]]
      case Inline(c) => ss[..|ss| - 1] + [ss[|ss| - 1] + [c + "\n"]]
      case Other => ss
  }

  /** The text of one group: its lines joined and stripped. */
  function SectionText(sec: seq<string>): string
  {
    Strip(Join(sec))
  }

  /** The pieces one group is cut into; an empty group yields none. */
  function PiecesOf(sec: seq<string>, target: nat, overlap: int): seq<string>
    requires target > 0
  {
    if sec == [] then [] else Split(SectionText(sec), target, overlap)
  }

  function FlatPieces(ss: seq<seq<string>>, target: nat, overlap: int): seq<string>
    requires target > 0
  {
    if ss == [] then [] else FlatPieces(ss[..|ss| - 1], target, overlap) + PiecesOf(ss[|ss| - 1], target, overlap)
  }

  /** `[p for p in pieces if p.strip()]`. */
  function NonBlank(pieces: seq<string>): (r: seq<string>)
    ensures forall p :: p in r <==> p in pieces && !IsBlank(p)
  {
    if pieces == [] then []
    else (if IsBlank(pieces[0]) then [] else [pieces[0]]) + NonBlank(pieces[1..])
  }

  /** What `chunk_markdown` returns: each heading group cut separately, blank pieces dropped. */
  function Chunks(tokens: seq<Token>, target: nat, overlap: int): seq<string>
    requires target > 0
  {
    NonBlank(FlatPieces(Sections(tokens), target, overlap))
  }

  /** `chunk_markdown`, over the token stream. */
  method ChunkMarkdown(tokens: seq<Token>, target: nat, overlap: int) returns (result: seq<string>)
    requires target > 0
    ensures result == Chunks(tokens, target, overlap)
  {
    var pieces: seq<string> := [];
    var buf: seq<string> := [];
    for i := 0 to |tokens|
      invariant Scanned(tokens[..i], pieces, buf, target, overlap)
    {
      ScanStep(tokens, i, pieces, buf, target, overlap);
      match tokens[i]
      case HeadingOpen =>
        pieces := Flush(pieces, buf, target, overlap);
        buf := [];
      case Inline(c) =>
        buf := buf + [c + "\n"];
      case Other =>
    }
    assert tokens[..|tokens|] == tokens;
    pieces := Flush(pieces, buf, target, overlap);
    result := NonBlank(pieces);
  }

  /** Cuts the buffered lines, if any, and appends their pieces. */
  method Flush(pieces: seq<string>, buf: seq<string>, target: nat, overlap: int) returns (r: seq<string>)
    requires target > 0
    ensures r == pieces + PiecesOf(buf, target, overlap)
  {
    r := pieces;
    if buf != [] {
      var text := Strip(Join(buf));
      var more := SplitLen(text, target, overlap);
      r := r + more;
    } else {
      assert pieces + [] == pieces;
    }
  }

  /**
   * After the tokens `prefix`, `pieces` holds the pieces of every finished
   * group and `buf` the lines of the group still open.
   */
  predicate Scanned(prefix: seq<Token>, pieces: seq<string>, buf: seq<string>, target: nat, overlap: int)
    requires target > 0
  {
    var ss := Sections(prefix);
    pieces == FlatPieces(ss[..|ss| - 1], target, overlap) && buf == ss[|ss| - 1]
  }

  /** How one more token changes the finished pieces and the open group. */
  lemma ScanStep(tokens: seq<Token>, i: nat, pieces: seq<string>, buf: seq<string>, target: nat, overlap: int)
    requires i < |tokens| && target > 0 && Scanned(tokens[..i], pieces, buf, target, overlap)
    ensures match tokens[i]
      case HeadingOpen => Scanned(tokens[..i + 1], pieces + PiecesOf(buf, target, overlap), [], target, overlap)
      case Inline(c) => Scanned(tokens[..i + 1], pieces, buf + [c + "\n"], target, overlap)
      case Other => Scanned(tokens[..i + 1], pieces, buf, target, overlap)
  {
    assert tokens[..i + 1][..i] == tokens[..i];
    var ss := Sections(tokens[..i]);
    if tokens[i].HeadingOpen? {
      assert (ss + [[]])[..|ss|] == ss;
    }
  }

  /**
   * Every piece comes from a single heading group: it is a slice of at most
   * `target` characters of that group's text, so no piece mixes the inline
   * text of two sections. No piece is empty or whitespace only.
   */
  lemma ChunkWithinSection(tokens: seq<Token>, target: nat, overlap: int, p: string) returns (k: nat, lo: nat, hi: nat)
    requires target > 0 && p in Chunks(tokens, target, overlap)
    ensures var ss := Sections(tokens);
      && k < |ss| && lo < hi <= |SectionText(ss[k])| && hi - lo <= target
      && p == SectionText(ss[k])[lo..hi]
    ensures !IsBlank(p)
  {
    var ss := Sections(tokens);
    k := FlatPiecesSource(ss, target, overlap, p);
    assert ss[k] != [];
    var text := SectionText(ss[k]);
    SplitPieces(text, target, overlap);
    var ps := Split(text, target, overlap);
    var ws := Windows(|text|, target, overlap, 0);
    var i :| 0 <= i < |ps| && ps[i] == p;
    lo, hi := ws[i].lo, ws[i].hi;
  }

  lemma {:induction false} FlatPiecesSource(ss: seq<seq<string>>, target: nat, overlap: int, p: string) returns (k: nat)
    requires target > 0 && p in FlatPieces(ss, target, overlap)
    ensures k < |ss| && p in PiecesOf(ss[k], target, overlap)
  {
    var init := ss[..|ss| - 1];
    var last := PiecesOf(ss[|ss| - 1], target, overlap);
    assert FlatPieces(ss, target, overlap) == FlatPieces(init, target, overlap) + last;
    if p in last {
      k := |ss| - 1;
    } else {
      k := FlatPiecesSource(init, target, overlap, p);
      assert ss[k] == init[k];
    }
  }

  /** Number of `HeadingOpen` tokens. */
  function Headings(tokens: seq<Token>): nat
  {
    if tokens == [] then 0 else Headings(tokens[..|tokens| - 1]) + (if tokens[|tokens| - 1].HeadingOpen? then 1 else 0)
  }

  /** The inline lines of the whole document, in order. */
  function Lines(tokens: seq<Token>): seq<string>
  {
    if tokens == [] then []
    else Lines(tokens[..|tokens| - 1]) + (if tokens[|tokens| - 1].Inline? then [tokens[|tokens| - 1].content + "\n"] else [])
  }

  function Concat(ss: seq<seq<string>>): seq<string>
  {
    if ss == [] then [] else Concat(ss[..|ss| - 1]) + ss[|ss| - 1]
  }

  /**
   * The groups partition the document's inline lines: there is one more group
   * than there are headings, and together they hold every line once, in order.
   */
  lemma {:induction false} SectionsPartition(tokens: seq<Token>)
    ensures |Sections(tokens)| == Headings(tokens) + 1
    ensures Concat(Sections(tokens)) == Lines(tokens)
  {
    if tokens != [] {
      var init := tokens[..|tokens| - 1];
      SectionsPartition(init);
      var ss := Sections(init);
      match tokens[|tokens| - 1]
      case HeadingOpen =>
        assert (ss + [[]])[..|ss|] == ss;
      case Inline(c) =>
        var ss' := ss[..|ss| - 1] + [ss[|ss| - 1] + [c + "\n"]];
        assert ss'[..|ss'| - 1] == ss[..|ss| - 1];
        assert Concat(ss) == Concat(ss[..|ss| - 1]) + ss[|ss| - 1];
      case Other =>
    }
  }
}

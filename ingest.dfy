/**
 * The index builder: page text is sanitised, normalised and cut into
 * overlapping windows; the windows of every page of every PDF become numbered
 * chunk records; the record texts are embedded batch by batch; and the build
 * guards decide what is written.
 */
module Ingest {
  import opened Outcomes
  import opened PyText
  import opened Config

  // ===========================================================================
  // sanitize_text

  /** A Dafny string read as a Python `str`. */
  function CodePoints(t: string): (s: seq<CodePoint>)
    ensures |s| == |t|
    ensures forall i :: 0 <= i < |t| ==> s[i] == t[i] as int && !IsSurrogate(s[i])
  {
    seq(|t|, i requires 0 <= i < |t| => t[i] as int)
  }

  /**
   * `text.encode("utf-8", "ignore").decode("utf-8", "ignore")`: the lone
   * surrogates are the only code points UTF-8 cannot encode, and they are
   * dropped; every other code point is kept, in order.
   */
  function SanitizeText(text: seq<CodePoint>): (r: string)
    ensures |r| <= |text|
    decreases |text|
  {
    if text == [] then []
    else (if IsSurrogate(text[0]) then [] else [text[0] as char]) + SanitizeText(text[1..])
  }

  /** Every kept character comes from the input, and every code point that is not a surrogate is kept. */
  lemma {:induction false} SanitizeMembers(text: seq<CodePoint>)
    ensures forall i :: 0 <= i < |SanitizeText(text)| ==> (SanitizeText(text)[i] as int) in text
    ensures forall i :: 0 <= i < |text| ==> !IsSurrogate(text[i]) ==> text[i] as char in SanitizeText(text)
    decreases |text|
  {
    if text != [] {
      SanitizeMembers(text[1..]);
      var head: string := if IsSurrogate(text[0]) then [] else [text[0] as char];
      var r := SanitizeText(text);
      assert r == head + SanitizeText(text[1..]);
      forall i | 0 <= i < |r|
        ensures (r[i] as int) in text
      {
        if i >= |head| {
          assert r[i] == SanitizeText(text[1..])[i - |head|];
          assert (r[i] as int) in text[1..];
        }
      }
      forall i | 0 < i < |text|
        ensures !IsSurrogate(text[i]) ==> text[i] as char in r
      {
        assert text[i] == text[1..][i - 1];
      }
    }
  }

  /** Text that holds no surrogate comes back unchanged. */
  lemma {:induction false} SanitizeKeepsText(t: string)
    ensures SanitizeText(CodePoints(t)) == t
    decreases |t|
  {
    if t != [] {
      assert CodePoints(t)[1..] == CodePoints(t[1..]);
      SanitizeKeepsText(t[1..]);
    }
  }

  /** Sanitising works code point by code point, so it distributes over concatenation. */
  lemma {:induction false} SanitizeConcat(a: seq<CodePoint>, b: seq<CodePoint>)
    ensures SanitizeText(a + b) == SanitizeText(a) + SanitizeText(b)
    decreases |a|
  {
    if a == [] {
      assert a + b == b;
    } else {
      var head: string := if IsSurrogate(a[0]) then [] else [a[0] as char];
      assert SanitizeText(a + b) == head + SanitizeText(a[1..] + b) by {
        assert (a + b)[0] == a[0] && (a + b)[1..] == a[1..] + b;
      }
      SanitizeConcat(a[1..], b);
      assert SanitizeText(a) == head + SanitizeText(a[1..]);
      assert head + (SanitizeText(a[1..]) + SanitizeText(b)) == (head + SanitizeText(a[1..])) + SanitizeText(b);
    }
  }

  /** Nothing is lost exactly when the input holds no surrogate. */
  lemma {:induction false} SanitizeLossless(text: seq<CodePoint>)
    ensures |SanitizeText(text)| == |text| <==> forall i :: 0 <= i < |text| ==> !IsSurrogate(text[i])
    decreases |text|
  {
    if text != [] {
      SanitizeLossless(text[1..]);
      assert forall i :: 1 <= i < |text| ==> text[i] == text[1..][i - 1];
    }
  }

  // ===========================================================================
  // split_text

  const OverlapMessage := "chunk_overlap must be smaller than chunk_size"

  /** The text split_text slides its window over: sanitised, then normalised. */
  function PreparedText(text: seq<CodePoint>): string {
    Normalize(SanitizeText(text))
  }

  /** The prepared text is normal, and empty exactly when the sanitised text is all whitespace. */
  lemma PreparedFacts(text: seq<CodePoint>)
    ensures IsNormal(PreparedText(text))
    ensures PreparedText(text) == [] <==> forall i :: 0 <= i < |SanitizeText(text)| ==> IsSpace(SanitizeText(text)[i])
  {
    var s := SanitizeText(text);
    NormalizeIsNormal(s);
    NormalizeEmpty(s);
    if forall i :: 0 <= i < |s| ==> IsSpace(s[i]) {
      assert Normalize(s) == [];
    } else {
      var i :| 0 <= i < |s| && !IsSpace(s[i]);
      assert Normalize(s) != [];
    }
  }

  /** How many of the window starts 0, step, 2*step, ... lie below n: Python's `len(range(0, n, step))`. */
  function WindowCount(n: int, step: int): nat
    requires step >= 1
    decreases n
  {
    if n <= 0 then 0 else 1 + WindowCount(n - step, step)
  }

  /** The window starts are exactly the multiples of `step` below `n`. */
  lemma {:induction false} WindowStarts(n: int, step: int, j: nat)
    requires step >= 1
    ensures j < WindowCount(n, step) <==> j * step < n
    ensures 0 <= j * step
    decreases n
  {
    if n > 0 && j > 0 {
      WindowStarts(n - step, step, j - 1);
      assert (j - 1) * step == j * step - step;
    }
  }

  /** The window of `size` characters at `start`, stripped, as the loop body takes it. */
  function Window(t: string, start: int, size: int): string {
    Strip(Slice(t, start, start + size))
  }

  /** The stripped windows at the starts 0, step, 2*step, ... below |t|, empty ones included. */
  function Windows(t: string, size: int, step: int): seq<string>
    requires step >= 1
  {
    seq(WindowCount(|t|, step), i => Window(t, i * step, size))
  }

  /** The windows that are not empty after stripping, in order. */
  function NonEmpty(ws: seq<string>): (r: seq<string>)
    ensures forall k :: 0 <= k < |r| ==> r[k] != [] && r[k] in ws
    ensures forall w :: w in ws && w != [] ==> w in r
  {
    if ws == [] then []
    else NonEmpty(ws[..|ws| - 1]) + (if ws[|ws| - 1] == [] then [] else [ws[|ws| - 1]])
  }

  /** Taking one more window keeps it exactly when it is not empty. */
  lemma NonEmptyStep(ws: seq<string>, j: nat)
    requires j < |ws|
    ensures NonEmpty(ws[..j + 1]) == NonEmpty(ws[..j]) + (if ws[j] == [] then [] else [ws[j]])
  {
    assert ws[..j + 1][..j] == ws[..j];
  }

  /** When no window is empty, none is dropped. */
  lemma {:induction false} NonEmptyKeepsAll(ws: seq<string>)
    requires forall k :: 0 <= k < |ws| ==> ws[k] != []
    ensures NonEmpty(ws) == ws
  {
    if ws != [] {
      NonEmptyKeepsAll(ws[..|ws| - 1]);
    }
  }

  /**
   * split_text: an empty normalised text gives no chunks, whatever the
   * settings; otherwise an overlap that is not below the size is an error;
   * otherwise the chunks are the non-empty stripped windows.
   */
  function SplitTextSpec(text: seq<CodePoint>, chunkSize: int, chunkOverlap: int): Result<seq<string>> {
    SplitPrepared(PreparedText(text), chunkSize, chunkOverlap)
  }

  /** split_text once the text is prepared: the checks and the windows. */
  function SplitPrepared(t: string, chunkSize: int, chunkOverlap: int): Result<seq<string>> {
    if t == [] then Success([])
    else if chunkOverlap >= chunkSize then Failure(ValueError(OverlapMessage))
    else Success(NonEmpty(Windows(t, chunkSize, chunkSize - chunkOverlap)))
  }

  method SplitText(text: seq<CodePoint>, chunkSize: int, chunkOverlap: int) returns (r: Result<seq<string>>)
    ensures r == SplitTextSpec(text, chunkSize, chunkOverlap)
  {
    var t := Normalize(SanitizeText(text));
    if t == [] {
      return Success([]);
    }
    if chunkOverlap >= chunkSize {
      return Failure(ValueError(OverlapMessage));
    }
    var chunks: seq<string> := [];
    var start := 0;
    var step := chunkSize - chunkOverlap;
    ghost var windows := Windows(t, chunkSize, step);
    ghost var j := 0;
    while start < |t|
      invariant 0 <= j <= |windows| && start == j * step
      invariant chunks == NonEmpty(windows[..j])
      decreases |t| - start
    {
      WindowLoopStep(t, chunkSize, step, j);
      var chunk := Window(t, start, chunkSize);
      if chunk != [] {
        chunks := chunks + [chunk];
      }
      NonEmptyStep(windows, j);
      start := start + step;
      j := j + 1;
    }
    WindowsDone(t, chunkSize, step, j);
    return Success(chunks);
  }

  /** A start below the text length is that of the next window, and the next start is one step on. */
  lemma WindowLoopStep(t: string, size: int, step: int, j: nat)
    requires step >= 1 && j * step < |t|
    ensures j < |Windows(t, size, step)|
    ensures Windows(t, size, step)[j] == Window(t, j * step, size)
    ensures (j + 1) * step == j * step + step
  {
    WindowStarts(|t|, step, j);
  }

  /** Once the start reaches the text length, every window has been taken. */
  lemma WindowsDone(t: string, size: int, step: int, j: nat)
    requires step >= 1 && j <= |Windows(t, size, step)| && j * step >= |t|
    ensures Windows(t, size, step)[..j] == Windows(t, size, step)
  {
    WindowStarts(|t|, step, j);
  }

  // ---------------------------------------------------------------------------
  // What split_text promises

  /** Whitespace-only text gives no chunks, even with an overlap that is not below the size. */
  lemma SplitBlank(text: seq<CodePoint>, chunkSize: int, chunkOverlap: int)
    requires forall i :: 0 <= i < |SanitizeText(text)| ==> IsSpace(SanitizeText(text)[i])
    ensures SplitTextSpec(text, chunkSize, chunkOverlap) == Success([])
  {
    NormalizeEmpty(SanitizeText(text));
  }

  /** The configuration error is raised exactly for text with content and an overlap not below the size. */
  lemma SplitOverlapError(text: seq<CodePoint>, chunkSize: int, chunkOverlap: int)
    ensures SplitTextSpec(text, chunkSize, chunkOverlap).Failure?
      <==> chunkOverlap >= chunkSize && exists i :: 0 <= i < |SanitizeText(text)| && !IsSpace(SanitizeText(text)[i])
    ensures SplitTextSpec(text, chunkSize, chunkOverlap).Failure?
      ==> SplitTextSpec(text, chunkSize, chunkOverlap).error == ValueError(OverlapMessage)
  {
    PreparedFacts(text);
    PreparedOverlapError(PreparedText(text), chunkSize, chunkOverlap);
  }

  lemma PreparedOverlapError(t: string, chunkSize: int, chunkOverlap: int)
    ensures SplitPrepared(t, chunkSize, chunkOverlap).Failure? <==> chunkOverlap >= chunkSize && t != []
    ensures SplitPrepared(t, chunkSize, chunkOverlap).Failure?
      ==> SplitPrepared(t, chunkSize, chunkOverlap).error == ValueError(OverlapMessage)
  {
  }

  /** For a window size of at least one, text with content always gives at least one chunk. */
  lemma SplitNothingOnlyWhenBlank(text: seq<CodePoint>, chunkSize: int, chunkOverlap: int)
    requires chunkSize >= 1
    ensures SplitTextSpec(text, chunkSize, chunkOverlap) == Success([])
      <==> forall i :: 0 <= i < |SanitizeText(text)| ==> IsSpace(SanitizeText(text)[i])
  {
    PreparedFacts(text);
    PreparedNothing(PreparedText(text), chunkSize, chunkOverlap);
  }

  lemma PreparedNothing(t: string, chunkSize: int, chunkOverlap: int)
    requires chunkSize >= 1 && IsNormal(t)
    ensures SplitPrepared(t, chunkSize, chunkOverlap) == Success([]) <==> t == []
  {
    if t != [] && chunkOverlap < chunkSize {
      var step := chunkSize - chunkOverlap;
      WindowStarts(|t|, step, 0);
      var ws := Windows(t, chunkSize, step);
      WindowNonEmptyAtStart(t, 0, chunkSize);
      assert ws[0] in ws && ws[0] != [];
      assert NonEmpty(ws) != [];
    }
  }

  /** Inside normalised text, a window that starts on a non-space is not blank. */
  lemma WindowNonEmptyAtStart(t: string, start: nat, size: int)
    requires IsNormal(t) && start < |t| && !IsSpace(t[start]) && size >= 1
    ensures Window(t, start, size) != []
  {
    var seg := Slice(t, start, start + size);
    SliceNonNegative(t, start, start + size);
    assert seg[0] == t[start];
    StripEmpty(seg);
  }

  /** `c` is found in `t` starting at index `a`. */
  predicate OccursAt(c: string, t: string, a: int) {
    0 <= a && a + |c| <= |t| && t[a..a + |c|] == c
  }

  ghost predicate IsSubstring(c: string, t: string) {
    exists a :: OccursAt(c, t, a)
  }

  /** A window is a stripped piece of `t` of at most `size` characters. */
  lemma WindowShape(t: string, start: nat, size: int)
    requires size >= 1
    ensures |Window(t, start, size)| <= size
    ensures IsSubstring(Window(t, start, size), t)
  {
    var a := WindowOffset(t, start, size);
  }

  /** Where in `t` the window at `start` begins once stripped. */
  lemma WindowOffset(t: string, start: nat, size: int) returns (a: nat)
    requires size >= 1
    ensures |Window(t, start, size)| <= size
    ensures OccursAt(Window(t, start, size), t, a)
  {
    var lo, hi := Min(start, |t|), Min(start + size, |t|);
    assert Window(t, start, size) == Strip(t[lo..hi]) by {
      SliceNonNegative(t, start, start + size);
    }
    a := StripOccurs(t, lo, hi);
  }

  /** The strip of a piece of `t` is found in `t`, at the piece's start plus what was cut. */
  lemma StripOccurs(t: string, lo: nat, hi: nat) returns (a: nat)
    requires lo <= hi <= |t|
    ensures |Strip(t[lo..hi])| <= hi - lo
    ensures OccursAt(Strip(t[lo..hi]), t, a)
  {
    OccursInPiece(t, lo, hi, StripStart(t[lo..hi]), Strip(t[lo..hi]));
    a := lo + StripStart(t[lo..hi]);
  }

  /** A part `c` found at `k` in the piece `t[lo..hi]` is found at `lo + k` in `t`. */
  lemma OccursInPiece(t: string, lo: nat, hi: nat, k: nat, c: string)
    requires lo <= hi <= |t| && k + |c| <= hi - lo && c == t[lo..hi][k..k + |c|]
    ensures OccursAt(c, t, lo + k)
  {
    SubSlice(t, lo, hi, k, k + |c|);
  }

  lemma SubSlice<T>(s: seq<T>, lo: nat, hi: nat, i: nat, j: nat)
    requires lo <= hi <= |s| && i <= j <= hi - lo
    ensures s[lo..hi][i..j] == s[lo + i..lo + j]
  {
    var u := s[lo..hi];
    forall k | 0 <= k < j - i
      ensures u[i..j][k] == s[lo + i..lo + j][k]
    {
      assert u[i..j][k] == u[i + k];
      assert u[i + k] == s[lo + i + k];
    }
  }

  /** What every chunk of `t` is: non-empty, at most `size` long, stripped, and a piece of `t`. */
  ghost predicate ChunkShape(c: string, size: int, t: string) {
    && c != []
    && |c| <= size
    && !IsSpace(c[0]) && !IsSpace(c[|c| - 1])
    && IsSubstring(c, t)
  }

  /**
   * For a window size of at least one, every chunk is non-empty, at most
   * chunk_size long, free of whitespace at either end, and a contiguous piece
   * of the normalised text.
   */
  lemma SplitChunkShape(text: seq<CodePoint>, chunkSize: int, chunkOverlap: int)
    requires chunkSize >= 1
    requires SplitTextSpec(text, chunkSize, chunkOverlap).Success?
    ensures forall c :: c in SplitTextSpec(text, chunkSize, chunkOverlap).value ==>
      ChunkShape(c, chunkSize, PreparedText(text))
  {
    PreparedChunkShape(PreparedText(text), chunkSize, chunkOverlap);
  }

  lemma PreparedChunkShape(t: string, chunkSize: int, chunkOverlap: int)
    requires chunkSize >= 1
    requires SplitPrepared(t, chunkSize, chunkOverlap).Success?
    ensures forall c :: c in SplitPrepared(t, chunkSize, chunkOverlap).value ==> ChunkShape(c, chunkSize, t)
  {
    if t == [] {
      assert SplitPrepared(t, chunkSize, chunkOverlap).value == [];
    } else {
      assert chunkOverlap < chunkSize;
      var ws := Windows(t, chunkSize, chunkSize - chunkOverlap);
      assert SplitPrepared(t, chunkSize, chunkOverlap).value == NonEmpty(ws);
      WindowsShape(t, chunkSize, chunkSize - chunkOverlap);
      assert forall c :: c in NonEmpty(ws) ==> ChunkShape(c, chunkSize, t);
    }
  }

  /** Every kept window is a stripped piece of `t` of at most `size` characters. */
  lemma WindowsShape(t: string, size: int, step: int)
    requires size >= 1 && step >= 1
    ensures forall c :: c in NonEmpty(Windows(t, size, step)) ==> ChunkShape(c, size, t)
  {
    var ws := Windows(t, size, step);
    forall c | c in NonEmpty(ws)
      ensures ChunkShape(c, size, t)
    {
      var k :| 0 <= k < |ws| && ws[k] == c;
      WindowStarts(|t|, step, k);
      var start: nat := k * step;
      assert c == Window(t, start, size);
      WindowShape(t, start, size);
    }
  }

  /** For a window size of at least one, window `i` is the stripped slice `t[i*step .. i*step+size]`. */
  lemma WindowsAt(t: string, size: int, step: int, i: nat)
    requires size >= 1 && step >= 1 && i < |Windows(t, size, step)|
    ensures i * step < |t|
    ensures Windows(t, size, step)[i] == Strip(t[i * step..Min(i * step + size, |t|)])
  {
    var start := i * step;
    WindowStarts(|t|, step, i);
    assert Windows(t, size, step)[i] == Window(t, start, size);
    SliceNonNegative(t, start, start + size);
    assert Slice(t, start, start + size) == t[start..Min(start + size, |t|)];
  }

  /**
   * With chunk_size of at least two no window is dropped: normalised text has
   * no two adjacent spaces and does not end with one, so every window holds a
   * non-space.
   */
  lemma SplitKeepsEveryWindow(text: seq<CodePoint>, chunkSize: int, chunkOverlap: int)
    requires chunkSize >= 2 && chunkOverlap < chunkSize && PreparedText(text) != []
    ensures SplitTextSpec(text, chunkSize, chunkOverlap)
         == Success(Windows(PreparedText(text), chunkSize, chunkSize - chunkOverlap))
  {
    PreparedFacts(text);
    WindowsAllKept(PreparedText(text), chunkSize, chunkSize - chunkOverlap);
  }

  lemma WindowsAllKept(t: string, size: int, step: int)
    requires IsNormal(t) && size >= 2 && step >= 1
    ensures NonEmpty(Windows(t, size, step)) == Windows(t, size, step)
  {
    var ws := Windows(t, size, step);
    forall k | 0 <= k < |ws|
      ensures ws[k] != []
    {
      WindowStarts(|t|, step, k);
      WindowNonEmpty(t, k * step, size);
    }
    NonEmptyKeepsAll(ws);
  }

  /** In normalised text, a window of two or more characters that starts inside the text is never blank. */
  lemma WindowNonEmpty(t: string, start: nat, size: int)
    requires IsNormal(t) && start < |t| && size >= 2
    ensures Window(t, start, size) != []
  {
    if !IsSpace(t[start]) {
      WindowNonEmptyAtStart(t, start, size);
    } else {
      assert start < |t| - 1;
      assert !DoubleSpaceAt(t, start);
      var seg := Slice(t, start, start + size);
      SliceNonNegative(t, start, start + size);
      assert seg[1] == t[start + 1];
      StripEmpty(seg);
    }
  }

  /**
   * Ten characters in windows of four with an overlap of one: the starts are
   * 0, 3, 6 and 9, so there are four chunks and the last is the single
   * character left over, although the window before it already covers it.
   */
  lemma SplitExampleTail(t: string)
    requires IsNormal(t) && |t| == 10
    ensures SplitPrepared(t, 4, 1).Success?
    ensures |SplitPrepared(t, 4, 1).value| == 4
    ensures SplitPrepared(t, 4, 1).value[3] == t[9..]
  {
    WindowsAllKept(t, 4, 3);
    TenInFours();
    LastWindow(t, 9, 4);
  }

  lemma TenInFours()
    ensures WindowCount(10, 3) == 4
  {
    assert WindowCount(1, 3) == 1 && WindowCount(4, 3) == 2 && WindowCount(7, 3) == 3;
  }

  /** A window that starts on a non-space and reaches past the end of normalised text is the rest of the text. */
  lemma LastWindow(t: string, start: nat, size: int)
    requires IsNormal(t) && start < |t| <= start + size && !IsSpace(t[start])
    ensures Window(t, start, size) == t[start..]
  {
    var rest := t[start..];
    assert Slice(t, start, start + size) == rest by {
      SliceNonNegative(t, start, start + size);
      assert t[start..|t|] == rest;
    }
    assert !IsSpace(rest[0]) && !IsSpace(rest[|rest| - 1]) by {
      assert rest[0] == t[start] && rest[|rest| - 1] == t[|t| - 1];
    }
    StripUnchanged(rest);
  }

  // ===========================================================================
  // build_chunks

  /**
   * One PDF file as the reader presents it: its file name and, for each page,
   * the extracted text (`None` when the page gives none).
   */
  datatype PdfFile = PdfFile(name: string, pages: seq<Option<seq<CodePoint>>>)

  /** One record of the chunk list; `page` and `chunkId` count from 1. */
  datatype ChunkRecord = ChunkRecord(sourceFile: string, page: int, chunkId: int, text: string)

  // ---------------------------------------------------------------------------
  // `sorted(...)` on the file paths: all paths share the directory, so they
  // are ordered by file name, code point by code point

  predicate NameLe(a: string, b: string) {
    !LexLess(b, a)
  }

  lemma NameLeTransitive(a: string, b: string, c: string)
    requires NameLe(a, b) && NameLe(b, c)
    ensures NameLe(a, c)
  {
    if LexLess(c, a) {
      LexLessTotal(a, b);
      if a != b {
        LexLessTransitive(c, a, b);
      }
      assert false;
    }
  }

  /** One name not after another is after it, or they are equal. */
  lemma NameLeFlip(a: string, b: string)
    ensures !NameLe(a, b) ==> NameLe(b, a)
  {
    if LexLess(b, a) && LexLess(a, b) {
      LexLessTransitive(a, b, a);
      LexLessIrreflexive(a);
      assert false;
    }
  }

  function InsertByName(f: PdfFile, s: seq<PdfFile>): (r: seq<PdfFile>)
    ensures multiset(r) == multiset(s) + multiset{f}
  {
    if s == [] || NameLe(f.name, s[0].name) then [f] + s
    else
      assert s == [s[0]] + s[1..];
      [s[0]] + InsertByName(f, s[1..])
  }

  /** `sorted(files)`, as an insertion sort by name. */
  function SortByName(fs: seq<PdfFile>): (r: seq<PdfFile>)
    ensures multiset(r) == multiset(fs)
  {
    if fs == [] then []
    else
      assert fs == [fs[0]] + fs[1..];
      InsertByName(fs[0], SortByName(fs[1..]))
  }

  predicate SortedByName(s: seq<PdfFile>) {
    forall i, j :: 0 <= i < j < |s| ==> NameLe(s[i].name, s[j].name)
  }

  predicate DistinctNames(s: seq<PdfFile>) {
    forall i, j :: 0 <= i < j < |s| ==> s[i].name != s[j].name
  }

  /** Names in strictly increasing order. */
  predicate StrictlySortedByName(s: seq<PdfFile>) {
    forall i, j :: 0 <= i < j < |s| ==> LexLess(s[i].name, s[j].name)
  }

  lemma {:induction false} InsertSorted(f: PdfFile, s: seq<PdfFile>)
    requires SortedByName(s)
    ensures SortedByName(InsertByName(f, s))
  {
    if s != [] {
      if NameLe(f.name, s[0].name) {
        forall j | 0 <= j < |s|
          ensures NameLe(f.name, s[j].name)
        {
          if j > 0 {
            NameLeTransitive(f.name, s[0].name, s[j].name);
          }
        }
      } else {
        NameLeFlip(f.name, s[0].name);
        InsertSorted(f, s[1..]);
        var rest := InsertByName(f, s[1..]);
        forall j | 0 <= j < |rest|
          ensures NameLe(s[0].name, rest[j].name)
        {
          assert rest[j] in multiset(s[1..]) + multiset{f};
        }
      }
    }
  }

  /** `sorted` returns the files in order of name. */
  lemma {:induction false} SortByNameSorted(fs: seq<PdfFile>)
    ensures SortedByName(SortByName(fs))
  {
    if fs != [] {
      SortByNameSorted(fs[1..]);
      InsertSorted(fs[0], SortByName(fs[1..]));
    }
  }

  lemma {:induction false} InsertDistinct(f: PdfFile, s: seq<PdfFile>)
    requires DistinctNames(s)
    requires forall k :: 0 <= k < |s| ==> s[k].name != f.name
    ensures DistinctNames(InsertByName(f, s))
  {
    if s != [] && !NameLe(f.name, s[0].name) {
      InsertDistinct(f, s[1..]);
      var rest := InsertByName(f, s[1..]);
      forall j | 0 <= j < |rest|
        ensures rest[j].name != s[0].name
      {
        assert rest[j] in multiset(s[1..]) + multiset{f};
      }
    }
  }

  lemma {:induction false} SortByNameDistinct(fs: seq<PdfFile>)
    requires DistinctNames(fs)
    ensures DistinctNames(SortByName(fs))
  {
    if fs != [] {
      SortByNameDistinct(fs[1..]);
      var rest := SortByName(fs[1..]);
      forall k | 0 <= k < |rest|
        ensures rest[k].name != fs[0].name
      {
        assert rest[k] in multiset(fs[1..]);
      }
      InsertDistinct(fs[0], rest);
    }
  }

  /** Files of a directory have distinct names, so `sorted` puts their names in strictly increasing order. */
  lemma SortByNameStrict(fs: seq<PdfFile>)
    requires DistinctNames(fs)
    ensures StrictlySortedByName(SortByName(fs))
  {
    var r := SortByName(fs);
    SortByNameSorted(fs);
    SortByNameDistinct(fs);
    forall i, j | 0 <= i < j < |r|
      ensures LexLess(r[i].name, r[j].name)
    {
      LexLessTotal(r[i].name, r[j].name);
    }
  }

  // ---------------------------------------------------------------------------
  // The records, page by page and file by file

  /** `page.extract_text() or ""`. */
  function PageText(p: Option<seq<CodePoint>>): seq<CodePoint> {
    if p.Some? then p.value else []
  }

  /** The records of page number `page`: its chunks, numbered from 1. */
  function PageRecords(name: string, page: int, parts: seq<string>): (r: seq<ChunkRecord>)
    ensures |r| == |parts|
  {
    seq(|parts|, i requires 0 <= i < |parts| => ChunkRecord(name, page, i + 1, parts[i]))
  }

  /** The records of the pages of one file, or the first error `split_text` raises on them. */
  function PagesRecords(name: string, pages: seq<Option<seq<CodePoint>>>, chunkSize: int, chunkOverlap: int)
    : Result<seq<ChunkRecord>>
    decreases |pages|
  {
    if pages == [] then Success([])
    else
      var before :- PagesRecords(name, pages[..|pages| - 1], chunkSize, chunkOverlap);
      var parts :- SplitTextSpec(PageText(pages[|pages| - 1]), chunkSize, chunkOverlap);
      Success(before + PageRecords(name, |pages|, parts))
  }

  /** The records of the files in the order given, or the first error. */
  function FilesRecords(files: seq<PdfFile>, chunkSize: int, chunkOverlap: int): Result<seq<ChunkRecord>>
    decreases |files|
  {
    if files == [] then Success([])
    else
      var last := files[|files| - 1];
      var before :- FilesRecords(files[..|files| - 1], chunkSize, chunkOverlap);
      var own :- PagesRecords(last.name, last.pages, chunkSize, chunkOverlap);
      Success(before + own)
  }

  /** `pdf_files[:max_papers]` when `max_papers` is truthy: `None` and `0` mean every file. */
  function SelectFiles(sorted: seq<PdfFile>, maxPapers: Option<int>): seq<PdfFile> {
    if maxPapers.Some? && maxPapers.value != 0 then Slice(sorted, 0, maxPapers.value) else sorted
  }

  /** build_chunks: the records of the selected files, taken in name order. */
  function BuildChunksSpec(files: seq<PdfFile>, chunkSize: int, chunkOverlap: int, maxPapers: Option<int>)
    : Result<seq<ChunkRecord>>
  {
    FilesRecords(SelectFiles(SortByName(files), maxPapers), chunkSize, chunkOverlap)
  }

  /** An error on a prefix of the pages is the error of the whole file. */
  lemma {:induction false} PagesFailureExtends(name: string, pages: seq<Option<seq<CodePoint>>>, k: nat,
                                               chunkSize: int, chunkOverlap: int)
    requires k <= |pages| && PagesRecords(name, pages[..k], chunkSize, chunkOverlap).Failure?
    ensures PagesRecords(name, pages, chunkSize, chunkOverlap) == PagesRecords(name, pages[..k], chunkSize, chunkOverlap)
    decreases |pages| - k
  {
    if k < |pages| {
      var longer := pages[..|pages| - 1];
      assert longer[..k] == pages[..k];
      PagesFailureExtends(name, longer, k, chunkSize, chunkOverlap);
    } else {
      assert pages[..k] == pages;
    }
  }

  /** An error on a prefix of the files is the error of the whole run. */
  lemma {:induction false} FilesFailureExtends(files: seq<PdfFile>, k: nat, chunkSize: int, chunkOverlap: int)
    requires k <= |files| && FilesRecords(files[..k], chunkSize, chunkOverlap).Failure?
    ensures FilesRecords(files, chunkSize, chunkOverlap) == FilesRecords(files[..k], chunkSize, chunkOverlap)
    decreases |files| - k
  {
    if k < |files| {
      var shorter := files[..|files| - 1];
      assert shorter[..k] == files[..k];
      FilesFailureExtends(shorter, k, chunkSize, chunkOverlap);
    } else {
      assert files[..k] == files;
    }
  }

  method BuildChunks(files: seq<PdfFile>, chunkSize: int, chunkOverlap: int, maxPapers: Option<int>)
    returns (r: Result<seq<ChunkRecord>>)
    ensures r == BuildChunksSpec(files, chunkSize, chunkOverlap, maxPapers)
  {
    var pdfFiles := SortByName(files);
    if maxPapers.Some? && maxPapers.value != 0 {
      pdfFiles := Slice(pdfFiles, 0, maxPapers.value);
    }
    assert pdfFiles == SelectFiles(SortByName(files), maxPapers);
    var chunks: seq<ChunkRecord> := [];
    for f := 0 to |pdfFiles|
      invariant FilesRecords(pdfFiles[..f], chunkSize, chunkOverlap) == Success(chunks)
    {
      var own := FileChunks(pdfFiles[f], chunkSize, chunkOverlap);
      if own.Failure? {
        FileFails(pdfFiles, f, chunkSize, chunkOverlap);
        FilesFailureExtends(pdfFiles, f + 1, chunkSize, chunkOverlap);
        return Failure(own.error);
      }
      FileDone(pdfFiles, f, chunkSize, chunkOverlap);
      chunks := chunks + own.value;
    }
    assert pdfFiles[..|pdfFiles|] == pdfFiles;
    return Success(chunks);
  }

  /** The loop of build_chunks over the pages of one file and the chunks of each page. */
  method FileChunks(file: PdfFile, chunkSize: int, chunkOverlap: int) returns (r: Result<seq<ChunkRecord>>)
    ensures r == PagesRecords(file.name, file.pages, chunkSize, chunkOverlap)
  {
    var chunks: seq<ChunkRecord> := [];
    for p := 0 to |file.pages|
      invariant PagesRecords(file.name, file.pages[..p], chunkSize, chunkOverlap) == Success(chunks)
    {
      var parts := SplitText(PageText(file.pages[p]), chunkSize, chunkOverlap);
      PageStep(file.name, file.pages, p, chunkSize, chunkOverlap);
      if parts.Failure? {
        PagesFailureExtends(file.name, file.pages, p + 1, chunkSize, chunkOverlap);
        return Failure(parts.error);
      }
      chunks := AppendPage(chunks, file.name, p + 1, parts.value);
    }
    assert file.pages[..|file.pages|] == file.pages;
    return Success(chunks);
  }

  /** The innermost loop of build_chunks: the chunks of one page appended as records numbered from 1. */
  method AppendPage(chunks: seq<ChunkRecord>, name: string, page: int, parts: seq<string>)
    returns (r: seq<ChunkRecord>)
    ensures r == chunks + PageRecords(name, page, parts)
  {
    r := chunks;
    ghost var records := PageRecords(name, page, parts);
    for c := 0 to |parts|
      invariant r == chunks + records[..c]
    {
      assert records[..c + 1] == records[..c] + [ChunkRecord(name, page, c + 1, parts[c])];
      r := r + [ChunkRecord(name, page, c + 1, parts[c])];
    }
    assert records[..|parts|] == records;
  }

  /** When the pages of file `f` fail, the first `f + 1` files fail the same way. */
  lemma FileFails(files: seq<PdfFile>, f: nat, chunkSize: int, chunkOverlap: int)
    requires f < |files| && FilesRecords(files[..f], chunkSize, chunkOverlap).Success?
    requires PagesRecords(files[f].name, files[f].pages, chunkSize, chunkOverlap).Failure?
    ensures FilesRecords(files[..f + 1], chunkSize, chunkOverlap)
         == PagesRecords(files[f].name, files[f].pages, chunkSize, chunkOverlap)
  {
    assert files[..f + 1][..f] == files[..f];
  }

  /** When the pages of file `f` succeed, the first `f + 1` files add their records. */
  lemma FileDone(files: seq<PdfFile>, f: nat, chunkSize: int, chunkOverlap: int)
    requires f < |files| && FilesRecords(files[..f], chunkSize, chunkOverlap).Success?
    requires PagesRecords(files[f].name, files[f].pages, chunkSize, chunkOverlap).Success?
    ensures FilesRecords(files[..f + 1], chunkSize, chunkOverlap)
         == Success(FilesRecords(files[..f], chunkSize, chunkOverlap).value
                    + PagesRecords(files[f].name, files[f].pages, chunkSize, chunkOverlap).value)
  {
    assert files[..f + 1][..f] == files[..f];
  }

  /** Page `p` of a file: its error ends the file, or its records follow those of the pages before it. */
  lemma PageStep(name: string, pages: seq<Option<seq<CodePoint>>>, p: nat, chunkSize: int, chunkOverlap: int)
    requires p < |pages| && PagesRecords(name, pages[..p], chunkSize, chunkOverlap).Success?
    ensures SplitTextSpec(PageText(pages[p]), chunkSize, chunkOverlap).Failure? ==>
      PagesRecords(name, pages[..p + 1], chunkSize, chunkOverlap)
        == Failure(SplitTextSpec(PageText(pages[p]), chunkSize, chunkOverlap).error)
    ensures SplitTextSpec(PageText(pages[p]), chunkSize, chunkOverlap).Success? ==>
      PagesRecords(name, pages[..p + 1], chunkSize, chunkOverlap)
        == Success(PagesRecords(name, pages[..p], chunkSize, chunkOverlap).value
                   + PageRecords(name, p + 1, SplitTextSpec(PageText(pages[p]), chunkSize, chunkOverlap).value))
  {
    assert pages[..p + 1][..p] == pages[..p];
  }

  // ---------------------------------------------------------------------------
  // What build_chunks promises about its records

  predicate SamePage(a: ChunkRecord, b: ChunkRecord) {
    a.sourceFile == b.sourceFile && a.page == b.page
  }

  /**
   * Chunk numbers start at 1 and a number above 1 continues the record just
   * before it: same file, same page, the number before.
   */
  predicate Numbered(recs: seq<ChunkRecord>) {
    forall i {:trigger recs[i]} :: 0 <= i < |recs| ==>
      && recs[i].chunkId >= 1
      && (recs[i].chunkId > 1 ==> i > 0 && SamePage(recs[i - 1], recs[i]) && recs[i - 1].chunkId == recs[i].chunkId - 1)
  }

  /** Ordering of records by file name, then page, then chunk number. */
  predicate KeyLess(a: ChunkRecord, b: ChunkRecord) {
    || LexLess(a.sourceFile, b.sourceFile)
    || (a.sourceFile == b.sourceFile && (a.page < b.page || (a.page == b.page && a.chunkId < b.chunkId)))
  }

  predicate InKeyOrder(recs: seq<ChunkRecord>) {
    forall i, j :: 0 <= i < j < |recs| ==> KeyLess(recs[i], recs[j])
  }

  lemma NumberedConcat(a: seq<ChunkRecord>, b: seq<ChunkRecord>)
    requires Numbered(a) && Numbered(b)
    ensures Numbered(a + b)
  {
    var ab := a + b;
    forall i | |a| <= i < |ab| && ab[i].chunkId > 1
      ensures i - 1 >= |a| && ab[i - 1] == b[i - 1 - |a|]
    {
      var k := i - |a|;
      assert ab[i] == b[k];
      assert b[k].chunkId > 1 ==> k > 0;
    }
  }

  lemma KeyOrderConcat(a: seq<ChunkRecord>, b: seq<ChunkRecord>)
    requires InKeyOrder(a) && InKeyOrder(b)
    requires forall i, j :: 0 <= i < |a| && 0 <= j < |b| ==> KeyLess(a[i], b[j])
    ensures InKeyOrder(a + b)
  {
    var ab := a + b;
    forall i, j | 0 <= i < j < |ab|
      ensures KeyLess(ab[i], ab[j])
    {
      if j < |a| {
        assert ab[i] == a[i] && ab[j] == a[j];
      } else if i < |a| {
        assert ab[i] == a[i] && ab[j] == b[j - |a|];
      } else {
        assert ab[i] == b[i - |a|] && ab[j] == b[j - |a|];
      }
    }
  }

  lemma PageRecordsFacts(name: string, page: int, parts: seq<string>)
    ensures Numbered(PageRecords(name, page, parts))
    ensures InKeyOrder(PageRecords(name, page, parts))
    ensures forall i :: 0 <= i < |parts| ==> PageRecords(name, page, parts)[i] == ChunkRecord(name, page, i + 1, parts[i])
  {
  }

  /** The records of a file's pages: its name, a page number from 1 to the page count, and a chunk in the split's shape. */
  lemma {:induction false} PagesFields(name: string, pages: seq<Option<seq<CodePoint>>>, chunkSize: int, chunkOverlap: int)
    requires chunkSize >= 1
    requires PagesRecords(name, pages, chunkSize, chunkOverlap).Success?
    ensures forall rec :: rec in PagesRecords(name, pages, chunkSize, chunkOverlap).value ==>
      rec.sourceFile == name && 1 <= rec.page <= |pages| && rec.text != [] && |rec.text| <= chunkSize
    decreases |pages|
  {
    if pages != [] {
      var n := |pages|;
      PagesFields(name, pages[..n - 1], chunkSize, chunkOverlap);
      var split := SplitTextSpec(PageText(pages[n - 1]), chunkSize, chunkOverlap);
      SplitChunkShape(PageText(pages[n - 1]), chunkSize, chunkOverlap);
      var before := PagesRecords(name, pages[..n - 1], chunkSize, chunkOverlap).value;
      var own := PageRecords(name, n, split.value);
      assert PagesRecords(name, pages, chunkSize, chunkOverlap).value == before + own;
      forall rec | rec in own
        ensures rec.sourceFile == name && rec.page == n && rec.text in split.value
      {
      }
    }
  }

  /** The records of page `n` follow those of the pages before it. */
  lemma PagesLast(name: string, pages: seq<Option<seq<CodePoint>>>, chunkSize: int, chunkOverlap: int)
    requires pages != [] && PagesRecords(name, pages, chunkSize, chunkOverlap).Success?
    ensures PagesRecords(name, pages[..|pages| - 1], chunkSize, chunkOverlap).Success?
    ensures SplitTextSpec(PageText(pages[|pages| - 1]), chunkSize, chunkOverlap).Success?
    ensures PagesRecords(name, pages, chunkSize, chunkOverlap).value
         == PagesRecords(name, pages[..|pages| - 1], chunkSize, chunkOverlap).value
            + PageRecords(name, |pages|, SplitTextSpec(PageText(pages[|pages| - 1]), chunkSize, chunkOverlap).value)
  {
  }

  lemma {:induction false} PagesNumbered(name: string, pages: seq<Option<seq<CodePoint>>>, chunkSize: int, chunkOverlap: int)
    requires PagesRecords(name, pages, chunkSize, chunkOverlap).Success?
    ensures Numbered(PagesRecords(name, pages, chunkSize, chunkOverlap).value)
    decreases |pages|
  {
    if pages != [] {
      PagesLast(name, pages, chunkSize, chunkOverlap);
      PagesNumbered(name, pages[..|pages| - 1], chunkSize, chunkOverlap);
      var parts := SplitTextSpec(PageText(pages[|pages| - 1]), chunkSize, chunkOverlap).value;
      PageRecordsFacts(name, |pages|, parts);
      NumberedConcat(PagesRecords(name, pages[..|pages| - 1], chunkSize, chunkOverlap).value,
                     PageRecords(name, |pages|, parts));
    }
  }

  /** Within a file, records come by page and then by chunk number. */
  lemma {:induction false} PagesOrdered(name: string, pages: seq<Option<seq<CodePoint>>>, chunkSize: int, chunkOverlap: int)
    requires PagesRecords(name, pages, chunkSize, chunkOverlap).Success?
    ensures InKeyOrder(PagesRecords(name, pages, chunkSize, chunkOverlap).value)
    ensures forall rec :: rec in PagesRecords(name, pages, chunkSize, chunkOverlap).value ==>
      rec.sourceFile == name && 1 <= rec.page <= |pages|
    decreases |pages|
  {
    if pages != [] {
      var n := |pages|;
      PagesLast(name, pages, chunkSize, chunkOverlap);
      PagesOrdered(name, pages[..n - 1], chunkSize, chunkOverlap);
      var parts := SplitTextSpec(PageText(pages[n - 1]), chunkSize, chunkOverlap).value;
      var before := PagesRecords(name, pages[..n - 1], chunkSize, chunkOverlap).value;
      var own := PageRecords(name, n, parts);
      PageRecordsFacts(name, n, parts);
      forall i, j | 0 <= i < |before| && 0 <= j < |own|
        ensures KeyLess(before[i], own[j])
      {
        assert before[i] in before;
      }
      KeyOrderConcat(before, own);
    }
  }

  /** The records of `n` files follow those of the first `n - 1`. */
  lemma FilesLast(files: seq<PdfFile>, chunkSize: int, chunkOverlap: int)
    requires files != [] && FilesRecords(files, chunkSize, chunkOverlap).Success?
    ensures FilesRecords(files[..|files| - 1], chunkSize, chunkOverlap).Success?
    ensures PagesRecords(files[|files| - 1].name, files[|files| - 1].pages, chunkSize, chunkOverlap).Success?
    ensures FilesRecords(files, chunkSize, chunkOverlap).value
         == FilesRecords(files[..|files| - 1], chunkSize, chunkOverlap).value
            + PagesRecords(files[|files| - 1].name, files[|files| - 1].pages, chunkSize, chunkOverlap).value
  {
  }

  lemma {:induction false} FilesNumbered(files: seq<PdfFile>, chunkSize: int, chunkOverlap: int)
    requires FilesRecords(files, chunkSize, chunkOverlap).Success?
    ensures Numbered(FilesRecords(files, chunkSize, chunkOverlap).value)
    decreases |files|
  {
    if files != [] {
      var last := files[|files| - 1];
      FilesLast(files, chunkSize, chunkOverlap);
      FilesNumbered(files[..|files| - 1], chunkSize, chunkOverlap);
      PagesNumbered(last.name, last.pages, chunkSize, chunkOverlap);
      NumberedConcat(FilesRecords(files[..|files| - 1], chunkSize, chunkOverlap).value,
                     PagesRecords(last.name, last.pages, chunkSize, chunkOverlap).value);
    }
  }

  /** Every record names one of the files, a page from 1, and holds a chunk in the split's shape. */
  lemma {:induction false} FilesFields(files: seq<PdfFile>, chunkSize: int, chunkOverlap: int)
    requires chunkSize >= 1
    requires FilesRecords(files, chunkSize, chunkOverlap).Success?
    ensures forall rec :: rec in FilesRecords(files, chunkSize, chunkOverlap).value ==>
      (exists k :: 0 <= k < |files| && files[k].name == rec.sourceFile && rec.page <= |files[k].pages|)
      && rec.page >= 1 && rec.text != [] && |rec.text| <= chunkSize
    decreases |files|
  {
    if files != [] {
      var n := |files|;
      var last := files[n - 1];
      FilesLast(files, chunkSize, chunkOverlap);
      FilesFields(files[..n - 1], chunkSize, chunkOverlap);
      PagesFields(last.name, last.pages, chunkSize, chunkOverlap);
      var before := FilesRecords(files[..n - 1], chunkSize, chunkOverlap).value;
      forall rec | rec in before
        ensures exists k :: 0 <= k < n && files[k].name == rec.sourceFile && rec.page <= |files[k].pages|
      {
        var k :| 0 <= k < n - 1 && files[..n - 1][k].name == rec.sourceFile && rec.page <= |files[..n - 1][k].pages|;
        assert files[k] == files[..n - 1][k];
      }
    }
  }

  /** When every file name is below `bound`, so is every record's file name. */
  lemma {:induction false} FilesNamesBelow(files: seq<PdfFile>, chunkSize: int, chunkOverlap: int, bound: string)
    requires FilesRecords(files, chunkSize, chunkOverlap).Success?
    requires forall k :: 0 <= k < |files| ==> LexLess(files[k].name, bound)
    ensures forall rec :: rec in FilesRecords(files, chunkSize, chunkOverlap).value ==> LexLess(rec.sourceFile, bound)
    decreases |files|
  {
    if files != [] {
      var last := files[|files| - 1];
      FilesLast(files, chunkSize, chunkOverlap);
      FilesNamesBelow(files[..|files| - 1], chunkSize, chunkOverlap, bound);
      PagesOrdered(last.name, last.pages, chunkSize, chunkOverlap);
    }
  }

  /** Files taken in strictly increasing name order give records in key order. */
  lemma {:induction false} FilesOrdered(files: seq<PdfFile>, chunkSize: int, chunkOverlap: int)
    requires StrictlySortedByName(files)
    requires FilesRecords(files, chunkSize, chunkOverlap).Success?
    ensures InKeyOrder(FilesRecords(files, chunkSize, chunkOverlap).value)
    decreases |files|
  {
    if files != [] {
      var n := |files|;
      var last := files[n - 1];
      var shorter := files[..n - 1];
      FilesLast(files, chunkSize, chunkOverlap);
      assert StrictlySortedByName(shorter);
      FilesOrdered(shorter, chunkSize, chunkOverlap);
      FilesNamesBelow(shorter, chunkSize, chunkOverlap, last.name);
      PagesOrdered(last.name, last.pages, chunkSize, chunkOverlap);
      var before := FilesRecords(shorter, chunkSize, chunkOverlap).value;
      var own := PagesRecords(last.name, last.pages, chunkSize, chunkOverlap).value;
      forall i, j | 0 <= i < |before| && 0 <= j < |own|
        ensures KeyLess(before[i], own[j])
      {
        assert before[i] in before && own[j] in own;
      }
      KeyOrderConcat(before, own);
    }
  }

  /** No two records share file name, page and chunk number. */
  predicate UniqueKeys(recs: seq<ChunkRecord>) {
    forall i, j :: 0 <= i < j < |recs| ==>
      (recs[i].sourceFile, recs[i].page, recs[i].chunkId) != (recs[j].sourceFile, recs[j].page, recs[j].chunkId)
  }

  lemma KeyOrderUnique(recs: seq<ChunkRecord>)
    requires InKeyOrder(recs)
    ensures UniqueKeys(recs)
  {
    forall i, j | 0 <= i < j < |recs|
      ensures recs[i].sourceFile != recs[j].sourceFile || recs[i].page != recs[j].page || recs[i].chunkId != recs[j].chunkId
    {
      LexLessIrreflexive(recs[i].sourceFile);
    }
  }

  /**
   * `max_papers` keeps the first files of the sorted list: `None` and `0`
   * keep all, a positive count keeps that many, and a negative one drops that
   * many from the end, as a Python slice does.
   */
  lemma SelectFilesPrefix(sorted: seq<PdfFile>, maxPapers: Option<int>) returns (m: nat)
    ensures m <= |sorted| && SelectFiles(sorted, maxPapers) == sorted[..m]
    ensures maxPapers == None || maxPapers == Some(0) ==> m == |sorted|
    ensures maxPapers.Some? && maxPapers.value > 0 ==> m == Min(maxPapers.value, |sorted|)
    ensures maxPapers.Some? && maxPapers.value < 0 ==> m == Max(|sorted| + maxPapers.value, 0)
  {
    if maxPapers.Some? && maxPapers.value != 0 {
      m := SliceBound(maxPapers.value, |sorted|);
    } else {
      m := |sorted|;
    }
  }

  /** The records of build_chunks are numbered per page from 1. */
  lemma BuildChunksNumbered(files: seq<PdfFile>, chunkSize: int, chunkOverlap: int, maxPapers: Option<int>)
    requires BuildChunksSpec(files, chunkSize, chunkOverlap, maxPapers).Success?
    ensures Numbered(BuildChunksSpec(files, chunkSize, chunkOverlap, maxPapers).value)
  {
    FilesNumbered(SelectFiles(SortByName(files), maxPapers), chunkSize, chunkOverlap);
  }

  /**
   * For the files of one directory, whose names are distinct, the records
   * come by file name, then page, then chunk number, and no two share all three.
   */
  lemma BuildChunksOrdered(files: seq<PdfFile>, chunkSize: int, chunkOverlap: int, maxPapers: Option<int>)
    requires DistinctNames(files)
    requires BuildChunksSpec(files, chunkSize, chunkOverlap, maxPapers).Success?
    ensures InKeyOrder(BuildChunksSpec(files, chunkSize, chunkOverlap, maxPapers).value)
    ensures UniqueKeys(BuildChunksSpec(files, chunkSize, chunkOverlap, maxPapers).value)
  {
    var sorted := SortByName(files);
    SortByNameStrict(files);
    var m := SelectFilesPrefix(sorted, maxPapers);
    assert StrictlySortedByName(sorted[..m]);
    FilesOrdered(sorted[..m], chunkSize, chunkOverlap);
    KeyOrderUnique(BuildChunksSpec(files, chunkSize, chunkOverlap, maxPapers).value);
  }

  /**
   * Every record names one of the given files and one of its pages, counted
   * from 1, and holds a non-empty chunk of at most chunk_size characters.
   */
  lemma BuildChunksFields(files: seq<PdfFile>, chunkSize: int, chunkOverlap: int, maxPapers: Option<int>)
    requires chunkSize >= 1
    requires BuildChunksSpec(files, chunkSize, chunkOverlap, maxPapers).Success?
    ensures forall rec :: rec in BuildChunksSpec(files, chunkSize, chunkOverlap, maxPapers).value ==>
      (exists f :: f in files && f.name == rec.sourceFile && rec.page <= |f.pages|)
      && rec.page >= 1 && rec.text != [] && |rec.text| <= chunkSize
  {
    var sorted := SortByName(files);
    var m := SelectFilesPrefix(sorted, maxPapers);
    FilesFields(sorted[..m], chunkSize, chunkOverlap);
    forall rec | rec in FilesRecords(sorted[..m], chunkSize, chunkOverlap).value
      ensures exists f :: f in files && f.name == rec.sourceFile && rec.page <= |f.pages|
    {
      var k :| 0 <= k < m && sorted[..m][k].name == rec.sourceFile && rec.page <= |sorted[..m][k].pages|;
      assert sorted[k] in multiset(files);
    }
  }

  // ===========================================================================
  // embed_texts

  /** One embedding as the service returns it. */
  type Vector = seq<real>

  /**
   * The embedding service for one request: the vectors of `response.data`,
   * in order, or the error the client raises.
   */
  type EmbedService = seq<string> -> Result<seq<Vector>>

  const ZeroStepMessage := "range() arg 3 must not be zero"

  function Flatten<T>(ss: seq<seq<T>>): seq<T>
    decreases |ss|
  {
    if ss == [] then [] else Flatten(ss[..|ss| - 1]) + ss[|ss| - 1]
  }

  /** `texts[i : i + batch_size]` for `i` in `range(0, len(texts), batch_size)`. */
  function Batches(texts: seq<string>, batchSize: int): seq<seq<string>>
    requires batchSize >= 1
  {
    seq(WindowCount(|texts|, batchSize), i => Slice(texts, i * batchSize, i * batchSize + batchSize))
  }

  /** The vectors of the batches sent in order, or the first error. */
  function EmbedRun(embed: EmbedService, batches: seq<seq<string>>): Result<seq<Vector>>
    decreases |batches|
  {
    if batches == [] then Success([])
    else
      var before :- EmbedRun(embed, batches[..|batches| - 1]);
      var got :- embed(batches[|batches| - 1]);
      Success(before + got)
  }

  /** The requests made: every batch up to and including the first that fails. */
  function EmbedRequests(embed: EmbedService, batches: seq<seq<string>>): seq<seq<string>>
    decreases |batches|
  {
    if batches == [] then []
    else
      var before := batches[..|batches| - 1];
      if EmbedRun(embed, before).Failure? then EmbedRequests(embed, before)
      else EmbedRequests(embed, before) + [batches[|batches| - 1]]
  }

  /** All rows have the same width. */
  predicate SameWidth(rows: seq<Vector>, width: nat) {
    forall i :: 0 <= i < |rows| ==> |rows[i]| == width
  }

  /**
   * A numpy array of embeddings as far as its shape goes: one-dimensional
   * (an empty list becomes the array of shape `(0,)`), or a matrix whose rows
   * all have `width` entries.
   */
  datatype NdArray = Flat(values: seq<real>) | Grid(width: nat, rows: seq<Vector>)

  /** numpy arrays are rectangular. */
  type Matrix = a: NdArray | a.Grid? ==> SameWidth(a.rows, a.width) witness Flat([])

  /** `len(a)`: the length of the first dimension. */
  function ArrayLen(a: Matrix): nat {
    if a.Flat? then |a.values| else |a.rows|
  }

  /** numpy's error for vectors of different lengths (its exact text is not modelled). */
  const RaggedMessage := "setting an array element with a sequence. The requested array has an inhomogeneous shape after 1 dimensions."

  /**
   * `np.asarray(vectors, dtype=np.float32)`: no vectors give the flat `(0,)`
   * array, vectors of one width the matrix of them, and vectors of two
   * widths the ValueError.
   */
  function AsArray(vectors: seq<Vector>): (r: Result<Matrix>)
    ensures r.Success? ==> ArrayLen(r.value) == |vectors|
  {
    if vectors == [] then Success(Flat([]))
    else if SameWidth(vectors, |vectors[0]|) then Success(Grid(|vectors[0]|, vectors))
    else Failure(ValueError(RaggedMessage))
  }

  /** The shape np.asarray gives: which lists become a matrix, and of what width. */
  lemma AsArrayShape(vectors: seq<Vector>, width: nat)
    ensures vectors == [] ==> AsArray(vectors) == Success(Flat([]))
    ensures vectors != [] && SameWidth(vectors, width) ==> AsArray(vectors) == Success(Grid(width, vectors))
    ensures AsArray(vectors).Success? && vectors != [] ==>
      AsArray(vectors).value.Grid? && AsArray(vectors).value.rows == vectors
    ensures 0 < |vectors| && |vectors[0]| == width && !SameWidth(vectors, width) ==>
      AsArray(vectors) == Failure(ValueError(RaggedMessage))
  {
  }

  /** The vectors embed_texts collects before they become an array. */
  function EmbedVectors(embed: EmbedService, texts: seq<string>, batchSize: int): Result<seq<Vector>> {
    if batchSize == 0 then Failure(ValueError(ZeroStepMessage))
    else if batchSize < 0 then Success([])
    else EmbedRun(embed, Batches(texts, batchSize))
  }

  /**
   * embed_texts: a zero batch size is the error `range` raises, a negative
   * one gives an empty range and so no vectors; the vectors collected become
   * one array.
   */
  function EmbedTextsSpec(embed: EmbedService, texts: seq<string>, batchSize: int): Result<Matrix> {
    var vectors :- EmbedVectors(embed, texts, batchSize);
    AsArray(vectors)
  }

  function EmbedTextsRequests(embed: EmbedService, texts: seq<string>, batchSize: int): seq<seq<string>> {
    if batchSize <= 0 then [] else EmbedRequests(embed, Batches(texts, batchSize))
  }

  /** A batch's step on the run: its error ends the run, or its vectors follow. */
  lemma EmbedStep(embed: EmbedService, batches: seq<seq<string>>, j: nat)
    requires j < |batches| && EmbedRun(embed, batches[..j]).Success?
    ensures EmbedRun(embed, batches[..j + 1])
         == if embed(batches[j]).Failure? then Failure(embed(batches[j]).error)
            else Success(EmbedRun(embed, batches[..j]).value + embed(batches[j]).value)
    ensures EmbedRequests(embed, batches[..j + 1]) == EmbedRequests(embed, batches[..j]) + [batches[j]]
  {
    assert batches[..j + 1][..j] == batches[..j];
  }

  /** After a failure the run keeps its error and makes no further request. */
  lemma {:induction false} EmbedFailureExtends(embed: EmbedService, batches: seq<seq<string>>, k: nat)
    requires k <= |batches| && EmbedRun(embed, batches[..k]).Failure?
    ensures EmbedRun(embed, batches) == EmbedRun(embed, batches[..k])
    ensures EmbedRequests(embed, batches) == EmbedRequests(embed, batches[..k])
    decreases |batches| - k
  {
    if k < |batches| {
      var shorter := batches[..|batches| - 1];
      assert shorter[..k] == batches[..k];
      EmbedFailureExtends(embed, shorter, k);
    } else {
      assert batches[..k] == batches;
    }
  }

  method EmbedTexts(embed: EmbedService, texts: seq<string>, batchSize: int)
    returns (r: Result<Matrix>, requests: seq<seq<string>>)
    ensures r == EmbedTextsSpec(embed, texts, batchSize)
    ensures requests == EmbedTextsRequests(embed, texts, batchSize)
  {
    if batchSize == 0 {
      return Failure(ValueError(ZeroStepMessage)), [];
    }
    var vectors: seq<Vector> := [];
    requests := [];
    if batchSize < 0 {
      return AsArray(vectors), requests;
    }
    ghost var batches := Batches(texts, batchSize);
    ghost var j := 0;
    var i := 0;
    while i < |texts|
      invariant 0 <= j <= |batches| && i == j * batchSize
      invariant EmbedRun(embed, batches[..j]) == Success(vectors)
      invariant EmbedRequests(embed, batches[..j]) == requests
      decreases |texts| - i
    {
      WindowStarts(|texts|, batchSize, j);
      var batch := Slice(texts, i, i + batchSize);
      assert batch == batches[j];
      var response := embed(batch);
      EmbedStep(embed, batches, j);
      requests := requests + [batch];
      if response.Failure? {
        EmbedFailureExtends(embed, batches, j + 1);
        return Failure(response.error), requests;
      }
      vectors := vectors + response.value;
      assert (j + 1) * batchSize == i + batchSize;
      i := i + batchSize;
      j := j + 1;
    }
    WindowStarts(|texts|, batchSize, j);
    assert batches[..j] == batches;
    return AsArray(vectors), requests;
  }

  // ---------------------------------------------------------------------------
  // What embed_texts promises

  /** Batch `k` is `texts[k*b .. k*b + b]` cut at the end: non-empty and at most `b` long. */
  lemma BatchAt(texts: seq<string>, batchSize: int, k: nat)
    requires batchSize >= 1 && k < |Batches(texts, batchSize)|
    ensures 0 <= k * batchSize < |texts|
    ensures Batches(texts, batchSize)[k] == texts[k * batchSize..Min(k * batchSize + batchSize, |texts|)]
    ensures 1 <= |Batches(texts, batchSize)[k]| <= batchSize
  {
    WindowStarts(|texts|, batchSize, k);
    SliceNonNegative(texts, k * batchSize, k * batchSize + batchSize);
  }

  lemma {:induction false} BatchesPrefix(texts: seq<string>, batchSize: int, j: nat)
    requires batchSize >= 1 && j <= |Batches(texts, batchSize)|
    ensures Flatten(Batches(texts, batchSize)[..j]) == texts[..Min(j * batchSize, |texts|)]
  {
    var bs := Batches(texts, batchSize);
    if j > 0 {
      var lo := (j - 1) * batchSize;
      BatchesPrefix(texts, batchSize, j - 1);
      BatchAt(texts, batchSize, j - 1);
      var hi := Min(lo + batchSize, |texts|);
      assert Flatten(bs[..j]) == Flatten(bs[..j - 1]) + bs[j - 1] by {
        assert bs[..j][..j - 1] == bs[..j - 1];
      }
      PrefixJoin(texts, lo, hi);
      assert j * batchSize == lo + batchSize;
    }
  }

  lemma PrefixJoin<T>(s: seq<T>, lo: nat, hi: nat)
    requires lo <= hi <= |s|
    ensures s[..lo] + s[lo..hi] == s[..hi]
  {
  }

  /** The batches, put back together, are the texts. */
  lemma BatchesFlatten(texts: seq<string>, batchSize: int)
    requires batchSize >= 1
    ensures Flatten(Batches(texts, batchSize)) == texts
  {
    var bs := Batches(texts, batchSize);
    BatchesPrefix(texts, batchSize, |bs|);
    WindowStarts(|texts|, batchSize, |bs|);
    assert bs[..|bs|] == bs;
  }

  /** When every request succeeds, every batch is sent and the vectors come in batch order. */
  lemma {:induction false} EmbedAllSucceed(embed: EmbedService, batches: seq<seq<string>>)
    requires forall k :: 0 <= k < |batches| ==> embed(batches[k]).Success?
    ensures EmbedRun(embed, batches) == Success(Flatten(seq(|batches|, k requires 0 <= k < |batches| => embed(batches[k]).value)))
    ensures EmbedRequests(embed, batches) == batches
    decreases |batches|
  {
    if batches != [] {
      var n := |batches|;
      var shorter := batches[..n - 1];
      EmbedAllSucceed(embed, shorter);
      var got := seq(n, k requires 0 <= k < n => embed(batches[k]).value);
      assert got[..n - 1] == seq(n - 1, k requires 0 <= k < n - 1 => embed(shorter[k]).value);
    }
  }

  /** When the service answers each batch with one vector per text, the run has one vector per text sent. */
  lemma {:induction false} EmbedRunLength(embed: EmbedService, batches: seq<seq<string>>)
    requires EmbedRun(embed, batches).Success?
    requires forall k :: 0 <= k < |batches| && embed(batches[k]).Success? ==> |embed(batches[k]).value| == |batches[k]|
    ensures |EmbedRun(embed, batches).value| == |Flatten(batches)|
    decreases |batches|
  {
    if batches != [] {
      var shorter := batches[..|batches| - 1];
      assert forall k :: 0 <= k < |shorter| ==> shorter[k] == batches[k];
      EmbedRunLength(embed, shorter);
    }
  }

  lemma {:induction false} FlattenEach(f: string -> Vector, batches: seq<seq<string>>)
    ensures Flatten(seq(|batches|, k requires 0 <= k < |batches| => Map(f, batches[k])))
         == Map(f, Flatten(batches))
    decreases |batches|
  {
    if batches != [] {
      var n := |batches|;
      var shorter := batches[..n - 1];
      FlattenEach(f, shorter);
      var per := seq(n, k requires 0 <= k < n => Map(f, batches[k]));
      assert per[..n - 1] == seq(n - 1, k requires 0 <= k < n - 1 => Map(f, shorter[k]));
      assert Map(f, Flatten(shorter) + batches[n - 1])
          == Map(f, Flatten(shorter)) + Map(f, batches[n - 1]);
    }
  }

  /**
   * A service that answers each request with one vector per text gives one
   * vector per text, in the order of the texts, after one request per batch.
   */
  lemma EmbedPerText(embed: EmbedService, f: string -> Vector, texts: seq<string>, batchSize: int)
    requires batchSize >= 1
    requires forall batch :: batch in Batches(texts, batchSize) ==> embed(batch) == Success(Map(f, batch))
    ensures EmbedVectors(embed, texts, batchSize) == Success(Map(f, texts))
    ensures EmbedTextsSpec(embed, texts, batchSize) == AsArray(Map(f, texts))
    ensures EmbedTextsRequests(embed, texts, batchSize) == Batches(texts, batchSize)
  {
    var bs := Batches(texts, batchSize);
    assert forall k :: 0 <= k < |bs| ==> embed(bs[k]) == Success(Map(f, bs[k]));
    EmbedAllSucceed(embed, bs);
    assert seq(|bs|, k requires 0 <= k < |bs| => embed(bs[k]).value)
        == seq(|bs|, k requires 0 <= k < |bs| => Map(f, bs[k]));
    FlattenEach(f, bs);
    BatchesFlatten(texts, batchSize);
  }

  /**
   * A service whose vectors all have `width` entries gives a matrix of that
   * width with one row per text, in text order; no texts give the flat
   * `(0,)` array.
   */
  lemma EmbedFixedWidth(embed: EmbedService, f: string -> Vector, texts: seq<string>, batchSize: int, width: nat)
    requires batchSize >= 1
    requires forall batch :: batch in Batches(texts, batchSize) ==> embed(batch) == Success(Map(f, batch))
    requires forall t :: t in texts ==> |f(t)| == width
    ensures texts == [] ==> EmbedTextsSpec(embed, texts, batchSize) == Success(Flat([]))
    ensures texts != [] ==> EmbedTextsSpec(embed, texts, batchSize) == Success(Grid(width, Map(f, texts)))
  {
    EmbedPerText(embed, f, texts, batchSize);
    AsArrayShape(Map(f, texts), width);
  }

  // ===========================================================================
  // build_index

  /** What build_index does to the file system and the embedding service, in order. */
  datatype Effect =
    | RemoveIndexDir
    | MakeIndexDir
    | EmbeddingRequest(batch: seq<string>)
    | WriteChunksFile(content: string)
    | SaveEmbeddings(array: Matrix)

  /** The inputs build_index finds in its environment. */
  datatype BuildEnv = BuildEnv(
    settings: Settings,
    layout: Layout,
    papersDirExists: bool,
    indexDirExists: bool,
    /** the PDF files of the papers directory, in the order the directory lists them */
    files: seq<PdfFile>,
    embed: EmbedService,
    /** `json.dumps(chunk, ensure_ascii=True)` */
    encode: ChunkRecord -> string)

  datatype BuildRun = BuildRun(outcome: Result<()>, effects: seq<Effect>)

  const MissingPapersPrefix := "Missing papers directory: "
  const NoChunksPrefix := "No text chunks could be created from PDFs in "

  /** `[item["text"] for item in chunks]` */
  function TextsOf(chunks: seq<ChunkRecord>): (texts: seq<string>)
    ensures |texts| == |chunks|
  {
    seq(|chunks|, i requires 0 <= i < |chunks| => chunks[i].text)
  }

  /** The chunks file: one encoded record per line, in order. */
  function ChunksFileContent(encode: ChunkRecord -> string, chunks: seq<ChunkRecord>): string {
    Flatten(seq(|chunks|, i requires 0 <= i < |chunks| => encode(chunks[i]) + "\n"))
  }

  function RequestEffects(requests: seq<seq<string>>): (r: seq<Effect>)
    ensures |r| == |requests|
  {
    seq(|requests|, i requires 0 <= i < |requests| => EmbeddingRequest(requests[i]))
  }

  /** The directory steps: the old index removed on a reset, then the directory made. */
  function PrepareIndexDir(reset: bool, indexDirExists: bool): seq<Effect> {
    (if reset && indexDirExists then [RemoveIndexDir] else []) + [MakeIndexDir]
  }

  /**
   * build_index: settings, then the papers directory, then the index
   * directory, then the chunks; no chunks is an error raised before any
   * embedding request or index write.
   */
  function BuildIndexSpec(env: BuildEnv, reset: bool, maxPapers: Option<int>): BuildRun {
    var settings := GetSettings(env.settings);
    if settings.Failure? then BuildRun(Failure(settings.error), [])
    else if !env.papersDirExists then
      BuildRun(Failure(FileNotFoundError(MissingPapersPrefix + env.layout.papersDir)), [])
    else IndexPapers(env, settings.value, reset, maxPapers)
  }

  /** build_index once the settings are read and the papers directory is there. */
  function IndexPapers(env: BuildEnv, s: Settings, reset: bool, maxPapers: Option<int>): BuildRun {
    var prepare := PrepareIndexDir(reset, env.indexDirExists);
    var chunks := BuildChunksSpec(env.files, s.chunkSize, s.chunkOverlap, maxPapers);
    if chunks.Failure? then BuildRun(Failure(chunks.error), prepare)
    else if chunks.value == [] then
      BuildRun(Failure(ValueError(NoChunksPrefix + env.layout.papersDir)), prepare)
    else EmbedAndWrite(env, s, prepare, chunks.value)
  }

  /** The rest of build_index once there are chunks: embed their texts, then write both index files. */
  function EmbedAndWrite(env: BuildEnv, s: Settings, done: seq<Effect>, chunks: seq<ChunkRecord>): BuildRun {
    var texts := TextsOf(chunks);
    var embedded := EmbedTextsSpec(env.embed, texts, s.embedBatchSize);
    var sent := RequestEffects(EmbedTextsRequests(env.embed, texts, s.embedBatchSize));
    if embedded.Failure? then BuildRun(Failure(embedded.error), done + sent)
    else
      BuildRun(Success(()), done + sent
               + [WriteChunksFile(ChunksFileContent(env.encode, chunks)), SaveEmbeddings(embedded.value)])
  }

  method BuildIndex(env: BuildEnv, reset: bool, maxPapers: Option<int>) returns (run: BuildRun)
    ensures run == BuildIndexSpec(env, reset, maxPapers)
  {
    var settings := GetSettings(env.settings);
    if settings.Failure? {
      return BuildRun(Failure(settings.error), []);
    }
    var s := settings.value;
    if !env.papersDirExists {
      return BuildRun(Failure(FileNotFoundError(MissingPapersPrefix + env.layout.papersDir)), []);
    }
    assert BuildIndexSpec(env, reset, maxPapers) == IndexPapers(env, s, reset, maxPapers);
    var effects: seq<Effect> := [];
    if reset && env.indexDirExists {
      effects := effects + [RemoveIndexDir];
    }
    effects := effects + [MakeIndexDir];
    assert effects == PrepareIndexDir(reset, env.indexDirExists);
    var chunks := BuildChunks(env.files, s.chunkSize, s.chunkOverlap, maxPapers);
    if chunks.Failure? {
      return BuildRun(Failure(chunks.error), effects);
    }
    if chunks.value == [] {
      return BuildRun(Failure(ValueError(NoChunksPrefix + env.layout.papersDir)), effects);
    }
    assert IndexPapers(env, s, reset, maxPapers) == EmbedAndWrite(env, s, effects, chunks.value);
    var texts := TextsOf(chunks.value);
    var embeddings, requests := EmbedTexts(env.embed, texts, s.embedBatchSize);
    effects := effects + RequestEffects(requests);
    if embeddings.Failure? {
      return BuildRun(Failure(embeddings.error), effects);
    }
    effects := effects + [WriteChunksFile(ChunksFileContent(env.encode, chunks.value))];
    effects := effects + [SaveEmbeddings(embeddings.value)];
    return BuildRun(Success(()), effects);
  }

  // ---------------------------------------------------------------------------
  // What build_index promises

  /** Without an API key nothing is touched. */
  lemma BuildIndexNoKey(env: BuildEnv, reset: bool, maxPapers: Option<int>)
    requires env.settings.apiKey == []
    ensures BuildIndexSpec(env, reset, maxPapers) == BuildRun(Failure(ValueError(MissingKeyMessage)), [])
  {
  }

  /** A missing papers directory is reported before the index directory is touched. */
  lemma BuildIndexMissingPapers(env: BuildEnv, reset: bool, maxPapers: Option<int>)
    requires env.settings.apiKey != [] && !env.papersDirExists
    ensures BuildIndexSpec(env, reset, maxPapers)
         == BuildRun(Failure(FileNotFoundError(MissingPapersPrefix + env.layout.papersDir)), [])
  {
  }

  /**
   * When the PDFs give no chunk, build_index fails after preparing the index
   * directory and before any embedding request or file write.
   */
  lemma BuildIndexNoChunks(env: BuildEnv, reset: bool, maxPapers: Option<int>)
    requires env.settings.apiKey != [] && env.papersDirExists
    requires BuildChunksSpec(env.files, env.settings.chunkSize, env.settings.chunkOverlap, maxPapers) == Success([])
    ensures BuildIndexSpec(env, reset, maxPapers).outcome == Failure(ValueError(NoChunksPrefix + env.layout.papersDir))
    ensures forall e :: e in BuildIndexSpec(env, reset, maxPapers).effects ==> e == RemoveIndexDir || e == MakeIndexDir
  {
    assert BuildIndexSpec(env, reset, maxPapers) == IndexPapers(env, env.settings, reset, maxPapers);
  }

  /** The old index is removed exactly when a reset is asked for, the index exists and the guards before it pass. */
  lemma BuildIndexReset(env: BuildEnv, reset: bool, maxPapers: Option<int>)
    ensures RemoveIndexDir in BuildIndexSpec(env, reset, maxPapers).effects
      <==> env.settings.apiKey != [] && env.papersDirExists && reset && env.indexDirExists
  {
    var run := BuildIndexSpec(env, reset, maxPapers);
    if env.settings.apiKey != [] && env.papersDirExists {
      var prepare := PrepareIndexDir(reset, env.indexDirExists);
      assert run == IndexPapers(env, env.settings, reset, maxPapers);
      var chunks := BuildChunksSpec(env.files, env.settings.chunkSize, env.settings.chunkOverlap, maxPapers);
      if chunks.Success? && chunks.value != [] {
        EmbedAndWriteParts(env, env.settings, prepare, chunks.value);
      }
    }
  }

  /** A run of the tail: the effects before it, the requests, then on success the two writes. */
  lemma EmbedAndWriteParts(env: BuildEnv, s: Settings, done: seq<Effect>, chunks: seq<ChunkRecord>)
    ensures EmbedAndWrite(env, s, done, chunks).effects[..|done|] == done
    ensures forall e :: e in EmbedAndWrite(env, s, done, chunks).effects[|done|..] ==> e != RemoveIndexDir
  {
  }

  /**
   * A successful build writes, last of all, the chunks file holding the
   * encoded records and the embeddings of their texts, after the directory
   * steps and the embedding requests.
   */
  lemma BuildIndexWrites(env: BuildEnv, reset: bool, maxPapers: Option<int>)
    requires BuildIndexSpec(env, reset, maxPapers).outcome.Success?
    ensures env.settings.apiKey != [] && env.papersDirExists
    ensures BuildChunksSpec(env.files, env.settings.chunkSize, env.settings.chunkOverlap, maxPapers).Success?
    ensures var chunks := BuildChunksSpec(env.files, env.settings.chunkSize, env.settings.chunkOverlap, maxPapers).value;
      var embedded := EmbedTextsSpec(env.embed, TextsOf(chunks), env.settings.embedBatchSize);
      && chunks != [] && embedded.Success?
      && BuildIndexSpec(env, reset, maxPapers).effects
         == PrepareIndexDir(reset, env.indexDirExists)
            + RequestEffects(EmbedTextsRequests(env.embed, TextsOf(chunks), env.settings.embedBatchSize))
            + [WriteChunksFile(ChunksFileContent(env.encode, chunks)), SaveEmbeddings(embedded.value)]
  {
    assert BuildIndexSpec(env, reset, maxPapers) == IndexPapers(env, env.settings, reset, maxPapers);
  }
}

/**
 * The arXiv downloader: the file name a paper's PDF is saved under, and the
 * metadata list that records each paper whose download succeeded. The arXiv
 * client, the PDF download itself and the JSON file write are inputs: each
 * result comes as a value, and whether its download succeeded as a function.
 */
module DownloadArxiv {
  import opened Outcomes
  import opened PyText

  // ===========================================================================
  // sanitize_filename

  /** The characters of the class `[a-zA-Z0-9._ -]`. */
  predicate IsAllowed(c: char) {
    ('a' <= c <= 'z') || ('A' <= c <= 'Z') || ('0' <= c <= '9') || c == '.' || c == '_' || c == ' ' || c == '-'
  }

  predicate AllAllowed(s: string) {
    forall i :: 0 <= i < |s| ==> IsAllowed(s[i])
  }

  /** `re.sub(r"[^a-zA-Z0-9._ -]", "", s)`: the allowed characters of `s`, in order. */
  function KeepAllowed(s: string): (r: string)
    ensures AllAllowed(r)
    ensures |r| <= |s|
  {
    if s == [] then [] else (if IsAllowed(s[0]) then [s[0]] else []) + KeepAllowed(s[1..])
  }

  /**
   * `re.sub(r"\s+", " ", s)`: every maximal run of whitespace becomes one
   * space. A whitespace character followed by another is dropped; the last
   * of a run becomes `' '`.
   */
  function Collapse(s: string): string
    decreases |s|
  {
    if s == [] then []
    else if IsSpace(s[0]) then (if |s| > 1 && IsSpace(s[1]) then Collapse(s[1..]) else " " + Collapse(s[1..]))
    else [s[0]] + Collapse(s[1..])
  }

  /** sanitize_filename: the allowed characters, whitespace runs collapsed, stripped, cut to 90. */
  function SanitizeFilename(value: string): (r: string)
    ensures |r| <= 90
  {
    Slice(Strip(Collapse(KeepAllowed(value))), 0, 90)
  }

  // ---------------------------------------------------------------------------
  // What the filter and the collapse do

  /** A character survives the filter exactly when it occurs in the input and is allowed. */
  lemma {:induction false} KeepAllowedChars(s: string, c: char)
    ensures c in KeepAllowed(s) <==> c in s && IsAllowed(c)
    decreases |s|
  {
    if s != [] {
      KeepAllowedChars(s[1..], c);
      assert s == [s[0]] + s[1..];
    }
  }

  /** Text of allowed characters only passes the filter unchanged. */
  lemma {:induction false} KeepAllowedFixed(s: string)
    requires AllAllowed(s)
    ensures KeepAllowed(s) == s
    decreases |s|
  {
    if s != [] {
      KeepAllowedFixed(s[1..]);
    }
  }

  /** No two whitespace characters stand next to each other. */
  predicate NoSpaceRun(s: string) {
    forall i :: 0 <= i < |s| - 1 ==> !(IsSpace(s[i]) && IsSpace(s[i + 1]))
  }

  /** The only whitespace character in `s` is `' '`. */
  predicate SpacesAreBlank(s: string) {
    forall i :: 0 <= i < |s| ==> IsSpace(s[i]) ==> s[i] == ' '
  }

  /** The collapse starts with whitespace exactly when its input does, and is empty only for empty input. */
  lemma CollapseHead(s: string)
    requires s != []
    ensures Collapse(s) != []
    ensures IsSpace(s[0]) ==> Collapse(s)[0] == ' '
    ensures !IsSpace(s[0]) ==> Collapse(s)[0] == s[0]
    decreases |s|
  {
    if IsSpace(s[0]) && |s| > 1 && IsSpace(s[1]) {
      CollapseHead(s[1..]);
    }
  }

  /**
   * Every character of the collapse is a space or a non-whitespace character
   * of the input, and no two spaces stand next to each other.
   */
  lemma {:induction false} CollapseShape(s: string)
    ensures SpacesAreBlank(Collapse(s)) && NoSpaceRun(Collapse(s))
    ensures forall i :: 0 <= i < |Collapse(s)| && !IsSpace(Collapse(s)[i]) ==> Collapse(s)[i] in s
    decreases |s|
  {
    if s != [] {
      var tail := Collapse(s[1..]);
      CollapseShape(s[1..]);
      assert forall c :: c in s[1..] ==> c in s;
      if IsSpace(s[0]) && |s| > 1 && IsSpace(s[1]) {
      } else {
        var head := if IsSpace(s[0]) then ' ' else s[0];
        assert Collapse(s) == [head] + tail;
        if IsSpace(s[0]) && |s| > 1 {
          CollapseHead(s[1..]);
        }
      }
    }
  }

  /** Text free of whitespace runs whose whitespace is all `' '` is its own collapse. */
  lemma {:induction false} CollapseFixed(s: string)
    requires NoSpaceRun(s) && SpacesAreBlank(s)
    ensures Collapse(s) == s
    decreases |s|
  {
    if s != [] {
      CollapseFixed(s[1..]);
      assert s == [s[0]] + s[1..];
    }
  }

  /** Collapsing twice is collapsing once. */
  lemma CollapseIdempotent(s: string)
    ensures Collapse(Collapse(s)) == Collapse(s)
  {
    CollapseShape(s);
    CollapseFixed(Collapse(s));
  }

  // ---------------------------------------------------------------------------
  // The collapse and the strip together are `" ".join(s.split())`

  /** A run of whitespace at the front collapses to one space before the rest. */
  lemma {:induction false} CollapseSpaces(s: string)
    requires s != [] && IsSpace(s[0])
    ensures Collapse(s) == " " + Collapse(LStrip(s))
    decreases |s|
  {
    if |s| > 1 && IsSpace(s[1]) {
      CollapseSpaces(s[1..]);
    }
  }

  /** A word at the front is kept as it is. */
  lemma {:induction false} CollapseWord(s: string)
    ensures Collapse(s) == TakeWord(s) + Collapse(s[|TakeWord(s)|..])
    decreases |s|
  {
    if s != [] && !IsSpace(s[0]) {
      var w, w' := TakeWord(s), TakeWord(s[1..]);
      var rest := s[1..][|w'|..];
      assert w == [s[0]] + w';
      assert s[|w|..] == rest;
      assert Collapse(s[1..]) == w' + Collapse(rest) by {
        CollapseWord(s[1..]);
      }
      assert Collapse(s) == [s[0]] + Collapse(s[1..]);
      Assoc([s[0]], w', Collapse(rest));
    } else {
      assert TakeWord(s) == [] && s[0..] == s;
    }
  }

  lemma StripSpacePrefix(x: string)
    ensures Strip(" " + x) == Strip(x)
  {
    assert (" " + x)[1..] == x;
  }

  /** Stripping whitespace at the end leaves a prefix in place. */
  lemma {:induction false} RStripAppend(a: string, c: string)
    requires RStrip(c) != []
    ensures RStrip(a + c) == a + RStrip(c)
    decreases |c|
  {
    if IsSpace(c[|c| - 1]) {
      assert (a + c)[..|a + c| - 1] == a + c[..|c| - 1];
      RStripAppend(a, c[..|c| - 1]);
    }
  }

  /** A word, a space and a text starting with non-whitespace: only the text's end is stripped. */
  lemma StripAfterWord(w: string, c: string)
    requires IsWord(w)
    requires c != [] && !IsSpace(c[0]) && Strip(c) != []
    ensures Strip(w + " " + c) == w + " " + Strip(c)
  {
    assert LStrip(c) == c;
    assert LStrip(w + " " + c) == w + " " + c;
    RStripAppend(w + " ", c);
  }

  /** A word followed by at most one space strips to the word. */
  lemma StripWord(w: string)
    requires IsWord(w)
    ensures Strip(w) == w
    ensures Strip(w + " ") == w
  {
    StripUnchanged(w);
    assert (w + " ")[..|w|] == w;
    assert RStrip(w + " ") == RStrip(w);
  }

  /** Whitespace in front changes nothing once the collapse is stripped. */
  lemma StripCollapseLeading(s: string)
    ensures Strip(Collapse(s)) == Strip(Collapse(LStrip(s)))
  {
    if s != [] && IsSpace(s[0]) {
      CollapseSpaces(s);
      StripSpacePrefix(Collapse(LStrip(s)));
    }
  }

  lemma Assoc<T>(a: seq<T>, b: seq<T>, c: seq<T>)
    ensures a + (b + c) == a + b + c
  {
  }

  /** A word, then a text that is empty or starts with whitespace and for which the claim holds. */
  lemma JoinAfterWord(w: string, rest: string)
    requires IsWord(w)
    requires rest != [] ==> IsSpace(rest[0])
    requires Strip(Collapse(rest)) == Join(Split(rest), " ")
    ensures Strip(w + Collapse(rest)) == Join([w] + Split(rest), " ")
  {
    if rest == [] {
      JoinAfterNothing(w);
    } else if LStrip(rest) == [] {
      JoinAfterBlank(w, rest);
    } else {
      JoinAfterSpace(w, rest);
    }
  }

  lemma JoinAfterNothing(w: string)
    requires IsWord(w)
    ensures Strip(w + Collapse([])) == Join([w] + Split([]), " ")
  {
    assert w + Collapse([]) == w;
    assert [w] + Split([]) == [w];
    StripWord(w);
  }

  lemma JoinAfterBlank(w: string, rest: string)
    requires IsWord(w)
    requires rest != [] && IsSpace(rest[0]) && LStrip(rest) == []
    ensures Strip(w + Collapse(rest)) == Join([w] + Split(rest), " ")
  {
    CollapseSpaces(rest);
    assert Collapse(rest) == " ";
    assert Split(rest) == [];
    StripWord(w);
  }

  lemma JoinAfterSpace(w: string, rest: string)
    requires IsWord(w)
    requires rest != [] && IsSpace(rest[0]) && LStrip(rest) != []
    requires Strip(Collapse(rest)) == Join(Split(rest), " ")
    ensures Strip(w + Collapse(rest)) == Join([w] + Split(rest), " ")
  {
    var t2 := LStrip(rest);
    var c := Collapse(t2);
    var ws := Split(rest);
    CollapseSpaces(rest);
    Assoc(w, " ", c);
    CollapseHead(t2);
    StripSpacePrefix(c);
    assert ws != [];
    JoinWordsNormal(ws);
    StripAfterWord(w, c);
    JoinCons(w, ws, " ");
  }

  /** `re.sub(r"\s+", " ", s).strip()` is Python's `" ".join(s.split())`. */
  lemma {:induction false} CollapseStripIsNormalize(s: string)
    ensures Strip(Collapse(s)) == Normalize(s)
    decreases |s|
  {
    var t := LStrip(s);
    StripCollapseLeading(s);
    if t != [] {
      var w := TakeWord(t);
      var rest := t[|w|..];
      assert Split(s) == [w] + Split(rest);
      CollapseWord(t);
      CollapseStripIsNormalize(rest);
      JoinAfterWord(w, rest);
    }
  }

  /** sanitize_filename is `" ".join(s.split())` on the allowed characters, cut to 90. */
  lemma SanitizeIsNormalize(value: string)
    ensures SanitizeFilename(value) == Slice(Normalize(KeepAllowed(value)), 0, 90)
  {
    CollapseStripIsNormalize(KeepAllowed(value));
  }

  // ---------------------------------------------------------------------------
  // What sanitize_filename promises

  /** Whitespace in the allowed set is the space alone. */
  lemma AllowedSpace(c: char)
    requires IsAllowed(c) && IsSpace(c)
    ensures c == ' '
  {
  }

  /** A part of `s` taken from `start` keeps the character facts of `s`. */
  lemma SubstringShape(s: string, start: nat, r: string)
    requires start + |r| <= |s| && r == s[start..start + |r|]
    requires AllAllowed(s) && NoSpaceRun(s)
    ensures AllAllowed(r) && NoSpaceRun(r)
  {
    assert forall i :: 0 <= i < |r| ==> r[i] == s[start + i];
  }

  /** The collapse of allowed characters holds allowed characters only. */
  lemma CollapseAllowed(value: string)
    ensures AllAllowed(Collapse(KeepAllowed(value))) && NoSpaceRun(Collapse(KeepAllowed(value)))
  {
    var kept := KeepAllowed(value);
    var collapsed := Collapse(kept);
    CollapseShape(kept);
    forall i | 0 <= i < |collapsed|
      ensures IsAllowed(collapsed[i])
    {
      if !IsSpace(collapsed[i]) {
        var c := collapsed[i];
        assert c in kept;
        KeepAllowedChars(value, c);
      }
    }
  }

  /**
   * The name part holds only allowed characters, never two spaces in a row,
   * never a leading space, at most 90 characters, and is the start of the
   * stripped collapse.
   */
  lemma SanitizeShape(value: string)
    ensures var r := SanitizeFilename(value);
      && AllAllowed(r) && NoSpaceRun(r)
      && (r != [] ==> r[0] != ' ')
      && |r| <= 90
      && r == Strip(Collapse(KeepAllowed(value)))[..|r|]
  {
    SanitizeAllowed(value);
    SanitizePrefix(value);
  }

  lemma SanitizeAllowed(value: string)
    ensures AllAllowed(SanitizeFilename(value)) && NoSpaceRun(SanitizeFilename(value))
  {
    var stripped := Strip(Collapse(KeepAllowed(value)));
    StrippedAllowed(value);
    SanitizePrefix(value);
    SubstringShape(stripped, 0, SanitizeFilename(value));
  }

  lemma StrippedAllowed(value: string)
    ensures AllAllowed(Strip(Collapse(KeepAllowed(value)))) && NoSpaceRun(Strip(Collapse(KeepAllowed(value))))
  {
    var collapsed := Collapse(KeepAllowed(value));
    CollapseAllowed(value);
    SubstringShape(collapsed, StripStart(collapsed), Strip(collapsed));
  }

  lemma SanitizePrefix(value: string)
    ensures var r := SanitizeFilename(value);
      && (r != [] ==> r[0] != ' ')
      && |r| <= 90
      && r == Strip(Collapse(KeepAllowed(value)))[..|r|]
  {
    var stripped := Strip(Collapse(KeepAllowed(value)));
    var r := SanitizeFilename(value);
    SliceNonNegative(stripped, 0, 90);
    if r != [] {
      assert r[0] == stripped[0] && !IsSpace(stripped[0]);
    }
  }

  predicate AllSpace(s: string) {
    forall i :: 0 <= i < |s| ==> IsSpace(s[i])
  }

  /** The filter leaves whitespace only exactly when every allowed character of the input is whitespace. */
  lemma KeptAllSpace(value: string)
    ensures AllSpace(KeepAllowed(value)) <==> forall i :: 0 <= i < |value| ==> !IsAllowed(value[i]) || IsSpace(value[i])
  {
    var kept := KeepAllowed(value);
    if AllSpace(kept) {
      forall i | 0 <= i < |value| && IsAllowed(value[i])
        ensures IsSpace(value[i])
      {
        KeepAllowedChars(value, value[i]);
        var j :| 0 <= j < |kept| && kept[j] == value[i];
      }
    } else {
      var j :| 0 <= j < |kept| && !IsSpace(kept[j]);
      KeepAllowedChars(value, kept[j]);
      var i :| 0 <= i < |value| && value[i] == kept[j];
    }
  }

  /** The name part is empty exactly when the title holds only disallowed characters and whitespace. */
  lemma SanitizeEmpty(value: string)
    ensures SanitizeFilename(value) == [] <==> forall i :: 0 <= i < |value| ==> !IsAllowed(value[i]) || IsSpace(value[i])
  {
    SanitizeIsNormalize(value);
    NormalizeEmpty(KeepAllowed(value));
    KeptAllSpace(value);
  }

  /** Applied to its own result, sanitize_filename changes nothing when that result does not end in a space. */
  lemma SanitizeStable(value: string)
    requires SanitizeFilename(value) != [] ==> SanitizeFilename(value)[|SanitizeFilename(value)| - 1] != ' '
    ensures SanitizeFilename(SanitizeFilename(value)) == SanitizeFilename(value)
  {
    var r := SanitizeFilename(value);
    SanitizeShape(value);
    KeepAllowedFixed(r);
    forall i | 0 <= i < |r| && IsSpace(r[i])
      ensures r[i] == ' '
    {
      AllowedSpace(r[i]);
    }
    CollapseFixed(r);
    if r != [] {
      assert IsAllowed(r[0]) && IsAllowed(r[|r| - 1]);
    }
    StripUnchanged(r);
  }

  /**
   * The cut to 90 comes after the strip, so the result can end in a space
   * and a second application then shortens it: a word of 89 allowed
   * characters, a space and one more letter.
   */
  lemma SanitizeNotIdempotent(w: string, c: char)
    requires |w| == 89 && IsWord(w) && AllAllowed(w) && IsAllowed(c) && !IsSpace(c)
    ensures SanitizeFilename(w + " " + [c]) == w + " "
    ensures SanitizeFilename(SanitizeFilename(w + " " + [c])) == w
  {
    CutLeavesSpace(w, c);
    TrailingSpaceStripped(w);
  }

  /** Such text exists: 89 times `'a'`, a space and `'b'`. */
  lemma SanitizeNotIdempotentWitness()
    ensures exists value :: SanitizeFilename(SanitizeFilename(value)) != SanitizeFilename(value)
  {
    var letters := seq(89, i => 'a');
    assert IsWord(letters) && AllAllowed(letters);
    SanitizeNotIdempotent(letters, 'b');
    var value := letters + " " + ['b'];
    assert |SanitizeFilename(value)| == 90;
  }

  /** The cut to 90 falls right after the space. */
  lemma CutLeavesSpace(w: string, c: char)
    requires |w| == 89 && IsWord(w) && AllAllowed(w) && IsAllowed(c) && !IsSpace(c)
    ensures SanitizeFilename(w + " " + [c]) == w + " "
  {
    var v := w + " " + [c];
    assert AllAllowed(v) && NoSpaceRun(v) && v[0] != ' ' by {
      assert forall i :: 0 <= i < |w| ==> v[i] == w[i];
      assert v[|w|] == ' ' && v[|w| + 1] == c;
    }
    SanitizeClean(v);
    assert RStrip(v) == v;
    assert v[..90] == w + " ";
  }

  /** A word of at most 90 allowed characters and a space: the space is stripped. */
  lemma TrailingSpaceStripped(w: string)
    requires |w| <= 90 && IsWord(w) && AllAllowed(w)
    ensures SanitizeFilename(w + " ") == w
  {
    var once := w + " ";
    assert AllAllowed(once) && NoSpaceRun(once) && once[0] != ' ' by {
      assert forall i :: 0 <= i < |w| ==> once[i] == w[i];
    }
    SanitizeClean(once);
    assert once[..|once| - 1] == w;
    assert RStrip(once) == RStrip(w) == w;
  }

  /** Text of letters and single spaces that starts with a letter is only stripped at its end and cut. */
  lemma SanitizeClean(value: string)
    requires AllAllowed(value) && NoSpaceRun(value) && value != [] && value[0] != ' '
    ensures SanitizeFilename(value) == Slice(RStrip(value), 0, 90)
  {
    KeepAllowedFixed(value);
    forall i | 0 <= i < |value| && IsSpace(value[i])
      ensures value[i] == ' '
    {
      AllowedSpace(value[i]);
    }
    CollapseFixed(value);
    assert IsAllowed(value[0]);
    assert LStrip(value) == value;
  }

  // ===========================================================================
  // The PDF file name

  /** `get_short_id().replace("/", "_")` */
  function PaperId(shortId: string): (id: string)
    ensures |id| == |shortId|
  {
    seq(|shortId|, i requires 0 <= i < |shortId| => if shortId[i] == '/' then '_' else shortId[i])
  }

  /** `f"{paper_id}_{title_stub}.pdf"` */
  function PdfName(shortId: string, title: string): (n: string)
    ensures |shortId| + 5 <= |n| <= |shortId| + 95
    ensures n[..|shortId|] == PaperId(shortId) && n[|n| - 4..] == ".pdf"
  {
    PaperId(shortId) + "_" + SanitizeFilename(title) + ".pdf"
  }

  /** The id keeps every character but `/`, which becomes `_`; an id without `/` is unchanged. */
  lemma PaperIdReplaces(shortId: string)
    ensures '/' !in PaperId(shortId)
    ensures forall i :: 0 <= i < |shortId| && shortId[i] != '/' ==> PaperId(shortId)[i] == shortId[i]
    ensures '/' !in shortId ==> PaperId(shortId) == shortId
  {
  }

  /**
   * The PDF name is one path component: no `/` anywhere. It starts with the
   * paper id and `_`, and ends in `.pdf`.
   */
  lemma PdfNameShape(shortId: string, title: string)
    ensures '/' !in PdfName(shortId, title)
    ensures var n := PdfName(shortId, title);
      && |n| <= |shortId| + 95
      && n[..|shortId| + 1] == PaperId(shortId) + "_"
      && n[|n| - 4..] == ".pdf"
  {
    StubShape(title);
    PaperIdReplaces(shortId);
    NameShape(PaperId(shortId), SanitizeFilename(title));
  }

  /** The name part has no `/` and at most 90 characters. */
  lemma StubShape(title: string)
    ensures '/' !in SanitizeFilename(title) && |SanitizeFilename(title)| <= 90
  {
    SanitizeAllowed(title);
    SanitizePrefix(title);
    NoSlash(SanitizeFilename(title));
  }

  lemma NoSlash(s: string)
    requires AllAllowed(s)
    ensures '/' !in s
  {
    assert forall i :: 0 <= i < |s| ==> s[i] != '/';
  }

  /** An id and a name part free of `/` give a PDF name free of `/`, made of the id, `_`, the part and `.pdf`. */
  lemma NameShape(id: string, stub: string)
    requires '/' !in id && '/' !in stub && |stub| <= 90
    ensures var n := id + "_" + stub + ".pdf";
      && '/' !in n
      && |n| <= |id| + 95
      && n[..|id| + 1] == id + "_"
      && n[|n| - 4..] == ".pdf"
  {
    var n := id + "_" + stub + ".pdf";
    assert n == (id + "_") + (stub + ".pdf");
  }

  // ===========================================================================
  // download_papers: the metadata loop

  /** The fields of one arXiv result that the loop reads; `published` is already in ISO format. */
  datatype ArxivResult = ArxivResult(
    shortId: string,
    title: string,
    authorNames: seq<string>,
    published: Option<string>,
    summary: string,
    entryId: string)

  /** One entry of metadata.json. */
  datatype Metadata = Metadata(
    paperId: string,
    title: string,
    authors: seq<string>,
    published: Option<string>,
    pdfFile: string,
    summary: string,
    arxivUrl: string)

  /** Whether `download_pdf` saved the result under the given file name or raised. */
  type Downloader = (ArxivResult, string) -> bool

  function EntryFor(r: ArxivResult): Metadata {
    Metadata(PaperId(r.shortId), r.title, r.authorNames, r.published, PdfName(r.shortId, r.title), r.summary, r.entryId)
  }

  function Fetched(download: Downloader, r: ArxivResult): bool {
    download(r, PdfName(r.shortId, r.title))
  }

  /** `[f(x) for x in xs if keep(x)]`, built front to back as the loop appends. */
  function Kept<A, B>(keep: A -> bool, f: A -> B, xs: seq<A>): seq<B>
    decreases |xs|
  {
    if xs == [] then []
    else Kept(keep, f, xs[..|xs| - 1]) + (if keep(xs[|xs| - 1]) then [f(xs[|xs| - 1])] else [])
  }

  /** The metadata list after the loop has seen `results`. */
  function MetadataOf(download: Downloader, results: seq<ArxivResult>): seq<Metadata> {
    Kept(r => Fetched(download, r), EntryFor, results)
  }

  /** The ids the loop warns about, in order. */
  function FailedOf(download: Downloader, results: seq<ArxivResult>): seq<string> {
    Kept(r => !Fetched(download, r), (r: ArxivResult) => PaperId(r.shortId), results)
  }

  /**
   * The loop of download_papers: each result is downloaded under its PDF
   * name; a success appends its entry, a failure its warning, and the loop
   * goes on either way.
   */
  method DownloadPapers(download: Downloader, results: seq<ArxivResult>) returns (metadata: seq<Metadata>, failed: seq<string>)
    ensures metadata == MetadataOf(download, results)
    ensures failed == FailedOf(download, results)
  {
    metadata, failed := [], [];
    for i := 0 to |results|
      invariant metadata == MetadataOf(download, results[..i])
      invariant failed == FailedOf(download, results[..i])
    {
      var result := results[i];
      var paperId := PaperId(result.shortId);
      var pdfName := paperId + "_" + SanitizeFilename(result.title) + ".pdf";
      LoopStep(download, results, i);
      assert Fetched(download, result) == download(result, pdfName);
      if download(result, pdfName) {
        metadata := metadata + [Metadata(paperId, result.title, result.authorNames, result.published, pdfName, result.summary, result.entryId)];
      } else {
        failed := failed + [paperId];
      }
    }
    assert results[..|results|] == results;
  }

  /** One more result seen: its entry or its warning is appended. */
  lemma LoopStep(download: Downloader, results: seq<ArxivResult>, i: nat)
    requires i < |results|
    ensures MetadataOf(download, results[..i + 1])
      == MetadataOf(download, results[..i]) + (if Fetched(download, results[i]) then [EntryFor(results[i])] else [])
    ensures FailedOf(download, results[..i + 1])
      == FailedOf(download, results[..i]) + (if Fetched(download, results[i]) then [] else [PaperId(results[i].shortId)])
  {
    assert results[..i + 1][..i] == results[..i];
  }

  // ---------------------------------------------------------------------------
  // What the loop promises

  lemma {:induction false} KeptSplit<A, B, C>(keep: A -> bool, drop: A -> bool, f: A -> B, g: A -> C, xs: seq<A>)
    requires forall x :: drop(x) == !keep(x)
    ensures |Kept(keep, f, xs)| + |Kept(drop, g, xs)| == |xs|
    decreases |xs|
  {
    if xs != [] {
      KeptSplit(keep, drop, f, g, xs[..|xs| - 1]);
    }
  }

  lemma {:induction false} KeptAppend<A, B>(keep: A -> bool, f: A -> B, a: seq<A>, b: seq<A>)
    ensures Kept(keep, f, a + b) == Kept(keep, f, a) + Kept(keep, f, b)
    decreases |b|
  {
    if b == [] {
      assert a + b == a;
    } else {
      assert (a + b)[..|a + b| - 1] == a + b[..|b| - 1];
      KeptAppend(keep, f, a, b[..|b| - 1]);
    }
  }

  lemma {:induction false} KeptAll<A, B>(keep: A -> bool, f: A -> B, xs: seq<A>)
    requires forall i :: 0 <= i < |xs| ==> keep(xs[i])
    ensures Kept(keep, f, xs) == seq(|xs|, i requires 0 <= i < |xs| => f(xs[i]))
    decreases |xs|
  {
    if xs != [] {
      KeptAll(keep, f, xs[..|xs| - 1]);
    }
  }

  lemma {:induction false} KeptMembers<A, B>(keep: A -> bool, f: A -> B, xs: seq<A>, y: B)
    ensures y in Kept(keep, f, xs) <==> exists i :: 0 <= i < |xs| && keep(xs[i]) && y == f(xs[i])
    decreases |xs|
  {
    if xs != [] {
      var before := xs[..|xs| - 1];
      KeptMembers(keep, f, before, y);
      assert forall i :: 0 <= i < |before| ==> before[i] == xs[i];
    }
  }

  /**
   * Every result is accounted for once: a success has its entry in the
   * metadata, a failure its id among the warnings, and the two lists
   * together have one item per result.
   */
  lemma EveryResultAccounted(download: Downloader, results: seq<ArxivResult>)
    ensures |MetadataOf(download, results)| + |FailedOf(download, results)| == |results|
    ensures forall i :: 0 <= i < |results| && Fetched(download, results[i]) ==>
      EntryFor(results[i]) in MetadataOf(download, results)
    ensures forall i :: 0 <= i < |results| && !Fetched(download, results[i]) ==>
      PaperId(results[i].shortId) in FailedOf(download, results)
  {
    KeptSplit(r => Fetched(download, r), r => !Fetched(download, r), EntryFor, (r: ArxivResult) => PaperId(r.shortId), results);
    forall i | 0 <= i < |results|
      ensures Fetched(download, results[i]) ==> EntryFor(results[i]) in MetadataOf(download, results)
      ensures !Fetched(download, results[i]) ==> PaperId(results[i].shortId) in FailedOf(download, results)
    {
      MetadataMembers(download, results, EntryFor(results[i]));
      FailedMembers(download, results, PaperId(results[i].shortId));
    }
  }

  /** An id is among the warnings exactly when some result with that id failed to download. */
  lemma FailedMembers(download: Downloader, results: seq<ArxivResult>, id: string)
    ensures id in FailedOf(download, results)
      <==> exists i :: 0 <= i < |results| && !Fetched(download, results[i]) && id == PaperId(results[i].shortId)
  {
    KeptMembers(r => !Fetched(download, r), (r: ArxivResult) => PaperId(r.shortId), results, id);
  }

  /** The loop over two runs of results is the loop over the first, then over the second. */
  lemma MetadataAppend(download: Downloader, a: seq<ArxivResult>, b: seq<ArxivResult>)
    ensures MetadataOf(download, a + b) == MetadataOf(download, a) + MetadataOf(download, b)
  {
    KeptAppend(r => Fetched(download, r), EntryFor, a, b);
  }

  /** When every download succeeds the metadata has one entry per result, in result order. */
  lemma MetadataAllFetched(download: Downloader, results: seq<ArxivResult>)
    requires forall i :: 0 <= i < |results| ==> Fetched(download, results[i])
    ensures MetadataOf(download, results) == seq(|results|, i requires 0 <= i < |results| => EntryFor(results[i]))
  {
    KeptAll(r => Fetched(download, r), EntryFor, results);
  }

  /** An entry is in the metadata exactly when some result's download succeeded and the entry describes it. */
  lemma MetadataMembers(download: Downloader, results: seq<ArxivResult>, m: Metadata)
    ensures m in MetadataOf(download, results)
      <==> exists i :: 0 <= i < |results| && Fetched(download, results[i]) && m == EntryFor(results[i])
  {
    KeptMembers(r => Fetched(download, r), EntryFor, results, m);
  }

  /** Every entry's PDF name is one path component ending in `.pdf`, and its id is free of `/`. */
  lemma MetadataFileNames(download: Downloader, results: seq<ArxivResult>)
    ensures forall m :: m in MetadataOf(download, results) ==>
      '/' !in m.pdfFile && '/' !in m.paperId && |m.pdfFile| >= 4 && m.pdfFile[|m.pdfFile| - 4..] == ".pdf"
  {
    forall m | m in MetadataOf(download, results)
      ensures '/' !in m.pdfFile && '/' !in m.paperId && |m.pdfFile| >= 4 && m.pdfFile[|m.pdfFile| - 4..] == ".pdf"
    {
      MetadataMembers(download, results, m);
      var i :| 0 <= i < |results| && Fetched(download, results[i]) && m == EntryFor(results[i]);
      PdfNameShape(results[i].shortId, results[i].title);
      PaperIdReplaces(results[i].shortId);
    }
  }
}

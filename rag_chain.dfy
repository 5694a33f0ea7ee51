/**
 * Single-turn retrieval over the local index: the index files are loaded,
 * the rows are ranked by their score against the question, the best rows
 * become the context of one chat request, and its reply is the answer.
 */
module RagChain {
  import opened Outcomes
  import opened PyText
  import opened Config
  import opened Ingest

  // ===========================================================================
  // _load_index

  /** The two index files as they are found: each is missing or has its content. */
  datatype IndexStore = IndexStore(chunksFile: Option<string>, embeddingsFile: Option<Matrix>)

  /** `json.loads` on one line: the record it holds, or the error it raises. */
  type Parser = string -> Result<ChunkRecord>

  const MissingIndexMessage := "Index files are missing. Run: python -m src.ingest --reset"

  /** The length of the first line of `c`, its "\n" included when it has one. */
  function LineLength(c: string): (n: nat)
    requires c != []
    ensures 1 <= n <= |c|
    decreases |c|
  {
    if c[0] == '\n' || |c| == 1 then 1 else 1 + LineLength(c[1..])
  }

  /**
   * The lines that iterating over a text file yields: each keeps its "\n",
   * the last may lack one. `c` is the content after text mode has translated
   * "\r\n" and "\r" into "\n", so "\n" is the only line end left.
   */
  function Lines(c: string): seq<string>
    decreases |c|
  {
    if c == [] then [] else var n := LineLength(c); [c[..n]] + Lines(c[n..])
  }

  /**
   * A line `line.strip()` leaves empty: whitespace only (`StripEmpty` shows
   * the two agree).
   */
  predicate IsBlank(line: string) {
    forall i :: 0 <= i < |line| ==> IsSpace(line[i])
  }

  /** The records of the non-blank lines, in file order, or the first parse error. */
  function ParseLines(parse: Parser, lines: seq<string>): Result<seq<ChunkRecord>>
    decreases |lines|
  {
    if lines == [] then Success([])
    else
      var before :- ParseLines(parse, lines[..|lines| - 1]);
      var line := lines[|lines| - 1];
      if IsBlank(line) then Success(before)
      else
        var record :- parse(line);
        Success(before + [record])
  }

  /** _load_index: both files must exist; the chunks are the parsed non-blank lines. */
  function LoadIndex(store: IndexStore, parse: Parser): (r: Result<(seq<ChunkRecord>, Matrix)>)
    ensures r.Success? ==> store.chunksFile.Some? && store.embeddingsFile.Some? && r.value.1 == store.embeddingsFile.value
  {
    if store.chunksFile.None? || store.embeddingsFile.None? then Failure(FileNotFoundError(MissingIndexMessage))
    else
      var chunks :- ParseLines(parse, Lines(store.chunksFile.value));
      Success((chunks, store.embeddingsFile.value))
  }

  // ---------------------------------------------------------------------------
  // What _load_index promises

  /** `e` is what the parser raised on some non-blank line of `lines`. */
  predicate RaisedOnLine(parse: Parser, lines: seq<string>, e: Error) {
    exists i :: 0 <= i < |lines| && !IsBlank(lines[i]) && parse(lines[i]) == Failure(e)
  }

  /**
   * A missing file is the error for missing files; with both files there,
   * every error is the parser's, on a non-blank line.
   */
  lemma LoadIndexErrors(store: IndexStore, parse: Parser)
    ensures store.chunksFile.None? || store.embeddingsFile.None? ==>
      LoadIndex(store, parse) == Failure(FileNotFoundError(MissingIndexMessage))
    ensures store.chunksFile.Some? && store.embeddingsFile.Some? && LoadIndex(store, parse).Failure? ==>
      RaisedOnLine(parse, Lines(store.chunksFile.value), LoadIndex(store, parse).error)
  {
    if store.chunksFile.Some? && store.embeddingsFile.Some? {
      ParseLinesError(parse, Lines(store.chunksFile.value));
    }
  }

  /** Every error of ParseLines is one the parser raised on a non-blank line. */
  lemma {:induction false} ParseLinesError(parse: Parser, lines: seq<string>)
    ensures ParseLines(parse, lines).Failure? ==> RaisedOnLine(parse, lines, ParseLines(parse, lines).error)
    decreases |lines|
  {
    if lines != [] && ParseLines(parse, lines).Failure? {
      var n := |lines|;
      var e := ParseLines(parse, lines).error;
      ParseLinesError(parse, lines[..n - 1]);
      if ParseLines(parse, lines[..n - 1]).Failure? {
        var i :| 0 <= i < n - 1 && !IsBlank(lines[..n - 1][i]) && parse(lines[..n - 1][i]) == Failure(e);
        assert lines[..n - 1][i] == lines[i];
      } else {
        assert !IsBlank(lines[n - 1]) && parse(lines[n - 1]) == Failure(e);
      }
    }
  }

  /** The non-blank lines, in order. */
  function NonBlank(lines: seq<string>): seq<string>
    decreases |lines|
  {
    if lines == [] then []
    else NonBlank(lines[..|lines| - 1]) + (if IsBlank(lines[|lines| - 1]) then [] else [lines[|lines| - 1]])
  }

  /** Every line parsed, in order, or the first error. */
  function ParseAll(parse: Parser, lines: seq<string>): Result<seq<ChunkRecord>>
    decreases |lines|
  {
    if lines == [] then Success([])
    else
      var before :- ParseAll(parse, lines[..|lines| - 1]);
      var record :- parse(lines[|lines| - 1]);
      Success(before + [record])
  }

  lemma ParseAllSnoc(parse: Parser, lines: seq<string>, line: string)
    ensures ParseAll(parse, lines + [line])
         == if ParseAll(parse, lines).Failure? then ParseAll(parse, lines)
            else if parse(line).Failure? then Failure(parse(line).error)
            else Success(ParseAll(parse, lines).value + [parse(line).value])
  {
    assert (lines + [line])[..|lines|] == lines;
  }

  /** _load_index parses exactly the non-blank lines, in file order: blank lines are skipped. */
  lemma {:induction false} ParseLinesNonBlank(parse: Parser, lines: seq<string>)
    ensures ParseLines(parse, lines) == ParseAll(parse, NonBlank(lines))
    decreases |lines|
  {
    if lines != [] {
      var n := |lines|;
      var before := NonBlank(lines[..n - 1]);
      ParseLinesNonBlank(parse, lines[..n - 1]);
      if !IsBlank(lines[n - 1]) {
        assert NonBlank(lines) == before + [lines[n - 1]];
        ParseAllSnoc(parse, before, lines[n - 1]);
      } else {
        assert NonBlank(lines) == before;
      }
    }
  }

  // ---------------------------------------------------------------------------
  // Reading back the chunks file that build_index writes

  /** A line of the chunks file: text free of "\n", then one "\n". */
  predicate IsLine(l: string) {
    l != [] && l[|l| - 1] == '\n' && forall i :: 0 <= i < |l| - 1 ==> l[i] != '\n'
  }

  lemma {:induction false} LineLengthOf(l: string, rest: string)
    requires IsLine(l)
    ensures LineLength(l + rest) == |l|
    decreases |l|
  {
    if |l| > 1 {
      assert (l + rest)[1..] == l[1..] + rest;
      assert l[0] != '\n';
      LineLengthOf(l[1..], rest);
    }
  }

  lemma LinesCons(l: string, rest: string)
    requires IsLine(l)
    ensures Lines(l + rest) == [l] + Lines(rest)
  {
    LineLengthOf(l, rest);
    assert (l + rest)[..|l|] == l;
    assert (l + rest)[|l|..] == rest;
  }

  lemma {:induction false} FlattenCons<T>(x: seq<T>, xs: seq<seq<T>>)
    ensures Flatten([x] + xs) == x + Flatten(xs)
    decreases |xs|
  {
    if xs != [] {
      var n := |xs|;
      assert ([x] + xs)[..n] == [x] + xs[..n - 1];
      FlattenCons(x, xs[..n - 1]);
    }
  }

  /** Lines that each end at their one "\n", written one after another, read back as themselves. */
  lemma {:induction false} LinesFlatten(ls: seq<string>)
    requires forall i :: 0 <= i < |ls| ==> IsLine(ls[i])
    ensures Lines(Flatten(ls)) == ls
    decreases |ls|
  {
    if ls != [] {
      assert ls == [ls[0]] + ls[1..];
      FlattenCons(ls[0], ls[1..]);
      LinesFlatten(ls[1..]);
      LinesCons(ls[0], Flatten(ls[1..]));
    }
  }

  /** The lines of the chunks file for `chunks`, each with its "\n". */
  function EncodedLines(encode: ChunkRecord -> string, chunks: seq<ChunkRecord>): (ls: seq<string>)
    ensures |ls| == |chunks|
  {
    seq(|chunks|, i requires 0 <= i < |chunks| => encode(chunks[i]) + "\n")
  }

  /**
   * What `json.dumps` and `json.loads` guarantee of one record: its encoding
   * has no "\n" and is not blank, and the line reads back as the record.
   */
  predicate EncodesAsLine(encode: ChunkRecord -> string, parse: Parser, c: ChunkRecord) {
    var l := encode(c) + "\n";
    IsLine(l) && !IsBlank(l) && parse(l) == Success(c)
  }

  lemma {:induction false} ParseEncoded(encode: ChunkRecord -> string, parse: Parser, chunks: seq<ChunkRecord>)
    requires forall i :: 0 <= i < |chunks| ==> EncodesAsLine(encode, parse, chunks[i])
    ensures ParseLines(parse, EncodedLines(encode, chunks)) == Success(chunks)
    decreases |chunks|
  {
    if chunks != [] {
      var n := |chunks|;
      var ls := EncodedLines(encode, chunks);
      assert ls[..n - 1] == EncodedLines(encode, chunks[..n - 1]);
      ParseEncoded(encode, parse, chunks[..n - 1]);
      assert EncodesAsLine(encode, parse, chunks[n - 1]);
      assert chunks == chunks[..n - 1] + [chunks[n - 1]];
    }
  }

  /**
   * The index build_index writes loads back as itself: the chunks file holds
   * each record on its own line, so _load_index returns the same records in
   * the same order, beside the saved embeddings.
   */
  lemma LoadWrittenIndex(encode: ChunkRecord -> string, parse: Parser, chunks: seq<ChunkRecord>, vectors: Matrix)
    requires forall i :: 0 <= i < |chunks| ==> EncodesAsLine(encode, parse, chunks[i])
    ensures LoadIndex(IndexStore(Some(ChunksFileContent(encode, chunks)), Some(vectors)), parse) == Success((chunks, vectors))
  {
    var ls := EncodedLines(encode, chunks);
    assert ChunksFileContent(encode, chunks) == Flatten(ls);
    assert forall i :: 0 <= i < |ls| ==> IsLine(ls[i]) by {
      forall i | 0 <= i < |ls| ensures IsLine(ls[i]) {
        assert EncodesAsLine(encode, parse, chunks[i]);
      }
    }
    LinesFlatten(ls);
    ParseEncoded(encode, parse, chunks);
  }

  /**
   * What build_index writes, _load_index reads back: the chunks it built and
   * the vectors it saved. When the embedding service answers each batch with
   * one vector per text, the two files have as many entries exactly when the
   * batch size is positive; a negative batch size saves no vectors at all.
   */
  lemma BuiltIndexLoads(env: BuildEnv, reset: bool, maxPapers: Option<int>, parse: Parser)
    requires BuildIndexSpec(env, reset, maxPapers).outcome.Success?
    requires forall c :: EncodesAsLine(env.encode, parse, c)
    requires forall batch :: env.embed(batch).Success? ==> |env.embed(batch).value| == |batch|
    ensures var chunks := BuildChunksSpec(env.files, env.settings.chunkSize, env.settings.chunkOverlap, maxPapers).value;
      var vectors := EmbedTextsSpec(env.embed, TextsOf(chunks), env.settings.embedBatchSize).value;
      && WriteChunksFile(ChunksFileContent(env.encode, chunks)) in BuildIndexSpec(env, reset, maxPapers).effects
      && SaveEmbeddings(vectors) in BuildIndexSpec(env, reset, maxPapers).effects
      && LoadIndex(IndexStore(Some(ChunksFileContent(env.encode, chunks)), Some(vectors)), parse)
         == Success((chunks, vectors))
      && (ArrayLen(vectors) == |chunks| <==> env.settings.embedBatchSize >= 1)
  {
    BuildIndexWrites(env, reset, maxPapers);
    var chunks := BuildChunksSpec(env.files, env.settings.chunkSize, env.settings.chunkOverlap, maxPapers).value;
    var size := env.settings.embedBatchSize;
    var vectors := EmbedTextsSpec(env.embed, TextsOf(chunks), size).value;
    LoadWrittenIndex(env.encode, parse, chunks, vectors);
    if size >= 1 {
      BatchesFlatten(TextsOf(chunks), size);
      EmbedRunLength(env.embed, Batches(TextsOf(chunks), size));
    }
  }

  // ===========================================================================
  // _normalize_rows and the scores of retrieve

  /** The identity on reals. */
  function Id(x: real): real { x }

  /**
   * `x` squared. The second factor is written `Id(x)` so that the solver
   * sees a product of two terms rather than a square, which its real
   * arithmetic handles far less reliably.
   */
  function Square(x: real): real { x * Id(x) }

  /** The sum of the squares of the entries: the square of the Euclidean norm. */
  function SquaredNorm(v: Vector): real
    decreases |v|
  {
    if v == [] then 0.0 else SquaredNorm(v[..|v| - 1]) + Square(v[|v| - 1])
  }

  /** `n` is the Euclidean norm of `v`, as `np.linalg.norm` computes it (rounding aside). */
  predicate IsNorm(n: real, v: Vector) {
    n >= 0.0 && Square(n) == SquaredNorm(v)
  }

  /** Every entry of `v` is zero. */
  predicate IsZero(v: Vector) {
    forall j :: 0 <= j < |v| ==> v[j] == 0.0
  }

  /** `v / d` in numpy: every entry divided by `d`. */
  function Divide(v: Vector, d: real): (r: Vector)
    requires d != 0.0
    ensures |r| == |v|
  {
    seq(|v|, j requires 0 <= j < |v| => v[j] / d)
  }

  /** The norm a row is divided by: a zero norm is replaced by 1. */
  function Divisor(n: real): (d: real)
    ensures d != 0.0
  {
    if n == 0.0 then 1.0 else n
  }

  /** `matrix / norms` once the zero norms are 1: each row divided by its own norm. */
  function NormalizedRows(matrix: seq<Vector>, norms: seq<real>): (r: seq<Vector>)
    requires |norms| == |matrix|
    ensures |r| == |matrix|
  {
    seq(|matrix|, i requires 0 <= i < |matrix| => Divide(matrix[i], Divisor(norms[i])))
  }

  /**
   * _normalize_rows: `norms` holds the row norms; its zero entries are set
   * to 1 in place, and each row is divided by its entry.
   */
  method NormalizeRows(matrix: seq<Vector>, norms: array<real>) returns (r: seq<Vector>)
    requires norms.Length == |matrix|
    modifies norms
    ensures forall i :: 0 <= i < norms.Length ==> norms[i] == Divisor(old(norms[i]))
    ensures r == NormalizedRows(matrix, old(norms[..]))
  {
    ghost var given := norms[..];
    for i := 0 to norms.Length
      invariant forall j :: 0 <= j < i ==> norms[j] == Divisor(given[j])
      invariant forall j :: i <= j < norms.Length ==> norms[j] == given[j]
    {
      if norms[i] == 0.0 {
        norms[i] := 1.0;
      }
    }
    r := [];
    for i := 0 to |matrix|
      invariant |r| == i
      invariant forall j :: 0 <= j < i ==> r[j] == Divide(matrix[j], Divisor(given[j]))
    {
      r := r + [Divide(matrix[i], norms[i])];
    }
  }

  lemma PositiveProduct(x: real, y: real)
    requires x > 0.0 && y > 0.0
    ensures x * y > 0.0
  {
  }

  lemma SquarePositive(x: real)
    requires x != 0.0
    ensures Square(x) > 0.0
  {
    if x > 0.0 {
      PositiveProduct(x, Id(x));
    } else {
      PositiveProduct(-x, -Id(x));
      assert Square(x) == (-x) * (-Id(x));
    }
  }

  /** The squared norm is never negative, and is zero exactly for a zero vector. */
  lemma {:induction false} SquaredNormZero(v: Vector)
    ensures SquaredNorm(v) >= 0.0
    ensures SquaredNorm(v) == 0.0 <==> IsZero(v)
    decreases |v|
  {
    if v != [] {
      var n := |v|;
      var x := v[n - 1];
      var p := v[..n - 1];
      SquaredNormZero(p);
      if x != 0.0 {
        SquarePositive(x);
        assert !IsZero(v);
      } else {
        assert Square(x) == 0.0;
        if IsZero(p) {
          forall j | 0 <= j < n ensures v[j] == 0.0 {
            if j < n - 1 { assert p[j] == v[j]; }
          }
        } else {
          var j :| 0 <= j < n - 1 && p[j] != 0.0;
          assert v[j] == p[j];
        }
      }
    }
  }

  /** A row's norm is zero exactly when the row is all zeros. */
  lemma ZeroNormIffZeroRow(n: real, v: Vector)
    requires IsNorm(n, v)
    ensures n == 0.0 <==> IsZero(v)
  {
    SquaredNormZero(v);
    if n != 0.0 {
      SquarePositive(n);
    }
  }

  lemma QuotientSquare(x: real, d: real)
    requires d != 0.0
    ensures Square(x / d) * Square(d) == Square(x)
  {
    var y := x / d;
    assert y * d == x;
    assert Id(y) * Id(d) == x;
    assert Square(y) * Square(d) == (y * d) * (Id(y) * Id(d));
  }

  /** Dividing a vector by `d` divides its squared norm by the square of `d`. */
  lemma {:induction false} DivideSquaredNorm(v: Vector, d: real)
    requires d != 0.0
    ensures SquaredNorm(Divide(v, d)) * Square(d) == SquaredNorm(v)
    decreases |v|
  {
    var w := Divide(v, d);
    if v == [] {
      assert w == [];
    } else {
      var n := |v|;
      assert w[..n - 1] == Divide(v[..n - 1], d);
      DivideSquaredNorm(v[..n - 1], d);
      QuotientSquare(v[n - 1], d);
      assert w[n - 1] == v[n - 1] / d;
    }
  }

  lemma UnitFactor(x: real, m: real)
    requires m != 0.0 && x * m == m
    ensures x == 1.0
  {
    assert (x - 1.0) * m == 0.0;
  }

  /**
   * One row of _normalize_rows, divided by its norm with a zero norm read as
   * 1: a zero row stays as it is, any other row comes out of unit length.
   */
  lemma NormalizedRow(v: Vector, n: real)
    requires IsNorm(n, v)
    ensures IsZero(v) ==> Divide(v, Divisor(n)) == v
    ensures !IsZero(v) ==> SquaredNorm(Divide(v, Divisor(n))) == 1.0
  {
    ZeroNormIffZeroRow(n, v);
    if !IsZero(v) {
      DivideSquaredNorm(v, n);
      SquarePositive(n);
      UnitFactor(SquaredNorm(Divide(v, n)), Square(n));
    }
  }

  /**
   * What _normalize_rows promises of the matrix: the zero rows are left as
   * they are instead of being divided by zero, and every other row has unit
   * length.
   */
  lemma NormalizedRowsUnit(matrix: seq<Vector>, norms: seq<real>)
    requires |norms| == |matrix|
    requires forall i :: 0 <= i < |matrix| ==> IsNorm(norms[i], matrix[i])
    ensures forall i :: 0 <= i < |matrix| ==>
      && (IsZero(matrix[i]) ==> NormalizedRows(matrix, norms)[i] == matrix[i])
      && (!IsZero(matrix[i]) ==> SquaredNorm(NormalizedRows(matrix, norms)[i]) == 1.0)
  {
    forall i | 0 <= i < |matrix|
      ensures IsZero(matrix[i]) ==> NormalizedRows(matrix, norms)[i] == matrix[i]
      ensures !IsZero(matrix[i]) ==> SquaredNorm(NormalizedRows(matrix, norms)[i]) == 1.0
    {
      NormalizedRow(matrix[i], norms[i]);
    }
  }

  // ---------------------------------------------------------------------------
  // The scores: each normalized row against the normalized query

  /** The dot product of two vectors of the same length. */
  function Dot(a: Vector, b: Vector): real
    requires |a| == |b|
    decreases |a|
  {
    if a == [] then 0.0 else Dot(a[..|a| - 1], b[..|b| - 1]) + a[|a| - 1] * b[|b| - 1]
  }

  /** The least norm the query is divided by. */
  const MinQueryNorm: real := 0.000_000_000_001

  /** `max(norm, 1e-12)`: the query's divisor. */
  function QueryDivisor(n: real): (d: real)
    ensures d >= MinQueryNorm && d != 0.0
  {
    if n >= MinQueryNorm then n else MinQueryNorm
  }

  /** `normalized_embeddings @ q_norm`: one score per row. */
  function Scores(rows: seq<Vector>, q: Vector): (scores: seq<real>)
    requires SameWidth(rows, |q|)
    ensures |scores| == |rows|
  {
    seq(|rows|, i requires 0 <= i < |rows| => Dot(rows[i], q))
  }

  lemma QuotientProduct(x: real, y: real, c: real, d: real)
    requires c != 0.0 && d != 0.0
    ensures (x / c) * (y / d) * (c * d) == x * y
  {
    var a, b := x / c, y / d;
    assert a * c == x && b * d == y;
    assert a * b * (c * d) == (a * c) * (b * d);
  }

  /** Dividing the two sides of a dot product by `c` and `d` divides it by `c * d`. */
  lemma {:induction false} DotDivide(a: Vector, b: Vector, c: real, d: real)
    requires |a| == |b| && c != 0.0 && d != 0.0
    ensures Dot(Divide(a, c), Divide(b, d)) * (c * d) == Dot(a, b)
    decreases |a|
  {
    if a != [] {
      var n := |a|;
      var a', b' := Divide(a, c), Divide(b, d);
      DividePrefix(a, c, n - 1);
      DividePrefix(b, d, n - 1);
      var p, q := Dot(a'[..n - 1], b'[..n - 1]), Dot(a[..n - 1], b[..n - 1]);
      assert p * (c * d) == q by {
        DotDivide(a[..n - 1], b[..n - 1], c, d);
      }
      DotLast(a', b');
      DotLast(a, b);
      DotStep(p, q, a[n - 1], b[n - 1], c, d, a'[n - 1], b'[n - 1], Dot(a', b'), Dot(a, b));
    } else {
      assert Divide(a, c) == [];
    }
  }

  /** A dot product is the one of the prefixes plus the product of the last entries. */
  lemma DotLast(a: Vector, b: Vector)
    requires |a| == |b| && a != []
    ensures Dot(a, b) == Dot(a[..|a| - 1], b[..|b| - 1]) + a[|a| - 1] * b[|b| - 1]
  {
  }

  /** Dividing a vector and then taking a prefix is taking the prefix and then dividing. */
  lemma DividePrefix(v: Vector, d: real, k: nat)
    requires d != 0.0 && k <= |v|
    ensures Divide(v, d)[..k] == Divide(v[..k], d)
  {
  }

  /** One more term of a dot product, divided on both sides by `c` and `d`. */
  lemma DotStep(p: real, q: real, x: real, y: real, c: real, d: real, x': real, y': real, scaled: real, plain: real)
    requires c != 0.0 && d != 0.0 && p * (c * d) == q
    requires x' == x / c && y' == y / d
    requires scaled == p + x' * y' && plain == q + x * y
    ensures scaled * (c * d) == plain
  {
    QuotientProduct(x, y, c, d);
    SumTimes(p, q, (x / c) * (y / d), x * y, c * d);
  }

  /** Two products by the same factor add up. */
  lemma SumTimes(x: real, x': real, y: real, y': real, m: real)
    requires x * m == x' && y * m == y'
    ensures (x + y) * m == x' + y'
  {
  }

  lemma {:induction false} DotZero(a: Vector, b: Vector)
    requires |a| == |b| && IsZero(a)
    ensures Dot(a, b) == 0.0
    decreases |a|
  {
    if a != [] {
      DotZero(a[..|a| - 1], b[..|b| - 1]);
    }
  }

  /** A zero row scores 0. */
  lemma ZeroRowScore(v: Vector, n: real, q: Vector, d: real)
    requires IsZero(v) && |v| == |q| && d != 0.0
    ensures Dot(Divide(v, Divisor(n)), Divide(q, d)) == 0.0
  {
    var w := Divide(v, Divisor(n));
    assert IsZero(w);
    DotZero(w, Divide(q, d));
  }

  /** Any other row's score, times both divisors, is its dot product with the raw query. */
  lemma RowScore(v: Vector, n: real, q: Vector, d: real)
    requires IsNorm(n, v) && !IsZero(v) && |v| == |q| && d != 0.0
    ensures Dot(Divide(v, Divisor(n)), Divide(q, d)) * (n * d) == Dot(v, q)
  {
    ZeroNormIffZeroRow(n, v);
    RowScoreNonZero(v, n, q, d);
  }

  lemma RowScoreNonZero(v: Vector, n: real, q: Vector, d: real)
    requires n != 0.0 && |v| == |q| && d != 0.0
    ensures Dot(Divide(v, Divisor(n)), Divide(q, d)) * (n * d) == Dot(v, q)
  {
    DotDivide(v, q, n, d);
  }

  /**
   * `score` is the cosine similarity of `v` and `q` as retrieve computes it:
   * 0 for a zero row, else the dot product over the row's norm and the
   * query's divisor.
   */
  predicate IsCosine(score: real, v: Vector, n: real, q: Vector, d: real)
    requires |v| == |q|
  {
    && (IsZero(v) ==> score == 0.0)
    && (!IsZero(v) ==> score * (n * d) == Dot(v, q))
  }

  /** The scores of retrieve are the cosine similarities of the rows and the query. */
  lemma ScoresAreCosines(matrix: seq<Vector>, norms: seq<real>, q: Vector, qNorm: real)
    requires |norms| == |matrix| && SameWidth(matrix, |q|)
    requires forall i :: 0 <= i < |matrix| ==> IsNorm(norms[i], matrix[i])
    ensures SameWidth(NormalizedRows(matrix, norms), |q|)
    ensures var scores := Scores(NormalizedRows(matrix, norms), Divide(q, QueryDivisor(qNorm)));
      forall i :: 0 <= i < |matrix| ==> IsCosine(scores[i], matrix[i], norms[i], q, QueryDivisor(qNorm))
  {
    var rows := NormalizedRows(matrix, norms);
    var d := QueryDivisor(qNorm);
    var qd := Divide(q, d);
    assert SameWidth(rows, |q|);
    var scores := Scores(rows, qd);
    forall i | 0 <= i < |matrix|
      ensures IsCosine(scores[i], matrix[i], norms[i], q, d)
    {
      RowCosine(matrix[i], norms[i], q, d);
      assert scores[i] == Dot(Divide(matrix[i], Divisor(norms[i])), qd);
    }
  }

  lemma RowCosine(v: Vector, n: real, q: Vector, d: real)
    requires IsNorm(n, v) && |v| == |q| && d != 0.0
    ensures IsCosine(Dot(Divide(v, Divisor(n)), Divide(q, d)), v, n, q, d)
  {
    if IsZero(v) {
      ZeroRowScore(v, n, q, d);
    } else {
      RowScore(v, n, q, d);
    }
  }

  // ---------------------------------------------------------------------------
  // np.argsort(scores)[-k:][::-1]

  predicate InRange(order: seq<int>, n: int) {
    forall p :: 0 <= p < |order| ==> 0 <= order[p] < n
  }

  predicate Distinct(order: seq<int>) {
    forall p, q :: 0 <= p < q < |order| ==> order[p] != order[q]
  }

  /** The scores at the positions of `order` never decrease. */
  predicate Ascending(scores: seq<real>, order: seq<int>)
    requires InRange(order, |scores|)
  {
    forall p, q :: 0 <= p < q < |order| ==> scores[order[p]] <= scores[order[q]]
  }

  /**
   * What `np.argsort` returns: every index of `scores` once, in an order in
   * which the scores never decrease. Ties may come in any order.
   */
  predicate IsArgSort(scores: seq<real>, order: seq<int>) {
    && |order| == |scores|
    && InRange(order, |scores|)
    && Distinct(order)
    && (forall i :: 0 <= i < |scores| ==> i in order)
    && Ascending(scores, order)
  }

  /** `i` inserted into `order` after every index whose score is not above its own. */
  function InsertByScore(scores: seq<real>, i: int, order: seq<int>): (r: seq<int>)
    requires 0 <= i < |scores| && InRange(order, |scores|)
    ensures |r| == |order| + 1 && InRange(r, |scores|)
  {
    if order == [] then [i]
    else if scores[i] < scores[order[0]] then [i] + order
    else [order[0]] + InsertByScore(scores, i, order[1..])
  }

  /** The indices `0 .. n - 1` sorted by score, one insertion at a time. */
  function ArgSortPrefix(scores: seq<real>, n: nat): (r: seq<int>)
    requires n <= |scores|
    ensures |r| == n && InRange(r, |scores|)
  {
    if n == 0 then [] else InsertByScore(scores, n - 1, ArgSortPrefix(scores, n - 1))
  }

  lemma {:induction false} InsertMultiset(scores: seq<real>, i: int, order: seq<int>)
    requires 0 <= i < |scores| && InRange(order, |scores|)
    ensures multiset(InsertByScore(scores, i, order)) == multiset(order) + multiset{i}
    decreases |order|
  {
    if order != [] && scores[i] >= scores[order[0]] {
      InsertMultiset(scores, i, order[1..]);
      assert order == [order[0]] + order[1..];
    }
  }

  lemma {:induction false} ArgSortPrefixMultiset(scores: seq<real>, n: nat)
    requires n <= |scores|
    ensures multiset(ArgSortPrefix(scores, n)) == multiset(Range(n))
  {
    if n > 0 {
      var before := ArgSortPrefix(scores, n - 1);
      ArgSortPrefixMultiset(scores, n - 1);
      InsertMultiset(scores, n - 1, before);
      RangeSnoc(n - 1);
      assert multiset(Range(n)) == multiset(Range(n - 1)) + multiset{n - 1};
    }
  }

  /** The indices `0 .. n - 1` in order. */
  function Range(n: nat): (r: seq<int>)
    ensures |r| == n
    ensures forall p :: 0 <= p < n ==> r[p] == p
  {
    seq(n, p => p)
  }

  lemma RangeSnoc(n: nat)
    ensures Range(n + 1) == Range(n) + [n]
  {
  }

  /** A stable argsort: equal scores keep their index order. */
  function ArgSort(scores: seq<real>): (order: seq<int>) {
    ArgSortPrefix(scores, |scores|)
  }

  lemma InRangeOfMultiset(order: seq<int>, n: nat)
    requires multiset(order) == multiset(Range(n))
    ensures InRange(order, n)
    ensures forall i :: 0 <= i < n ==> i in order
  {
    forall p | 0 <= p < |order| ensures 0 <= order[p] < n {
      assert order[p] in multiset(Range(n));
    }
    forall i | 0 <= i < n ensures i in order {
      assert Range(n)[i] == i;
      assert i in multiset(Range(n));
    }
  }

  lemma InsertInRange(scores: seq<real>, i: int, order: seq<int>)
    requires 0 <= i < |scores| && InRange(order, |scores|)
    ensures InRange(InsertByScore(scores, i, order), |scores|)
    ensures forall x :: x in InsertByScore(scores, i, order) <==> x == i || x in order
  {
    var r := InsertByScore(scores, i, order);
    InsertMultiset(scores, i, order);
    assert forall x :: x in r <==> x in multiset(r);
  }

  /** `[a] + t` is ascending when `t` is and no score in `t` is below `a`'s. */
  lemma AscendingCons(scores: seq<real>, a: int, t: seq<int>)
    requires 0 <= a < |scores| && InRange(t, |scores|) && Ascending(scores, t)
    requires forall q :: 0 <= q < |t| ==> scores[a] <= scores[t[q]]
    ensures InRange([a] + t, |scores|) && Ascending(scores, [a] + t)
  {
    var r := [a] + t;
    forall p, q | 0 <= p < q < |r| ensures scores[r[p]] <= scores[r[q]] {
      assert r[q] == t[q - 1];
      if p > 0 {
        assert r[p] == t[p - 1];
      }
    }
  }

  lemma {:induction false} InsertAscending(scores: seq<real>, i: int, order: seq<int>)
    requires 0 <= i < |scores| && InRange(order, |scores|) && Ascending(scores, order)
    ensures InRange(InsertByScore(scores, i, order), |scores|)
    ensures Ascending(scores, InsertByScore(scores, i, order))
    decreases |order|
  {
    InsertInRange(scores, i, order);
    if order != [] {
      var a, rest := order[0], order[1..];
      if scores[i] < scores[a] {
        assert InsertByScore(scores, i, order) == [i] + order;
        AscendingCons(scores, i, order);
      } else {
        assert Ascending(scores, rest) by {
          forall p, q | 0 <= p < q < |rest| ensures scores[rest[p]] <= scores[rest[q]] {
            assert rest[p] == order[p + 1] && rest[q] == order[q + 1];
          }
        }
        InsertAscending(scores, i, rest);
        var t := InsertByScore(scores, i, rest);
        InsertInRange(scores, i, rest);
        forall q | 0 <= q < |t| ensures scores[a] <= scores[t[q]] {
          if t[q] != i {
            assert t[q] in t;
            var p :| 0 <= p < |rest| && rest[p] == t[q];
            assert order[p + 1] == t[q];
          }
        }
        AscendingCons(scores, a, t);
      }
    }
  }

  lemma {:induction false} ArgSortPrefixAscending(scores: seq<real>, n: nat)
    requires n <= |scores|
    ensures InRange(ArgSortPrefix(scores, n), |scores|)
    ensures Ascending(scores, ArgSortPrefix(scores, n))
  {
    if n > 0 {
      var before := ArgSortPrefix(scores, n - 1);
      ArgSortPrefixAscending(scores, n - 1);
      InsertAscending(scores, n - 1, before);
      assert ArgSortPrefix(scores, n) == InsertByScore(scores, n - 1, before);
    }
  }

  /** Each element of a sequence whose multiset is that of `Range(n)` appears once. */
  lemma DistinctOfMultiset(order: seq<int>, n: nat)
    requires multiset(order) == multiset(Range(n))
    ensures Distinct(order)
  {
    RangeOnce(n);
    forall p, q | 0 <= p < q < |order| ensures order[p] != order[q] {
      if order[p] == order[q] {
        TwiceInMultiset(order, p, q);
        assert false;
      }
    }
  }

  lemma {:induction false} RangeOnce(n: nat)
    ensures forall x :: multiset(Range(n))[x] <= 1
  {
    if n > 0 {
      RangeOnce(n - 1);
      RangeSnoc(n - 1);
      assert n - 1 !in Range(n - 1);
    }
  }

  lemma TwiceInMultiset(order: seq<int>, p: int, q: int)
    requires 0 <= p < q < |order| && order[p] == order[q]
    ensures multiset(order)[order[p]] >= 2
  {
    assert order == order[..p] + [order[p]] + order[p + 1..q] + [order[q]] + order[q + 1..];
  }

  /** The argsort of the model is one `np.argsort` may return. */
  lemma ArgSortIsArgSort(scores: seq<real>)
    ensures IsArgSort(scores, ArgSort(scores))
  {
    var order := ArgSort(scores);
    ArgSortPrefixMultiset(scores, |scores|);
    InRangeOfMultiset(order, |scores|);
    DistinctOfMultiset(order, |scores|);
    ArgSortPrefixAscending(scores, |scores|);
  }

  /** `order[-k:][::-1]`: the last `k` entries of the argsort, highest score first. */
  function TopIndices(order: seq<int>, k: int): seq<int> {
    Reverse(Slice(order, -k, |order|))
  }

  /**
   * How many rows `[-k:]` keeps of `n`: `k` of them (all when fewer) for a
   * positive `k`, all of them for 0 (`[-0:]` is `[0:]`), and all but the
   * first `-k` for a negative `k`.
   */
  function TopCount(k: int, n: nat): nat {
    if k > 0 then Min(k, n) else if k == 0 then n else Max(n + k, 0)
  }

  /**
   * `top` is a top-k choice for `scores`: `TopCount(k, n)` distinct row
   * indices, highest score first, with no row left out scoring above a
   * chosen one.
   */
  predicate IsTopSelection(scores: seq<real>, top: seq<int>, k: int) {
    && |top| == TopCount(k, |scores|)
    && InRange(top, |scores|)
    && Distinct(top)
    && (forall p, q :: 0 <= p < q < |top| ==> scores[top[p]] >= scores[top[q]])
    && (forall i, p :: 0 <= i < |scores| && i !in top && 0 <= p < |top| ==> scores[top[p]] >= scores[i])
  }

  /** The top indices are the argsort read backwards from its end, `TopCount(k, n)` of them. */
  lemma TopIndicesShape(order: seq<int>, k: int)
    ensures |TopIndices(order, k)| == TopCount(k, |order|)
    ensures forall p :: 0 <= p < |TopIndices(order, k)| ==> TopIndices(order, k)[p] == order[|order| - 1 - p]
  {
    var n := |order|;
    var start := SliceBound(-k, n);
    assert Slice(order, -k, n) == order[start..];
  }

  /** The top indices taken from any argsort order whatever, ties broken any way, are a top-k choice. */
  lemma TopIndicesSelect(scores: seq<real>, order: seq<int>, k: int)
    requires IsArgSort(scores, order)
    ensures IsTopSelection(scores, TopIndices(order, k), k)
  {
    var n := |order|;
    var top := TopIndices(order, k);
    TopIndicesShape(order, k);
    TopOrdered(scores, order, top);
    TopDominates(scores, order, top);
  }

  lemma TopOrdered(scores: seq<real>, order: seq<int>, top: seq<int>)
    requires IsArgSort(scores, order) && |top| <= |order|
    requires forall p :: 0 <= p < |top| ==> top[p] == order[|order| - 1 - p]
    ensures InRange(top, |scores|) && Distinct(top)
    ensures forall p, q :: 0 <= p < q < |top| ==> scores[top[p]] >= scores[top[q]]
  {
    var n := |order|;
    forall p, q | 0 <= p < q < |top| ensures top[p] != top[q] && scores[top[p]] >= scores[top[q]] {
      assert top[p] == order[n - 1 - p] && top[q] == order[n - 1 - q];
    }
  }

  lemma InTop(order: seq<int>, top: seq<int>, j: int)
    requires |top| <= |order| && |order| - |top| <= j < |order|
    requires forall p :: 0 <= p < |top| ==> top[p] == order[|order| - 1 - p]
    ensures order[j] in top
  {
    assert top[|order| - 1 - j] == order[j];
  }

  lemma TopDominates(scores: seq<real>, order: seq<int>, top: seq<int>)
    requires IsArgSort(scores, order) && |top| <= |order|
    requires forall p :: 0 <= p < |top| ==> top[p] == order[|order| - 1 - p]
    ensures InRange(top, |scores|)
    ensures forall i, p :: 0 <= i < |scores| && i !in top && 0 <= p < |top| ==> scores[top[p]] >= scores[i]
  {
    var n := |order|;
    forall i, p | 0 <= i < |scores| && i !in top && 0 <= p < |top| ensures scores[top[p]] >= scores[i] {
      assert i in order;
      var j :| 0 <= j < n && order[j] == i;
      if j >= n - |top| {
        InTop(order, top, j);
        assert false;
      }
      assert top[p] == order[n - 1 - p];
    }
  }

  // ===========================================================================
  // retrieve

  /** One retrieved chunk as retrieve returns it: the chunk's fields and its score. */
  datatype Doc = Doc(sourceFile: string, page: int, text: string, score: real)

  /** A request to the remote service, in the order it is made. */
  datatype Call = QueryEmbedding(input: string) | ChatCompletion(prompt: string)

  /** What retrieve and answer_question find outside the model. */
  datatype RagEnv = RagEnv(
    settings: Settings,
    store: IndexStore,
    parse: Parser,
    /** the embedding service on the question: a vector, or the error of the request */
    embedQuery: string -> Result<Vector>,
    /** `np.linalg.norm` of one vector */
    norm: Vector -> real,
    /** the chat service on a prompt: the reply's content (None when it has none), or the error */
    chat: string -> Result<Option<string>>)

  /** The outcome of one operation and the requests it made. */
  datatype RagRun<T> = RagRun(outcome: Result<T>, calls: seq<Call>)

  const MismatchMessage := "Index mismatch: chunks and embeddings length differ."

  /**
   * numpy's AxisError, a ValueError, for `norm(..., axis=1)` on a
   * one-dimensional array (its exact text is not modelled).
   */
  const AxisMessage := "axis 1 is out of bounds for array of dimension 1"

  /** numpy's error for a query whose width is not that of the rows (its exact text is not modelled). */
  const ShapeMessage := "matmul: mismatch in core dimension"

  /** The scores of retrieve: every normalized row against the normalized query. */
  function QueryScores(norm: Vector -> real, embeddings: seq<Vector>, q: Vector): (scores: seq<real>)
    requires SameWidth(embeddings, |q|)
    ensures |scores| == |embeddings|
  {
    var rows := NormalizedRows(embeddings, Map(norm, embeddings));
    assert SameWidth(rows, |q|);
    Scores(rows, Divide(q, QueryDivisor(norm(q))))
  }

  /** The documents for the chosen rows, in the order chosen. */
  function DocsAt(chunks: seq<ChunkRecord>, scores: seq<real>, top: seq<int>): (docs: seq<Doc>)
    requires |scores| == |chunks| && InRange(top, |chunks|)
    ensures |docs| == |top|
  {
    seq(|top|, j requires 0 <= j < |top| =>
      var c := chunks[top[j]];
      Doc(c.sourceFile, c.page, c.text, scores[top[j]]))
  }

  /** The row indices retrieve returns, best first. */
  function Ranked(scores: seq<real>, k: int): (top: seq<int>)
    ensures InRange(top, |scores|)
  {
    ArgSortIsArgSort(scores);
    TopIndicesSelect(scores, ArgSort(scores), k);
    TopIndices(ArgSort(scores), k)
  }

  /** retrieve once the index is loaded: the length check, the one query request, the ranking. */
  function RankChunks(env: RagEnv, chunks: seq<ChunkRecord>, embeddings: Matrix, question: string, k: int)
    : RagRun<seq<Doc>>
  {
    if |chunks| != ArrayLen(embeddings) then RagRun(Failure(ValueError(MismatchMessage)), [])
    else
      var calls := [QueryEmbedding(question)];
      var q := env.embedQuery(question);
      if q.Failure? then RagRun(Failure(q.error), calls)
      else if embeddings.Flat? then RagRun(Failure(ValueError(AxisMessage)), calls)
      else if embeddings.width != |q.value| then RagRun(Failure(ValueError(ShapeMessage)), calls)
      else
        var scores := QueryScores(env.norm, embeddings.rows, q.value);
        RagRun(Success(DocsAt(chunks, scores, Ranked(scores, k))), calls)
  }

  /** retrieve: the settings, the index, then the ranking. */
  function Retrieve(env: RagEnv, question: string, k: int): (r: RagRun<seq<Doc>>)
    ensures r.calls == [] || r.calls == [QueryEmbedding(question)]
    ensures r.outcome.Success? ==> r.calls == [QueryEmbedding(question)]
  {
    var settings := GetSettings(env.settings);
    if settings.Failure? then RagRun(Failure(settings.error), [])
    else
      var index := LoadIndex(env.store, env.parse);
      if index.Failure? then RagRun(Failure(index.error), [])
      else RankChunks(env, index.value.0, index.value.1, question, k)
  }

  // ---------------------------------------------------------------------------
  // What retrieve promises

  /**
   * No request is made unless the key is set, the index loads and its two
   * files have as many entries; each of those failures is its own error.
   */
  lemma RetrieveChecksFirst(env: RagEnv, question: string, k: int)
    ensures Retrieve(env, question, k).calls == [] <==>
      || env.settings.apiKey == []
      || LoadIndex(env.store, env.parse).Failure?
      || |LoadIndex(env.store, env.parse).value.0| != ArrayLen(LoadIndex(env.store, env.parse).value.1)
    ensures env.settings.apiKey == [] ==> Retrieve(env, question, k).outcome == Failure(ValueError(MissingKeyMessage))
    ensures env.settings.apiKey != [] && LoadIndex(env.store, env.parse).Failure? ==>
      Retrieve(env, question, k).outcome == Failure(LoadIndex(env.store, env.parse).error)
    ensures (env.settings.apiKey != [] && LoadIndex(env.store, env.parse).Success?
             && |LoadIndex(env.store, env.parse).value.0| != ArrayLen(LoadIndex(env.store, env.parse).value.1)) ==>
      Retrieve(env, question, k).outcome == Failure(ValueError(MismatchMessage))
  {
  }

  /**
   * A successful retrieve made the one query request and returned the
   * chunks of a top-k choice for the scores, each with its score.
   */
  lemma RetrieveSelects(env: RagEnv, question: string, k: int)
    requires Retrieve(env, question, k).outcome.Success?
    ensures env.settings.apiKey != [] && LoadIndex(env.store, env.parse).Success?
    ensures var (chunks, embeddings) := LoadIndex(env.store, env.parse).value;
      && |chunks| == ArrayLen(embeddings)
      && env.embedQuery(question).Success?
      && embeddings.Grid? && embeddings.width == |env.embedQuery(question).value|
      && var scores := QueryScores(env.norm, embeddings.rows, env.embedQuery(question).value);
         && Retrieve(env, question, k).calls == [QueryEmbedding(question)]
         && exists top :: IsTopSelection(scores, top, k) && InRange(top, |chunks|)
              && Retrieve(env, question, k).outcome.value == DocsAt(chunks, scores, top)
  {
    var (chunks, embeddings) := LoadIndex(env.store, env.parse).value;
    var scores := QueryScores(env.norm, embeddings.rows, env.embedQuery(question).value);
    var top := Ranked(scores, k);
    ArgSortIsArgSort(scores);
    TopIndicesSelect(scores, ArgSort(scores), k);
    assert IsTopSelection(scores, top, k);
  }

  /**
   * `[-0:]` is `[0:]`, so with `k = 0` every row comes back, best first,
   * instead of none.
   */
  lemma RankedZeroKeepsAll(scores: seq<real>)
    ensures |Ranked(scores, 0)| == |scores|
    ensures forall i :: 0 <= i < |scores| ==> i in Ranked(scores, 0)
    ensures forall p, q :: 0 <= p < q < |scores| ==> scores[Ranked(scores, 0)[p]] >= scores[Ranked(scores, 0)[q]]
  {
    var order := ArgSort(scores);
    ArgSortIsArgSort(scores);
    TopIndicesShape(order, 0);
    TopIndicesSelect(scores, order, 0);
    forall i | 0 <= i < |scores|
      ensures i in Ranked(scores, 0)
    {
      assert i in order;
      var j :| 0 <= j < |order| && order[j] == i;
      assert Ranked(scores, 0)[|order| - 1 - j] == i;
    }
  }

  /**
   * An empty index whose matrix has no rows but the query's width gives no
   * documents, not an error, whatever `k` is.
   */
  lemma RetrieveEmptyStore(env: RagEnv, question: string, k: int, width: nat)
    requires env.settings.apiKey != []
    requires LoadIndex(env.store, env.parse) == Success(([], Grid(width, [])))
    requires env.embedQuery(question).Success? && |env.embedQuery(question).value| == width
    ensures Retrieve(env, question, k) == RagRun(Success([]), [QueryEmbedding(question)])
  {
  }

  /**
   * Once the counts agree and the query is embedded, the shape of the saved
   * array can still fail: a one-dimensional array (the `(0,)` array of an
   * empty build among them) in `_normalize_rows`, and a matrix whose width is
   * not the query's at the product; either comes after the query request.
   */
  lemma RetrieveShapeErrors(env: RagEnv, question: string, k: int)
    requires env.settings.apiKey != [] && LoadIndex(env.store, env.parse).Success?
    requires |LoadIndex(env.store, env.parse).value.0| == ArrayLen(LoadIndex(env.store, env.parse).value.1)
    requires env.embedQuery(question).Success?
    ensures var m := LoadIndex(env.store, env.parse).value.1;
      m.Flat? ==> Retrieve(env, question, k) == RagRun(Failure(ValueError(AxisMessage)), [QueryEmbedding(question)])
    ensures var m := LoadIndex(env.store, env.parse).value.1;
      m.Grid? && m.width != |env.embedQuery(question).value| ==>
        Retrieve(env, question, k) == RagRun(Failure(ValueError(ShapeMessage)), [QueryEmbedding(question)])
    ensures var m := LoadIndex(env.store, env.parse).value.1;
      Retrieve(env, question, k).outcome.Success? <==> m.Grid? && m.width == |env.embedQuery(question).value|
  {
  }

  // ===========================================================================
  // _build_context

  /** The block for the `n`-th document: its header line, then its text. */
  function Block(n: int, d: Doc): (b: string)
    ensures b != [] && b[0] == '['
  {
    "[" + IntToString(n) + "] Source: " + d.sourceFile + " | Page: " + IntToString(d.page) + "\n" + d.text
  }

  /** The blocks of the documents, numbered from 1. */
  function Blocks(docs: seq<Doc>): (bs: seq<string>)
    ensures |bs| == |docs|
  {
    seq(|docs|, i requires 0 <= i < |docs| => Block(i + 1, docs[i]))
  }

  /** The context: the blocks in order, a blank line between two. */
  function Context(docs: seq<Doc>): string {
    Join(Blocks(docs), "\n\n")
  }

  /** _build_context: one block per document, numbered as `enumerate(docs, start=1)` does, then joined. */
  method BuildContext(docs: seq<Doc>) returns (context: string)
    ensures context == Context(docs)
  {
    var parts: seq<string> := [];
    for idx := 0 to |docs|
      invariant parts == Blocks(docs[..idx])
    {
      parts := parts + [Block(idx + 1, docs[idx])];
    }
    assert docs[..|docs|] == docs;
    context := Join(parts, "\n\n");
  }

  /** The context is empty exactly when there are no documents. */
  lemma ContextEmpty(docs: seq<Doc>)
    ensures Context(docs) == [] <==> docs == []
  {
    if docs != [] {
      ContextStart(docs);
    }
  }

  lemma JoinStart(parts: seq<string>, sep: string)
    requires parts != []
    ensures |parts[0]| <= |Join(parts, sep)| && Join(parts, sep)[..|parts[0]|] == parts[0]
  {
    if |parts| > 1 {
      var j := Join(parts, sep);
      assert j == parts[0] + (sep + Join(parts[1..], sep));
    }
  }

  /** The context opens with the first document's block. */
  lemma ContextStart(docs: seq<Doc>)
    requires docs != []
    ensures var b := Block(1, docs[0]); |b| <= |Context(docs)| && Context(docs)[..|b|] == b
  {
    JoinStart(Blocks(docs), "\n\n");
  }

  /** One more document adds a blank line and its block, numbered after the others. */
  lemma ContextSnoc(docs: seq<Doc>, d: Doc)
    requires docs != []
    ensures Context(docs + [d]) == Context(docs) + "\n\n" + Block(|docs| + 1, d)
  {
    assert Blocks(docs + [d]) == Blocks(docs) + [Block(|docs| + 1, d)];
    JoinSnoc(Blocks(docs), Block(|docs| + 1, d), "\n\n");
  }

  // ===========================================================================
  // answer_question

  const FallbackAnswer := "I could not find relevant content in the indexed papers."
  const NoAnswerText := "No answer returned."

  /** The prompt up to the question. */
  const PromptHead := "You are an AI research assistant." + " Answer only from the context below.\n"
    + "If the answer is not present in context, say: \"I don't know based on the indexed papers.\"\n\n"
    + "Question: "
  /** The prompt between the question and the context. */
  const PromptMid := "\n\nContext:\n"
  /** The prompt after the context. */
  const PromptTail := "\n\nAnswer with concise points and include source citations like [source_file p.X]."

  /** The prompt's f-string, which opens and closes with a line break, and then `.strip()`. */
  function Prompt(question: string, context: string): string {
    Strip("\n" + PromptHead + question + PromptMid + context + PromptTail + "\n")
  }

  /** `k or settings.retrieve_k`: an absent or zero `k` falls back to the setting. */
  function TopK(k: Option<int>, s: Settings): int {
    if k.Some? && k.value != 0 then k.value else s.retrieveK
  }

  /** `content or "No answer returned."`: an absent or empty reply is replaced. */
  function AnswerText(content: Option<string>): (answer: string)
    ensures answer != []
  {
    if content.Some? && content.value != [] then content.value else NoAnswerText
  }

  /** answer_question: the documents, then one chat request on the prompt built from them. */
  function AnswerQuestion(env: RagEnv, question: string, k: Option<int>): (r: RagRun<(string, seq<Doc>)>)
    ensures env.settings.apiKey == [] ==> r == RagRun(Failure(ValueError(MissingKeyMessage)), [])
    ensures r.outcome.Success? ==> r.outcome.value.0 != []
  {
    var settings := GetSettings(env.settings);
    if settings.Failure? then RagRun(Failure(settings.error), [])
    else Answer(env, question, Retrieve(env, question, TopK(k, settings.value)))
  }

  /** answer_question once retrieve has run: the fallback, or the chat request and its reply. */
  function Answer(env: RagEnv, question: string, retrieved: RagRun<seq<Doc>>): RagRun<(string, seq<Doc>)> {
    if retrieved.outcome.Failure? then RagRun(Failure(retrieved.outcome.error), retrieved.calls)
    else if retrieved.outcome.value == [] then RagRun(Success((FallbackAnswer, [])), retrieved.calls)
    else
      var docs := retrieved.outcome.value;
      var prompt := Prompt(question, Context(docs));
      var calls := retrieved.calls + [ChatCompletion(prompt)];
      var reply := env.chat(prompt);
      if reply.Failure? then RagRun(Failure(reply.error), calls)
      else RagRun(Success((AnswerText(reply.value), docs)), calls)
  }

  // ---------------------------------------------------------------------------
  // What answer_question promises

  /**
   * `.strip()` of a template framed by one line break on each side gives back
   * the template, when its fixed head and tail have no space at the outer ends.
   */
  lemma StripFramed(head: string, question: string, mid: string, context: string, tail: string)
    requires head != [] && !IsSpace(head[0])
    requires tail != [] && !IsSpace(tail[|tail| - 1])
    ensures Strip("\n" + head + question + mid + context + tail + "\n") == head + question + mid + context + tail
  {
    var body := head + question + mid + context + tail;
    assert body[0] == head[0] && body[|body| - 1] == tail[|tail| - 1];
    assert "\n" + head + question + mid + context + tail + "\n" == "\n" + body + "\n";
    StripNewlines(body);
  }

  /** Text that starts and ends with a non-space loses exactly the line break on each side. */
  lemma StripNewlines(body: string)
    requires body != [] && !IsSpace(body[0]) && !IsSpace(body[|body| - 1])
    ensures Strip("\n" + body + "\n") == body
  {
    assert LStrip("\n" + body + "\n") == body + "\n" by {
      assert ("\n" + body + "\n")[1..] == body + "\n";
      assert (body + "\n")[0] == body[0];
    }
    assert RStrip(body + "\n") == body by {
      assert (body + "\n")[..|body|] == body;
    }
  }

  lemma PromptEnds()
    ensures PromptHead != [] && PromptHead[0] == 'Y'
    ensures PromptTail != [] && PromptTail[|PromptTail| - 1] == '.'
  {
    var intro := "You are an AI research assistant.";
    assert intro[0] == 'Y';
  }

  /** The stripped prompt is the template's text between its first and last line break. */
  lemma PromptText(question: string, context: string)
    ensures Prompt(question, context) == PromptHead + question + PromptMid + context + PromptTail
  {
    PromptEnds();
    StripFramed(PromptHead, question, PromptMid, context, PromptTail);
  }

  /** The reply's text is never empty, and it is the reply itself exactly when the reply has text. */
  lemma AnswerTextChoice(content: Option<string>)
    ensures AnswerText(content) != []
    ensures (content.Some? && AnswerText(content) == content.value) <==> (content.Some? && content.value != [])
  {
  }

  /** retrieve makes query requests only. */
  lemma RetrieveOnlyQueries(env: RagEnv, question: string, k: int)
    ensures forall c :: c in Retrieve(env, question, k).calls ==> c == QueryEmbedding(question)
  {
  }

  /**
   * Exactly when retrieve finds documents is a chat request made, after
   * retrieve's requests and on the prompt built from those documents;
   * otherwise the answer is the fallback text with no documents, or
   * retrieve's error.
   */
  lemma AnswerChatsOnlyWithDocs(env: RagEnv, question: string, retrieved: RagRun<seq<Doc>>)
    requires forall c :: c in retrieved.calls ==> c.QueryEmbedding?
    ensures retrieved.outcome.Success? && retrieved.outcome.value == [] ==>
      Answer(env, question, retrieved) == RagRun(Success((FallbackAnswer, [])), retrieved.calls)
    ensures retrieved.outcome.Success? && retrieved.outcome.value != [] ==>
      Answer(env, question, retrieved).calls
      == retrieved.calls + [ChatCompletion(Prompt(question, Context(retrieved.outcome.value)))]
    ensures retrieved.outcome.Failure? ==>
      Answer(env, question, retrieved) == RagRun(Failure(retrieved.outcome.error), retrieved.calls)
    ensures (exists p :: ChatCompletion(p) in Answer(env, question, retrieved).calls)
      <==> retrieved.outcome.Success? && retrieved.outcome.value != []
  {
    var r := Answer(env, question, retrieved);
    if retrieved.outcome.Success? && retrieved.outcome.value != [] {
      var p := Prompt(question, Context(retrieved.outcome.value));
      assert r.calls == retrieved.calls + [ChatCompletion(p)];
      assert r.calls[|retrieved.calls|] == ChatCompletion(p);
    } else {
      assert r.calls == retrieved.calls;
    }
  }

  /**
   * answer_question asks retrieve for `k`, or for the configured count when
   * `k` is absent or zero; without a key it fails before any request.
   */
  lemma AnswerQuestionRetrieves(env: RagEnv, question: string, k: Option<int>)
    ensures env.settings.apiKey == [] ==>
      AnswerQuestion(env, question, k) == RagRun(Failure(ValueError(MissingKeyMessage)), [])
    ensures env.settings.apiKey != [] ==>
      && AnswerQuestion(env, question, k) == Answer(env, question, Retrieve(env, question, TopK(k, env.settings)))
      && TopK(k, env.settings) == (if k.None? || k.value == 0 then env.settings.retrieveK else k.value)
  {
  }

  /** A successful answer returns the retrieved documents, beside a reply text that is never empty. */
  lemma AnswerReturnsDocs(env: RagEnv, question: string, retrieved: RagRun<seq<Doc>>)
    requires Answer(env, question, retrieved).outcome.Success?
    ensures retrieved.outcome.Success?
    ensures Answer(env, question, retrieved).outcome.value.1 == retrieved.outcome.value
    ensures Answer(env, question, retrieved).outcome.value.0 != []
    ensures retrieved.outcome.value != [] ==>
      Answer(env, question, retrieved).outcome.value.0
      == AnswerText(env.chat(Prompt(question, Context(retrieved.outcome.value))).value)
  {
  }
}

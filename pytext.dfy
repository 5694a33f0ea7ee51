/**
 * The parts of Python's string and sequence semantics the pipeline relies on:
 * slicing with Python's bound rules, the whitespace set that `str.split()`,
 * `str.strip()` and the regular expression `\s` share, `str.join`, `str(int)`
 * and string ordering.
 */
module PyText {

  /** One element of a Python `str`: any code point, lone surrogates included. */
  type CodePoint = c: int | 0 <= c < 0x11_0000

  predicate IsSurrogate(c: CodePoint) {
    0xD800 <= c < 0xE000
  }

  /** The characters for which Python's `str.isspace()` holds. */
  predicate IsSpace(c: char) {
    var n := c as int;
    || (0x09 <= n <= 0x0D) || (0x1C <= n <= 0x20) || n == 0x85 || n == 0xA0
    || n == 0x1680 || (0x2000 <= n <= 0x200A) || n == 0x2028 || n == 0x2029
    || n == 0x202F || n == 0x205F || n == 0x3000
  }

  function Min(a: int, b: int): int { if a <= b then a else b }
  function Max(a: int, b: int): int { if a <= b then b else a }

  // ---------------------------------------------------------------------------
  // Slicing

  /**
   * Where the bound `i` of a slice lands in a sequence of length `n`:
   * a negative bound counts from the end, and the result is clamped to 0..n.
   */
  function SliceBound(i: int, n: nat): (b: nat)
    ensures b <= n
    ensures 0 <= i ==> b == Min(i, n)
    ensures i < 0 ==> b == Max(n + i, 0)
  {
    if i < 0 then (if n + i < 0 then 0 else n + i) else if i > n then n else i
  }

  /** Python's `s[i:j]`, which never fails: out-of-range bounds are clamped. */
  function Slice<T>(s: seq<T>, i: int, j: int): (r: seq<T>)
    ensures |r| == Max(SliceBound(j, |s|) - SliceBound(i, |s|), 0)
    ensures SliceBound(i, |s|) + |r| <= |s|
    ensures r == s[SliceBound(i, |s|)..SliceBound(i, |s|) + |r|]
  {
    var a, b := SliceBound(i, |s|), SliceBound(j, |s|);
    if a <= b then s[a..b] else []
  }

  /** For non-negative bounds a Python slice is Dafny's subsequence, cut at the end. */
  lemma SliceNonNegative<T>(s: seq<T>, i: int, j: int)
    requires 0 <= i <= j
    ensures Min(i, |s|) <= Min(j, |s|)
    ensures Slice(s, i, j) == s[Min(i, |s|)..Min(j, |s|)]
  {
  }

  /** Python's `s[::-1]`. */
  function Reverse<T>(s: seq<T>): (r: seq<T>)
    ensures |r| == |s|
    ensures forall i :: 0 <= i < |s| ==> r[i] == s[|s| - 1 - i]
  {
    if s == [] then [] else Reverse(s[1..]) + [s[0]]
  }

  /** `[f(x) for x in s]`. */
  function Map<A, B>(f: A -> B, s: seq<A>): (r: seq<B>)
    ensures |r| == |s|
  {
    seq(|s|, i requires 0 <= i < |s| => f(s[i]))
  }

  // ---------------------------------------------------------------------------
  // Stripping, splitting and joining

  /** Python's `s.lstrip()`: a suffix of `s`, all that was cut is whitespace. */
  function LStrip(s: string): (r: string)
    ensures |r| <= |s| && r == s[|s| - |r|..]
    ensures forall i :: 0 <= i < |s| - |r| ==> IsSpace(s[i])
    ensures r != [] ==> !IsSpace(r[0])
    decreases |s|
  {
    if s != [] && IsSpace(s[0]) then LStrip(s[1..]) else s
  }

  /** Python's `s.rstrip()`: a prefix of `s`, all that was cut is whitespace. */
  function RStrip(s: string): (r: string)
    ensures |r| <= |s| && r == s[..|r|]
    ensures forall i :: |r| <= i < |s| ==> IsSpace(s[i])
    ensures r != [] ==> !IsSpace(r[|r| - 1])
    decreases |s|
  {
    if s != [] && IsSpace(s[|s| - 1]) then RStrip(s[..|s| - 1]) else s
  }

  /** The index in `s` at which `Strip(s)` starts. */
  function StripStart(s: string): (k: nat)
    ensures k <= |s|
  {
    |s| - |LStrip(s)|
  }

  /**
   * Python's `s.strip()`: the contiguous part of `s` left once the whitespace
   * at both ends is cut, neither starting nor ending with whitespace
   * (`StripCut` says that what is cut is whitespace).
   */
  function Strip(s: string): (r: string)
    ensures StripStart(s) + |r| <= |s|
    ensures r == s[StripStart(s)..StripStart(s) + |r|]
    ensures r != [] ==> !IsSpace(r[0]) && !IsSpace(r[|r| - 1])
  {
    RStrip(LStrip(s))
  }

  /** What `Strip` cuts from either end of `s` is whitespace. */
  lemma StripCut(s: string)
    ensures forall i :: 0 <= i < StripStart(s) ==> IsSpace(s[i])
    ensures forall i :: StripStart(s) + |Strip(s)| <= i < |s| ==> IsSpace(s[i])
  {
    var l := LStrip(s);
    assert Strip(s) == RStrip(l);
    forall i | StripStart(s) + |Strip(s)| <= i < |s|
      ensures IsSpace(s[i])
    {
      assert s[i] == l[i - StripStart(s)];
    }
  }

  /** `Strip(s)` is empty exactly when `s` holds whitespace only. */
  lemma StripEmpty(s: string)
    ensures Strip(s) == [] <==> forall i :: 0 <= i < |s| ==> IsSpace(s[i])
  {
    StripCut(s);
    if Strip(s) != [] {
      assert s[StripStart(s)] == Strip(s)[0];
    }
  }

  /** A string that neither starts nor ends with whitespace is its own strip. */
  lemma StripUnchanged(s: string)
    requires s != [] ==> !IsSpace(s[0]) && !IsSpace(s[|s| - 1])
    ensures Strip(s) == s
  {
  }

  predicate IsWord(w: string) {
    w != [] && forall i :: 0 <= i < |w| ==> !IsSpace(w[i])
  }

  /** The longest prefix of `s` free of whitespace. */
  function TakeWord(s: string): (w: string)
    ensures |w| <= |s| && w == s[..|w|]
    ensures forall i :: 0 <= i < |w| ==> !IsSpace(w[i])
    ensures |w| < |s| ==> IsSpace(s[|w|])
  {
    if s == [] || IsSpace(s[0]) then [] else [s[0]] + TakeWord(s[1..])
  }

  /** Python's `s.split()` with no separator: the maximal runs of non-whitespace, in order. */
  function Split(s: string): (ws: seq<string>)
    ensures forall k :: 0 <= k < |ws| ==> IsWord(ws[k])
    decreases |s|
  {
    var t := LStrip(s);
    if t == [] then [] else var w := TakeWord(t); [w] + Split(t[|w|..])
  }

  /** Python's `sep.join(parts)`. */
  function Join(parts: seq<string>, sep: string): string
  {
    if parts == [] then [] else if |parts| == 1 then parts[0] else parts[0] + sep + Join(parts[1..], sep)
  }

  /** Joining one more part appends the separator and the part. */
  lemma {:induction false} JoinSnoc(parts: seq<string>, p: string, sep: string)
    requires parts != []
    ensures Join(parts + [p], sep) == Join(parts, sep) + sep + p
  {
    if |parts| > 1 {
      assert (parts + [p])[1..] == parts[1..] + [p];
      JoinSnoc(parts[1..], p, sep);
    }
  }

  // ---------------------------------------------------------------------------
  // Normalisation: `" ".join(s.split())`

  /** `" ".join(s.split())`: the words of `s` separated by single spaces. */
  function Normalize(t: string): string {
    Join(Split(t), " ")
  }

  /**
   * Normalised text: the only whitespace is `' '`, it neither starts nor ends
   * with whitespace, and no two spaces are adjacent.
   */
  predicate IsNormal(t: string) {
    && (forall i :: 0 <= i < |t| && IsSpace(t[i]) ==> t[i] == ' ')
    && (t != [] ==> !IsSpace(t[0]) && !IsSpace(t[|t| - 1]))
    && (forall i :: 0 <= i < |t| - 1 ==> !DoubleSpaceAt(t, i))
  }

  predicate DoubleSpaceAt(t: string, i: nat)
    requires i < |t| - 1
  {
    t[i] == ' ' && t[i + 1] == ' '
  }

  lemma WordSpaceNormal(w: string, u: string)
    requires IsWord(w) && IsNormal(u) && u != []
    ensures IsNormal(w + " " + u)
  {
    var t := w + " " + u;
    forall i | 0 <= i < |t| - 1
      ensures !DoubleSpaceAt(t, i)
    {
      if i < |w| {
        assert t[i] == w[i];
      } else if i > |w| {
        assert !DoubleSpaceAt(u, i - |w| - 1);
        assert t[i] == u[i - |w| - 1] && t[i + 1] == u[i - |w|];
      } else {
        assert t[i + 1] == u[0];
      }
    }
    forall i | 0 <= i < |t|
      ensures IsSpace(t[i]) ==> t[i] == ' '
    {
      if i < |w| {
        assert t[i] == w[i];
      } else if i > |w| {
        assert t[i] == u[i - |w| - 1];
      }
    }
    assert t[0] == w[0] && t[|t| - 1] == u[|u| - 1];
  }

  /** Words joined by single spaces form normalised text, starting with the first word. */
  lemma {:induction false} JoinWordsNormal(ws: seq<string>)
    requires forall k :: 0 <= k < |ws| ==> IsWord(ws[k])
    ensures IsNormal(Join(ws, " "))
    ensures ws != [] ==> Join(ws, " ") != [] && Join(ws, " ")[0] == ws[0][0]
  {
    if |ws| == 1 {
      assert Join(ws, " ") == ws[0];
    } else if |ws| > 1 {
      JoinWordsNormal(ws[1..]);
      WordSpaceNormal(ws[0], Join(ws[1..], " "));
    }
  }

  /** The normalised text has the three properties of `IsNormal`. */
  lemma NormalizeIsNormal(s: string)
    ensures IsNormal(Normalize(s))
  {
    JoinWordsNormal(Split(s));
  }

  lemma LStripOnWord(s: string)
    requires s != [] && !IsSpace(s[0])
    ensures LStrip(s) == s
  {
  }

  /** Past a single space that is followed by a word, splitting starts at the word. */
  lemma SplitAfterSpace(rest: string)
    requires |rest| >= 2 && IsSpace(rest[0]) && !IsSpace(rest[1])
    ensures Split(rest) == Split(rest[1..])
  {
    LStripOnWord(rest[1..]);
    assert LStrip(rest) == rest[1..];
  }

  /** What follows a space inside normalised text is normalised and non-empty. */
  lemma NormalAfterSpace(t: string, k: nat)
    requires IsNormal(t) && k < |t| && t[k] == ' '
    ensures k + 1 < |t| && !IsSpace(t[k + 1]) && IsNormal(t[k + 1..])
  {
    assert k < |t| - 1 && !DoubleSpaceAt(t, k);
    var u := t[k + 1..];
    forall i | 0 <= i < |u| - 1
      ensures !DoubleSpaceAt(u, i)
    {
      assert !DoubleSpaceAt(t, k + 1 + i);
      assert u[i] == t[k + 1 + i] && u[i + 1] == t[k + 2 + i];
    }
    forall i | 0 <= i < |u|
      ensures IsSpace(u[i]) ==> u[i] == ' '
    {
      assert u[i] == t[k + 1 + i];
    }
    assert u[0] == t[k + 1] && u[|u| - 1] == t[|t| - 1];
  }

  lemma JoinCons(p: string, ps: seq<string>, sep: string)
    requires ps != []
    ensures Join([p] + ps, sep) == p + sep + Join(ps, sep)
  {
    assert ([p] + ps)[1..] == ps;
  }

  /** Text that starts with a word splits into that word and the split of the rest. */
  lemma SplitFirstWord(t: string)
    requires t != [] && !IsSpace(t[0])
    ensures TakeWord(t) != []
    ensures Split(t) == [TakeWord(t)] + Split(t[|TakeWord(t)|..])
  {
    LStripOnWord(t);
  }

  lemma {:induction false} TakeWordOf(w: string, tail: string)
    requires IsWord(w) && tail != [] && IsSpace(tail[0])
    ensures TakeWord(w + tail) == w
    decreases |w|
  {
    if |w| > 1 {
      assert (w + tail)[1..] == w[1..] + tail;
      TakeWordOf(w[1..], tail);
    } else {
      assert (w + tail)[1..] == tail;
    }
  }

  /** A word, a space and text starting with a word split into the word and the rest's words. */
  lemma SplitWordSpaceRest(w: string, u: string)
    requires IsWord(w) && u != [] && !IsSpace(u[0])
    ensures Split(w + " " + u) == [w] + Split(u)
  {
    var t := w + " " + u;
    TakeWordOf(w, " " + u);
    assert t == w + (" " + u);
    LStripOnWord(t);
    assert t[|w|..] == " " + u;
    SplitAfterSpace(" " + u);
    assert (" " + u)[1..] == u;
  }

  lemma SpaceSplit(t: string, k: nat)
    requires k < |t| && t[k] == ' '
    ensures t == t[..k] + " " + t[k + 1..]
  {
  }

  /** Normalised text is left as it is by normalisation. */
  lemma {:induction false} NormalFixpoint(t: string)
    requires IsNormal(t)
    ensures Normalize(t) == t
    decreases |t|
  {
    if t != [] {
      SplitFirstWord(t);
      var w := TakeWord(t);
      if |w| == |t| {
        assert w == t && t[|t|..] == [];
        assert Split(t) == [t];
      } else {
        var u := t[|w| + 1..];
        assert t[|w|] == ' ' && IsWord(w);
        assert IsNormal(u) && u != [] && !IsSpace(u[0]) by {
          NormalAfterSpace(t, |w|);
        }
        assert t == w + " " + u by {
          SpaceSplit(t, |w|);
        }
        assert Split(t) == [w] + Split(u) by {
          SplitWordSpaceRest(w, u);
        }
        assert Split(u) != [] by {
          SplitFirstWord(u);
        }
        assert Join(Split(u), " ") == u by {
          NormalFixpoint(u);
        }
        JoinCons(w, Split(u), " ");
      }
    }
  }

  /** Normalising twice gives what normalising once gives. */
  lemma NormalizeIdempotent(s: string)
    ensures Normalize(Normalize(s)) == Normalize(s)
  {
    NormalizeIsNormal(s);
    NormalFixpoint(Normalize(s));
  }

  /** Normalisation yields the empty string exactly for whitespace-only text. */
  lemma NormalizeEmpty(s: string)
    ensures Normalize(s) == [] <==> forall i :: 0 <= i < |s| ==> IsSpace(s[i])
  {
    JoinWordsNormal(Split(s));
    if LStrip(s) != [] {
      assert s[|s| - |LStrip(s)|] == LStrip(s)[0];
    }
  }

  // ---------------------------------------------------------------------------
  // Decimal rendering of integers, as `str(i)` and an f-string do it

  predicate IsDigit(c: char) {
    '0' <= c <= '9'
  }

  function DigitChar(d: int): (c: char)
    requires 0 <= d < 10
    ensures IsDigit(c)
  {
    (48 + d) as char
  }

  function NatToString(n: nat): (r: string)
    ensures r != []
    ensures forall i :: 0 <= i < |r| ==> IsDigit(r[i])
    decreases n
  {
    if n < 10 then [DigitChar(n)] else NatToString(n / 10) + [DigitChar(n % 10)]
  }

  /** Python's `str(i)` for an `int`: decimal digits, `-` first when negative. */
  function IntToString(i: int): (r: string)
    ensures r != []
  {
    if i < 0 then "-" + NatToString(-i) else NatToString(i)
  }

  // ---------------------------------------------------------------------------
  // String ordering

  /** Python's `a < b` on strings: code point by code point, a proper prefix first. */
  predicate LexLess(a: string, b: string)
    decreases |a|
  {
    if a == [] then b != []
    else if b == [] then false
    else if a[0] != b[0] then a[0] < b[0]
    else LexLess(a[1..], b[1..])
  }

  lemma {:induction false} LexLessIrreflexive(a: string)
    ensures !LexLess(a, a)
    decreases |a|
  {
    if a != [] {
      LexLessIrreflexive(a[1..]);
    }
  }

  lemma {:induction false} LexLessTransitive(a: string, b: string, c: string)
    requires LexLess(a, b) && LexLess(b, c)
    ensures LexLess(a, c)
    decreases |a|
  {
    if a != [] && b != [] && c != [] && a[0] == b[0] == c[0] {
      LexLessTransitive(a[1..], b[1..], c[1..]);
    }
  }

  lemma {:induction false} LexLessTotal(a: string, b: string)
    ensures a == b || LexLess(a, b) || LexLess(b, a)
    decreases |a|
  {
    if a != [] && b != [] && a[0] == b[0] {
      LexLessTotal(a[1..], b[1..]);
      if a[1..] == b[1..] {
        assert a == [a[0]] + a[1..] && b == [b[0]] + b[1..];
      }
    }
  }
}

/**
 * The pieces of Python's `str` type that both core files lean on: the
 * whitespace set of `str.isspace()` and of `\s`, `str.strip()`, substring
 * search (`in`, `re.search` on a literal), `str.replace` and ASCII case folding.
 * Strings are Python strings without lone surrogates, which a `char` cannot
 * hold (see README, Left out).
 */
module Text {
  import opened Wrappers

  /**
   * Python's `str.isspace()`. CPython's `re` module tests `\s` in a str
   * pattern against the same 29 code points, and `str.strip()` with no
   * argument removes exactly these.
   */
  predicate IsSpace(c: char) {
    ('\t' <= c <= '\r') || ('\U{1C}' <= c <= '\U{1F}') || c == ' '
    || c == '\U{85}' || c == '\U{A0}' || c == '\U{1680}'
    || ('\U{2000}' <= c <= '\U{200A}') || c == '\U{2028}' || c == '\U{2029}'
    || c == '\U{202F}' || c == '\U{205F}' || c == '\U{3000}'
  }

  predicate AllSpace(s: string) {
    forall k :: 0 <= k < |s| ==> IsSpace(s[k])
  }

  /** Neither end of `s` is whitespace. */
  predicate Stripped(s: string) {
    s == [] || (!IsSpace(s[0]) && !IsSpace(s[|s| - 1]))
  }

  /**
   * `r` is what is left of `s` once a whitespace-only prefix and a
   * whitespace-only suffix are cut off, and `r` has no whitespace left at
   * either end.
   */
  ghost predicate IsStripOf(s: string, r: string) {
    && Stripped(r)
    && exists a :: 0 <= a <= |s| - |r| && s[a..a + |r|] == r && AllSpace(s[..a]) && AllSpace(s[a + |r|..])
  }

  /** The first index at or after `j` whose character fails `p`, or `|s|` if there is none. */
  function RunEnd(s: string, j: nat, p: char -> bool): (k: nat)
    requires j <= |s|
    ensures j <= k <= |s|
    ensures forall m :: j <= m < k ==> p(s[m])
    ensures k == |s| || !p(s[k])
    decreases |s| - j
  {
    if j == |s| || !p(s[j]) then j else RunEnd(s, j + 1, p)
  }

  /** The index just past the last non-whitespace character of `s[a..b]`, or `a` if there is none. */
  function TrimmedEnd(s: string, a: nat, b: nat): (k: nat)
    requires a <= b <= |s|
    ensures a <= k <= b
    ensures forall m :: k <= m < b ==> IsSpace(s[m])
    ensures k == a || !IsSpace(s[k - 1])
    decreases b - a
  {
    if b == a || !IsSpace(s[b - 1]) then b else TrimmedEnd(s, a, b - 1)
  }

  /** Python's `s.strip()`. */
  function Strip(s: string): (r: string)
    ensures IsStripOf(s, r)
    ensures |r| <= |s|
    ensures forall c :: c in r ==> c in s
  {
    var a := RunEnd(s, 0, IsSpace);
    var b := TrimmedEnd(s, a, |s|);
    assert s[a..a + (b - a)] == s[a..b];
    assert AllSpace(s[..a]) && AllSpace(s[b..]);
    assert Stripped(s[a..b]);
    s[a..b]
  }

  /** The first non-whitespace index is `a` when everything before it is whitespace and `s[a]` is not. */
  lemma RunEndIsFirstNonSpace(s: string, a: nat)
    requires a <= |s| && (forall m :: 0 <= m < a ==> IsSpace(s[m])) && (a == |s| || !IsSpace(s[a]))
    ensures RunEnd(s, 0, IsSpace) == a
  {
  }

  /** The end of the trimmed text is `e` when everything from `e` on is whitespace and `s[e - 1]` is not. */
  lemma TrimmedEndIsLastNonSpace(s: string, a: nat, e: nat)
    requires a <= e <= |s| && (forall m :: e <= m < |s| ==> IsSpace(s[m])) && (e == a || !IsSpace(s[e - 1]))
    ensures TrimmedEnd(s, a, |s|) == e
  {
  }

  /** Cutting whitespace-only ends off `s` so that `s[a..e]` is left with none is what `Strip` does. */
  lemma StripAt(s: string, a: nat, e: nat)
    requires a <= e <= |s| && AllSpace(s[..a]) && AllSpace(s[e..]) && Stripped(s[a..e])
    ensures Strip(s) == s[a..e]
  {
    forall m | 0 <= m < a ensures IsSpace(s[m]) {
      assert s[..a][m] == s[m];
    }
    forall m | e <= m < |s| ensures IsSpace(s[m]) {
      assert s[e..][m - e] == s[m];
    }
    if a == e {
      RunEndIsFirstNonSpace(s, |s|);
      TrimmedEndIsLastNonSpace(s, |s|, |s|);
    } else {
      assert s[a] == s[a..e][0] && s[e - 1] == s[a..e][e - a - 1];
      RunEndIsFirstNonSpace(s, a);
      TrimmedEndIsLastNonSpace(s, a, e);
    }
  }

  /** `IsStripOf` pins its second argument down: `Strip` is the only function meeting its contract. */
  lemma StripOfIsStrip(s: string, r: string)
    requires IsStripOf(s, r)
    ensures r == Strip(s)
  {
    var a :| 0 <= a <= |s| - |r| && s[a..a + |r|] == r && AllSpace(s[..a]) && AllSpace(s[a + |r|..]);
    var e := a + |r|;
    assert Stripped(s[a..e]) by {
      assert s[a..e] == r;
    }
    StripAt(s, a, e);
  }

  /** Stripping a string with no whitespace at either end leaves it as it is. */
  lemma StripStripped(s: string)
    requires Stripped(s)
    ensures Strip(s) == s
  {
    assert s[0..0 + |s|] == s && s[..0] == [] && s[0 + |s|..] == [];
    StripOfIsStrip(s, s);
  }

  /** `t` occurs in `s` starting at index `i`. */
  predicate OccursAt(s: string, t: string, i: nat) {
    i + |t| <= |s| && s[i..i + |t|] == t
  }

  /** An occurrence that lies inside `a` is one of `a + b`. */
  lemma OccursInPrefix(a: string, b: string, t: string, j: nat)
    requires j + |t| <= |a|
    ensures OccursAt(a + b, t, j) <==> OccursAt(a, t, j)
  {
    assert (a + b)[j..j + |t|] == a[j..j + |t|];
  }

  /** Occurrences in `b` are those of `a + b` moved left by `|a|`. */
  lemma OccursInSuffix(a: string, b: string, t: string, j: nat)
    ensures OccursAt(a + b, t, |a| + j) <==> OccursAt(b, t, j)
  {
    if j + |t| <= |b| {
      assert (a + b)[|a| + j..|a| + j + |t|] == b[j..j + |t|];
    }
  }

  /** Python's `t in s`. */
  predicate Contains(s: string, t: string) {
    exists i | 0 <= i <= |s| :: OccursAt(s, t, i)
  }

  /** Python's `s.find(t, from)` as an option: the leftmost occurrence of `t` at or after `from`. */
  function FindFrom(s: string, t: string, from: nat): (r: Option<nat>)
    ensures r.Some? ==> from <= r.value && OccursAt(s, t, r.value)
    ensures r.Some? ==> forall j :: from <= j < r.value ==> !OccursAt(s, t, j)
    ensures r.None? ==> forall j :: from <= j ==> !OccursAt(s, t, j)
    decreases |s| - from
  {
    if |s| < from + |t| then None
    else if OccursAt(s, t, from) then Some(from)
    else FindFrom(s, t, from + 1)
  }

  /** Python's `s.replace(needle, repl)`: every occurrence of `needle`, taken left to right without overlap. */
  function Replace(s: string, needle: string, repl: string): (r: string)
    requires |needle| > 0
    ensures |repl| <= |needle| ==> |r| <= |s|
    decreases |s|
  {
    if |s| < |needle| then s
    else if s[..|needle|] == needle then repl + Replace(s[|needle|..], needle, repl)
    else [s[0]] + Replace(s[1..], needle, repl)
  }

  /** Occurrences in `s[1..]` are those of `s` moved one place left. */
  lemma TailOccurs(s: string, needle: string, j: nat)
    requires s != []
    ensures OccursAt(s[1..], needle, j) <==> OccursAt(s, needle, j + 1)
  {
    if j + |needle| <= |s| - 1 {
      assert s[1..][j..j + |needle|] == s[j + 1..j + 1 + |needle|];
    }
  }

  /** A string that does not start with `needle` keeps its first character. */
  lemma ReplaceHead(s: string, needle: string, repl: string)
    requires |needle| > 0 && |s| >= |needle| && !OccursAt(s, needle, 0)
    ensures Replace(s, needle, repl) == [s[0]] + Replace(s[1..], needle, repl)
  {
    assert s[0..0 + |needle|] == s[..|needle|];
  }

  /** With no occurrence of `needle`, `replace` leaves the string as it is. */
  lemma {:induction false} ReplaceAbsent(s: string, needle: string, repl: string)
    requires |needle| > 0 && forall j: nat :: !OccursAt(s, needle, j)
    ensures Replace(s, needle, repl) == s
    decreases |s|
  {
    if |s| >= |needle| {
      ReplaceHead(s, needle, repl);
      forall j: nat ensures !OccursAt(s[1..], needle, j) {
        TailOccurs(s, needle, j);
      }
      ReplaceAbsent(s[1..], needle, repl);
      assert [s[0]] + s[1..] == s;
    }
  }

  /** Text before the first occurrence of `needle` is kept as it is. */
  lemma {:induction false} ReplaceKeepsPrefix(p: string, w: string, needle: string, repl: string)
    requires |needle| > 0 && forall j: nat :: j < |p| ==> !OccursAt(p + w, needle, j)
    ensures Replace(p + w, needle, repl) == p + Replace(w, needle, repl)
    decreases |p|
  {
    if p == [] {
      assert p + w == w;
    } else if |p + w| < |needle| {
    } else {
      var s := p + w;
      assert s[1..] == p[1..] + w;
      forall j: nat | j < |p| - 1 ensures !OccursAt(p[1..] + w, needle, j) {
        TailOccurs(s, needle, j);
      }
      ReplaceKeepsPrefix(p[1..], w, needle, repl);
      ReplaceHead(s, needle, repl);
      assert [p[0]] + p[1..] == p;
    }
  }

  /**
   * `replace` works from the leftmost occurrence of `needle`: everything
   * before it is kept, the occurrence becomes `repl`, and the rest is
   * replaced in turn.
   */
  lemma ReplaceAtFirst(s: string, needle: string, repl: string, i: nat)
    requires |needle| > 0 && OccursAt(s, needle, i)
    requires forall j: nat :: j < i ==> !OccursAt(s, needle, j)
    ensures Replace(s, needle, repl) == s[..i] + repl + Replace(s[i + |needle|..], needle, repl)
  {
    var n := |needle|;
    ReplaceUpTo(s, needle, repl, i);
    SuffixSlices(s, i, n);
    ReplaceAtStart(s[i..], needle, repl);
    ConcatChain(Replace(s, needle, repl), Replace(s[i..], needle, repl), Replace(s[i + n..], needle, repl), s[..i], repl);
  }

  /** Two splits chained: `a` is `p` then `b`, and `b` is `q` then `c`. */
  lemma ConcatChain(a: string, b: string, c: string, p: string, q: string)
    requires a == p + b && b == q + c
    ensures a == p + q + c
  {
  }

  /** Slicing the suffix from `i` is slicing `s` itself. */
  lemma SuffixSlices(s: string, i: nat, n: nat)
    requires i + n <= |s|
    ensures s[i..][..n] == s[i..i + n] && s[i..][n..] == s[i + n..]
  {
  }

  /** With no occurrence before `i`, the first `i` characters are kept. */
  lemma ReplaceUpTo(s: string, needle: string, repl: string, i: nat)
    requires |needle| > 0 && i <= |s|
    requires forall j: nat :: j < i ==> !OccursAt(s, needle, j)
    ensures Replace(s, needle, repl) == s[..i] + Replace(s[i..], needle, repl)
  {
    assert s[..i] + s[i..] == s;
    ReplaceKeepsPrefix(s[..i], s[i..], needle, repl);
  }

  /** An occurrence at the very start is replaced first. */
  lemma ReplaceAtStart(w: string, needle: string, repl: string)
    requires |needle| > 0 && |needle| <= |w| && w[..|needle|] == needle
    ensures Replace(w, needle, repl) == repl + Replace(w[|needle|..], needle, repl)
  {
  }

  /**
   * Putting `needle` back where `replace` left the marker `c` restores the
   * string, provided `c` did not occur in it: every occurrence became
   * exactly one `c` and every other character was kept.
   */
  lemma {:induction false} ReplaceRoundTrip(s: string, needle: string, c: char)
    requires |needle| > 0 && c !in s
    ensures Replace(Replace(s, needle, [c]), [c], needle) == s
    decreases |s|
  {
    var r := Replace(s, needle, [c]);
    if |s| < |needle| {
      forall j: nat ensures !OccursAt(s, [c], j) {
        if j < |s| {
          assert s[j..j + 1] == [s[j]];
        }
      }
      ReplaceAbsent(s, [c], needle);
    } else if s[..|needle|] == needle {
      var rest := Replace(s[|needle|..], needle, [c]);
      assert r == [c] + rest;
      ReplaceRoundTrip(s[|needle|..], needle, c);
      assert r[..1] == [c] && r[1..] == rest;
      assert s[..|needle|] + s[|needle|..] == s;
    } else {
      var rest := Replace(s[1..], needle, [c]);
      assert r == [s[0]] + rest;
      ReplaceRoundTrip(s[1..], needle, c);
      assert r[..1] == [s[0]] != [c] && r[1..] == rest;
      assert [s[0]] + s[1..] == s;
    }
  }

  /**
   * Replacing a two-character `needle` by a single character `c` leaves no
   * occurrence of `needle`, and creates no occurrence of any other pair that
   * does not contain `c`.
   */
  lemma {:induction false} ReplacePairLeavesNoPair(s: string, needle: string, c: char, pair: string)
    requires |needle| == 2 && |pair| == 2 && c != pair[0] && c != pair[1]
    requires pair == needle || forall i :: !OccursAt(s, pair, i)
    ensures forall j :: !OccursAt(Replace(s, needle, [c]), pair, j)
    decreases |s|
  {
    if |s| < 2 {
    } else if s[..2] == needle {
      var rest := Replace(s[2..], needle, [c]);
      forall i: nat | OccursAt(s[2..], pair, i) ensures pair == needle {
        assert OccursAt(s, pair, i + 2);
      }
      ReplacePairLeavesNoPair(s[2..], needle, c, pair);
      NoPairAfterHead(c, rest, pair);
    } else {
      var rest := Replace(s[1..], needle, [c]);
      forall i: nat | OccursAt(s[1..], pair, i) ensures pair == needle {
        TailOccurs(s, pair, i);
      }
      ReplacePairLeavesNoPair(s[1..], needle, c, pair);
      assert rest[0] == c || rest[0] == s[1];
      if rest[0] == s[1] {
        assert s[0..0 + |pair|] == s[..2] == [s[0], s[1]];
        assert pair == needle || !OccursAt(s, pair, 0);
      }
      NoPairAfterHead(s[0], rest, pair);
    }
  }

  /** One character in front of a string without `pair` creates no `pair` unless the two form it. */
  lemma NoPairAfterHead(x: char, rest: string, pair: string)
    requires |pair| == 2 && forall j :: !OccursAt(rest, pair, j)
    requires rest != [] ==> [x, rest[0]] != pair
    ensures forall j :: !OccursAt([x] + rest, pair, j)
  {
    var r := [x] + rest;
    forall j: nat ensures !OccursAt(r, pair, j) {
      if 0 < j && j + 2 <= |r| {
        assert r[j..j + 2] == rest[j - 1..j + 1];
        assert !OccursAt(rest, pair, j - 1);
      } else if j == 0 && 2 <= |r| {
        assert r[..2] == [x, rest[0]];
      }
    }
  }

  /** ASCII lower-casing of one character. */
  function LowerChar(c: char): char {
    if 'A' <= c <= 'Z' then (c as int + 32) as char else c
  }

  /** `s` with every ASCII upper-case letter lowered and every other character kept. */
  function LowerAscii(s: string): string {
    seq(|s|, k requires 0 <= k < |s| => LowerChar(s[k]))
  }
}

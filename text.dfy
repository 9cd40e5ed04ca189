/** Character classes and string scanners shared by every extractor.
    Strings are `seq<char>`, as Python 3 strings are sequences of code points. */
module Text {

  datatype Option<T> = None | Some(value: T)

  // ---------------------------------------------------------------------------
  // Character classes
  // ---------------------------------------------------------------------------

  /** Python's whitespace: `str.isspace`, `str.split()`, `str.strip()` and regex `\s`. */
  predicate IsSpace(c: char) {
    c == ' ' || ('\t' <= c <= '\r') || ('\U{001C}' <= c <= '\U{001F}')
    || c == '\U{0085}' || c == '\U{00A0}' || c == '\U{1680}'
    || ('\U{2000}' <= c <= '\U{200A}') || c == '\U{2028}' || c == '\U{2029}'
    || c == '\U{202F}' || c == '\U{205F}' || c == '\U{3000}'
  }

  /** The characters at which Python's `str.splitlines` breaks a line. */
  predicate IsLineBreak(c: char) {
    ('\n' <= c <= '\r') || ('\U{001C}' <= c <= '\U{001E}')
    || c == '\U{0085}' || c == '\U{2028}' || c == '\U{2029}'
  }

  predicate IsDigit(c: char) { '0' <= c <= '9' }

  predicate IsLetter(c: char) { 'a' <= c <= 'z' || 'A' <= c <= 'Z' }

  /** Regex `\w`, restricted to ASCII. */
  predicate IsWordChar(c: char) { IsLetter(c) || IsDigit(c) || c == '_' }

  /** ASCII lower-casing, the case folding `re.IGNORECASE` applies to ASCII letters. */
  function Lower(c: char): char {
    if 'A' <= c <= 'Z' then (c as int + 32) as char else c
  }

  /** `s` equals `p` up to ASCII case. */
  predicate EqualsIgnoreCase(s: string, p: string) {
    |s| == |p| && forall k :: 0 <= k < |s| ==> Lower(s[k]) == Lower(p[k])
  }

  /** `p` occurs in `s` at index `i`, up to ASCII case. */
  predicate AtIgnoreCase(s: string, i: nat, p: string) {
    i + |p| <= |s| && EqualsIgnoreCase(s[i..i + |p|], p)
  }

  /** A word character stands at index `i` of `s`. */
  predicate WordAt(s: string, i: int) {
    0 <= i < |s| && IsWordChar(s[i])
  }

  /** Regex `\b` at position `i`: a word character on exactly one side. */
  predicate Boundary(s: string, i: nat) {
    WordAt(s, i - 1) != WordAt(s, i)
  }

  // ---------------------------------------------------------------------------
  // Searching
  // ---------------------------------------------------------------------------

  /** `p` occurs in `s` at index `i`. */
  predicate At(s: string, i: nat, p: string) {
    i + |p| <= |s| && s[i..i + |p|] == p
  }

  /** Python `s.find(p, from)`: the first occurrence of `p` at or after `from`. */
  function FindFrom(s: string, p: string, from: nat): (r: Option<nat>)
    ensures r.Some? ==> from <= r.value && At(s, r.value, p)
    ensures forall j :: from <= j && (r.None? || j < r.value) ==> !At(s, j, p)
    decreases |s| - from
  {
    if from + |p| > |s| then None
    else if At(s, from, p) then Some(from)
    else FindFrom(s, p, from + 1)
  }

  /** A text occurs where it is spliced in. */
  lemma AtSeam(a: string, p: string, b: string)
    ensures At(a + (p + b), |a|, p)
  {
    assert (a + (p + b))[|a|..|a| + |p|] == p;
  }

  /** An occurrence with none before it, from `from` on, is the one `find` reports. */
  lemma FindFromIs(s: string, p: string, from: nat, i: nat)
    requires from <= i && At(s, i, p)
    requires forall k: nat :: from <= k < i ==> !At(s, k, p)
    ensures FindFrom(s, p, from) == Some(i)
  {
  }

  /** A text is first found where it occurs after a stretch holding none of its first letter. */
  lemma FindPastFree(s: string, p: string, from: nat, i: nat)
    requires from <= i && At(s, i, p) && |p| > 0
    requires forall k :: from <= k < i ==> s[k] != p[0]
    ensures FindFrom(s, p, from) == Some(i)
  {
    forall k: nat | from <= k < i ensures !At(s, k, p) {
      assert k + |p| <= |s| ==> s[k..k + |p|][0] == s[k];
    }
    FindFromIs(s, p, from, i);
  }

  /** In `before + o + body + c + after`, with neither stretch holding the first
      letter of what follows it, `o` and then `c` are found where they were put. */
  lemma FindsBetween(before: string, o: string, body: string, c: string, after: string)
    requires |o| > 0 && forall k :: 0 <= k < |before| ==> before[k] != o[0]
    requires |c| > 0 && forall k :: 0 <= k < |body| ==> body[k] != c[0]
    ensures FindFrom(before + o + body + c + after, o, 0) == Some(|before|)
    ensures FindFrom(before + o + body + c + after, c, |before| + |o|) == Some(|before| + |o| + |body|)
    ensures (before + o + body + c + after)[|before| + |o|..|before| + |o| + |body|] == body
  {
    var s := before + o + body + c + after;
    var i, j := |before|, |before| + |o| + |body|;
    assert s[i..i + |o|] == o;
    assert s[j..j + |c|] == c;
    forall k | 0 <= k < i ensures s[k] != o[0] {
      assert s[k] == before[k];
    }
    forall k | i + |o| <= k < j ensures s[k] != c[0] {
      assert s[k] == body[k - i - |o|];
    }
    FindPastFree(s, o, 0, i);
    FindPastFree(s, c, i + |o|, j);
  }

  /** Python `p in s`. */
  predicate Contains(s: string, p: string) {
    FindFrom(s, p, 0).Some?
  }

  lemma ContainsAt(s: string, p: string, i: nat)
    requires At(s, i, p)
    ensures Contains(s, p)
  {
  }

  /** An occurrence at the start of a suffix is an occurrence in the whole. */
  lemma ContainsInSuffix(s: string, i: nat, p: string)
    requires i <= |s| && At(s[i..], 0, p)
    ensures Contains(s, p)
  {
    assert s[i..][..|p|] == s[i..i + |p|];
    ContainsAt(s, p, i);
  }

  /** An occurrence survives any text added around it. */
  lemma ContainsWithin(a: string, s: string, b: string, p: string)
    requires Contains(s, p)
    ensures Contains(a + s + b, p)
  {
    var i := FindFrom(s, p, 0).value;
    assert (a + s + b)[|a| + i..|a| + i + |p|] == s[i..i + |p|];
    ContainsAt(a + s + b, p, |a| + i);
  }

  lemma ContainsItself(a: string, p: string, b: string)
    ensures Contains(a + p + b, p)
  {
    assert (a + p + b)[|a|..|a| + |p|] == p;
    ContainsAt(a + p + b, p, |a|);
  }

  /** An occurrence inside an occurrence is an occurrence in the whole. */
  lemma ContainsTrans(s: string, t: string, p: string)
    requires Contains(s, t) && Contains(t, p)
    ensures Contains(s, p)
  {
    var i := FindFrom(s, t, 0).value;
    var j := FindFrom(t, p, 0).value;
    assert At(s, i, t) && At(t, j, p);
    forall k | 0 <= k < |p| ensures s[i + j + k] == p[k] {
      assert s[i + j + k] == s[i..i + |t|][j + k] == t[j + k];
      assert t[j + k] == t[j..j + |p|][k];
    }
    assert s[i + j..i + j + |p|] == p;
    ContainsAt(s, p, i + j);
  }

  /** The text between `from` and the first occurrence of `p` after it holds no `p`. */
  lemma FindFromSliceFree(s: string, p: string, from: nat, j: nat)
    requires p != [] && FindFrom(s, p, from) == Some(j)
    ensures !Contains(s[from..j], p)
  {
    var t := s[from..j];
    forall k: nat | k + |p| <= |t| ensures !At(t, k, p) {
      assert t[k..k + |p|] == s[from + k..from + k + |p|];
      assert !At(s, from + k, p);
    }
  }

  /** Regex `\bw\b` at `i`: `w` stands at `i` as a whole word. */
  predicate WholeWordAt(s: string, w: string, i: nat) {
    Boundary(s, i) && At(s, i, w) && Boundary(s, i + |w|)
  }

  /** The test "`w` stands here as a whole word". */
  function WholeWordTest(s: string, w: string): nat -> bool {
    (i: nat) => WholeWordAt(s, w, i)
  }

  /** `re.search(r"\bw\b", s)` succeeds. */
  predicate HasWholeWord(s: string, w: string) {
    FirstIndex(WholeWordTest(s, w), 0, |s|).Some?
  }

  lemma HasWholeWordContains(s: string, w: string)
    requires HasWholeWord(s, w)
    ensures Contains(s, w)
  {
    ContainsAt(s, w, FirstIndex(WholeWordTest(s, w), 0, |s|).value);
  }

  /** A leftmost search: the least index in `[i, n)` where the test `p` holds. Regex
      searches are this with `p` the test "the pattern matches here". */
  function FirstIndex(p: nat -> bool, i: nat, n: nat): (r: Option<nat>)
    ensures r.Some? ==> i <= r.value < n && p(r.value)
    decreases n - i
  {
    if i >= n then None
    else if p(i) then Some(i)
    else FirstIndex(p, i + 1, n)
  }

  /** No index before the one `FirstIndex` finds passes the test, nor any when it finds none. */
  lemma {:induction false} FirstIndexLeast(p: nat -> bool, i: nat, n: nat, j: nat)
    requires i <= j < n
    requires FirstIndex(p, i, n).None? || j < FirstIndex(p, i, n).value
    ensures !p(j)
    decreases n - i
  {
    if j > i {
      FirstIndexLeast(p, i + 1, n, j);
    }
  }

  /** An index that passes the test, with none before it from `i` on, is the one
      `FirstIndex` finds. */
  lemma {:induction false} FirstIndexIs(p: nat -> bool, i: nat, n: nat, j: nat)
    requires i <= j < n && p(j)
    requires forall k: nat :: i <= k < j ==> !p(k)
    ensures FirstIndex(p, i, n) == Some(j)
    decreases j - i
  {
    if i < j {
      FirstIndexIs(p, i + 1, n, j);
    }
  }

  /** An index that passes the test makes `FirstIndex` find one at or before it. */
  lemma {:induction false} FirstIndexFinds(p: nat -> bool, i: nat, n: nat, j: nat)
    requires i <= j < n && p(j)
    ensures FirstIndex(p, i, n).Some? && FirstIndex(p, i, n).value <= j
    decreases j - i
  {
    if !p(i) {
      FirstIndexFinds(p, i + 1, n, j);
    }
  }

  /** With no index in `[i, n)` passing the test, `FirstIndex` finds none. */
  lemma {:induction false} FirstIndexNone(p: nat -> bool, i: nat, n: nat)
    requires forall k: nat :: i <= k < n ==> !p(k)
    ensures FirstIndex(p, i, n).None?
    decreases n - i
  {
    if i < n {
      FirstIndexNone(p, i + 1, n);
    }
  }

  /** A rightmost search: the greatest index in `[i, n)` where the test `p` holds. A
      greedy regex quantifier that backtracks settles on this index. */
  function LastIndex(p: nat -> bool, i: nat, n: nat): (r: Option<nat>)
    ensures r.Some? ==> i <= r.value < n && p(r.value)
    decreases n
  {
    if n <= i then None
    else if p(n - 1) then Some(n - 1)
    else LastIndex(p, i, n - 1)
  }

  /** No index after the one `LastIndex` finds passes the test, nor any when it finds none. */
  lemma {:induction false} LastIndexGreatest(p: nat -> bool, i: nat, n: nat, j: nat)
    requires i <= j < n
    requires LastIndex(p, i, n).None? || LastIndex(p, i, n).value < j
    ensures !p(j)
    decreases n
  {
    if j < n - 1 {
      LastIndexGreatest(p, i, n - 1, j);
    }
  }

  // ---------------------------------------------------------------------------
  // Python `str.split()`
  // ---------------------------------------------------------------------------

  predicate NoSpace(s: string) {
    forall k :: 0 <= k < |s| ==> !IsSpace(s[k])
  }

  predicate AllSpace(s: string) {
    forall k :: 0 <= k < |s| ==> IsSpace(s[k])
  }

  /** Length of the leading run of non-whitespace characters. */
  function TokenLen(s: string): (n: nat)
    ensures n <= |s| && NoSpace(s[..n])
    ensures n < |s| ==> IsSpace(s[n])
  {
    if s == [] || IsSpace(s[0]) then 0
    else
      var n := 1 + TokenLen(s[1..]);
      assert s[..n] == [s[0]] + s[1..][..n - 1];
      n
  }

  /** Python `s.split()`: the maximal runs of non-whitespace characters, in order. */
  function Split(s: string): (r: seq<string>)
    ensures forall k :: 0 <= k < |r| ==> r[k] != [] && NoSpace(r[k])
    decreases |s|
  {
    if s == [] then []
    else if IsSpace(s[0]) then Split(s[1..])
    else
      var n := TokenLen(s);
      [s[..n]] + Split(s[n..])
  }

  /** `s.split()` is empty exactly when `s` is all whitespace. */
  lemma {:induction false} SplitEmptyIff(s: string)
    ensures Split(s) == [] <==> AllSpace(s)
    decreases |s|
  {
    if s != [] && IsSpace(s[0]) {
      SplitEmptyIff(s[1..]);
      assert AllSpace(s) <==> AllSpace(s[1..]) by {
        if AllSpace(s[1..]) {
          forall k | 0 <= k < |s| ensures IsSpace(s[k]) {
            if k > 0 { assert s[k] == s[1..][k - 1]; }
          }
        }
      }
    }
  }

  /** A line containing a word without whitespace has at least one token. */
  lemma SplitNonEmpty(s: string, p: string)
    requires Contains(s, p) && p != [] && NoSpace(p)
    ensures Split(s) != []
  {
    var i := FindFrom(s, p, 0).value;
    assert s[i] == p[0];
    SplitEmptyIff(s);
  }

  // ---------------------------------------------------------------------------
  // Python `str.strip()` and `str.strip(c)`
  // ---------------------------------------------------------------------------

  function TrimStart(s: string, drop: char -> bool): (r: string)
    ensures |r| <= |s| && r == s[|s| - |r|..]
    ensures r != [] ==> !drop(r[0])
    ensures forall k :: 0 <= k < |s| - |r| ==> drop(s[k])
  {
    if s != [] && drop(s[0]) then TrimStart(s[1..], drop) else s
  }

  function TrimEnd(s: string, drop: char -> bool): (r: string)
    ensures |r| <= |s| && r == s[..|r|]
    ensures r != [] ==> !drop(r[|r| - 1])
    ensures forall k :: |r| <= k < |s| ==> drop(s[k])
  {
    if s != [] && drop(s[|s| - 1]) then TrimEnd(s[..|s| - 1], drop) else s
  }

  /** Python `s.strip()`. */
  function Strip(s: string): string {
    TrimEnd(TrimStart(s, IsSpace), IsSpace)
  }

  /** Python `s.strip(c)` for a single character `c`. */
  function StripChar(s: string, c: char): string {
    TrimEnd(TrimStart(s, x => x == c), x => x == c)
  }

  /** Where the stripped text starts in the original. */
  function StripStart(s: string): nat {
    |s| - |TrimStart(s, IsSpace)|
  }

  /** A stripped text is a contiguous piece of the original with no whitespace at either end. */
  lemma StripIsInfix(s: string)
    ensures StripStart(s) + |Strip(s)| <= |s|
    ensures Strip(s) == s[StripStart(s)..StripStart(s) + |Strip(s)|]
    ensures Strip(s) != [] ==> !IsSpace(Strip(s)[0]) && !IsSpace(Strip(s)[|Strip(s)| - 1])
  {
  }

  /** Stripping keeps any occurrence of a text that neither starts nor ends with
      whitespace. */
  lemma StripKeeps(s: string, p: string)
    requires Contains(s, p) && p != [] && !IsSpace(p[0]) && !IsSpace(p[|p| - 1])
    ensures Contains(Strip(s), p)
  {
    TrimStartKeeps(s, p);
    TrimEndKeeps(TrimStart(s, IsSpace), p);
  }

  /** Python `t.endswith(w)`. */
  predicate EndsWith(t: string, w: string) {
    |w| <= |t| && t[|t| - |w|..] == w
  }

  /** A text that ends with a word whose ends are not whitespace still ends with it
      once stripped. */
  lemma StripKeepsSuffix(t: string, w: string)
    requires w != [] && EndsWith(t, w)
    requires !IsSpace(w[0]) && !IsSpace(w[|w| - 1])
    ensures EndsWith(Strip(t), w)
  {
    var u := TrimStart(t, IsSpace);
    assert t[|t| - |w|] == w[0];
    assert |u| >= |w|;
    assert u[|u| - 1] == t[|t| - 1] == w[|w| - 1];
    assert Strip(t) == u;
    assert u[|u| - |w|..] == t[|t| - |w|..];
  }

  /** A text with no whitespace at either end is its own strip. */
  lemma StripUnchanged(t: string)
    requires t != [] && !IsSpace(t[0]) && !IsSpace(t[|t| - 1])
    ensures Strip(t) == t
  {
  }

  /** Stripping adds no occurrence. */
  lemma StripAddsNothing(s: string, p: string)
    requires !Contains(s, p)
    ensures !Contains(Strip(s), p)
  {
    StripIsInfix(s);
    ContainsAt(s, Strip(s), StripStart(s));
    if Contains(Strip(s), p) {
      ContainsTrans(s, Strip(s), p);
    }
  }

  lemma {:induction false} TrimStartKeeps(s: string, p: string)
    requires Contains(s, p) && p != [] && !IsSpace(p[0])
    ensures Contains(TrimStart(s, IsSpace), p)
    decreases |s|
  {
    if s != [] && IsSpace(s[0]) {
      var i := FindFrom(s, p, 0).value;
      assert s[i] == p[0];
      assert s[1..][i - 1..i - 1 + |p|] == s[i..i + |p|];
      ContainsAt(s[1..], p, i - 1);
      TrimStartKeeps(s[1..], p);
    }
  }

  lemma {:induction false} TrimEndKeeps(s: string, p: string)
    requires Contains(s, p) && p != [] && !IsSpace(p[|p| - 1])
    ensures Contains(TrimEnd(s, IsSpace), p)
    decreases |s|
  {
    if s != [] && IsSpace(s[|s| - 1]) {
      var i := FindFrom(s, p, 0).value;
      assert s[i + |p| - 1] == p[|p| - 1];
      var s' := s[..|s| - 1];
      assert s'[i..i + |p|] == s[i..i + |p|];
      ContainsAt(s', p, i);
      TrimEndKeeps(s', p);
    }
  }

  // ---------------------------------------------------------------------------
  // Python `str.splitlines()` and `sep.join(xs)`
  // ---------------------------------------------------------------------------

  /** Length of the leading run of characters that are not line breaks. */
  function LineLen(s: string): (n: nat)
    ensures n <= |s| && forall k :: 0 <= k < n ==> !IsLineBreak(s[k])
    ensures n < |s| ==> IsLineBreak(s[n])
  {
    if s == [] || IsLineBreak(s[0]) then 0 else 1 + LineLen(s[1..])
  }

  /** Python `s.splitlines()`: lines without their terminators; `\r\n` is one terminator
      and a final terminator opens no empty line. */
  function SplitLines(s: string): (r: seq<string>)
    ensures forall k, j :: 0 <= k < |r| && 0 <= j < |r[k]| ==> !IsLineBreak(r[k][j])
    decreases |s|
  {
    if s == [] then []
    else
      var n := LineLen(s);
      if n == |s| then [s]
      else
        var width := if s[n] == '\r' && n + 1 < |s| && s[n + 1] == '\n' then 2 else 1;
        [s[..n]] + SplitLines(s[n + width..])
  }

  /** `xs` is `ys` with some elements left out, the rest in their order. */
  predicate IsSubsequence<T(==)>(xs: seq<T>, ys: seq<T>)
    decreases |ys|
  {
    if xs == [] then true
    else if ys == [] then false
    else if xs[0] == ys[0] then IsSubsequence(xs[1..], ys[1..])
    else IsSubsequence(xs, ys[1..])
  }

  /** Putting an element in front of a concatenation. */
  lemma ConsAppend<T>(h: T, x: seq<T>, y: seq<T>)
    ensures [h] + (x + y) == ([h] + x) + y
  {
  }

  /** An element added to the larger sequence only keeps a subsequence. */
  lemma {:induction false} SubsequenceExtend<T>(xs: seq<T>, ys: seq<T>, y: T)
    requires IsSubsequence(xs, ys)
    ensures IsSubsequence(xs, ys + [y])
    decreases |ys|
  {
    if xs != [] {
      assert (ys + [y])[1..] == ys[1..] + [y];
      if xs[0] == ys[0] {
        SubsequenceExtend(xs[1..], ys[1..], y);
      } else {
        SubsequenceExtend(xs, ys[1..], y);
      }
    }
  }

  /** The same element added to both keeps a subsequence. */
  lemma {:induction false} SubsequenceAppend<T>(xs: seq<T>, ys: seq<T>, y: T)
    requires IsSubsequence(xs, ys)
    ensures IsSubsequence(xs + [y], ys + [y])
    decreases |ys|
  {
    if xs == [] {
      SubsequenceSingle(ys, y);
      assert xs + [y] == [y];
    } else {
      assert (ys + [y])[1..] == ys[1..] + [y];
      assert (xs + [y])[1..] == xs[1..] + [y];
      if xs[0] == ys[0] {
        SubsequenceAppend(xs[1..], ys[1..], y);
      } else {
        SubsequenceAppend(xs, ys[1..], y);
      }
    }
  }

  lemma {:induction false} SubsequenceSingle<T>(ys: seq<T>, y: T)
    ensures IsSubsequence([y], ys + [y])
    decreases |ys|
  {
    if ys != [] {
      assert (ys + [y])[1..] == ys[1..] + [y];
      if ys[0] != y {
        SubsequenceSingle(ys[1..], y);
      } else {
        assert IsSubsequence([y][1..], (ys + [y])[1..]);
      }
    } else {
      assert IsSubsequence([y][1..], [y][1..]);
    }
  }

  /** Python `sep.join(xs)`. */
  function Join(sep: string, xs: seq<string>): (r: string)
    ensures xs == [] ==> r == []
  {
    if xs == [] then []
    else if |xs| == 1 then xs[0]
    else xs[0] + sep + Join(sep, xs[1..])
  }

  /** Python `"".join(xs)`. */
  function Concat(xs: seq<string>): (r: string)
    ensures |r| == Total(xs)
  {
    if xs == [] then [] else xs[0] + Concat(xs[1..])
  }

  function Total(xs: seq<string>): nat {
    if xs == [] then 0 else |xs[0]| + Total(xs[1..])
  }

  lemma ConcatAppend(xs: seq<string>, x: string)
    ensures Concat(xs + [x]) == Concat(xs) + x
  {
    if xs != [] {
      assert (xs + [x])[1..] == xs[1..] + [x];
      ConcatAppend(xs[1..], x);
    }
  }

  /** Each joined element appears in the joined text. */
  lemma {:induction false} JoinContains(sep: string, xs: seq<string>, k: nat)
    requires k < |xs|
    ensures Contains(Join(sep, xs), xs[k])
  {
    if |xs| == 1 {
      ContainsItself([], xs[0], []);
    } else if k == 0 {
      ContainsItself([], xs[0], sep + Join(sep, xs[1..]));
      assert [] + xs[0] + (sep + Join(sep, xs[1..])) == Join(sep, xs);
    } else {
      JoinContains(sep, xs[1..], k - 1);
      ContainsWithin(xs[0] + sep, Join(sep, xs[1..]), [], xs[k]);
      assert xs[0] + sep + Join(sep, xs[1..]) + [] == Join(sep, xs);
    }
  }

  // ---------------------------------------------------------------------------
  // Decimal numerals
  // ---------------------------------------------------------------------------

  predicate AllDigits(s: string) {
    forall k :: 0 <= k < |s| ==> IsDigit(s[k])
  }

  function DigitChar(d: nat): char
    requires d < 10
  {
    ('0' as int + d) as char
  }

  /** Python `str(n)` for a natural number. */
  function NatToString(n: nat): (r: string)
    ensures r != [] && AllDigits(r)
  {
    if n < 10 then [DigitChar(n)] else NatToString(n / 10) + [DigitChar(n % 10)]
  }

  /** Python `int(s)` on ASCII digits. */
  function DigitsValue(s: string): nat
    requires AllDigits(s)
  {
    if s == [] then 0
    else DigitsValue(s[..|s| - 1]) * 10 + (s[|s| - 1] as int - '0' as int)
  }

  lemma {:induction false} DigitsValueOfNatToString(n: nat)
    ensures DigitsValue(NatToString(n)) == n
  {
    if n >= 10 {
      var r := NatToString(n);
      assert r[..|r| - 1] == NatToString(n / 10);
      DigitsValueOfNatToString(n / 10);
    }
  }

  /** First index at or after `i` that is not whitespace. */
  function SkipSpace(s: string, i: nat): (j: nat)
    ensures i <= j && (i <= |s| ==> j <= |s|)
    ensures j < |s| ==> !IsSpace(s[j])
    decreases |s| - i
  {
    if i < |s| && IsSpace(s[i]) then SkipSpace(s, i + 1) else i
  }

  /** Every character `SkipSpace` passes over is whitespace. */
  lemma {:induction false} SkipSpaceRun(s: string, i: nat, k: nat)
    requires i <= k < SkipSpace(s, i)
    ensures k < |s| && IsSpace(s[k])
    decreases |s| - i
  {
    if k > i {
      SkipSpaceRun(s, i + 1, k);
    }
  }

  /** First index at or after `i` that is not a regex `\w` character. */
  function SkipWord(s: string, i: nat): (j: nat)
    ensures i <= j && (i <= |s| ==> j <= |s|)
    ensures j < |s| ==> !IsWordChar(s[j])
    decreases |s| - i
  {
    if i < |s| && IsWordChar(s[i]) then SkipWord(s, i + 1) else i
  }

  /** Every character `SkipWord` passes over is a word character. */
  lemma {:induction false} SkipWordRun(s: string, i: nat, k: nat)
    requires i <= k < SkipWord(s, i)
    ensures WordAt(s, k)
    decreases |s| - i
  {
    if k > i {
      SkipWordRun(s, i + 1, k);
    }
  }

  /** `SkipSpace` stops at or before any non-whitespace character it reaches. */
  lemma {:induction false} SkipSpaceStops(s: string, i: nat, k: nat)
    requires i <= k < |s| && !IsSpace(s[k])
    ensures SkipSpace(s, i) <= k
    decreases k - i
  {
    if i < k && IsSpace(s[i]) {
      SkipSpaceStops(s, i + 1, k);
    }
  }

  /** `SkipWord` stops at or before any non-word character it reaches. */
  lemma {:induction false} SkipWordStops(s: string, i: nat, k: nat)
    requires i <= k < |s| && !IsWordChar(s[k])
    ensures SkipWord(s, i) <= k
    decreases k - i
  {
    if i < k && IsWordChar(s[i]) {
      SkipWordStops(s, i + 1, k);
    }
  }

  /** A `SkipSpace` over `x + y` that stops within `x` reads only `x`. */
  lemma {:induction false} SkipSpacePrefix(x: string, y: string, i: nat)
    requires i <= |x| && SkipSpace(x + y, i) <= |x|
    ensures SkipSpace(x, i) == SkipSpace(x + y, i)
    decreases |x| - i
  {
    if i < |x| {
      assert (x + y)[i] == x[i];
      if IsSpace(x[i]) {
        SkipSpacePrefix(x, y, i + 1);
      }
    }
  }

  /** A `SkipWord` over `x + y` that stops within `x` reads only `x`. */
  lemma {:induction false} SkipWordPrefix(x: string, y: string, i: nat)
    requires i <= |x| && SkipWord(x + y, i) <= |x|
    ensures SkipWord(x, i) == SkipWord(x + y, i)
    decreases |x| - i
  {
    if i < |x| {
      assert (x + y)[i] == x[i];
      if IsWordChar(x[i]) {
        SkipWordPrefix(x, y, i + 1);
      }
    }
  }

  /** A `SkipSpace` over `x + y` that starts in `y` reads only `y`. */
  lemma {:induction false} SkipSpaceShift(x: string, y: string, j: nat)
    ensures SkipSpace(x + y, |x| + j) == |x| + SkipSpace(y, j)
    decreases |y| - j
  {
    if j < |y| {
      assert (x + y)[|x| + j] == y[j];
      if IsSpace(y[j]) {
        SkipSpaceShift(x, y, j + 1);
      }
    }
  }

  /** A `SkipWord` over `x + y` that starts in `y` reads only `y`. */
  lemma {:induction false} SkipWordShift(x: string, y: string, j: nat)
    ensures SkipWord(x + y, |x| + j) == |x| + SkipWord(y, j)
    decreases |y| - j
  {
    if j < |y| {
      assert (x + y)[|x| + j] == y[j];
      if IsWordChar(y[j]) {
        SkipWordShift(x, y, j + 1);
      }
    }
  }

  // ---------------------------------------------------------------------------
  // Python `str(list_of_str)`
  // ---------------------------------------------------------------------------

  /** What `repr` writes for one character inside a single-quoted literal. */
  function EscapeChar(c: char): string {
    if c == '\\' then "\\\\"
    else if c == '\'' then "\\'"
    else if c == '\n' then "\\n"
    else if c == '\r' then "\\r"
    else if c == '\t' then "\\t"
    else [c]
  }

  function Escape(s: string): string {
    if s == [] then [] else EscapeChar(s[0]) + Escape(s[1..])
  }

  /** Reads back an escaped text; the partner of `Escape`. */
  function Unescape(s: string): string
    decreases |s|
  {
    if s == [] then []
    else if s[0] == '\\' && |s| >= 2 then
      var c := if s[1] == 'n' then '\n' else if s[1] == 'r' then '\r' else if s[1] == 't' then '\t' else s[1];
      [c] + Unescape(s[2..])
    else [s[0]] + Unescape(s[1..])
  }

  /** One escaped character reads back as itself, whatever follows it. */
  lemma UnescapeStep(c: char, rest: string)
    ensures Unescape(EscapeChar(c) + rest) == [c] + Unescape(rest)
  {
    var t := EscapeChar(c) + rest;
    if |EscapeChar(c)| == 2 {
      assert t[2..] == rest;
    } else {
      assert t[1..] == rest;
    }
  }

  /** No information is lost when a text is rendered inside a list. */
  lemma {:induction false} UnescapeEscape(s: string)
    ensures Unescape(Escape(s)) == s
  {
    if s != [] {
      UnescapeStep(s[0], Escape(s[1..]));
      UnescapeEscape(s[1..]);
    }
  }

  function Quote(s: string): string {
    "'" + Escape(s) + "'"
  }

  function QuoteAll(xs: seq<string>): (r: seq<string>)
    ensures |r| == |xs| && forall k :: 0 <= k < |xs| ==> r[k] == Quote(xs[k])
  {
    seq(|xs|, k requires 0 <= k < |xs| => Quote(xs[k]))
  }

  /** Python `str(xs)` for a list of strings: `['a', 'b']`. */
  function Render(xs: seq<string>): string {
    "[" + Join(", ", QuoteAll(xs)) + "]"
  }

  /** Every element of a rendered list can be found, quoted, in its rendering. */
  lemma RenderMentions(xs: seq<string>, k: nat)
    requires k < |xs|
    ensures Contains(Render(xs), Quote(xs[k]))
  {
    JoinContains(", ", QuoteAll(xs), k);
    ContainsWithin("[", Join(", ", QuoteAll(xs)), "]", Quote(xs[k]));
  }
}

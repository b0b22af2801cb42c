/**
 * The Python `str` built-ins the verification heuristics rely on: `isspace`
 * (the separators of `split()` and `strip()`), `lower()`, the `in` substring
 * test, `endswith`, `split()`, `strip()` and `sep.join(...)`.
 *
 * Characters are Unicode scalar values, so `|s|` is Python's `len(s)`.  The
 * character classes are exact on U+0000..U+00FF (Latin-1); above U+00FF every
 * character is treated as uncased and as not white space.
 */
module PyStr {

  /** `c.isspace()` on Latin-1: TAB..CR, the four information separators
      U+001C..U+001F, SPACE, NEL (U+0085) and NO-BREAK SPACE (U+00A0). */
  predicate IsSpace(c: char) {
    c == ' ' || ('\t' <= c <= '\r') || ('\U{1C}' <= c <= '\U{1F}') || c == '\U{85}' || c == '\U{A0}'
  }

  /** Upper-case letters of Latin-1: A..Z and U+00C0..U+00DE except the sign U+00D7. */
  predicate IsUpper(c: char) {
    ('A' <= c <= 'Z') || ('\U{C0}' <= c <= '\U{DE}' && c != '\U{D7}')
  }

  /** The lower-case form of one character. */
  function LowerChar(c: char): (d: char)
    ensures !IsUpper(d)
    ensures IsUpper(c) ==> d as int == c as int + 32
    ensures !IsUpper(c) ==> d == c
  {
    if IsUpper(c) then (c as int + 32) as char else c
  }

  /** `s.lower()`: each character mapped on its own, so the length is kept. */
  function Lower(s: string): (r: string)
    ensures |r| == |s|
    ensures forall i :: 0 <= i < |r| ==> !IsUpper(r[i])
    ensures forall i :: 0 <= i < |s| && !IsUpper(s[i]) ==> r[i] == s[i]
  {
    seq(|s|, i requires 0 <= i < |s| => LowerChar(s[i]))
  }

  lemma LowerIdempotent(s: string)
    ensures Lower(Lower(s)) == Lower(s)
  {
  }

  /** Lower-casing commutes with taking a slice. */
  lemma LowerSlice(s: string, i: nat, j: nat)
    requires i <= j <= |s|
    ensures Lower(s[i..j]) == Lower(s)[i..j]
  {
  }

  /** The pattern p occurs in s starting at index i. */
  predicate OccursAt(s: string, p: string, i: int) {
    0 <= i && i + |p| <= |s| && s[i..i + |p|] == p
  }

  /** When p does not start s, p occurs in s iff it occurs in s without its first character. */
  lemma OccursShift(s: string, p: string)
    requires s != [] && !OccursAt(s, p, 0)
    ensures (exists i :: OccursAt(s, p, i)) <==> (exists i :: OccursAt(s[1..], p, i))
  {
    if i :| OccursAt(s, p, i) {
      assert i > 0;
      assert s[1..][i - 1..i - 1 + |p|] == s[i..i + |p|];
      assert OccursAt(s[1..], p, i - 1);
    }
    if i :| OccursAt(s[1..], p, i) {
      assert s[1..][i..i + |p|] == s[i + 1..i + 1 + |p|];
      assert OccursAt(s, p, i + 1);
    }
  }

  /** `p in s`: the substring test, by trying each start position in turn. */
  function Contains(s: string, p: string): (r: bool)
    ensures r <==> exists i :: OccursAt(s, p, i)
    decreases |s|
  {
    if |p| > |s| then false
    else if s[..|p|] == p then assert OccursAt(s, p, 0); true
    else
      assert !OccursAt(s, p, 0);
      OccursShift(s, p);
      Contains(s[1..], p)
  }

  /** A text holding a non-empty pattern holds its first character. */
  lemma ContainsFirstChar(s: string, p: string)
    requires p != [] && Contains(s, p)
    ensures p[0] in s
  {
    var i :| OccursAt(s, p, i);
    assert s[i] == s[i..i + |p|][0];
  }

  /** `s.endswith(p)`. */
  predicate EndsWith(s: string, p: string) {
    |p| <= |s| && s[|s| - |p|..] == p
  }

  /** No character of s is white space. */
  predicate NoSpace(s: string) {
    forall i :: 0 <= i < |s| ==> !IsSpace(s[i])
  }

  /** Every character of s is white space. */
  predicate AllSpace(s: string) {
    forall i :: 0 <= i < |s| ==> IsSpace(s[i])
  }

  /** Length of the longest prefix of s without white space. */
  function RunLength(s: string): (n: nat)
    ensures n <= |s| && NoSpace(s[..n])
    ensures n < |s| ==> IsSpace(s[n])
  {
    if s == [] || IsSpace(s[0]) then 0 else 1 + RunLength(s[1..])
  }

  /** `s.split()` with no separator: the maximal runs of non-space characters,
      in order; leading, trailing and repeated white space yields no empty token. */
  function Split(s: string): seq<string>
    decreases |s|
  {
    if s == [] then []
    else if IsSpace(s[0]) then Split(s[1..])
    else
      var n := RunLength(s);
      [s[..n]] + Split(s[n..])
  }

  /** Every token of `split()` is non-empty and holds no white space. */
  lemma {:induction false} SplitTokens(s: string)
    ensures forall w :: w in Split(s) ==> w != [] && NoSpace(w)
    decreases |s|
  {
    if s == [] {
    } else if IsSpace(s[0]) {
      SplitTokens(s[1..]);
    } else {
      SplitTokens(s[RunLength(s)..]);
    }
  }

  /** A string of white space only has no tokens. */
  lemma {:induction false} SplitAllSpace(s: string)
    requires AllSpace(s)
    ensures Split(s) == []
    decreases |s|
  {
    if s != [] {
      SplitAllSpace(s[1..]);
    }
  }

  /** A non-empty string without white space is its own single token. */
  lemma SplitWord(w: string)
    requires w != [] && NoSpace(w)
    ensures Split(w) == [w]
  {
    assert !IsSpace(w[0]);
    var n := RunLength(w);
    assert n == |w|;
    assert w[..n] == w && w[n..] == [];
  }

  /** Appending after a string that has no white space extends its run. */
  lemma {:induction false} RunLengthAppend(a: string, x: string)
    ensures RunLength(a + x) == if RunLength(a) < |a| then RunLength(a) else |a| + RunLength(x)
    decreases |a|
  {
    if a == [] {
      assert a + x == x;
    } else {
      assert (a + x)[0] == a[0];
      assert (a + x)[1..] == a[1..] + x;
      if !IsSpace(a[0]) {
        RunLengthAppend(a[1..], x);
      }
    }
  }

  /** One white-space character separates the tokens on its two sides. */
  lemma {:induction false} SplitAppendSpace(a: string, c: char, b: string)
    requires IsSpace(c)
    ensures Split(a + [c] + b) == Split(a) + Split(b)
    decreases |a|
  {
    if a == [] {
      SplitAppendSpaceEmpty(c, b);
    } else if IsSpace(a[0]) {
      SplitAppendSpace(a[1..], c, b);
      SplitAppendSpaceSkip(a, c, b);
    } else {
      var n := RunLength(a);
      SplitAppendSpaceWord(a, c, b, n);
      SplitAppendSpace(a[n..], c, b);
      SplitAppendSpaceTake(a, c, b, n);
    }
  }

  lemma SplitAppendSpaceEmpty(c: char, b: string)
    requires IsSpace(c)
    ensures Split([] + [c] + b) == Split([]) + Split(b)
  {
    assert [] + [c] + b == [c] + b;
    assert ([c] + b)[1..] == b;
  }

  lemma SplitAppendSpaceSkip(a: string, c: char, b: string)
    requires IsSpace(c) && a != [] && IsSpace(a[0])
    requires Split(a[1..] + [c] + b) == Split(a[1..]) + Split(b)
    ensures Split(a + [c] + b) == Split(a) + Split(b)
  {
    assert (a + [c] + b)[1..] == a[1..] + [c] + b;
  }

  lemma SplitAppendSpaceTake(a: string, c: char, b: string, n: nat)
    requires n <= |a|
    requires Split(a + [c] + b) == [a[..n]] + Split(a[n..] + [c] + b)
    requires Split(a) == [a[..n]] + Split(a[n..])
    requires Split(a[n..] + [c] + b) == Split(a[n..]) + Split(b)
    ensures Split(a + [c] + b) == Split(a) + Split(b)
  {
  }

  /** The first token of `a + [c] + b`, when a starts with a non-space, is a's first token. */
  lemma SplitAppendSpaceWord(a: string, c: char, b: string, n: nat)
    requires IsSpace(c) && a != [] && !IsSpace(a[0]) && n == RunLength(a)
    ensures 0 < n <= |a|
    ensures Split(a + [c] + b) == [a[..n]] + Split(a[n..] + [c] + b)
    ensures Split(a) == [a[..n]] + Split(a[n..])
  {
    var s := a + [c] + b;
    RunLengthAppend(a, [c] + b);
    assert s == a + ([c] + b);
    assert RunLength(s) == n;
    assert s[..n] == a[..n];
    assert s[n..] == a[n..] + [c] + b;
  }

  /** Splitting distributes over concatenation when the right part starts with white space. */
  lemma SplitConcatBefore(a: string, b: string)
    requires b != [] && IsSpace(b[0])
    ensures Split(a + b) == Split(a) + Split(b)
  {
    assert a + b == a + [b[0]] + b[1..];
    SplitAppendSpace(a, b[0], b[1..]);
    assert Split(b) == Split(b[1..]);
  }

  /** Splitting distributes over concatenation when the left part ends with white space. */
  lemma SplitConcatAfter(a: string, b: string)
    requires a != [] && IsSpace(a[|a| - 1])
    ensures Split(a + b) == Split(a) + Split(b)
  {
    var a', c := a[..|a| - 1], a[|a| - 1];
    assert a' + [c] + b == a + b;
    assert a' + [c] + [] == a;
    SplitAppendSpace(a', c, b);
    SplitAppendSpace(a', c, []);
  }

  /** Leading white space contributes no token. */
  lemma {:induction false} SplitSkipsLeadingSpace(w: string, b: string)
    requires AllSpace(w)
    ensures Split(w + b) == Split(b)
    decreases |w|
  {
    if w != [] {
      assert (w + b)[0] == w[0];
      assert (w + b)[1..] == w[1..] + b;
      SplitSkipsLeadingSpace(w[1..], b);
    } else {
      assert w + b == b;
    }
  }

  /** Trailing white space contributes no token. */
  lemma SplitSkipsTrailingSpace(a: string, w: string)
    requires AllSpace(w)
    ensures Split(a + w) == Split(a)
  {
    if w == [] {
      assert a + w == a;
    } else {
      SplitConcatBefore(a, w);
      SplitAllSpace(w);
    }
  }

  /** `s.lstrip()`: drop leading white space. */
  function TrimStart(s: string): (r: string)
    ensures |r| <= |s| && r == s[|s| - |r|..]
    ensures AllSpace(s[..|s| - |r|])
    ensures r == [] || !IsSpace(r[0])
  {
    if s != [] && IsSpace(s[0]) then
      var r := TrimStart(s[1..]);
      TrimStartStep(s, r);
      r
    else s
  }

  /** One leading space more in front of a suffix that follows white space. */
  lemma TrimStartStep(s: string, r: string)
    requires s != [] && IsSpace(s[0]) && |r| <= |s| - 1
    requires r == s[1..][|s| - 1 - |r|..] && AllSpace(s[1..][..|s| - 1 - |r|])
    ensures r == s[|s| - |r|..] && AllSpace(s[..|s| - |r|])
  {
    var k := |s| - |r|;
    assert s[..k] == [s[0]] + s[1..][..k - 1];
  }

  /** `s.rstrip()`: drop trailing white space. */
  function TrimEnd(s: string): (r: string)
    ensures |r| <= |s| && r == s[..|r|]
    ensures AllSpace(s[|r|..])
    ensures r == [] || !IsSpace(r[|r| - 1])
  {
    if s != [] && IsSpace(s[|s| - 1]) then
      var r := TrimEnd(s[..|s| - 1]);
      TrimEndStep(s, r);
      r
    else s
  }

  /** One trailing space more behind a prefix that precedes white space. */
  lemma TrimEndStep(s: string, r: string)
    requires s != [] && IsSpace(s[|s| - 1]) && |r| <= |s| - 1
    requires r == s[..|s| - 1][..|r|] && AllSpace(s[..|s| - 1][|r|..])
    ensures r == s[..|r|] && AllSpace(s[|r|..])
  {
    assert s[|r|..] == s[..|s| - 1][|r|..] + [s[|s| - 1]];
  }

  /** r is what is left of s once i leading and some trailing spaces are cut. */
  predicate StrippedAt(s: string, r: string, i: int) {
    0 <= i && i + |r| <= |s| && s[i..i + |r|] == r && AllSpace(s[..i]) && AllSpace(s[i + |r|..])
  }

  /** `s.strip()`: the slice of s between its leading and its trailing white
      space, which neither starts nor ends with white space. */
  function Strip(s: string): (r: string)
    ensures exists i :: StrippedAt(s, r, i)
    ensures r == [] || (!IsSpace(r[0]) && !IsSpace(r[|r| - 1]))
  {
    TrimBoth(s);
    TrimEnd(TrimStart(s))
  }

  /** Trimming both ends leaves the slice after the leading white space. */
  lemma TrimBoth(s: string)
    ensures StrippedAt(s, TrimEnd(TrimStart(s)), |s| - |TrimStart(s)|)
  {
    var t := TrimStart(s);
    StrippedAtSuffix(s, t, TrimEnd(t), |s| - |t|);
  }

  /** Cutting i leading spaces and then some trailing spaces strips s. */
  lemma StrippedAtSuffix(s: string, t: string, r: string, i: nat)
    requires i <= |s| && t == s[i..] && AllSpace(s[..i])
    requires |r| <= |t| && r == t[..|r|] && AllSpace(t[|r|..])
    ensures StrippedAt(s, r, i)
  {
    assert s[i..i + |r|] == t[..|r|];
    assert s[i + |r|..] == t[|r|..];
  }

  /** A string without white space is left alone by `strip()`. */
  lemma StripNoSpace(w: string)
    requires NoSpace(w)
    ensures Strip(w) == w
  {
    var r := Strip(w);
    var i :| StrippedAt(w, r, i);
    assert i == 0 && i + |r| == |w|;
    assert w == w[i..i + |r|];
  }

  /** `lstrip()` removes no token. */
  lemma SplitTrimStart(s: string)
    ensures Split(TrimStart(s)) == Split(s)
  {
    var t := TrimStart(s);
    SplitDropSpace(s, |s| - |t|);
  }

  /** Dropping a white-space prefix removes no token. */
  lemma SplitDropSpace(s: string, k: nat)
    requires k <= |s| && AllSpace(s[..k])
    ensures Split(s[k..]) == Split(s)
  {
    assert s == s[..k] + s[k..];
    SplitSkipsLeadingSpace(s[..k], s[k..]);
  }

  /** `rstrip()` removes no token. */
  lemma SplitTrimEnd(s: string)
    ensures Split(TrimEnd(s)) == Split(s)
  {
    var t := TrimEnd(s);
    SplitDropSpaceEnd(s, |t|);
  }

  /** Dropping a white-space suffix removes no token. */
  lemma SplitDropSpaceEnd(s: string, k: nat)
    requires k <= |s| && AllSpace(s[k..])
    ensures Split(s[..k]) == Split(s)
  {
    assert s == s[..k] + s[k..];
    SplitSkipsTrailingSpace(s[..k], s[k..]);
  }

  /** `strip()` removes no token. */
  lemma SplitStrip(s: string)
    ensures Split(Strip(s)) == Split(s)
  {
    SplitTrimStart(s);
    SplitTrimEnd(TrimStart(s));
    assert Strip(s) == TrimEnd(TrimStart(s));
  }

  /** `sep.join(parts)`. */
  function Join(sep: string, parts: seq<string>): (r: string)
    ensures parts == [] ==> r == []
    ensures forall i :: 0 <= i < |parts| ==> |parts[i]| <= |r|
    decreases |parts|
  {
    if parts == [] then []
    else if |parts| == 1 then parts[0]
    else parts[0] + sep + Join(sep, parts[1..])
  }

  /** Index in `Join(sep, parts)` at which part i starts. */
  function Offset(sep: string, parts: seq<string>, i: nat): nat
    requires i <= |parts|
  {
    if i == 0 then 0 else |parts[0]| + |sep| + Offset(sep, parts[1..], i - 1)
  }

  /** Total length of the parts. */
  function TotalLength(parts: seq<string>): nat {
    if parts == [] then 0 else |parts[0]| + TotalLength(parts[1..])
  }

  /** Part i of the joined string sits at its offset. */
  lemma {:induction false} JoinPartAt(sep: string, parts: seq<string>, i: nat)
    requires i < |parts|
    ensures Offset(sep, parts, i) + |parts[i]| <= |Join(sep, parts)|
    ensures Join(sep, parts)[Offset(sep, parts, i)..Offset(sep, parts, i) + |parts[i]|] == parts[i]
    decreases i
  {
    if |parts| > 1 {
      var rest := Join(sep, parts[1..]);
      assert Join(sep, parts) == parts[0] + (sep + rest);
      if i == 0 {
        SliceOfConcat(parts[0], sep + rest, 0, |parts[0]|);
      } else {
        JoinPartAt(sep, parts[1..], i - 1);
        var o := Offset(sep, parts[1..], i - 1);
        SliceShift(parts[0] + sep, rest, o, o + |parts[i]|);
        assert parts[0] + (sep + rest) == (parts[0] + sep) + rest;
      }
    }
  }

  /** Every part but the first has a separator just before it. */
  lemma {:induction false} JoinSepBefore(sep: string, parts: seq<string>, i: nat)
    requires 0 < i < |parts|
    ensures |sep| <= Offset(sep, parts, i) <= |Join(sep, parts)|
    ensures Join(sep, parts)[Offset(sep, parts, i) - |sep|..Offset(sep, parts, i)] == sep
    decreases i
  {
    var rest := Join(sep, parts[1..]);
    assert Join(sep, parts) == (parts[0] + sep) + rest;
    if i == 1 {
      assert Offset(sep, parts, i) == |parts[0]| + |sep|;
      SliceOfConcat(parts[0] + sep, rest, |parts[0]|, |parts[0]| + |sep|);
      SliceShift(parts[0], sep, 0, |sep|);
    } else {
      JoinSepBefore(sep, parts[1..], i - 1);
      var o := Offset(sep, parts[1..], i - 1);
      SliceShift(parts[0] + sep, rest, o - |sep|, o);
    }
  }

  /** The joined string holds every part, in order, each at its offset, with
      exactly one separator in front of every part but the first. */
  lemma JoinLayout(sep: string, parts: seq<string>, i: nat)
    requires i < |parts|
    ensures Offset(sep, parts, i) + |parts[i]| <= |Join(sep, parts)|
    ensures Join(sep, parts)[Offset(sep, parts, i)..Offset(sep, parts, i) + |parts[i]|] == parts[i]
    ensures 0 < i ==> (|sep| <= Offset(sep, parts, i)
      && Join(sep, parts)[Offset(sep, parts, i) - |sep|..Offset(sep, parts, i)] == sep)
  {
    JoinPartAt(sep, parts, i);
    if 0 < i {
      JoinSepBefore(sep, parts, i);
    }
  }

  /** A slice inside the left operand of a concatenation. */
  lemma SliceOfConcat(x: string, y: string, i: nat, j: nat)
    requires i <= j <= |x|
    ensures (x + y)[i..j] == x[i..j]
  {
  }

  /** A slice inside the right operand of a concatenation. */
  lemma SliceShift(x: string, y: string, i: nat, j: nat)
    requires i <= j <= |y|
    ensures (x + y)[|x| + i..|x| + j] == y[i..j]
  {
  }

  /** The joined length: all parts plus one separator between each pair. */
  lemma {:induction false} JoinLength(sep: string, parts: seq<string>)
    requires parts != []
    ensures |Join(sep, parts)| == TotalLength(parts) + (|parts| - 1) * |sep|
    decreases |parts|
  {
    if |parts| > 1 {
      JoinLength(sep, parts[1..]);
    }
  }
}

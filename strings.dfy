/**
 * The JavaScript string built-ins the extension relies on, restricted to what it uses:
 * `toLowerCase` (ASCII letters only), `trim` and the `\s` class (one explicit white-space set),
 * `split(/\s+/)` followed by dropping empty pieces, `indexOf`/`includes`/`startsWith`,
 * `join(' ')`, `localeCompare` (as ordinal code-point order) and decimal formatting of numbers.
 */
module Strings {

  /** White space for both `trim` and `\s`: the ECMAScript WhiteSpace characters (tab, vertical
      tab, form feed, the byte order mark and the space separators of Unicode category Zs) and
      LineTerminator characters (line feed, carriage return, U+2028, U+2029). */
  predicate IsSpace(c: char) {
    c == ' ' || c == '\t' || c == '\n' || c == '\r' || c == '\U{B}' || c == '\U{C}'
    || c == '\U{A0}' || c == '\U{FEFF}' || c == '\U{2028}' || c == '\U{2029}'
    || c == '\U{1680}' || '\U{2000}' <= c <= '\U{200A}' || c == '\U{202F}' || c == '\U{205F}'
    || c == '\U{3000}'
  }

  predicate AllSpace(s: string) {
    forall i :: 0 <= i < |s| ==> IsSpace(s[i])
  }

  predicate NoSpace(s: string) {
    forall i :: 0 <= i < |s| ==> !IsSpace(s[i])
  }

  // ---------------------------------------------------------------------------------------------
  // Case folding

  function LowerChar(c: char): char {
    if 'A' <= c <= 'Z' then (c as int + 32) as char else c
  }

  function Lower(s: string): (r: string)
    ensures |r| == |s|
    ensures forall i :: 0 <= i < |s| ==> r[i] == LowerChar(s[i])
  {
    seq(|s|, i requires 0 <= i < |s| => LowerChar(s[i]))
  }

  /** A string without upper-case ASCII letters is its own lower-case form. */
  lemma LowerOfLower(s: string)
    requires forall i :: 0 <= i < |s| ==> !('A' <= s[i] <= 'Z')
    ensures Lower(s) == s
  {
  }

  // ---------------------------------------------------------------------------------------------
  // trim

  function TrimStart(s: string): (r: string)
    ensures |r| <= |s| && r == s[|s| - |r|..]
    ensures AllSpace(s[..|s| - |r|])
    ensures r != [] ==> !IsSpace(r[0])
    decreases |s|
  {
    if s != [] && IsSpace(s[0]) then
      var r := TrimStart(s[1..]);
      assert s[..|s| - |r|] == [s[0]] + s[1..][..|s| - 1 - |r|];
      r
    else s
  }

  function TrimEnd(s: string): (r: string)
    ensures |r| <= |s| && r == s[..|r|]
    ensures AllSpace(s[|r|..])
    ensures r != [] ==> !IsSpace(r[|r| - 1])
    decreases |s|
  {
    if s != [] && IsSpace(s[|s| - 1]) then
      var r := TrimEnd(s[..|s| - 1]);
      assert s[|r|..] == s[..|s| - 1][|r|..] + [s[|s| - 1]];
      r
    else s
  }

  /** `String.prototype.trim`. */
  function Trim(s: string): string {
    TrimEnd(TrimStart(s))
  }

  /** Trimming leaves nothing exactly when the string is white space only. */
  lemma TrimEmptyIff(s: string)
    ensures Trim(s) == [] <==> AllSpace(s)
  {
    var t := TrimStart(s);
    if Trim(s) == [] {
      assert AllSpace(t) by {
        assert AllSpace(t[0..]);
        assert t[0..] == t;
      }
      forall i | 0 <= i < |s| ensures IsSpace(s[i]) {
        if i < |s| - |t| {
          assert s[..|s| - |t|][i] == s[i];
        } else {
          assert t[i - (|s| - |t|)] == s[i];
        }
      }
    } else {
      var r := Trim(s);
      assert !IsSpace(r[0]);
      assert r[0] == t[0] == s[|s| - |t|];
    }
  }

  /** A string with no white space at either end is its own trimmed form. */
  lemma TrimWithoutEdges(s: string)
    requires s != [] ==> !IsSpace(s[0]) && !IsSpace(s[|s| - 1])
    ensures Trim(s) == s
  {
  }

  // ---------------------------------------------------------------------------------------------
  // split(/\s+/).filter(w => w.length > 0)

  /** Length of the leading run of non-white-space characters. */
  function TokenLength(s: string): (n: nat)
    ensures n <= |s|
    ensures NoSpace(s[..n])
    ensures n < |s| ==> IsSpace(s[n])
    ensures s != [] && !IsSpace(s[0]) ==> n > 0
  {
    if s == [] || IsSpace(s[0]) then 0 else 1 + TokenLength(s[1..])
  }

  /** The maximal runs of non-white-space characters of `s`, in order. */
  function Words(s: string): (ws: seq<string>)
    ensures forall k :: 0 <= k < |ws| ==> ws[k] != [] && NoSpace(ws[k])
    ensures ws == [] <==> AllSpace(s)
    decreases |s|
  {
    if s == [] then []
    else if IsSpace(s[0]) then
      var rest := Words(s[1..]);
      assert AllSpace(s[1..]) ==> AllSpace(s) by {
        if AllSpace(s[1..]) {
          forall i | 0 <= i < |s| ensures IsSpace(s[i]) {
            if i > 0 { assert s[1..][i - 1] == s[i]; }
          }
        }
      }
      rest
    else
      var n := TokenLength(s);
      [s[..n]] + Words(s[n..])
  }

  /** A run without white space, followed by white space or the end, is one token. */
  lemma {:induction false} TokenLengthOfRun(a: string, rest: string)
    requires NoSpace(a)
    requires rest != [] ==> IsSpace(rest[0])
    ensures TokenLength(a + rest) == |a|
  {
    if a != [] {
      assert (a + rest)[1..] == a[1..] + rest;
      TokenLengthOfRun(a[1..], rest);
    }
  }

  /** A non-empty string without white space is a single word. */
  lemma WordsOfToken(s: string)
    requires s != [] && NoSpace(s)
    ensures Words(s) == [s]
  {
    TokenLengthOfRun(s, []);
    assert s + [] == s;
    assert s[|s|..] == [];
  }

  /** Two words separated by one space. */
  lemma WordsOfTwo(a: string, b: string)
    requires a != [] && NoSpace(a) && b != [] && NoSpace(b)
    ensures Words(a + " " + b) == [a, b]
  {
    var s := a + " " + b;
    TokenLengthOfRun(a, " " + b);
    assert s == a + (" " + b);
    assert s[..|a|] == a;
    assert s[|a|..] == " " + b;
    assert (" " + b)[1..] == b;
    WordsOfToken(b);
  }

  /** `s` read character by character with every run of white space between two words written as
      one space and none kept at either end; `started` says a word has been written, `pending`
      that white space followed it. */
  function Collapsed(s: string, started: bool, pending: bool): string {
    if s == [] then []
    else if IsSpace(s[0]) then Collapsed(s[1..], started, started)
    else (if pending then " " else "") + [s[0]] + Collapsed(s[1..], true, false)
  }

  /** The words of `s` joined by single spaces, computed without splitting. */
  function CollapseSpace(s: string): string {
    Collapsed(s, false, false)
  }

  /** A word is written out whole, after the pending space if any. */
  lemma {:induction false} CollapsedToken(a: string, rest: string, started: bool, pending: bool)
    requires a != [] && NoSpace(a)
    ensures Collapsed(a + rest, started, pending) == (if pending then " " else "") + a + Collapsed(rest, true, false)
    decreases |a|
  {
    assert (a + rest)[0] == a[0];
    assert (a + rest)[1..] == a[1..] + rest;
    if |a| == 1 {
      assert a[1..] + rest == rest;
    } else {
      CollapsedToken(a[1..], rest, true, false);
    }
    assert a == [a[0]] + a[1..];
  }

  lemma JoinSpacedCons(t: string, ws: seq<string>)
    ensures JoinSpaced([t] + ws) == if ws == [] then t else t + " " + JoinSpaced(ws)
  {
    assert ([t] + ws)[1..] == ws;
  }

  /** What `CollapsedWords` states, for a text `s` with the collapse state `started`/`pending`. */
  ghost function CollapsedWordsForm(s: string, started: bool, pending: bool): string {
    if Words(s) == [] then []
    else (if started && (pending || (s != [] && IsSpace(s[0]))) then " " else "") + JoinSpaced(Words(s))
  }

  /** A leading word that is the last word of `s`. */
  lemma CollapsedLastWord(s: string, started: bool, pending: bool)
    requires s != [] && !IsSpace(s[0])
    requires Words(s[TokenLength(s)..]) == [] && Collapsed(s[TokenLength(s)..], true, false) == []
    ensures Collapsed(s, started, pending) == (if pending then " " else "") + JoinSpaced(Words(s))
  {
    var n := TokenLength(s);
    var t, rest := s[..n], s[n..];
    assert s == t + rest;
    CollapsedToken(t, rest, started, pending);
    assert Words(s) == [t] + Words(rest);
    JoinSpacedCons(t, Words(rest));
  }

  /** A leading word followed by more words. */
  lemma CollapsedInnerWord(s: string, started: bool, pending: bool)
    requires s != [] && !IsSpace(s[0])
    requires Words(s[TokenLength(s)..]) != []
    requires Collapsed(s[TokenLength(s)..], true, false) == " " + JoinSpaced(Words(s[TokenLength(s)..]))
    ensures Collapsed(s, started, pending) == (if pending then " " else "") + JoinSpaced(Words(s))
  {
    var n := TokenLength(s);
    var t, rest := s[..n], s[n..];
    var j := JoinSpaced(Words(rest));
    var lead := if pending then " " else "";
    assert Collapsed(s, started, pending) == lead + t + (" " + j) by {
      assert s == t + rest;
      CollapsedToken(t, rest, started, pending);
    }
    assert JoinSpaced(Words(s)) == t + " " + j by {
      assert Words(s) == [t] + Words(rest);
      JoinSpacedCons(t, Words(rest));
    }
    Regroup(lead, t, " ", j);
  }

  lemma Regroup(a: string, b: string, c: string, d: string)
    ensures a + b + (c + d) == a + (b + c + d)
  {
  }

  /** The step of `CollapsedWords` over a leading word, given its statement for the rest. */
  lemma CollapsedWordsStep(s: string, started: bool, pending: bool)
    requires pending ==> started
    requires s != [] && !IsSpace(s[0])
    requires Collapsed(s[TokenLength(s)..], true, false) == CollapsedWordsForm(s[TokenLength(s)..], true, false)
    ensures Collapsed(s, started, pending) == CollapsedWordsForm(s, started, pending)
  {
    var n := TokenLength(s);
    var rest := s[n..];
    assert Words(s) != [] by {
      assert !IsSpace(s[0]);
    }
    assert CollapsedWordsForm(s, started, pending) == (if pending then " " else "") + JoinSpaced(Words(s));
    if Words(rest) == [] {
      CollapsedLastWord(s, started, pending);
    } else {
      assert rest != [] by {
        assert !AllSpace(rest);
      }
      assert IsSpace(rest[0]) by {
        assert n < |s| && rest[0] == s[n];
      }
      CollapsedInnerWord(s, started, pending);
    }
  }

  lemma {:induction false} CollapsedWords(s: string, started: bool, pending: bool)
    requires pending ==> started
    ensures Collapsed(s, started, pending) ==
      if Words(s) == [] then []
      else (if started && (pending || (s != [] && IsSpace(s[0]))) then " " else "") + JoinSpaced(Words(s))
    decreases |s|
  {
    if s == [] {
    } else if IsSpace(s[0]) {
      CollapsedWords(s[1..], started, started);
    } else {
      CollapsedWords(s[TokenLength(s)..], true, false);
      CollapsedWordsStep(s, started, pending);
    }
  }

  /** The words joined by spaces are the collapsed text. */
  lemma WordsJoinCollapse(s: string)
    ensures JoinSpaced(Words(s)) == CollapseSpace(s)
  {
    CollapsedWords(s, false, false);
  }

  /** Joining non-empty words without white space loses nothing: equal joins come from equal
      lists. */
  lemma {:induction false} JoinSpacedInjective(a: seq<string>, b: seq<string>)
    requires forall k :: 0 <= k < |a| ==> a[k] != [] && NoSpace(a[k])
    requires forall k :: 0 <= k < |b| ==> b[k] != [] && NoSpace(b[k])
    requires JoinSpaced(a) == JoinSpaced(b)
    ensures a == b
    decreases |a|
  {
    var j := JoinSpaced(a);
    assert |a| == 0 <==> j == [];
    assert |b| == 0 <==> j == [];
    if |a| > 0 && |b| > 0 {
      assert |a| == 1 <==> |j| == |a[0]|;
      assert |b| == 1 <==> |j| == |b[0]|;
      var ra := if |a| == 1 then [] else " " + JoinSpaced(a[1..]);
      var rb := if |b| == 1 then [] else " " + JoinSpaced(b[1..]);
      assert j == a[0] + ra && j == b[0] + rb;
      TokenLengthOfRun(a[0], ra);
      TokenLengthOfRun(b[0], rb);
      assert a[0] == j[..|a[0]|] == b[0];
      if |a| > 1 && |b| > 1 {
        assert JoinSpaced(a[1..]) == j[|a[0]| + 1..] == JoinSpaced(b[1..]);
        JoinSpacedInjective(a[1..], b[1..]);
        assert a == [a[0]] + a[1..] && b == [b[0]] + b[1..];
      }
    }
  }

  /** `Words` is the only way to cut `s` into non-empty words without white space whose join is
      the collapsed text. */
  lemma WordsUnique(s: string, ws: seq<string>)
    requires forall k :: 0 <= k < |ws| ==> ws[k] != [] && NoSpace(ws[k])
    requires JoinSpaced(ws) == CollapseSpace(s)
    ensures ws == Words(s)
  {
    WordsJoinCollapse(s);
    JoinSpacedInjective(ws, Words(s));
  }

  // ---------------------------------------------------------------------------------------------
  // indexOf / includes

  /** `w` occurs in `t` starting at index `i`. */
  ghost predicate OccursAt(t: string, w: string, i: int) {
    0 <= i && i + |w| <= |t| && t[i..i + |w|] == w
  }

  /** `t.indexOf(w, i)`: the first occurrence at or after `i`, or -1. */
  function IndexOfFrom(t: string, w: string, i: nat): (r: int)
    requires i <= |t|
    ensures r == -1 || (i <= r && OccursAt(t, w, r))
    ensures forall k :: i <= k && (r == -1 || k < r) ==> !OccursAt(t, w, k)
    decreases |t| - i
  {
    if i + |w| > |t| then -1
    else if t[i..i + |w|] == w then i
    else IndexOfFrom(t, w, i + 1)
  }

  /** `t.indexOf(w)`. */
  function IndexOf(t: string, w: string): int {
    IndexOfFrom(t, w, 0)
  }

  /** `t.includes(w)`. */
  predicate Contains(t: string, w: string) {
    IndexOf(t, w) >= 0
  }

  lemma ContainsIff(t: string, w: string)
    ensures Contains(t, w) <==> exists i :: OccursAt(t, w, i)
  {
    if Contains(t, w) {
      assert OccursAt(t, w, IndexOf(t, w));
    }
  }

  /** `indexOf` answers 0 exactly when `w` is a prefix of `t` (`t.startsWith(w)`). */
  lemma IndexOfZeroIffPrefix(t: string, w: string)
    ensures IndexOf(t, w) == 0 <==> w <= t
  {
    if w <= t {
      assert OccursAt(t, w, 0);
    }
  }

  /** A character of `t` inside an occurrence of `w` is a character of `w`. */
  lemma CharOfOccurrence(t: string, w: string, i: int, p: int)
    requires OccursAt(t, w, i) && 0 <= p < |t|
    ensures p < i || p >= i + |w| || t[p] in w
  {
    if i <= p < i + |w| {
      assert t[i..i + |w|][p - i] == t[p];
    }
  }

  /** An occurrence in `a + " " + b` of a word without a space lies inside `a` or inside `b`. */
  lemma OccurrenceInPart(a: string, b: string, w: string, i: int)
    requires ' ' !in w && OccursAt(a + " " + b, w, i)
    ensures OccursAt(a, w, i) || OccursAt(b, w, i - |a| - 1)
  {
    var c := a + " " + b;
    assert c[|a|] == ' ';
    CharOfOccurrence(c, w, i, |a|);
    if i + |w| <= |a| {
      assert c[i..i + |w|] == a[i..i + |w|];
    } else {
      var j := i - |a| - 1;
      assert c[|a| + 1..] == b;
      assert c[i..i + |w|] == c[|a| + 1..][j..j + |w|];
    }
  }

  lemma OccurrenceInLeft(a: string, b: string, w: string, i: int)
    requires OccursAt(a, w, i)
    ensures OccursAt(a + " " + b, w, i)
  {
    assert (a + " " + b)[i..i + |w|] == a[i..i + |w|];
  }

  lemma OccurrenceInRight(a: string, b: string, w: string, i: int)
    requires OccursAt(b, w, i)
    ensures OccursAt(a + " " + b, w, |a| + 1 + i)
  {
    assert (a + " " + b)[|a| + 1 + i..|a| + 1 + i + |w|] == b[i..i + |w|];
  }

  /** A word without a space occurs in `a + " " + b` exactly when it occurs in `a` or in `b`:
      no occurrence can straddle the separator. */
  lemma {:induction false} ContainsAcrossSpace(a: string, b: string, w: string)
    requires ' ' !in w
    ensures Contains(a + " " + b, w) <==> Contains(a, w) || Contains(b, w)
  {
    var c := a + " " + b;
    ContainsIff(c, w);
    ContainsIff(a, w);
    ContainsIff(b, w);
    if Contains(c, w) {
      var i :| OccursAt(c, w, i);
      OccurrenceInPart(a, b, w, i);
    }
    if Contains(a, w) {
      var i :| OccursAt(a, w, i);
      OccurrenceInLeft(a, b, w, i);
    }
    if Contains(b, w) {
      var i :| OccursAt(b, w, i);
      OccurrenceInRight(a, b, w, i);
    }
  }

  // ---------------------------------------------------------------------------------------------
  // join(' ')

  /** `ts.join(' ')`. */
  function JoinSpaced(ts: seq<string>): string {
    if |ts| == 0 then []
    else if |ts| == 1 then ts[0]
    else ts[0] + " " + JoinSpaced(ts[1..])
  }

  /** A non-empty word without a space occurs in the space-joined string exactly when it occurs
      in one of the joined pieces. */
  lemma {:induction false} ContainsJoinIff(ts: seq<string>, w: string)
    requires w != [] && ' ' !in w
    ensures Contains(JoinSpaced(ts), w) <==> exists k :: 0 <= k < |ts| && Contains(ts[k], w)
    decreases |ts|
  {
    if |ts| == 0 {
      ContainsIff([], w);
    } else if |ts| == 1 {
    } else {
      ContainsAcrossSpace(ts[0], JoinSpaced(ts[1..]), w);
      ContainsJoinIff(ts[1..], w);
      if exists k :: 0 <= k < |ts| && Contains(ts[k], w) {
        var k :| 0 <= k < |ts| && Contains(ts[k], w);
        if k > 0 {
          assert ts[1..][k - 1] == ts[k];
        }
      }
      if exists k :: 0 <= k < |ts| - 1 && Contains(ts[1..][k], w) {
        var k :| 0 <= k < |ts| - 1 && Contains(ts[1..][k], w);
        assert ts[1..][k] == ts[k + 1];
      }
    }
  }

  // ---------------------------------------------------------------------------------------------
  // localeCompare, taken as ordinal (code point) comparison

  function CompareStrings(a: string, b: string): (r: int)
    ensures -1 <= r <= 1
    ensures r == 0 <==> a == b
  {
    if a == [] && b == [] then 0
    else if a == [] then -1
    else if b == [] then 1
    else if a[0] < b[0] then -1
    else if a[0] > b[0] then 1
    else
      assert a == [a[0]] + a[1..] && b == [b[0]] + b[1..];
      CompareStrings(a[1..], b[1..])
  }

  lemma {:induction false} CompareStringsAntisymmetric(a: string, b: string)
    ensures CompareStrings(a, b) == -CompareStrings(b, a)
  {
    if a != [] && b != [] && a[0] == b[0] {
      CompareStringsAntisymmetric(a[1..], b[1..]);
    }
  }

  lemma {:induction false} CompareStringsTransitive(a: string, b: string, c: string)
    requires CompareStrings(a, b) < 0 && CompareStrings(b, c) < 0
    ensures CompareStrings(a, c) < 0
  {
    if a != [] && b != [] && c != [] && a[0] == b[0] == c[0] {
      CompareStringsTransitive(a[1..], b[1..], c[1..]);
    }
  }

  // ---------------------------------------------------------------------------------------------
  // Decimal numerals, as produced by template literals for non-negative integers

  predicate IsDigit(c: char) {
    '0' <= c <= '9'
  }

  function NatToString(n: nat): (s: string)
    ensures s != [] && forall i :: 0 <= i < |s| ==> IsDigit(s[i])
  {
    var d := ((n % 10) + '0' as int) as char;
    if n < 10 then [d] else NatToString(n / 10) + [d]
  }

  /** The value of a string of decimal digits. */
  function DigitsValue(s: string): nat
    requires forall i :: 0 <= i < |s| ==> IsDigit(s[i])
  {
    if s == [] then 0
    else
      assert IsDigit(s[|s| - 1]);
      DigitsValue(s[..|s| - 1]) * 10 + (s[|s| - 1] as int - '0' as int)
  }

  /** Reading the numeral back gives the number. */
  lemma {:induction false} NatToStringRoundTrip(n: nat)
    ensures DigitsValue(NatToString(n)) == n
  {
    var s := NatToString(n);
    if n >= 10 {
      NatToStringRoundTrip(n / 10);
      assert s[..|s| - 1] == NatToString(n / 10);
    }
  }
}

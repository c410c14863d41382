/**
 * The JavaScript string built-ins used by the core. Template expansion uses
 * `includes` (modelled through `IndexOf`, the first-occurrence search it shares
 * with the string-pattern `replace`), `replace` with a string pattern (first match only)
 * and with a global regular expression that matches one literal text, the
 * replacement patterns those calls interpret (`GetSubstitution`),
 * `Array.prototype.join`, `trim`, and the decimal numeral a template literal
 * produces for a number. The listing uses `padEnd`. `parseCommand` does not
 * call `split`; `SplitOn` is a reference definition that describes the global
 * `replace` at lib/executor.js:18.
 *
 * Strings are sequences of code points; every pattern used here is ASCII, so
 * matching agrees with JavaScript's UTF-16 code units.
 */
module Text {
  import opened Wrappers

  predicate IsDigit(c: char) {
    '0' <= c <= '9'
  }

  predicate AllDigits(s: string) {
    forall i :: 0 <= i < |s| ==> IsDigit(s[i])
  }

  /** The code points ECMAScript counts as WhiteSpace or LineTerminator: what `trim` removes. */
  predicate IsWhitespace(c: char) {
    || c == '\t' || c == '\n' || c == '\U{000B}' || c == '\U{000C}' || c == '\r' || c == ' '
    || c == '\U{00A0}' || c == '\U{1680}' || ('\U{2000}' <= c <= '\U{200A}')
    || c == '\U{2028}' || c == '\U{2029}' || c == '\U{202F}' || c == '\U{205F}'
    || c == '\U{3000}' || c == '\U{FEFF}'
  }

  // ------------------------------------------------------------------ searching

  predicate IsPrefix(p: string, s: string) {
    |p| <= |s| && s[..|p|] == p
  }

  /** `p` occurs in `s` starting at index `j`. */
  predicate OccursAt(s: string, p: string, j: nat) {
    j + |p| <= |s| && s[j..j + |p|] == p
  }

  lemma OccursShift(s: string, p: string)
    requires |s| > 0
    ensures forall j: nat :: OccursAt(s[1..], p, j) <==> OccursAt(s, p, j + 1)
    ensures forall j: nat :: 0 < j ==> (OccursAt(s, p, j) <==> OccursAt(s[1..], p, j - 1))
  {
    forall j: nat
      ensures OccursAt(s[1..], p, j) <==> OccursAt(s, p, j + 1)
    {
      if j + 1 + |p| <= |s| {
        assert s[1..][j..j + |p|] == s[j + 1..j + 1 + |p|];
      }
    }
  }

  /** `s.indexOf(p)`: the first index at which `p` occurs in `s`, if there is one. */
  function IndexOf(s: string, p: string): (r: Option<nat>)
    ensures r.Some? ==> OccursAt(s, p, r.value)
    ensures r.Some? ==> forall j: nat :: j < r.value ==> !OccursAt(s, p, j)
    ensures r.None? ==> forall j: nat :: !OccursAt(s, p, j)
    decreases |s|
  {
    if IsPrefix(p, s) then
      assert s[0..|p|] == s[..|p|];
      Some(0)
    else if |s| == 0 then
      None
    else
      OccursShift(s, p);
      match IndexOf(s[1..], p)
      case Some(k) => Some(k + 1)
      case None => None
  }

  /** `s.includes(p)`. */
  predicate Contains(s: string, p: string)
    ensures Contains(s, p) <==> exists j: nat :: OccursAt(s, p, j)
  {
    IndexOf(s, p).Some?
  }

  lemma OccursContains(s: string, p: string, j: nat)
    requires OccursAt(s, p, j)
    ensures Contains(s, p)
  {
  }

  /** An occurrence in `t` is an occurrence in `t` with anything written before it. */
  lemma ContainsAfter(x: string, t: string, p: string)
    requires Contains(t, p)
    ensures Contains(x + t, p)
  {
    var j := IndexOf(t, p).value;
    assert (x + t)[|x| + j..|x| + j + |p|] == t[j..j + |p|];
    OccursContains(x + t, p, |x| + j);
  }

  /** A two-character pattern found in neither half nor across the seam is not in the whole. */
  lemma NoMatchAcross(x: string, y: string, pat: string)
    requires |pat| == 2 && !Contains(x, pat) && !Contains(y, pat)
    requires |x| == 0 || x[|x| - 1] != pat[0]
    ensures !Contains(x + y, pat)
  {
    var s := x + y;
    forall j: nat
      ensures !OccursAt(s, pat, j)
    {
      if j + 2 <= |s| {
        assert s[j..j + 2][0] == s[j] && s[j..j + 2][1] == s[j + 1];
        if j + 2 <= |x| {
          assert !OccursAt(x, pat, j);
          assert s[j..j + 2] == x[j..j + 2];
        } else if j >= |x| {
          assert !OccursAt(y, pat, j - |x|);
          assert s[j..j + 2] == y[j - |x|..j - |x| + 2];
        } else {
          assert s[j] == x[|x| - 1];
        }
      }
    }
  }

  // ------------------------------------------------------------------ replacement patterns

  predicate IsSpecialAfterDollar(c: char) {
    c == '$' || c == '&' || c == '`' || c == '\''
  }

  /**
   * The text `GetSubstitution` makes of the replacement `rep` for one match of
   * a pattern without capture groups: `$$` stands for `$`, `$&` for the matched
   * text, `` $` `` for the text before the match and `$'` for the text after it;
   * every other `$` (including `$1`, as there is no first group) is literal.
   */
  function Substitution(rep: string, matched: string, before: string, after: string): string
    decreases |rep|
  {
    if |rep| == 0 then []
    else if rep[0] == '$' && |rep| > 1 && rep[1] == '$' then "$" + Substitution(rep[2..], matched, before, after)
    else if rep[0] == '$' && |rep| > 1 && rep[1] == '&' then matched + Substitution(rep[2..], matched, before, after)
    else if rep[0] == '$' && |rep| > 1 && rep[1] == '`' then before + Substitution(rep[2..], matched, before, after)
    else if rep[0] == '$' && |rep| > 1 && rep[1] == '\'' then after + Substitution(rep[2..], matched, before, after)
    else [rep[0]] + Substitution(rep[1..], matched, before, after)
  }

  /** `rep` holds none of the replacement patterns, so it is inserted as it stands. */
  predicate LiteralReplacement(rep: string) {
    forall i :: 0 <= i < |rep| - 1 ==> !(rep[i] == '$' && IsSpecialAfterDollar(rep[i + 1]))
  }

  lemma {:induction false} LiteralSubstitution(rep: string, matched: string, before: string, after: string)
    requires LiteralReplacement(rep)
    ensures Substitution(rep, matched, before, after) == rep
    decreases |rep|
  {
    if |rep| > 0 {
      assert LiteralReplacement(rep[1..]) by {
        forall i | 0 <= i < |rep[1..]| - 1
          ensures !(rep[1..][i] == '$' && IsSpecialAfterDollar(rep[1..][i + 1]))
        {
          assert rep[1..][i] == rep[i + 1] && rep[1..][i + 1] == rep[i + 2];
        }
      }
      LiteralSubstitution(rep[1..], matched, before, after);
    }
  }

  lemma LiteralConcat(a: string, b: string)
    requires LiteralReplacement(a) && LiteralReplacement(b)
    requires |a| == 0 || |b| == 0 || !(a[|a| - 1] == '$' && IsSpecialAfterDollar(b[0]))
    ensures LiteralReplacement(a + b)
  {
    forall i | 0 <= i < |a + b| - 1
      ensures !((a + b)[i] == '$' && IsSpecialAfterDollar((a + b)[i + 1]))
    {
      if i + 1 < |a| {
        assert (a + b)[i] == a[i] && (a + b)[i + 1] == a[i + 1];
      } else if i + 1 == |a| {
        assert (a + b)[i] == a[|a| - 1];
      } else {
        assert (a + b)[i] == b[i - |a|] && (a + b)[i + 1] == b[i + 1 - |a|];
      }
    }
  }

  // ------------------------------------------------------------------ replace

  /** `s.replace(pat, rep)` with a string pattern: only the first occurrence of `pat` is replaced. */
  function ReplaceFirst(s: string, pat: string, rep: string): (r: string)
    ensures !Contains(s, pat) ==> r == s
  {
    match IndexOf(s, pat)
    case None => s
    case Some(k) => s[..k] + Substitution(rep, pat, s[..k], s[k + |pat|..]) + s[k + |pat|..]
  }

  /** Replacing the first occurrence: what stands before it and after it is kept as it was. */
  lemma ReplaceFirstAt(p: string, pat: string, q: string, rep: string)
    requires forall j: nat :: j < |p| ==> !OccursAt(p + pat + q, pat, j)
    ensures ReplaceFirst(p + pat + q, pat, rep) == p + Substitution(rep, pat, p, q) + q
  {
    var s := p + pat + q;
    assert s[|p|..|p| + |pat|] == pat;
    assert OccursAt(s, pat, |p|);
    assert IndexOf(s, pat) == Some(|p|);
    assert s[..|p|] == p && s[|p| + |pat|..] == q;
  }

  /**
   * `s.replace(/pat/g, rep)` where the expression matches exactly the text
   * `pat`: matches are taken left to right without overlapping. `before` is the
   * part of the subject already scanned, the text `` $` `` refers to.
   */
  function ReplaceAllAfter(before: string, s: string, pat: string, rep: string): (r: string)
    requires |pat| > 0
    ensures !Contains(s, pat) ==> r == s
    decreases |s|
  {
    if |s| < |pat| then s
    else if s[..|pat|] == pat then
      OccursContains(s, pat, 0);
      Substitution(rep, pat, before, s[|pat|..]) + ReplaceAllAfter(before + pat, s[|pat|..], pat, rep)
    else
      OccursShift(s, pat);
      [s[0]] + ReplaceAllAfter(before + [s[0]], s[1..], pat, rep)
  }

  function ReplaceAll(s: string, pat: string, rep: string): (r: string)
    requires |pat| > 0
    ensures !Contains(s, pat) ==> r == s
  {
    ReplaceAllAfter([], s, pat, rep)
  }

  // ------------------------------------------------------------------ split and join

  /** `parts.join(sep)`. */
  function JoinWith(parts: seq<string>, sep: string): string
    decreases |parts|
  {
    if |parts| == 0 then []
    else if |parts| == 1 then parts[0]
    else parts[0] + sep + JoinWith(parts[1..], sep)
  }

  /** `s.split(pat)` for a non-empty `pat`: the pieces between left-to-right, non-overlapping matches. */
  function SplitOn(s: string, pat: string): (parts: seq<string>)
    requires |pat| > 0
    ensures |parts| > 0 && IsPrefix(parts[0], s)
    ensures forall i :: 0 <= i < |parts| ==> !Contains(parts[i], pat)
    decreases |s|
  {
    if |s| < |pat| then [s]
    else if s[..|pat|] == pat then [[]] + SplitOn(s[|pat|..], pat)
    else
      var rest := SplitOn(s[1..], pat);
      var first := [s[0]] + rest[0];
      assert !Contains(first, pat) by {
        assert first[1..] == rest[0];
        assert !IsPrefix(pat, first) by {
          if |pat| <= |first| {
            assert first[..|pat|] == s[..|pat|];
          }
        }
      }
      [first] + rest[1..]
  }

  lemma JoinCons(c: char, parts: seq<string>, sep: string)
    requires |parts| > 0
    ensures JoinWith([[c] + parts[0]] + parts[1..], sep) == [c] + JoinWith(parts, sep)
  {
    var joined := [[c] + parts[0]] + parts[1..];
    if |parts| > 1 {
      assert joined[1..] == parts[1..];
    }
  }

  /** Joining the pieces of a split with the pattern gives back the subject. */
  lemma {:induction false} SplitJoinRoundTrip(s: string, pat: string)
    requires |pat| > 0
    ensures JoinWith(SplitOn(s, pat), pat) == s
    decreases |s|
  {
    if |s| < |pat| {
    } else if s[..|pat|] == pat {
      SplitJoinRoundTrip(s[|pat|..], pat);
      assert ([[]] + SplitOn(s[|pat|..], pat))[1..] == SplitOn(s[|pat|..], pat);
      assert s == pat + s[|pat|..];
    } else {
      SplitJoinRoundTrip(s[1..], pat);
      JoinCons(s[0], SplitOn(s[1..], pat), pat);
      assert s == [s[0]] + s[1..];
    }
  }

  /**
   * A global replace with a replacement free of patterns puts `rep` between
   * the pieces of the split: every match is replaced and nothing else changes.
   */
  lemma {:induction false} ReplaceAllIsSplitJoin(before: string, s: string, pat: string, rep: string)
    requires |pat| > 0 && LiteralReplacement(rep)
    ensures ReplaceAllAfter(before, s, pat, rep) == JoinWith(SplitOn(s, pat), rep)
    decreases |s|
  {
    if |s| < |pat| {
    } else if s[..|pat|] == pat {
      ReplaceAllIsSplitJoin(before + pat, s[|pat|..], pat, rep);
      LiteralSubstitution(rep, pat, before, s[|pat|..]);
      assert ([[]] + SplitOn(s[|pat|..], pat))[1..] == SplitOn(s[|pat|..], pat);
    } else {
      ReplaceAllIsSplitJoin(before + [s[0]], s[1..], pat, rep);
      JoinCons(s[0], SplitOn(s[1..], pat), rep);
    }
  }

  /** Joining words free of replacement patterns with single spaces gives a text free of them. */
  lemma {:induction false} JoinLiteral(parts: seq<string>)
    requires forall i :: 0 <= i < |parts| ==> LiteralReplacement(parts[i])
    ensures LiteralReplacement(JoinWith(parts, " "))
    decreases |parts|
  {
    if |parts| > 1 {
      JoinLiteral(parts[1..]);
      var head := parts[0] + " ";
      LiteralConcat(parts[0], " ");
      LiteralConcat(head, JoinWith(parts[1..], " "));
      assert parts[0] + " " + JoinWith(parts[1..], " ") == head + JoinWith(parts[1..], " ");
    }
  }

  // ------------------------------------------------------------------ trim

  function TrimStart(s: string): (r: string)
    ensures |r| <= |s| && r == s[|s| - |r|..]
    ensures forall i :: 0 <= i < |s| - |r| ==> IsWhitespace(s[i])
    ensures r == [] || !IsWhitespace(r[0])
    decreases |s|
  {
    if |s| > 0 && IsWhitespace(s[0]) then TrimStart(s[1..]) else s
  }

  function TrimEnd(s: string): (r: string)
    ensures |r| <= |s| && r == s[..|r|]
    ensures forall i :: |r| <= i < |s| ==> IsWhitespace(s[i])
    ensures r == [] || !IsWhitespace(r[|r| - 1])
    decreases |s|
  {
    if |s| > 0 && IsWhitespace(s[|s| - 1]) then TrimEnd(s[..|s| - 1]) else s
  }

  predicate NoEdgeWhitespace(s: string) {
    s == [] || (!IsWhitespace(s[0]) && !IsWhitespace(s[|s| - 1]))
  }

  /** `r` is the slice of `s` from `i` and everything around it is whitespace. */
  predicate IsTrimOf(s: string, r: string, i: nat) {
    && i + |r| <= |s| && r == s[i..i + |r|]
    && (forall k :: 0 <= k < i ==> IsWhitespace(s[k]))
    && (forall k :: i + |r| <= k < |s| ==> IsWhitespace(s[k]))
  }

  /**
   * `s.trim()`: the slice of `s` left once the whitespace at both ends is
   * removed; it starts and ends with something other than whitespace, and a
   * text that already does so (a trimmed one, in particular) is kept as it is.
   */
  function Trim(s: string): (r: string)
    ensures NoEdgeWhitespace(r)
    ensures exists i: nat :: IsTrimOf(s, r, i)
    ensures NoEdgeWhitespace(s) ==> r == s
  {
    var t := TrimStart(s);
    var r := TrimEnd(t);
    var i := |s| - |t|;
    assert IsTrimOf(s, r, i) by {
      assert r == s[i..i + |r|];
    }
    r
  }

  /** `trim` of a trimmed, non-empty text followed by one white-space character gives back that text. */
  lemma TrimTrailingWhitespace(s: string, c: char)
    requires s != [] && NoEdgeWhitespace(s) && IsWhitespace(c)
    ensures Trim(s + [c]) == s
  {
    var t := s + [c];
    var r := Trim(t);
    var i: nat :| IsTrimOf(t, r, i);
    assert !IsWhitespace(t[0]) && !IsWhitespace(t[|s| - 1]);
    assert i == 0 && |r| > 0;
    assert t[|t| - 1] == c;
    assert |r| == |s|;
    assert r == t[..|s|] == s;
  }

  // ------------------------------------------------------------------ numbers and padding

  function DigitChar(d: nat): (c: char)
    requires d < 10
    ensures IsDigit(c)
  {
    ('0' as int + d) as char
  }

  function DigitValue(c: char): nat
    requires IsDigit(c)
  {
    c as int - '0' as int
  }

  /** The decimal numeral of `n`, as `${n}` renders it: no leading zero except for 0 itself. */
  function Decimal(n: nat): (r: string)
    ensures |r| > 0 && AllDigits(r)
    ensures n > 0 ==> r[0] != '0'
    decreases n
  {
    if n < 10 then [DigitChar(n)] else Decimal(n / 10) + [DigitChar(n % 10)]
  }

  function DecimalValue(s: string): nat
    requires AllDigits(s)
    decreases |s|
  {
    if |s| == 0 then 0 else DecimalValue(s[..|s| - 1]) * 10 + DigitValue(s[|s| - 1])
  }

  /** Reading the numeral back gives the number. */
  lemma {:induction false} DecimalRoundTrip(n: nat)
    ensures DecimalValue(Decimal(n)) == n
    decreases n
  {
    if n >= 10 {
      DecimalRoundTrip(n / 10);
      var r := Decimal(n);
      assert r[..|r| - 1] == Decimal(n / 10);
    }
  }

  function Spaces(k: nat): (r: string)
    ensures |r| == k && forall i :: 0 <= i < k ==> r[i] == ' '
  {
    seq(k, _ => ' ')
  }

  /** `s.padEnd(n)`: `s`, then spaces up to length `n`; a longer `s` is left as it is. */
  function PadEnd(s: string, n: nat): (r: string)
    ensures |r| == if |s| < n then n else |s|
    ensures r[..|s|] == s
    ensures forall i :: |s| <= i < |r| ==> r[i] == ' '
  {
    if |s| < n then s + Spaces(n - |s|) else s
  }
}

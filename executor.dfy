/**
 * Template expansion, `parseCommand` of lib/executor.js: the `$@` and `$1`,
 * `$2`, ... placeholders of an alias's command template are replaced by the
 * arguments the alias is called with, leftover numbered placeholders are
 * deleted and the result is trimmed.
 */
module Executor {
  import opened Text

  // ------------------------------------------------------------------ placeholder tokens

  /** One piece of a template as the expressions `/\$@|\$\d+/g` and `/\$\d+/g` cut it. */
  datatype Token = Literal(c: char) | Variadic | Positional(digits: string)

  /** The length of the run of digits `s` starts with. */
  function DigitRun(s: string): (n: nat)
    ensures n <= |s| && AllDigits(s[..n])
    ensures n < |s| ==> !IsDigit(s[n])
    decreases |s|
  {
    if |s| > 0 && IsDigit(s[0]) then
      var n := 1 + DigitRun(s[1..]);
      assert s[..n] == [s[0]] + s[1..][..n - 1];
      n
    else 0
  }

  lemma DigitRunOf(d: string, rest: string)
    requires AllDigits(d)
    requires rest == [] || !IsDigit(rest[0])
    ensures DigitRun(d + rest) == |d|
  {
    var s := d + rest;
    var n := DigitRun(s);
    assert forall k :: 0 <= k < |d| ==> IsDigit(s[k]) by {
      assert forall k :: 0 <= k < |d| ==> s[k] == d[k];
    }
    assert forall k :: 0 <= k < n ==> IsDigit(s[k]) by {
      assert forall k :: 0 <= k < n ==> s[..n][k] == s[k];
    }
    if |rest| > 0 {
      assert s[|d|] == rest[0];
    }
  }

  predicate StartsWithDigit(ts: seq<Token>) {
    |ts| > 0 && ts[0].Literal? && IsDigit(ts[0].c)
  }

  predicate StartsWithAt(ts: seq<Token>) {
    |ts| > 0 && ts[0] == Literal('@')
  }

  /**
   * `t` may stand before `rest` in a left-to-right, greedy match: digits after
   * `$` always start a numbered placeholder (and `@` after `$` the variadic
   * one, when that alternative is in the expression), and a numbered
   * placeholder takes every digit that follows it.
   */
  predicate Fits(t: Token, rest: seq<Token>, variadic: bool) {
    match t
    case Variadic => variadic
    case Positional(d) => |d| > 0 && AllDigits(d) && !StartsWithDigit(rest)
    case Literal(c) => c == '$' ==> !StartsWithDigit(rest) && !(variadic && StartsWithAt(rest))
  }

  predicate WellFormed(ts: seq<Token>, variadic: bool)
    decreases |ts|
  {
    |ts| == 0 || (Fits(ts[0], ts[1..], variadic) && WellFormed(ts[1..], variadic))
  }

  /**
   * The matches of `/\$@|\$\d+/g` (with `variadic`) or `/\$\d+/g` (without),
   * found left to right, each `\d+` as long as possible, with every other
   * character a literal.
   */
  function Scan(s: string, variadic: bool): (ts: seq<Token>)
    ensures |s| == 0 ==> ts == []
    ensures |s| > 0 ==> |ts| > 0 && (ts[0].Literal? ==> ts[0].c == s[0])
    ensures |s| > 0 && s[0] != '$' ==> ts[0] == Literal(s[0])
    ensures WellFormed(ts, variadic)
    decreases |s|
  {
    if |s| == 0 then []
    else if variadic && IsPrefix("$@", s) then
      var rest := Scan(s[2..], variadic);
      assert ([Variadic] + rest)[1..] == rest;
      [Variadic] + rest
    else if |s| > 1 && s[0] == '$' && IsDigit(s[1]) then
      var n := DigitRun(s[1..]);
      var digits := s[1..1 + n];
      var rest := Scan(s[1 + n..], variadic);
      assert n > 0 && AllDigits(digits) by {
        assert s[1..][0] == s[1];
        assert digits == s[1..][..n];
      }
      assert !StartsWithDigit(rest) by {
        if 1 + n < |s| {
          assert s[1 + n..][0] == s[1..][n];
        }
      }
      assert ([Positional(digits)] + rest)[1..] == rest;
      [Positional(digits)] + rest
    else
      var rest := Scan(s[1..], variadic);
      assert Fits(Literal(s[0]), rest, variadic) by {
        if |s| > 1 {
          assert s[1..][0] == s[1];
          assert variadic ==> s[..2] != "$@";
        }
      }
      assert ([Literal(s[0])] + rest)[1..] == rest;
      [Literal(s[0])] + rest
  }

  function Render(t: Token): string {
    match t
    case Literal(c) => [c]
    case Variadic => "$@"
    case Positional(d) => "$" + d
  }

  function RenderAll(ts: seq<Token>): string
    decreases |ts|
  {
    if |ts| == 0 then [] else Render(ts[0]) + RenderAll(ts[1..])
  }

  /** The characters of the literal tokens, in order: the text once every match is replaced by nothing. */
  function LiteralText(ts: seq<Token>): string
    decreases |ts|
  {
    if |ts| == 0 then []
    else (if ts[0].Literal? then [ts[0].c] else []) + LiteralText(ts[1..])
  }

  /** `s.replace(/\$@|\$\d+/g, '')` with `variadic`, `s.replace(/\$\d+/g, '')` without. */
  function StripTokens(s: string, variadic: bool): string {
    LiteralText(Scan(s, variadic))
  }

  lemma RenderCons(t: Token, rest: seq<Token>)
    ensures RenderAll([t] + rest) == Render(t) + RenderAll(rest)
  {
    assert ([t] + rest)[1..] == rest;
  }

  lemma ScanLiteral(c: char, s: string, variadic: bool)
    requires c == '$' && |s| > 0 ==> !IsDigit(s[0]) && !(variadic && s[0] == '@')
    ensures Scan([c] + s, variadic) == [Literal(c)] + Scan(s, variadic)
  {
    var x := [c] + s;
    assert x[0] == c && x[1..] == s;
    assert |s| > 0 ==> x[1] == s[0];
    assert !(variadic && IsPrefix("$@", x)) by {
      if |x| >= 2 {
        assert x[..2] == [c, x[1]];
      }
    }
  }

  lemma ScanVariadic(s: string, variadic: bool)
    requires variadic
    ensures Scan("$@" + s, variadic) == [Variadic] + Scan(s, variadic)
  {
    assert ("$@" + s)[2..] == s;
  }

  lemma ScanPositional(d: string, s: string, variadic: bool)
    requires |d| > 0 && AllDigits(d)
    requires s == [] || !IsDigit(s[0])
    ensures Scan("$" + d + s, variadic) == [Positional(d)] + Scan(s, variadic)
  {
    var x := "$" + d + s;
    assert x[0] == '$' && x[1] == d[0] && IsDigit(x[1]);
    assert !IsPrefix("$@", x) by {
      assert x[..2][1] == x[1];
    }
    assert x[1..] == d + s;
    DigitRunOf(d, s);
    assert x[1..1 + |d|] == d && x[1 + |d|..] == s;
  }

  /** A `$` followed by digits opens a numbered placeholder that takes the whole run of digits. */
  lemma SplitPositional(s: string)
    requires |s| > 1 && s[0] == '$' && IsDigit(s[1])
    ensures var n := DigitRun(s[1..]);
      && 0 < n && AllDigits(s[1..1 + n])
      && s == "$" + s[1..1 + n] + s[1 + n..]
      && (s[1 + n..] == [] || !IsDigit(s[1 + n..][0]))
  {
    var n := DigitRun(s[1..]);
    var d, rest := s[1..1 + n], s[1 + n..];
    assert s[1..] == d + rest;
    assert s == [s[0]] + s[1..];
    assert s[1..][0] == s[1];
    assert d == s[1..][..n];
    if |rest| > 0 {
      assert rest[0] == s[1..][n];
    }
  }

  lemma LiteralTextCons(t: Token, rest: seq<Token>)
    ensures LiteralText([t] + rest) == (if t.Literal? then [t.c] else []) + LiteralText(rest)
  {
    assert ([t] + rest)[1..] == rest;
  }

  /** Cutting a template into tokens loses and invents nothing. */
  lemma {:induction false} RenderScan(s: string, variadic: bool)
    ensures RenderAll(Scan(s, variadic)) == s
    decreases |s|
  {
    if |s| == 0 {
    } else if variadic && IsPrefix("$@", s) {
      var rest := s[2..];
      assert s == "$@" + rest;
      ScanVariadic(rest, variadic);
      RenderScan(rest, variadic);
      RenderCons(Variadic, Scan(rest, variadic));
    } else if |s| > 1 && s[0] == '$' && IsDigit(s[1]) {
      var n := DigitRun(s[1..]);
      var d, rest := s[1..1 + n], s[1 + n..];
      SplitPositional(s);
      ScanPositional(d, rest, variadic);
      RenderScan(rest, variadic);
      RenderCons(Positional(d), Scan(rest, variadic));
    } else {
      var rest := s[1..];
      assert s == [s[0]] + rest;
      ScanLiteral(s[0], rest, variadic);
      RenderScan(rest, variadic);
      RenderCons(Literal(s[0]), Scan(rest, variadic));
    }
  }

  lemma RenderHead(ts: seq<Token>)
    requires |ts| > 0
    ensures |RenderAll(ts)| > 0
    ensures RenderAll(ts)[0] == if ts[0].Literal? then ts[0].c else '$'
  {
  }

  /** A well-formed token sequence is exactly how its text is cut: the tokenization is unique. */
  lemma {:induction false} ScanRender(ts: seq<Token>, variadic: bool)
    requires WellFormed(ts, variadic)
    ensures Scan(RenderAll(ts), variadic) == ts
    decreases |ts|
  {
    if |ts| > 0 {
      var rest := ts[1..];
      var s := RenderAll(rest);
      ScanRender(rest, variadic);
      if |rest| > 0 {
        RenderHead(rest);
      }
      assert ts == [ts[0]] + rest;
      match ts[0]
      case Literal(c) => ScanLiteral(c, s, variadic);
      case Variadic => ScanVariadic(s, variadic);
      case Positional(d) => ScanPositional(d, s, variadic);
    }
  }

  // ------------------------------------------------------------------ what stripping leaves

  /** No `$` is directly followed by a digit. */
  predicate NoNumberedPlaceholder(s: string) {
    forall i :: 0 <= i < |s| - 1 ==> !(s[i] == '$' && IsDigit(s[i + 1]))
  }

  lemma {:induction false} LiteralTextClean(ts: seq<Token>)
    requires WellFormed(ts, false)
    ensures NoNumberedPlaceholder(LiteralText(ts))
    ensures !StartsWithDigit(ts) ==> LiteralText(ts) == [] || !IsDigit(LiteralText(ts)[0])
    decreases |ts|
  {
    if |ts| > 0 {
      var rest := ts[1..];
      LiteralTextClean(rest);
      if ts[0].Literal? {
        var x := LiteralText(rest);
        var r := [ts[0].c] + x;
        assert LiteralText(ts) == r;
        forall i | 0 <= i < |r| - 1
          ensures !(r[i] == '$' && IsDigit(r[i + 1]))
        {
          if i > 0 {
            assert r[i] == x[i - 1] && r[i + 1] == x[i];
          }
        }
      }
    }
  }

  /** Deleting every `$`+digits match leaves no `$` directly followed by a digit. */
  lemma StripLeavesNoNumbered(s: string)
    ensures NoNumberedPlaceholder(StripTokens(s, false))
  {
    LiteralTextClean(Scan(s, false));
  }

  lemma TrimKeepsNoNumbered(s: string)
    requires NoNumberedPlaceholder(s)
    ensures NoNumberedPlaceholder(Trim(s))
  {
    var t := TrimStart(s);
    NoNumberedSlice(s, |s| - |t|, |s|);
    NoNumberedSlice(t, 0, |TrimEnd(t)|);
    assert Trim(s) == TrimEnd(t);
  }

  lemma NoNumberedSlice(s: string, i: nat, j: nat)
    requires i <= j <= |s| && NoNumberedPlaceholder(s)
    ensures NoNumberedPlaceholder(s[i..j])
  {
    forall k | 0 <= k < j - i - 1
      ensures !(s[i..j][k] == '$' && IsDigit(s[i..j][k + 1]))
    {
      assert s[i..j][k] == s[i + k] && s[i..j][k + 1] == s[i + k + 1];
    }
  }

  /** A text without `$` has nothing to strip. */
  lemma {:induction false} StripDollarFree(s: string, variadic: bool)
    requires '$' !in s
    ensures StripTokens(s, variadic) == s
    decreases |s|
  {
    if |s| > 0 {
      assert '$' !in s[1..] by {
        assert forall k :: 0 <= k < |s[1..]| ==> s[1..][k] == s[k + 1];
      }
      StripDollarFree(s[1..], variadic);
      assert s == [s[0]] + s[1..];
    }
  }

  /**
   * Deleting the matches of a text cut into tokens leaves exactly its literal
   * characters, in order: every match is deleted and nothing else.
   */
  lemma StripDeletesExactlyTheMatches(ts: seq<Token>, variadic: bool)
    requires WellFormed(ts, variadic)
    ensures StripTokens(RenderAll(ts), variadic) == LiteralText(ts)
  {
    ScanRender(ts, variadic);
  }

  // ------------------------------------------------------------------ expansion

  /** The text `${i}` builds: `$` and the decimal numeral of `i`. */
  function Placeholder(i: nat): string {
    "$" + Decimal(i)
  }

  /** Replaces, for `i` = 1, ..., `n` in this order, every `$i` in the current text by `args[i - 1]`. */
  function SubstitutePositional(s: string, args: seq<string>, n: nat): string
    requires n <= |args|
    decreases n
  {
    if n == 0 then s
    else ReplaceAll(SubstitutePositional(s, args, n - 1), Placeholder(n), args[n - 1])
  }

  /** The text before leftover numbered placeholders are stripped. */
  function Substitute(template: string, args: seq<string>): string {
    if |args| == 0 then StripTokens(template, true)
    else SubstitutePositional(ReplaceFirst(template, "$@", JoinWith(args, " ")), args, |args|)
  }

  /**
   * The command `parseCommand(template, args)` returns. It never starts or ends
   * with whitespace and never holds a `$` directly followed by a digit.
   */
  function Expand(template: string, args: seq<string>): (r: string)
    ensures NoEdgeWhitespace(r)
    ensures NoNumberedPlaceholder(r)
  {
    var stripped := StripTokens(Substitute(template, args), false);
    StripLeavesNoNumbered(Substitute(template, args));
    TrimKeepsNoNumbered(stripped);
    Trim(stripped)
  }

  /** `parseCommand` as lib/executor.js writes it: one variable, rewritten step by step. */
  method ParseCommand(commandTemplate: string, args: seq<string>) returns (command: string)
    ensures command == Expand(commandTemplate, args)
  {
    command := commandTemplate;
    if |args| == 0 {
      command := StripTokens(command, true);
    } else {
      if Contains(command, "$@") {
        command := ReplaceFirst(command, "$@", JoinWith(args, " "));
      }
      ghost var afterVariadic := command;
      for i := 0 to |args|
        invariant command == SubstitutePositional(afterVariadic, args, i)
      {
        var placeholder := "$" + Decimal(i + 1);
        assert placeholder == Placeholder(i + 1);
        if Contains(command, placeholder) {
          command := ReplaceAll(command, placeholder, args[i]);
        }
      }
      assert afterVariadic == ReplaceFirst(commandTemplate, "$@", JoinWith(args, " "));
    }
    assert command == Substitute(commandTemplate, args);
    command := StripTokens(command, false);
    command := Trim(command);
  }

  // ------------------------------------------------------------------ properties of expansion

  lemma FirstVariadicAt(p: string, q: string)
    requires !Contains(p, "$@")
    ensures forall j: nat :: j < |p| ==> !OccursAt(p + "$@" + q, "$@", j)
  {
    var s := p + "$@" + q;
    forall j: nat | j < |p|
      ensures !OccursAt(s, "$@", j)
    {
      if j + 2 <= |p| {
        assert !OccursAt(p, "$@", j);
        assert s[j..j + 2] == p[j..j + 2];
      } else {
        assert s[j + 1] == '$';
        assert j + 2 <= |s| ==> s[j..j + 2][1] == s[j + 1];
      }
    }
  }

  /**
   * With arguments, the first `$@` is replaced by the arguments joined with
   * single spaces, and the text around it, a later `$@` included, is kept
   * for the numbered placeholders.
   */
  lemma VariadicFirstOnly(p: string, q: string, args: seq<string>)
    requires |args| > 0 && !Contains(p, "$@")
    requires forall i :: 0 <= i < |args| ==> LiteralReplacement(args[i])
    ensures Substitute(p + "$@" + q, args) == SubstitutePositional(p + JoinWith(args, " ") + q, args, |args|)
  {
    FirstVariadicAt(p, q);
    ReplaceFirstAt(p, "$@", q, JoinWith(args, " "));
    JoinLiteral(args);
    LiteralSubstitution(JoinWith(args, " "), "$@", p, q);
  }

  /** Step `n` of the loop replaces every `$n` of the current text, the `$1` of `$12` included. */
  lemma PositionalStepReplacesEveryOccurrence(s: string, args: seq<string>, n: nat)
    requires 0 < n <= |args| && LiteralReplacement(args[n - 1])
    ensures SubstitutePositional(s, args, n)
         == JoinWith(SplitOn(SubstitutePositional(s, args, n - 1), Placeholder(n)), args[n - 1])
  {
    ReplaceAllIsSplitJoin([], SubstitutePositional(s, args, n - 1), Placeholder(n), args[n - 1]);
  }

  /** A `$@` cannot start inside a `$`+digits match at the head of the text. */
  lemma VariadicAfterNumbered(s: string, d: string, j: nat)
    requires |d| > 0 && AllDigits(d) && IsPrefix("$" + d, s)
    requires OccursAt(s, "$@", j)
    ensures j >= |"$" + d|
  {
    var pat := "$" + d;
    assert s[j..j + 2][0] == s[j] && s[j..j + 2][1] == s[j + 1];
    forall k | 0 < k < |pat|
      ensures IsDigit(s[k])
    {
      assert s[k] == s[..|pat|][k] == pat[k] == d[k - 1];
    }
  }

  /** A text starting with `@` starts with `@` after a replacement of a pattern starting with `$`. */
  lemma AtHeadSurvives(before: string, s: string, pat: string, rep: string)
    requires |pat| > 0 && pat[0] == '$' && |s| > 0 && s[0] == '@'
    ensures |ReplaceAllAfter(before, s, pat, rep)| > 0 && ReplaceAllAfter(before, s, pat, rep)[0] == '@'
  {
    if |s| >= |pat| {
      assert s[..|pat|][0] == '@';
    }
  }

  /** A `$` kept as it is, followed by a text starting with `@`, leaves a `$@` after the replacement. */
  lemma DollarThenAtSurvives(before: string, rest: string, pat: string, rep: string)
    requires |pat| > 0 && pat[0] == '$' && |rest| > 0 && rest[0] == '@'
    ensures Contains(['$'] + ReplaceAllAfter(before, rest, pat, rep), "$@")
  {
    var r' := ReplaceAllAfter(before, rest, pat, rep);
    AtHeadSurvives(before, rest, pat, rep);
    assert (['$'] + r')[..2] == "$@";
    OccursContains(['$'] + r', "$@", 0);
  }

  /** A `$@` survives the replacement of a numbered placeholder, whatever is put in its place. */
  lemma {:induction false} VariadicSurvivesReplaceAll(before: string, s: string, d: string, rep: string, j: nat)
    requires |d| > 0 && AllDigits(d)
    requires OccursAt(s, "$@", j)
    ensures Contains(ReplaceAllAfter(before, s, "$" + d, rep), "$@")
    decreases |s|
  {
    var pat := "$" + d;
    var r := ReplaceAllAfter(before, s, pat, rep);
    if |s| < |pat| {
      OccursContains(s, "$@", j);
    } else if s[..|pat|] == pat {
      VariadicAfterNumbered(s, d, j);
      var rest := s[|pat|..];
      assert OccursAt(rest, "$@", j - |pat|) by {
        assert rest[j - |pat|..j - |pat| + 2] == s[j..j + 2];
      }
      VariadicSurvivesReplaceAll(before + pat, rest, d, rep, j - |pat|);
      ContainsAfter(Substitution(rep, pat, before, rest), ReplaceAllAfter(before + pat, rest, pat, rep), "$@");
    } else {
      var rest := s[1..];
      var r' := ReplaceAllAfter(before + [s[0]], rest, pat, rep);
      assert r == [s[0]] + r';
      if j == 0 {
        assert s[0] == '$' && rest[0] == '@' by {
          assert s[..2] == "$@";
        }
        DollarThenAtSurvives(before + [s[0]], rest, pat, rep);
      } else {
        assert OccursAt(rest, "$@", j - 1) by {
          assert rest[j - 1..j + 1] == s[j..j + 2];
        }
        VariadicSurvivesReplaceAll(before + [s[0]], rest, d, rep, j - 1);
        ContainsAfter([s[0]], r', "$@");
      }
    }
  }

  lemma {:induction false} VariadicSurvivesSubstitution(s: string, args: seq<string>, n: nat)
    requires n <= |args| && Contains(s, "$@")
    ensures Contains(SubstitutePositional(s, args, n), "$@")
    decreases n
  {
    if n > 0 {
      var prev := SubstitutePositional(s, args, n - 1);
      VariadicSurvivesSubstitution(s, args, n - 1);
      VariadicSurvivesReplaceAll([], prev, Decimal(n), args[n - 1], IndexOf(prev, "$@").value);
    }
  }

  lemma StartsWithVariadic(c: char, x: string)
    requires c == '$' && |x| > 0 && x[0] == '@'
    ensures Contains([c] + x, "$@")
  {
    assert ([c] + x)[0..2] == [c, x[0]];
    OccursContains([c] + x, "$@", 0);
  }

  lemma StripPositionalStep(s: string)
    requires |s| > 1 && s[0] == '$' && IsDigit(s[1])
    ensures var n := DigitRun(s[1..]);
      && StripTokens(s, false) == StripTokens(s[1 + n..], false)
      && forall k :: 1 <= k <= n ==> IsDigit(s[k])
  {
    var n := DigitRun(s[1..]);
    var d, rest := s[1..1 + n], s[1 + n..];
    SplitPositional(s);
    ScanPositional(d, rest, false);
    LiteralTextCons(Positional(d), Scan(rest, false));
    forall k | 1 <= k <= n
      ensures IsDigit(s[k])
    {
      assert s[k] == d[k - 1];
    }
  }

  lemma StripLiteralStep(s: string)
    requires |s| > 0 && !(|s| > 1 && s[0] == '$' && IsDigit(s[1]))
    ensures StripTokens(s, false) == [s[0]] + StripTokens(s[1..], false)
  {
    assert s == [s[0]] + s[1..];
    ScanLiteral(s[0], s[1..], false);
    LiteralTextCons(Literal(s[0]), Scan(s[1..], false));
  }

  /** A `$@` survives the deletion of leftover numbered placeholders. */
  lemma {:induction false} VariadicSurvivesStrip(s: string, j: nat)
    requires OccursAt(s, "$@", j)
    ensures Contains(StripTokens(s, false), "$@")
    decreases |s|, 1
  {
    assert s[j] == '$' && s[j + 1] == '@' by {
      assert s[j..j + 2][0] == s[j] && s[j..j + 2][1] == s[j + 1];
    }
    if s[0] == '$' && IsDigit(s[1]) {
      VariadicSurvivesStripPositional(s, j);
    } else {
      VariadicSurvivesStripLiteral(s, j);
    }
  }

  lemma {:induction false} VariadicSurvivesStripPositional(s: string, j: nat)
    requires OccursAt(s, "$@", j) && s[j] == '$' && s[j + 1] == '@'
    requires s[0] == '$' && IsDigit(s[1])
    ensures Contains(StripTokens(s, false), "$@")
    decreases |s|, 0
  {
    var n := DigitRun(s[1..]);
    var rest := s[1 + n..];
    StripPositionalStep(s);
    assert j > n;
    assert OccursAt(rest, "$@", j - 1 - n) by {
      assert rest[j - 1 - n] == s[j] && rest[j - n] == s[j + 1];
      assert rest[j - 1 - n..j + 1 - n] == [s[j], s[j + 1]];
    }
    VariadicSurvivesStrip(rest, j - 1 - n);
  }

  lemma {:induction false} VariadicSurvivesStripLiteral(s: string, j: nat)
    requires OccursAt(s, "$@", j) && s[j] == '$' && s[j + 1] == '@'
    requires !(s[0] == '$' && IsDigit(s[1]))
    ensures Contains(StripTokens(s, false), "$@")
    decreases |s|, 0
  {
    var rest := s[1..];
    StripLiteralStep(s);
    if j == 0 {
      StripLiteralStep(rest);
      StartsWithVariadic(s[0], StripTokens(rest, false));
    } else {
      assert OccursAt(rest, "$@", j - 1) by {
        assert rest[j - 1] == s[j] && rest[j] == s[j + 1];
        assert rest[j - 1..j + 1] == [s[j], s[j + 1]];
      }
      VariadicSurvivesStrip(rest, j - 1);
      ContainsAfter([s[0]], StripTokens(rest, false), "$@");
    }
  }

  lemma VariadicSurvivesTrimStart(s: string, j: nat)
    requires OccursAt(s, "$@", j) && s[j] == '$' && s[j + 1] == '@'
    ensures var t := TrimStart(s); var o := |s| - |t|;
      o <= j && OccursAt(t, "$@", j - o) && t[j - o] == '$' && t[j - o + 1] == '@'
  {
    var t := TrimStart(s);
    var o := |s| - |t|;
    assert !IsWhitespace(s[j]);
    assert t[j - o] == s[j] && t[j - o + 1] == s[j + 1];
    assert t[j - o..j - o + 2] == [t[j - o], t[j - o + 1]];
  }

  lemma VariadicSurvivesTrimEnd(t: string, j: nat)
    requires OccursAt(t, "$@", j) && t[j] == '$' && t[j + 1] == '@'
    ensures OccursAt(TrimEnd(t), "$@", j)
  {
    var r := TrimEnd(t);
    assert !IsWhitespace(t[j + 1]);
    assert j + 2 <= |r|;
    assert r[j..j + 2] == t[j..j + 2];
  }

  /** Trimming only removes whitespace, so a `$@` survives it. */
  lemma VariadicSurvivesTrim(s: string, j: nat)
    requires OccursAt(s, "$@", j)
    ensures Contains(Trim(s), "$@")
  {
    assert s[j] == '$' && s[j + 1] == '@' by {
      assert s[j..j + 2][0] == s[j] && s[j..j + 2][1] == s[j + 1];
    }
    VariadicSurvivesTrimStart(s, j);
    var t := TrimStart(s);
    var k := j - (|s| - |t|);
    VariadicSurvivesTrimEnd(t, k);
    OccursContains(TrimEnd(t), "$@", k);
  }

  /**
   * With a non-empty argument list, a `$@` after the first one is not
   * replaced: it is still in the command, whatever the arguments hold.
   */
  lemma LaterVariadicSurvives(p: string, q: string, args: seq<string>)
    requires |args| > 0 && !Contains(p, "$@") && Contains(q, "$@")
    ensures Contains(Expand(p + "$@" + q, args), "$@")
  {
    var joined := JoinWith(args, " ");
    var inserted := Substitution(joined, "$@", p, q);
    FirstVariadicAt(p, q);
    ReplaceFirstAt(p, "$@", q, joined);
    var afterVariadic := p + inserted + q;
    var k := IndexOf(q, "$@").value;
    ContainsAfter(p + inserted, q, "$@");
    assert afterVariadic == (p + inserted) + q;
    VariadicSurvivesSubstitution(afterVariadic, args, |args|);
    var substituted := Substitute(p + "$@" + q, args);
    VariadicSurvivesStrip(substituted, IndexOf(substituted, "$@").value);
    var stripped := StripTokens(substituted, false);
    VariadicSurvivesTrim(stripped, IndexOf(stripped, "$@").value);
  }

  lemma DollarFreeHasNoPlaceholder(s: string, pat: string)
    requires '$' !in s && |pat| > 0 && pat[0] == '$'
    ensures !Contains(s, pat)
  {
    forall j: nat
      ensures !OccursAt(s, pat, j)
    {
      if j + |pat| <= |s| {
        assert s[j..j + |pat|][0] == s[j];
      }
    }
  }

  lemma {:induction false} DollarFreeSubstitution(s: string, args: seq<string>, n: nat)
    requires '$' !in s && n <= |args|
    ensures SubstitutePositional(s, args, n) == s
    decreases n
  {
    if n > 0 {
      DollarFreeSubstitution(s, args, n - 1);
      DollarFreeHasNoPlaceholder(s, Placeholder(n));
    }
  }

  /** A template without `$` comes back only trimmed, whatever the arguments. */
  lemma DollarFreeTemplate(template: string, args: seq<string>)
    requires '$' !in template
    ensures Expand(template, args) == Trim(template)
  {
    StripDollarFree(template, true);
    StripDollarFree(template, false);
    DollarFreeHasNoPlaceholder(template, "$@");
    DollarFreeSubstitution(template, args, |args|);
  }

  // ------------------------------------------------------------------ common alias shapes

  /** A prefix without `$` goes through the deletion of placeholders untouched. */
  lemma {:induction false} StripDollarFreePrefix(p: string, s: string, variadic: bool)
    requires '$' !in p
    ensures StripTokens(p + s, variadic) == p + StripTokens(s, variadic)
    decreases |p|
  {
    if |p| > 0 {
      var c, tail := p[0], p[1..];
      assert c in p;
      assert '$' !in tail by {
        assert forall k :: 0 <= k < |tail| ==> tail[k] == p[k + 1];
      }
      StripDollarFreePrefix(tail, s, variadic);
      assert p + s == [c] + (tail + s);
      ScanLiteral(c, tail + s, variadic);
      LiteralTextCons(Literal(c), Scan(tail + s, variadic));
      assert StripTokens(p + s, variadic) == [c] + StripTokens(tail + s, variadic);
      assert p == [c] + tail;
    } else {
      assert p + s == s;
    }
  }

  lemma ReplaceAllSkip(before: string, c: char, s: string, pat: string, rep: string)
    requires c != '$' && |pat| > 0 && pat[0] == '$'
    ensures ReplaceAllAfter(before, [c] + s, pat, rep) == [c] + ReplaceAllAfter(before + [c], s, pat, rep)
  {
    var x := [c] + s;
    assert x[0] == c && x[1..] == s;
    if |x| >= |pat| {
      assert x[..|pat|][0] == c;
    }
  }

  /** A prefix without `$` holds no match of a pattern starting with `$`: a global replace keeps it. */
  lemma {:induction false} ReplaceAllDollarFreePrefix(before: string, p: string, s: string, pat: string, rep: string)
    requires '$' !in p && |pat| > 0 && pat[0] == '$'
    ensures ReplaceAllAfter(before, p + s, pat, rep) == p + ReplaceAllAfter(before + p, s, pat, rep)
    decreases |p|
  {
    if |p| > 0 {
      var c, tail := p[0], p[1..];
      assert c in p;
      assert '$' !in tail by {
        assert forall k :: 0 <= k < |tail| ==> tail[k] == p[k + 1];
      }
      var x := tail + s;
      calc {
        ReplaceAllAfter(before, p + s, pat, rep);
        { assert p + s == [c] + x; }
        ReplaceAllAfter(before, [c] + x, pat, rep);
        { ReplaceAllSkip(before, c, x, pat, rep); }
        [c] + ReplaceAllAfter(before + [c], x, pat, rep);
        { ReplaceAllDollarFreePrefix(before + [c], tail, s, pat, rep); }
        [c] + (tail + ReplaceAllAfter(before + [c] + tail, s, pat, rep));
        { assert before + [c] + tail == before + p; }
        [c] + (tail + ReplaceAllAfter(before + p, s, pat, rep));
        { assert p == [c] + tail; }
        p + ReplaceAllAfter(before + p, s, pat, rep);
      }
    } else {
      assert p + s == s && before + p == before;
    }
  }

  lemma ReplaceAllAtMatch(before: string, pat: string, s: string, rep: string)
    requires |pat| > 0
    ensures ReplaceAllAfter(before, pat + s, pat, rep)
         == Substitution(rep, pat, before, s) + ReplaceAllAfter(before + pat, s, pat, rep)
  {
    assert (pat + s)[..|pat|] == pat && (pat + s)[|pat|..] == s;
  }

  /** Replacing every `pat` in a text holding exactly one, after a `$`-free prefix. */
  lemma ReplaceAllSingle(p: string, pat: string, q: string, rep: string)
    requires '$' !in p && |pat| > 0 && pat[0] == '$' && !Contains(q, pat)
    ensures ReplaceAll(p + pat + q, pat, rep) == p + Substitution(rep, pat, p, q) + q
  {
    ReplaceAllDollarFreePrefix([], p, pat + q, pat, rep);
    assert [] + p == p;
    ReplaceAllAtMatch(p, pat, q, rep);
    assert p + pat + q == p + (pat + q);
  }

  /** The only `$` of the text is the one before `c`, so a two-character `$` pattern other than `$c` is absent. */
  lemma SingleDollar(p: string, c: char, q: string, pat: string)
    requires '$' !in p && '$' !in q && c != '$'
    requires |pat| == 2 && pat[0] == '$' && pat[1] != c
    ensures !Contains(p + ['$', c] + q, pat)
  {
    var s := p + ['$', c] + q;
    forall j: nat
      ensures !OccursAt(s, pat, j)
    {
      if j + 2 <= |s| {
        assert s[j..j + 2][0] == s[j] && s[j..j + 2][1] == s[j + 1];
        if j < |p| {
          assert s[j] == p[j];
        } else if j > |p| + 1 {
          assert s[j] == q[j - |p| - 2];
        }
      }
    }
  }

  predicate DollarFreeArgs(args: seq<string>) {
    forall i :: 0 <= i < |args| ==> '$' !in args[i]
  }

  lemma {:induction false} JoinDollarFree(parts: seq<string>)
    requires DollarFreeArgs(parts)
    ensures '$' !in JoinWith(parts, " ")
    decreases |parts|
  {
    if |parts| > 1 {
      assert DollarFreeArgs(parts[1..]) by {
        assert forall i :: 0 <= i < |parts[1..]| ==> parts[1..][i] == parts[i + 1];
      }
      JoinDollarFree(parts[1..]);
      assert '$' !in parts[0];
    } else if |parts| == 1 {
      assert '$' !in parts[0];
    }
  }

  /**
   * A command with one `$@` and no other `$`, called with arguments free of
   * `$`: without arguments the placeholder is deleted, otherwise it becomes the
   * arguments joined with single spaces; either way the result is trimmed.
   */
  lemma VariadicAlias(p: string, q: string, args: seq<string>)
    requires '$' !in p && '$' !in q && DollarFreeArgs(args)
    ensures |args| == 0 ==> Expand(p + "$@" + q, args) == Trim(p + q)
    ensures |args| > 0 ==> Expand(p + "$@" + q, args) == Trim(p + JoinWith(args, " ") + q)
  {
    if |args| == 0 {
      VariadicAliasWithout(p, q);
      ExpandDollarFreeSubstitution(p + "$@" + q, args);
    } else {
      VariadicAliasWith(p, q, args);
      ExpandDollarFreeSubstitution(p + "$@" + q, args);
    }
  }

  /** Once substitution leaves no `$`, only the trimming is left to do. */
  lemma ExpandDollarFreeSubstitution(template: string, args: seq<string>)
    requires '$' !in Substitute(template, args)
    ensures Expand(template, args) == Trim(Substitute(template, args))
  {
    StripDollarFree(Substitute(template, args), false);
  }

  lemma VariadicAliasWithout(p: string, q: string)
    requires '$' !in p && '$' !in q
    ensures Substitute(p + "$@" + q, []) == p + q
    ensures '$' !in p + q
  {
    calc {
      Substitute(p + "$@" + q, []);
      StripTokens(p + "$@" + q, true);
      { assert p + "$@" + q == p + ("$@" + q); }
      StripTokens(p + ("$@" + q), true);
      { StripDollarFreePrefix(p, "$@" + q, true); }
      p + StripTokens("$@" + q, true);
      { ScanVariadic(q, true);
        LiteralTextCons(Variadic, Scan(q, true)); }
      p + StripTokens(q, true);
      { StripDollarFree(q, true); }
      p + q;
    }
  }

  lemma VariadicAliasWith(p: string, q: string, args: seq<string>)
    requires '$' !in p && '$' !in q && DollarFreeArgs(args) && |args| > 0
    ensures Substitute(p + "$@" + q, args) == p + JoinWith(args, " ") + q
    ensures '$' !in p + JoinWith(args, " ") + q
  {
    var joined := JoinWith(args, " ");
    JoinDollarFree(args);
    DollarFreeHasNoPlaceholder(p, "$@");
    VariadicFirstOnly(p, q, args);
    DollarFreeSubstitution(p + joined + q, args, |args|);
  }

  /** A command with one `$1` and no other `$`, called with one argument free of `$`, gets it in the placeholder's place. */
  lemma PositionalAlias(p: string, q: string, a: string)
    requires '$' !in p && '$' !in q && '$' !in a
    ensures Expand(p + "$1" + q, [a]) == Trim(p + a + q)
  {
    var t := p + "$1" + q;
    SingleDollar(p, '1', q, "$@");
    assert Placeholder(1) == "$1";
    DollarFreeHasNoPlaceholder(q, "$1");
    ReplaceAllSingle(p, "$1", q, a);
    LiteralSubstitution(a, "$1", p, q);
    assert Substitute(t, [a]) == p + a + q;
    StripDollarFree(p + a + q, false);
  }

  /** Once the text has no `$` left, the later steps of the loop change nothing. */
  lemma {:induction false} SubstitutionSettles(s: string, args: seq<string>, k: nat, n: nat)
    requires k <= n <= |args| && '$' !in SubstitutePositional(s, args, k)
    ensures SubstitutePositional(s, args, n) == SubstitutePositional(s, args, k)
    decreases n
  {
    if n > k {
      SubstitutionSettles(s, args, k, n - 1);
      DollarFreeHasNoPlaceholder(SubstitutePositional(s, args, k), Placeholder(n));
    }
  }

  /**
   * On a template without `$@` whose only `$1` is its first `$`, the `$@` step
   * does nothing and the first loop step puts the first argument there.
   */
  lemma FirstPositionalStep(p: string, q: string, args: seq<string>)
    requires '$' !in p && !Contains(q, "$1") && !Contains(p + "$1" + q, "$@") && |args| > 0
    ensures Substitute(p + "$1" + q, args) == SubstitutePositional(p + "$1" + q, args, |args|)
    ensures SubstitutePositional(p + "$1" + q, args, 1) == p + Substitution(args[0], "$1", p, q) + q
  {
    assert Placeholder(1) == "$1";
    ReplaceAllSingle(p, "$1", q, args[0]);
  }

  /**
   * The pattern built for `$1` is not anchored: in `$12` it matches the `$1`,
   * so the first argument is put there and the `2` stays, however many
   * arguments there are.
   */
  lemma LongerNumberTakesFirstArgument(p: string, d: string, r: string, args: seq<string>)
    requires '$' !in p && '$' !in r && DollarFreeArgs(args) && |args| > 0
    requires |d| > 0 && AllDigits(d)
    ensures Expand(p + "$1" + d + r, args) == Trim(p + args[0] + d + r)
  {
    var q := d + r;
    assert '$' !in q by {
      assert forall k :: 0 <= k < |d| ==> q[k] == d[k];
      assert forall k :: |d| <= k < |q| ==> q[k] == r[k - |d|];
    }
    assert '$' !in args[0];
    SingleDollar(p, '1', q, "$@");
    DollarFreeHasNoPlaceholder(q, "$1");
    FirstPositionalStep(p, q, args);
    LiteralSubstitution(args[0], "$1", p, q);
    assert p + "$1" + d + r == p + "$1" + q && p + args[0] + d + r == p + args[0] + q;
    SubstitutionSettles(p + "$1" + q, args, 1, |args|);
    StripDollarFree(p + args[0] + q, false);
  }

  /** A numbered placeholder past the last argument is deleted: `cmd $1 $2` with one argument. */
  lemma MissingArgumentDeleted(p: string, q: string, r: string, a: string)
    requires '$' !in p && '$' !in q && '$' !in r && '$' !in a
    requires r == [] || !IsDigit(r[0])
    ensures Expand(p + "$1" + q + "$2" + r, [a]) == Trim(p + a + q + r)
  {
    var t := p + "$1" + q + "$2" + r;
    var u := p + a + q;
    calc {
      Expand(t, [a]);
      { ExpandSteps(t, [a]); }
      Trim(StripTokens(Substitute(t, [a]), false));
      { MissingArgumentSubstituted(p, q, r, a); }
      Trim(StripTokens(u + ("$2" + r), false));
      { StripPlaceholderAfter(u, r); }
      Trim(u + r);
      { assert u + r == p + a + q + r; }
      Trim(p + a + q + r);
    }
  }

  lemma StripPlaceholderAfter(u: string, r: string)
    requires '$' !in u && '$' !in r && (r == [] || !IsDigit(r[0]))
    ensures StripTokens(u + ("$2" + r), false) == u + r
  {
    calc {
      StripTokens(u + ("$2" + r), false);
      { StripDollarFreePrefix(u, "$2" + r, false); }
      u + StripTokens("$2" + r, false);
      { assert "$2" + r == "$" + "2" + r;
        ScanPositional("2", r, false);
        LiteralTextCons(Positional("2"), Scan(r, false)); }
      u + StripTokens(r, false);
      { StripDollarFree(r, false); }
      u + r;
    }
  }

  lemma ExpandSteps(template: string, args: seq<string>)
    ensures Expand(template, args) == Trim(StripTokens(Substitute(template, args), false))
  {
  }

  lemma MissingArgumentSubstituted(p: string, q: string, r: string, a: string)
    requires '$' !in p && '$' !in q && '$' !in r && '$' !in a
    ensures Substitute(p + "$1" + q + "$2" + r, [a]) == (p + a + q) + ("$2" + r)
  {
    var tail := q + "$2" + r;
    var t := p + "$1" + tail;
    assert p + "$1" + q + "$2" + r == t;
    SingleDollar(q, '2', r, "$1");
    assert !Contains(t, "$@") by {
      SingleDollar(p, '1', q, "$@");
      SingleDollar([], '2', r, "$@");
      assert [] + ['$', '2'] + r == "$2" + r;
      NoMatchAcross(p + "$1" + q, "$2" + r, "$@");
      assert t == (p + "$1" + q) + ("$2" + r);
    }
    FirstPositionalStep(p, tail, [a]);
    LiteralSubstitution(a, "$1", p, tail);
    assert p + a + tail == (p + a + q) + ("$2" + r);
  }

  /** An argument `$$` at a `$1` no digit follows is put in as a single `$`: arguments are not inserted verbatim. */
  lemma DoubleDollarArgument(p: string, q: string)
    requires '$' !in p && '$' !in q && (q == [] || !IsDigit(q[0]))
    ensures Expand(p + "$1" + q, ["$$"]) == Trim(p + "$" + q)
  {
    calc {
      Expand(p + "$1" + q, ["$$"]);
      { ExpandSteps(p + "$1" + q, ["$$"]); }
      Trim(StripTokens(Substitute(p + "$1" + q, ["$$"]), false));
      { DoubleDollarReplacement("$1", p, q);
        DoubleDollarSubstituted(p, q, "$$"); }
      Trim(StripTokens(p + ("$" + q), false));
      { StripLoneDollar(p, q); }
      Trim(p + ("$" + q));
      { assert p + ("$" + q) == p + "$" + q; }
      Trim(p + "$" + q);
    }
  }

  /** An argument that `replace` turns into a single `$` leaves that `$` in the placeholder's place. */
  lemma DoubleDollarSubstituted(p: string, q: string, a: string)
    requires '$' !in p && '$' !in q && Substitution(a, "$1", p, q) == "$"
    ensures Substitute(p + "$1" + q, [a]) == p + ("$" + q)
  {
    var t := p + "$1" + q;
    assert Substitute(t, [a]) == ReplaceAll(t, "$1", a) by {
      SingleDollar(p, '1', q, "$@");
      SubstituteOne(t, a);
    }
    assert ReplaceAll(t, "$1", a) == p + "$" + q by {
      DollarFreeHasNoPlaceholder(q, "$1");
      ReplaceAllSingle(p, "$1", q, a);
    }
    assert p + "$" + q == p + ("$" + q);
  }

  /** With one argument and no `$@`, substitution is the single global replace of `$1`. */
  lemma SubstituteOne(t: string, a: string)
    requires !Contains(t, "$@")
    ensures Substitute(t, [a]) == ReplaceAll(t, "$1", a)
  {
    assert Placeholder(1) == "$1";
    assert ReplaceFirst(t, "$@", JoinWith([a], " ")) == t;
  }

  /** The replacement `$$` stands for one `$`, whatever the match. */
  lemma DoubleDollarReplacement(matched: string, before: string, after: string)
    ensures Substitution("$$", matched, before, after) == "$"
  {
    assert "$$"[2..] == [];
  }

  /** A `$` not followed by a digit is not a numbered placeholder and stays. */
  lemma StripLoneDollar(p: string, q: string)
    requires '$' !in p && '$' !in q && (q == [] || !IsDigit(q[0]))
    ensures StripTokens(p + ("$" + q), false) == p + ("$" + q)
  {
    StripDollarFreePrefix(p, "$" + q, false);
    ScanLiteral('$', q, false);
    LiteralTextCons(Literal('$'), Scan(q, false));
    StripDollarFree(q, false);
  }

  /** The loop works on the text already rewritten: a first argument `$2` is itself replaced by the second argument. */
  lemma InsertedPlaceholderIsSubstituted(p: string, q: string, b: string)
    requires '$' !in p && '$' !in q && '$' !in b
    ensures Expand(p + "$1" + q, ["$2", b]) == Trim(p + b + q)
  {
    var args := ["$2", b];
    var t := p + "$1" + q;
    assert SubstitutePositional(t, args, 1) == p + "$2" + q by {
      SingleDollar(p, '1', q, "$@");
      DollarFreeHasNoPlaceholder(q, "$1");
      FirstPositionalStep(p, q, args);
      LiteralSubstitution("$2", "$1", p, q);
    }
    assert SubstitutePositional(t, args, 2) == p + b + q by {
      assert Placeholder(2) == "$2";
      DollarFreeHasNoPlaceholder(q, "$2");
      ReplaceAllSingle(p, "$2", q, b);
      LiteralSubstitution(b, "$2", p, q);
    }
    assert Substitute(t, args) == SubstitutePositional(t, args, 2) by {
      SingleDollar(p, '1', q, "$@");
      DollarFreeHasNoPlaceholder(q, "$1");
      FirstPositionalStep(p, q, args);
    }
    assert '$' !in p + b + q;
    StripDollarFree(p + b + q, false);
    ExpandSteps(t, args);
  }
  // ------------------------------------------------------------------ concrete cases

  /** Joining two words with a single space. */
  lemma JoinTwo(a: string, b: string)
    ensures JoinWith([a, b], " ") == a + " " + b
  {
    assert [a, b][1..] == [b];
  }

  /*
   * Each concrete case is proved in three steps: a lemma of facts about the
   * literal texts, a lemma that applies a general shape lemma to texts equal
   * to those literals, and the case itself on the literals.
   */

  lemma CommitMessageText(p: string, q: string, a: string, t: string, want: string)
    requires p == "git commit -m \"" && q == "\"" && a == "fix bug"
    requires t == "git commit -m \"$1\"" && want == "git commit -m \"fix bug\""
    ensures t == p + "$1" + q && want == p + a + q && NoEdgeWhitespace(want)
  {
  }

  lemma CommitMessageCase(p: string, q: string, a: string, t: string, want: string)
    requires p == "git commit -m \"" && q == "\"" && a == "fix bug"
    requires t == "git commit -m \"$1\"" && want == "git commit -m \"fix bug\""
    ensures Expand(t, [a]) == want
  {
    CommitMessageText(p, q, a, t, want);
    PositionalAlias(p, q, a);
  }

  /** `git commit -m "$1"` called with `fix bug` runs `git commit -m "fix bug"`. */
  lemma ExampleCommitMessage()
    ensures Expand("git commit -m \"$1\"", ["fix bug"]) == "git commit -m \"fix bug\""
  {
    CommitMessageCase("git commit -m \"", "\"", "fix bug", "git commit -m \"$1\"", "git commit -m \"fix bug\"");
  }

  lemma CheckoutText(p: string, t: string, want: string)
    requires p == "git co " && t == "git co $@" && want == "git co"
    ensures t == p + "$@" + [] && p + [] == want + [' '] && want != [] && NoEdgeWhitespace(want)
  {
  }

  lemma CheckoutWithoutArgumentsCase(p: string, t: string, want: string)
    requires p == "git co " && t == "git co $@" && want == "git co"
    ensures Expand(t, []) == want
  {
    CheckoutText(p, t, want);
    VariadicAlias(p, [], []);
    TrimTrailingWhitespace(want, ' ');
  }

  /** `git co $@` called without arguments runs `git co`: the placeholder goes and the space is trimmed. */
  lemma ExampleCheckoutWithoutArguments()
    ensures Expand("git co $@", []) == "git co"
  {
    CheckoutWithoutArgumentsCase("git co ", "git co $@", "git co");
  }

  lemma CheckoutWithArgumentsText(p: string, a: string, b: string, t: string, want: string)
    requires p == "git co " && a == "a" && b == "b" && t == "git co $@" && want == "git co a b"
    ensures t == p + "$@" + [] && want == p + (a + " " + b) + [] && NoEdgeWhitespace(want)
    ensures '$' !in a && '$' !in b
  {
  }

  lemma CheckoutWithArgumentsCase(p: string, a: string, b: string, t: string, want: string)
    requires p == "git co " && a == "a" && b == "b" && t == "git co $@" && want == "git co a b"
    ensures Expand(t, [a, b]) == want
  {
    CheckoutWithArgumentsText(p, a, b, t, want);
    VariadicAlias(p, [], [a, b]);
    JoinTwo(a, b);
  }

  /** `git co $@` called with `a` and `b` runs `git co a b`. */
  lemma ExampleCheckoutWithArguments()
    ensures Expand("git co $@", ["a", "b"]) == "git co a b"
  {
    CheckoutWithArgumentsCase("git co ", "a", "b", "git co $@", "git co a b");
  }

  lemma MissingArgumentText(p: string, q: string, a: string, t: string, want: string)
    requires p == "cmd " && q == " " && a == "only" && t == "cmd $1 $2" && want == "cmd only"
    ensures t == p + "$1" + q + "$2" + [] && p + a + q + [] == want + [' ']
    ensures want != [] && NoEdgeWhitespace(want)
  {
  }

  lemma MissingArgumentCase(p: string, q: string, a: string, t: string, want: string)
    requires p == "cmd " && q == " " && a == "only" && t == "cmd $1 $2" && want == "cmd only"
    ensures Expand(t, [a]) == want
  {
    MissingArgumentText(p, q, a, t, want);
    MissingArgumentDeleted(p, q, [], a);
    TrimTrailingWhitespace(want, ' ');
  }

  /** `cmd $1 $2` called with `only` runs `cmd only`: `$2` has no argument and is deleted. */
  lemma ExampleMissingArgument()
    ensures Expand("cmd $1 $2", ["only"]) == "cmd only"
  {
    MissingArgumentCase("cmd ", " ", "only", "cmd $1 $2", "cmd only");
  }
}

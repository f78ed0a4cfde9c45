/**
 * `StringUtils`: message formatting with single-digit placeholders, and the
 * Unicode embedding marks that wrap a string for left-to-right or
 * right-to-left display.
 */
module StringUtils {
  import opened IntMath

  /** LEFT-TO-RIGHT EMBEDDING, U+202A. */
  const LTR: char := '\U{202A}'
  /** RIGHT-TO-LEFT EMBEDDING, U+202B. */
  const RTL: char := '\U{202B}'
  /** POP DIRECTIONAL FORMATTING, U+202C. */
  const POP: char := '\U{202C}'

  /** The pattern has a placeholder `{d}`, d one decimal digit, at index i. */
  predicate PlaceholderAt(pattern: string, i: int)
  {
    0 <= i && i + 3 <= |pattern| && pattern[i] == '{' && IsDigit(pattern[i + 1]) && pattern[i + 2] == '}'
  }

  /** The text substituted for placeholder n: the n-th argument, or "undefined" when there is none. */
  function Argument(args: seq<string>, n: nat): string
  {
    if n < |args| then args[n] else "undefined"
  }

  /**
   * `format(pattern, args...)`: the single left-to-right pass of the global
   * regular-expression replace `/{(\d)}/g`. At each position a placeholder
   * `{d}` is replaced by argument d and scanning resumes after it; any other
   * character is copied. Substituted text is never scanned again.
   */
  function Format(pattern: string, args: seq<string>): (r: string)
    decreases |pattern|
    ensures (forall i :: 0 <= i < |pattern| ==> !PlaceholderAt(pattern, i)) ==> r == pattern
  {
    if |pattern| == 0 then
      ""
    else if PlaceholderAt(pattern, 0) then
      Argument(args, DigitValue(pattern[1])) + Format(pattern[3..], args)
    else
      assert forall i :: 0 <= i < |pattern| - 1 ==> (PlaceholderAt(pattern[1..], i) <==> PlaceholderAt(pattern, i + 1));
      [pattern[0]] + Format(pattern[1..], args)
  }

  /**
   * Formatting distributes over concatenation when no placeholder straddles
   * the join, so every placeholder is replaced wherever it occurs.
   */
  lemma {:induction false} FormatAppend(p: string, q: string, args: seq<string>)
    requires forall i :: |p| - 2 <= i < |p| ==> !PlaceholderAt(p + q, i)
    ensures Format(p + q, args) == Format(p, args) + Format(q, args)
    decreases |p|
  {
    if |p| == 0 {
      assert p + q == q;
    } else {
      var k := if PlaceholderAt(p, 0) then 3 else 1;
      if k == 3 {
        PlaceholderInPrefix(p, q, 0);
      } else if |p| >= 3 {
        PlaceholderInPrefix(p, q, 0);
      }
      assert (p + q)[k..] == p[k..] + q;
      forall i | |p[k..]| - 2 <= i < |p[k..]|
        ensures !PlaceholderAt(p[k..] + q, i)
      {
        if i >= 0 {
          PlaceholderInSuffix(p + q, k, i);
        }
      }
      FormatAppend(p[k..], q, args);
    }
  }

  /** A placeholder that fits inside `p` is seen the same in `p + q`. */
  lemma PlaceholderInPrefix(p: string, q: string, i: int)
    requires 0 <= i && i + 3 <= |p|
    ensures PlaceholderAt(p + q, i) <==> PlaceholderAt(p, i)
  {
    assert (p + q)[i] == p[i] && (p + q)[i + 1] == p[i + 1] && (p + q)[i + 2] == p[i + 2];
  }

  /** Dropping the first k characters shifts every placeholder k places to the left. */
  lemma PlaceholderInSuffix(s: string, k: nat, i: int)
    requires k <= |s| && 0 <= i
    ensures PlaceholderAt(s[k..], i) <==> PlaceholderAt(s, i + k)
  {
  }

  /** A lone placeholder becomes its argument, taken as it is (an argument's own `{0}` stays literal). */
  lemma FormatPlaceholder(d: char, args: seq<string>)
    requires IsDigit(d)
    ensures Format(['{', d, '}'], args) == Argument(args, DigitValue(d))
  {
    var p := ['{', d, '}'];
    assert PlaceholderAt(p, 0);
    assert p[3..] == [];
  }

  /** The documented example: `format('{0} + {1}', 2, 3)` is `2 + 3`. */
  lemma FormatExample()
    ensures Format("{0} + {1}", ["2", "3"]) == "2 + 3"
  {
    FormatAppend("{0}", " + {1}", ["2", "3"]);
    FormatAppend(" + ", "{1}", ["2", "3"]);
    FormatPlaceholder('0', ["2", "3"]);
    FormatPlaceholder('1', ["2", "3"]);
    assert "{0}" + " + {1}" == "{0} + {1}";
    assert " + " + "{1}" == " + {1}";
  }

  /** An argument that itself reads `{1}` is inserted literally, not replaced in turn. */
  lemma ArgumentNotRescanned(args: seq<string>)
    ensures Format("{0}", ["{1}"] + args) == "{1}"
  {
    FormatPlaceholder('0', ["{1}"] + args);
  }

  /** A placeholder written twice is replaced at both places. */
  lemma RepeatedPlaceholder(d: char, args: seq<string>)
    requires IsDigit(d)
    ensures Format(['{', d, '}', '{', d, '}'], args) == Argument(args, DigitValue(d)) + Argument(args, DigitValue(d))
  {
    var p := ['{', d, '}'];
    assert ['{', d, '}', '{', d, '}'] == p + p;
    FormatAppend(p, p, args);
    FormatPlaceholder(d, args);
  }

  /** A brace around two digits is not a placeholder: `{10}` is copied as it is. */
  lemma MultiDigitBraceIsLiteral(args: seq<string>)
    ensures Format("{10}", args) == "{10}"
  {
    assert !PlaceholderAt("{10}", 0);
  }

  /** `wrapLTR`: the string between a left-to-right embedding mark and a pop mark. */
  function WrapLTR(s: string): (r: string)
    ensures |r| == |s| + 2
    ensures r[0] == LTR && r[|r| - 1] == POP && r[1..|r| - 1] == s
  {
    [LTR] + s + [POP]
  }

  /** `wrapRTL` as written: it opens with the left-to-right mark too, so it is `wrapLTR`. */
  function WrapRTL(s: string): (r: string)
    ensures r == WrapLTR(s)
  {
    [LTR] + s + [POP]
  }

  /** The as-written `wrapRTL` never produces right-to-left embedding. */
  lemma WrapRTLOpensLeftToRight(s: string)
    ensures WrapRTL(s)[0] == LTR && WrapRTL(s)[0] != RTL
  {
  }

  /** `wrapRTL` as its documentation intends: a right-to-left embedding mark, the string, a pop mark. */
  function WrapRTLIntended(s: string): (r: string)
    ensures |r| == |s| + 2
    ensures r[0] == RTL && r[|r| - 1] == POP && r[1..|r| - 1] == s
    ensures r != WrapLTR(s)
  {
    [RTL] + s + [POP]
  }
}

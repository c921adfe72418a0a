/**
 * The static analyzer `TracerService.validateCode`: a case-sensitive
 * substring denylist over the raw source text. It is advisory only: an
 * aliased import or a spelling with other spacing passes it.
 */
module Validator {
  import opened Text

  /** The forbidden substrings, in the order the scan tries them. */
  const ForbiddenPatterns: seq<string> := ["import os", "import sys", "exec", "eval"]

  /** No forbidden pattern occurs in `code`. */
  predicate IsAllowed(code: string) {
    forall k :: 0 <= k < |ForbiddenPatterns| ==> !Includes(code, ForbiddenPatterns[k])
  }

  /** The scan of `validateCode`: try each pattern in turn and reject on the first hit. */
  method ValidateCode(code: string) returns (ok: bool)
    ensures ok <==> IsAllowed(code)
  {
    for k := 0 to |ForbiddenPatterns|
      invariant forall j :: 0 <= j < k ==> !Includes(code, ForbiddenPatterns[j])
    {
      if Includes(code, ForbiddenPatterns[k]) {
        return false;
      }
    }
    return true;
  }

  /** The denylist spelled out: rejection is exactly an occurrence of one of the four substrings. */
  lemma RejectedIffContainsPattern(code: string)
    ensures !IsAllowed(code) <==>
      || (exists i :: OccursAt(code, "import os", i))
      || (exists i :: OccursAt(code, "import sys", i))
      || (exists i :: OccursAt(code, "exec", i))
      || (exists i :: OccursAt(code, "eval", i))
  {
    assert ForbiddenPatterns[0] == "import os" && ForbiddenPatterns[1] == "import sys";
    assert ForbiddenPatterns[2] == "exec" && ForbiddenPatterns[3] == "eval";
  }

  /** Adding text around rejected code never makes it allowed. */
  lemma RejectionSurvivesContext(code: string, before: string, after: string)
    requires !IsAllowed(code)
    ensures !IsAllowed(before + code + after)
  {
    var k :| 0 <= k < |ForbiddenPatterns| && Includes(code, ForbiddenPatterns[k]);
    var whole := before + code + after;
    assert whole[|before|..|before| + |code|] == code;
    assert OccursAt(whole, code, |before|);
    IncludesTransitive(whole, code, ForbiddenPatterns[k]);
  }

  /**
   * Code that lacks a letter of every forbidden pattern passes: without an
   * `i` neither import matches, and without an `e`, or without both `x` and
   * `v`, neither `exec` nor `eval` does.
   */
  lemma AllowedWithoutLetters(code: string)
    requires 'i' !in code
    requires 'e' !in code || ('x' !in code && 'v' !in code)
    ensures IsAllowed(code)
  {
    forall k | 0 <= k < |ForbiddenPatterns|
      ensures !Includes(code, ForbiddenPatterns[k])
    {
      var p := ForbiddenPatterns[k];
      if Includes(code, p) {
        if k < 2 || 'e' !in code {
          IncludedCharsOccur(code, p, 0);
        } else {
          IncludedCharsOccur(code, p, 1);
        }
      }
    }
  }

  /** The match is case-sensitive: an upper-case `EXEC` passes. */
  lemma CaseSensitive()
    ensures IsAllowed("EXEC(x)")
  {
    var code := "EXEC(x)";
    assert 'i' !in code && 'e' !in code;
    AllowedWithoutLetters(code);
  }
}

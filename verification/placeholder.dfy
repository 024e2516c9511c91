/** The placeholder pattern `\S(.+?)]` that marks a table row as the data
    template. Matching is unanchored, so a text matches when some
    non-whitespace character is followed, on the same line, by at least one
    character and then a `]`: `\S` is any character outside the Unicode
    White_Space property and `.` is any character except a line feed. */
module Placeholder {

  /** The Unicode White_Space property (the `\s` class of the regex engine). */
  predicate IsWhiteSpace(c: char) {
    var n := c as int;
    (0x09 <= n <= 0x0D) || n == 0x20 || n == 0x85 || n == 0xA0 || n == 0x1680
    || (0x2000 <= n <= 0x200A) || n == 0x2028 || n == 0x2029 || n == 0x202F
    || n == 0x205F || n == 0x3000
  }

  /** No line feed in `s[a..b]`. */
  predicate NoLineFeed(s: string, a: nat, b: nat)
    requires a <= b <= |s|
  {
    forall k | a <= k < b :: s[k] != '\n'
  }

  /** A match of the pattern spans `s[i..j+1]`: `\S` at `i`, `.+?` over
      `s[i+1..j]` and the `]` at `j`. */
  predicate MatchAt(s: string, i: nat, j: nat) {
    i + 2 <= j < |s| && !IsWhiteSpace(s[i]) && s[j] == ']' && NoLineFeed(s, i + 1, j)
  }

  /** `REGEX.is_match(s)`. */
  predicate HasPlaceholder(s: string) {
    exists i, j | 0 <= i < j < |s| :: MatchAt(s, i, j)
  }

  /** A left-to-right scan that decides the pattern in one pass. `first` is
      the earliest non-whitespace character since the last line feed: a `]`
      closes a match exactly when that character is at least two places
      before it. */
  method MatchesPlaceholder(s: string) returns (found: bool)
    ensures found <==> HasPlaceholder(s)
  {
    var first: int := -1;
    var j := 0;
    while j < |s|
      invariant 0 <= j <= |s|
      invariant -1 <= first < j
      invariant first >= 0 ==> !IsWhiteSpace(s[first]) && NoLineFeed(s, first + 1, j)
      invariant forall i | 0 <= i < j && !IsWhiteSpace(s[i]) && NoLineFeed(s, i + 1, j) ::
                  0 <= first <= i
      invariant forall i: nat, e: nat | e < j :: !MatchAt(s, i, e)
    {
      if s[j] == ']' && first >= 0 && first + 2 <= j {
        assert MatchAt(s, first, j);
        return true;
      }
      if s[j] == '\n' {
        first := -1;
      } else if first < 0 && !IsWhiteSpace(s[j]) {
        first := j;
      }
      j := j + 1;
    }
    return false;
  }

  lemma Example()
    ensures HasPlaceholder("[name]")
    ensures !HasPlaceholder("{{name}}")
    ensures !HasPlaceholder(" ]")
  {
    assert MatchAt("[name]", 0, 5);
  }
}

/** Text helpers shared by the clients. */
module Text {
  function LowerChar(c: char): char {
    if 'A' <= c <= 'Z' then c - 'A' + 'a' else c
  }

  /** `toLowerCase` on ASCII letters. */
  function Lower(s: string): (t: string)
    ensures |t| == |s|
  {
    seq(|s|, k requires 0 <= k < |s| => LowerChar(s[k]))
  }

  /** One character, or one letter in its two cases. */
  ghost predicate SameLetter(a: char, b: char) {
    a == b || CasesOf(a, b) || CasesOf(b, a)
  }

  /** A capital, 65 to 90, and its small letter, 97 to 122. */
  predicate CasesOf(capital: char, small: char) {
    65 <= capital as int <= 90 && small as int == capital as int + 32
  }

  /** Lower-casing forgets the case of letters and nothing else. */
  lemma CaseBlind(s: string, t: string)
    ensures Lower(s) == Lower(t) <==> |s| == |t| && forall k :: 0 <= k < |s| ==> SameLetter(s[k], t[k])
  {
    if Lower(s) == Lower(t) {
      forall k | 0 <= k < |s| ensures SameLetter(s[k], t[k]) {
        assert Lower(s)[k] == Lower(t)[k];
        LetterCases(s[k], t[k]);
      }
    }
    if |s| == |t| && forall k :: 0 <= k < |s| ==> SameLetter(s[k], t[k]) {
      forall k | 0 <= k < |s| ensures Lower(s)[k] == Lower(t)[k] {
        LetterCases(s[k], t[k]);
      }
    }
  }

  lemma LetterCases(a: char, b: char)
    ensures SameLetter(a, b) <==> LowerChar(a) == LowerChar(b)
  {
  }
}

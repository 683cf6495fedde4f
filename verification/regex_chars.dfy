/** Character classes of ECMAScript regular expressions that the two patterns
    of index.ts rely on. Neither pattern carries the `u` or `s` flag, so the
    engine works on UTF-16 code units and `.` refuses the line terminators
    (section 22.2 of ECMA-262, together with the LineTerminator production of
    section 12.3). Strings here are sequences of Unicode scalar values. */
module RegexChars {

  /** The four line terminators of ECMAScript: LF, CR, LINE SEPARATOR and
      PARAGRAPH SEPARATOR. */
  predicate IsLineTerminator(c: char) {
    c == '\n' || c == '\r' || c == '\U{2028}' || c == '\U{2029}'
  }

  /** A single `.` followed by a literal character matches the character `c`.
      Outside the Basic Multilingual Plane `c` is two code units: `.` takes the
      high surrogate and the literal that follows can never match the low one. */
  predicate MatchesSingleDot(c: char) {
    !IsLineTerminator(c) && (c as int) < 0x1_0000
  }

  /** `s` holds no line terminator, so `.*` can run over all of it. */
  predicate NoLineTerminator(s: string) {
    forall i :: 0 <= i < |s| ==> !IsLineTerminator(s[i])
  }
}

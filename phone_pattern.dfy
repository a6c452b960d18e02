/**
 * The phone-number rule of the student schema is the regular expression
 * `^[\+]?[1-9][\d]{0,15}$`. It is modelled here as an anchored sequence of
 * quantified character-class terms with the meaning a backtracking regular
 * expression engine gives them (the whole string must match), and is then
 * characterised directly: an optional '+', a digit 1-9, then at most fifteen
 * further digits.
 */
module PhonePattern {

  /** The character classes the pattern uses: one literal character, or a range. */
  datatype CharClass = Literal(c: char) | Range(lo: char, hi: char)

  /** One quantified term `class{min,max}` of an anchored pattern. */
  datatype Term = Term(cls: CharClass, min: nat, max: nat)

  predicate InClass(c: char, cls: CharClass) {
    match cls
    case Literal(x) => c == x
    case Range(lo, hi) => lo <= c <= hi
  }

  predicate AllIn(s: string, cls: CharClass) {
    forall i :: 0 <= i < |s| ==> InClass(s[i], cls)
  }

  /** `[\+]?` then `[1-9]` then `[\d]{0,15}`; `\d` without the `u` flag is 0-9. */
  const PhoneTerms: seq<Term> := [
    Term(Literal('+'), 0, 1),
    Term(Range('1', '9'), 1, 1),
    Term(Range('0', '9'), 0, 15)
  ]

  /** The whole of `s` matches `terms` in order: the first term takes some
      number of characters its bounds allow, all in its class, and the rest
      of the string matches the remaining terms. */
  predicate Matches(terms: seq<Term>, s: string)
    decreases |terms|
  {
    if terms == [] then s == []
    else exists k :: terms[0].min <= k <= terms[0].max && k <= |s|
                     && AllIn(s[..k], terms[0].cls) && Matches(terms[1..], s[k..])
  }

  /** The test `/^[\+]?[1-9][\d]{0,15}$/.test(s)`. */
  predicate MatchesPhonePattern(s: string) {
    Matches(PhoneTerms, s)
  }

  predicate IsDigit(c: char) {
    '0' <= c <= '9'
  }

  /** The digits of a candidate phone number: everything after a leading '+', if any. */
  function DigitsOf(s: string): string {
    if s != [] && s[0] == '+' then s[1..] else s
  }

  /** An optional '+', then a non-zero digit, then 0 to 15 more digits:
      1 to 16 digits in all. */
  predicate IsPhoneNumber(s: string) {
    var d := DigitsOf(s);
    && 1 <= |d| <= 16
    && '1' <= d[0] <= '9'
    && forall i :: 1 <= i < |d| ==> IsDigit(d[i])
  }

  /** The last term alone: at most fifteen digits. */
  lemma MatchesLastTerm(s: string)
    ensures Matches(PhoneTerms[2..], s) <==> |s| <= 15 && AllIn(s, Range('0', '9'))
  {
    var t := PhoneTerms[2..];
    assert t == [Term(Range('0', '9'), 0, 15)];
    assert t[1..] == [];
    if |s| <= 15 && AllIn(s, Range('0', '9')) {
      assert s[..|s|] == s && s[|s|..] == [];
    }
  }

  /** The last two terms: one digit 1-9, then at most fifteen digits. */
  lemma MatchesLastTwoTerms(s: string)
    ensures Matches(PhoneTerms[1..], s) <==>
      |s| >= 1 && '1' <= s[0] <= '9' && Matches(PhoneTerms[2..], s[1..])
  {
    var t := PhoneTerms[1..];
    assert t[0] == Term(Range('1', '9'), 1, 1);
    assert t[1..] == PhoneTerms[2..];
    if Matches(t, s) {
      var k :| t[0].min <= k <= t[0].max && k <= |s| && AllIn(s[..k], t[0].cls) && Matches(t[1..], s[k..]);
      assert k == 1 && s[..k][0] == s[0];
    }
    if |s| >= 1 && '1' <= s[0] <= '9' && Matches(PhoneTerms[2..], s[1..]) {
      assert AllIn(s[..1], t[0].cls);
    }
  }

  /** The first term: an optional '+', then the last two terms. */
  lemma MatchesFirstTerm(s: string)
    ensures Matches(PhoneTerms, s) <==>
      (s != [] && s[0] == '+' && Matches(PhoneTerms[1..], s[1..])) || Matches(PhoneTerms[1..], s)
  {
    var t := PhoneTerms;
    assert t[0] == Term(Literal('+'), 0, 1);
    if Matches(t, s) {
      var k :| t[0].min <= k <= t[0].max && k <= |s| && AllIn(s[..k], t[0].cls) && Matches(t[1..], s[k..]);
      if k == 1 {
        assert s[..k][0] == s[0];
      } else {
        assert s[k..] == s;
      }
    }
    if s != [] && s[0] == '+' && Matches(t[1..], s[1..]) {
      assert AllIn(s[..1], t[0].cls);
    }
    if Matches(t[1..], s) {
      assert s[..0] == [] && s[0..] == s;
    }
  }

  /** What the last two terms accept: one to sixteen digits, the first not zero. */
  lemma DigitsMeaning(d: string)
    ensures Matches(PhoneTerms[1..], d) <==>
      1 <= |d| <= 16 && '1' <= d[0] <= '9' && forall i :: 1 <= i < |d| ==> IsDigit(d[i])
  {
    MatchesLastTwoTerms(d);
    if d != [] {
      MatchesLastTerm(d[1..]);
      assert AllIn(d[1..], Range('0', '9')) <==> forall i :: 1 <= i < |d| ==> IsDigit(d[i]) by {
        assert forall i :: 1 <= i < |d| ==> d[1..][i - 1] == d[i];
      }
    }
  }

  /** The regular expression accepts exactly the phone numbers described by `IsPhoneNumber`. */
  lemma PhonePatternMeaning(s: string)
    ensures MatchesPhonePattern(s) <==> IsPhoneNumber(s)
  {
    MatchesFirstTerm(s);
    DigitsMeaning(s);
    if s != [] && s[0] == '+' {
      DigitsMeaning(s[1..]);
    }
  }
}

/**
 * The string operations of the JavaScript runtime that the student schema's
 * setters and length validators rely on: String.prototype.trim,
 * String.prototype.toLowerCase and the `length` of a string, which counts
 * UTF-16 code units; and String.prototype.replace with a string pattern,
 * which Mongoose uses to fill a validator message's `{VALUE}` placeholder.
 */
module Text {

  /** The code points ECMAScript classes as WhiteSpace or LineTerminator;
      these are exactly what `trim` strips from both ends of a string. */
  predicate IsJsWhitespace(c: char) {
    || c == '\t' || c == '\n' || c == '\U{000B}' || c == '\U{000C}' || c == '\r'
    || c == ' ' || c == '\U{00A0}' || c == '\U{1680}'
    || ('\U{2000}' <= c <= '\U{200A}')
    || c == '\U{2028}' || c == '\U{2029}' || c == '\U{202F}' || c == '\U{205F}'
    || c == '\U{3000}' || c == '\U{FEFF}'
  }

  predicate AllWhitespace(s: string) {
    forall i :: 0 <= i < |s| ==> IsJsWhitespace(s[i])
  }

  /** Neither end of `s` is whitespace (vacuously true of the empty string). */
  predicate NoEdgeWhitespace(s: string) {
    s == [] || (!IsJsWhitespace(s[0]) && !IsJsWhitespace(s[|s| - 1]))
  }

  /** The number of whitespace characters `s` starts with. */
  function Lead(s: string): (n: nat)
    ensures n <= |s|
  {
    if s != [] && IsJsWhitespace(s[0]) then 1 + Lead(s[1..]) else 0
  }

  /** The number of whitespace characters `s` ends with. */
  function Trail(s: string): (n: nat)
    ensures n <= |s|
  {
    if s != [] && IsJsWhitespace(s[|s| - 1]) then 1 + Trail(s[..|s| - 1]) else 0
  }

  /** The leading run is whitespace and is followed by a character that is not. */
  lemma {:induction false} LeadShape(s: string)
    ensures forall i :: 0 <= i < Lead(s) ==> IsJsWhitespace(s[i])
    ensures Lead(s) < |s| ==> !IsJsWhitespace(s[Lead(s)])
    decreases |s|
  {
    if s != [] && IsJsWhitespace(s[0]) {
      var t := s[1..];
      LeadShape(t);
      forall i | 1 <= i < Lead(s) ensures IsJsWhitespace(s[i]) {
        assert s[i] == t[i - 1];
      }
      if Lead(s) < |s| {
        assert s[Lead(s)] == t[Lead(t)];
      }
    }
  }

  /** The trailing run is whitespace and is preceded by a character that is not. */
  lemma {:induction false} TrailShape(s: string)
    ensures forall i :: |s| - Trail(s) <= i < |s| ==> IsJsWhitespace(s[i])
    ensures Trail(s) < |s| ==> !IsJsWhitespace(s[|s| - 1 - Trail(s)])
    decreases |s|
  {
    if s != [] && IsJsWhitespace(s[|s| - 1]) {
      var t := s[..|s| - 1];
      TrailShape(t);
      forall i | |s| - Trail(s) <= i < |s| - 1 ensures IsJsWhitespace(s[i]) {
        assert s[i] == t[i];
      }
      if Trail(s) < |s| {
        assert s[|s| - 1 - Trail(s)] == t[|t| - 1 - Trail(t)];
      }
    }
  }

  /** `s` with its leading whitespace removed. */
  function TrimStart(s: string): (r: string) {
    s[Lead(s)..]
  }

  /** `s` with its trailing whitespace removed. */
  function TrimEnd(s: string): (r: string) {
    s[..|s| - Trail(s)]
  }

  /** String.prototype.trim. */
  function Trim(s: string): (r: string)
    ensures |r| <= |s|
    ensures NoEdgeWhitespace(r)
  {
    var t := TrimStart(s);
    var r := TrimEnd(t);
    LeadShape(s);
    TrailShape(t);
    assert r != [] ==> r[0] == t[0] == s[Lead(s)];
    assert r != [] ==> r[|r| - 1] == t[|t| - 1 - Trail(t)];
    r
  }

  /** `s` is some whitespace, then its trim, then some whitespace. */
  lemma TrimInfix(s: string)
    ensures var lead := Lead(s);
      && lead + |Trim(s)| <= |s|
      && Trim(s) == s[lead..lead + |Trim(s)|]
      && (forall i :: 0 <= i < lead ==> IsJsWhitespace(s[i]))
      && (forall i :: lead + |Trim(s)| <= i < |s| ==> IsJsWhitespace(s[i]))
  {
    var lead := Lead(s);
    var t := TrimStart(s);
    LeadShape(s);
    TrailShape(t);
    forall i | lead + |Trim(s)| <= i < |s| ensures IsJsWhitespace(s[i]) {
      assert s[i] == t[i - lead];
    }
  }

  /** A string is its own trim exactly when neither end is whitespace. */
  lemma TrimFixedPoint(s: string)
    ensures Trim(s) == s <==> NoEdgeWhitespace(s)
  {
    if NoEdgeWhitespace(s) {
      assert Lead(s) == 0 && TrimStart(s) == s;
      assert Trail(s) == 0 && TrimEnd(s) == s;
    }
  }

  /** Trimming twice is trimming once. */
  lemma TrimIdempotent(s: string)
    ensures Trim(Trim(s)) == Trim(s)
  {
    TrimFixedPoint(Trim(s));
  }

  /** Only whitespace trims to the empty string. */
  lemma TrimEmpty(s: string)
    ensures Trim(s) == [] <==> AllWhitespace(s)
  {
    TrimInfix(s);
    LeadShape(s);
  }

  /** The number of UTF-16 code units of `s`, the `length` JavaScript reports:
      a code point above U+FFFF is a surrogate pair and counts twice. */
  function Utf16Length(s: string): (n: nat)
    ensures |s| <= n <= 2 * |s|
    ensures (n == 0) == (s == [])
  {
    if s == [] then 0
    else (if s[0] as int > 0xFFFF then 2 else 1) + Utf16Length(s[1..])
  }

  /** The number of code points of `s` above U+FFFF. */
  function Astral(s: string): nat {
    if s == [] then 0 else (if s[0] as int > 0xFFFF then 1 else 0) + Astral(s[1..])
  }

  /** The length of a concatenation is the sum of the lengths. */
  lemma {:induction false} Utf16LengthConcat(a: string, b: string)
    ensures Utf16Length(a + b) == Utf16Length(a) + Utf16Length(b)
    decreases |a|
  {
    if a == [] {
      assert a + b == b;
    } else {
      assert (a + b)[0] == a[0] && (a + b)[1..] == a[1..] + b;
      Utf16LengthConcat(a[1..], b);
    }
  }

  /** One code unit per code point, and a second one for each code point
      above U+FFFF. */
  lemma {:induction false} Utf16LengthCounts(s: string)
    ensures Utf16Length(s) == |s| + Astral(s)
    decreases |s|
  {
    if s != [] {
      Utf16LengthCounts(s[1..]);
    }
  }

  /** Lowercases one ASCII letter and leaves every other character alone. */
  function LowerChar(c: char): (d: char)
    ensures !('A' <= d <= 'Z')
    ensures 'A' <= c <= 'Z' ==> d as int == c as int + 32
    ensures !('A' <= c <= 'Z') ==> d == c
  {
    if 'A' <= c <= 'Z' then (c as int + 32) as char else c
  }

  predicate HasNoUpper(s: string) {
    forall i :: 0 <= i < |s| ==> !('A' <= s[i] <= 'Z')
  }

  /** String.prototype.toLowerCase, on ASCII letters. */
  function Lower(s: string): (r: string)
    ensures |r| == |s|
    ensures HasNoUpper(r)
  {
    seq(|s|, i requires 0 <= i < |s| => LowerChar(s[i]))
  }

  /** The result of lowercasing is a fixed point of lowercasing. */
  lemma LowerIdempotent(s: string)
    ensures Lower(Lower(s)) == Lower(s)
  {
    assert forall i :: 0 <= i < |s| ==> Lower(Lower(s))[i] == Lower(s)[i];
  }

  /** A string is its own lowercase exactly when it holds no upper-case ASCII letter. */
  lemma LowerFixedPoint(s: string)
    ensures Lower(s) == s <==> HasNoUpper(s)
  {
    if HasNoUpper(s) {
      assert forall i :: 0 <= i < |s| ==> Lower(s)[i] == s[i];
    }
  }
  // ---------------------------------------------------------------------
  // String.prototype.replace with a string pattern.

  /** `pat` occurs in `s` at position `i`. */
  predicate OccursAt(s: string, pat: string, i: nat) {
    i + |pat| <= |s| && s[i..i + |pat|] == pat
  }

  /** String.prototype.indexOf: the first position at or after `from` where
      `pat` occurs, or -1. */
  function IndexOf(s: string, pat: string, from: nat): (r: int)
    ensures r == -1 ==> forall j :: from <= j ==> !OccursAt(s, pat, j)
    ensures r != -1 ==> from <= r && OccursAt(s, pat, r) && forall j :: from <= j < r ==> !OccursAt(s, pat, j)
    decreases |s| - from
  {
    if from + |pat| > |s| then -1
    else if s[from..from + |pat|] == pat then from
    else IndexOf(s, pat, from + 1)
  }

  /** The replacement text with its `$` patterns expanded (the GetSubstitution
      operation of ECMAScript), for a match of `matched` between `before` and
      `after` by a pattern without capture groups: `$$` stands for `$`, `$&`
      for the match, `` $` `` for the text before it and `$'` for the text
      after it. Every other `$`, `$1` and `$<` among them, is kept literally,
      since a string pattern has no groups. */
  function Substitution(rep: string, before: string, matched: string, after: string): string
    decreases |rep|
  {
    if rep == [] then []
    else if |rep| >= 2 && rep[0] == '$' && rep[1] == '$' then "$" + Substitution(rep[2..], before, matched, after)
    else if |rep| >= 2 && rep[0] == '$' && rep[1] == '&' then matched + Substitution(rep[2..], before, matched, after)
    else if |rep| >= 2 && rep[0] == '$' && rep[1] == '`' then before + Substitution(rep[2..], before, matched, after)
    else if |rep| >= 2 && rep[0] == '$' && rep[1] == '\'' then after + Substitution(rep[2..], before, matched, after)
    else [rep[0]] + Substitution(rep[1..], before, matched, after)
  }

  /** A replacement without `$` is inserted as it is. */
  lemma {:induction false} SubstitutionLiteral(rep: string, before: string, matched: string, after: string)
    requires forall i :: 0 <= i < |rep| ==> rep[i] != '$'
    ensures Substitution(rep, before, matched, after) == rep
    decreases |rep|
  {
    if rep != [] {
      assert rep[0] != '$';
      SubstitutionLiteral(rep[1..], before, matched, after);
      assert rep == [rep[0]] + rep[1..];
    }
  }

  /** `s.replace(pat, rep)`: the first occurrence of `pat`, if any, is
      replaced by `rep` with its `$` patterns expanded. */
  function Replace(s: string, pat: string, rep: string): (r: string)
    ensures (forall j: nat :: !OccursAt(s, pat, j)) ==> r == s
    ensures forall i: nat :: OccursAt(s, pat, i) && (forall j: nat :: j < i ==> !OccursAt(s, pat, j)) ==>
      r == s[..i] + Substitution(rep, s[..i], pat, s[i + |pat|..]) + s[i + |pat|..]
  {
    var i := IndexOf(s, pat, 0);
    if i == -1 then s else s[..i] + Substitution(rep, s[..i], pat, s[i + |pat|..]) + s[i + |pat|..]
  }

  /** A replacement without `$` takes the place of the first occurrence, and
      only of that one. */
  lemma ReplaceLiteral(s: string, pat: string, rep: string, i: nat)
    requires OccursAt(s, pat, i) && forall j :: 0 <= j < i ==> !OccursAt(s, pat, j)
    requires forall k :: 0 <= k < |rep| ==> rep[k] != '$'
    ensures Replace(s, pat, rep) == s[..i] + rep + s[i + |pat|..]
  {
    SubstitutionLiteral(rep, s[..i], pat, s[i + |pat|..]);
  }
}

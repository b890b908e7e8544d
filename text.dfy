/** The string operations the chat page relies on: JavaScript's white space,
    `String.prototype.trim`, the token split of splitToWordTokens and the
    letter-ratio test isMostlyEnglish. */
module Text {
  import opened Numbers

  /** The WhiteSpace and LineTerminator code points of ECMA-262 (sections
      12.2 and 12.3, with the space separators of Unicode category Zs): the
      characters that `trim` removes and that the regular expression `\s`
      matches. */
  predicate IsSpace(c: char)
  {
    c == '\t' || c == '\n' || c == '\U{000B}' || c == '\U{000C}' || c == '\r' || c == ' '
    || c == '\U{00A0}' || c == '\U{1680}' || ('\U{2000}' <= c <= '\U{200A}')
    || c == '\U{2028}' || c == '\U{2029}' || c == '\U{202F}' || c == '\U{205F}'
    || c == '\U{3000}' || c == '\U{FEFF}'
  }

  /** Neither end of s is white space. */
  predicate Trimmed(s: string)
  {
    s == [] || (!IsSpace(s[0]) && !IsSpace(s[|s| - 1]))
  }

  /** s without its leading white space. */
  function TrimStart(s: string): (r: string)
    ensures |r| <= |s|
    ensures r == [] || !IsSpace(r[0])
  {
    if s != [] && IsSpace(s[0]) then TrimStart(s[1..]) else s
  }

  /** TrimStart keeps a suffix of s and removes only white space. */
  lemma {:induction false} TrimStartSuffix(s: string)
    ensures TrimStart(s) == s[|s| - |TrimStart(s)|..]
    ensures forall i :: 0 <= i < |s| - |TrimStart(s)| ==> IsSpace(s[i])
  {
    if s != [] && IsSpace(s[0]) {
      TrimStartSuffix(s[1..]);
      assert forall i :: 1 <= i < |s| ==> s[i] == s[1..][i - 1];
    }
  }

  /** s without its trailing white space. */
  function TrimEnd(s: string): (r: string)
    ensures |r| <= |s|
    ensures r == [] || !IsSpace(r[|r| - 1])
  {
    if s != [] && IsSpace(s[|s| - 1]) then TrimEnd(s[..|s| - 1]) else s
  }

  /** TrimEnd keeps a prefix of s and removes only white space. */
  lemma {:induction false} TrimEndPrefix(s: string)
    ensures TrimEnd(s) == s[..|TrimEnd(s)|]
    ensures forall i :: |TrimEnd(s)| <= i < |s| ==> IsSpace(s[i])
  {
    if s != [] && IsSpace(s[|s| - 1]) {
      TrimEndPrefix(s[..|s| - 1]);
      assert forall i :: 0 <= i < |s| - 1 ==> s[i] == s[..|s| - 1][i];
    }
  }

  /** `String.prototype.trim` (section 22.1.3.32 of ECMA-262). */
  function Trim(s: string): (r: string)
    ensures Trimmed(r) && |r| <= |s|
  {
    var t := TrimStart(s);
    TrimEndPrefix(t);
    var r := TrimEnd(t);
    assert r != [] ==> r[0] == t[0];
    r
  }

  /** How many white-space characters Trim removes from the front of s. */
  function LeadingSpace(s: string): (k: nat)
    ensures k <= |s|
  {
    |s| - |TrimStart(s)|
  }

  /** Trim removes only white space, and only at the two ends: its result is
      the slice of s after the leading white space, and everything after that
      slice is white space too. */
  lemma {:induction false} TrimRemovesOnlySpace(s: string)
    ensures LeadingSpace(s) + |Trim(s)| <= |s|
    ensures Trim(s) == s[LeadingSpace(s)..LeadingSpace(s) + |Trim(s)|]
    ensures forall i :: 0 <= i < LeadingSpace(s) ==> IsSpace(s[i])
    ensures forall i :: LeadingSpace(s) + |Trim(s)| <= i < |s| ==> IsSpace(s[i])
  {
    var t := TrimStart(s);
    var r := TrimEnd(t);
    var k := |s| - |t|;
    assert Trim(s) == r && LeadingSpace(s) == k;
    TrimStartSuffix(s);
    TrimEndPrefix(t);
    assert t == s[k..];
    assert r == t[..|r|];
    assert r == s[k..k + |r|];
    forall i | k + |r| <= i < |s| ensures IsSpace(s[i]) {
      assert s[i] == t[i - k];
      assert IsSpace(t[i - k]);
    }
  }

  /** A string with no white space at either end is its own trim. */
  lemma {:induction false} TrimOfTrimmed(s: string)
    requires Trimmed(s)
    ensures Trim(s) == s
  {
  }

  /** Trimming twice is trimming once. */
  lemma {:induction false} TrimIdempotent(s: string)
    ensures Trim(Trim(s)) == Trim(s)
  {
    TrimOfTrimmed(Trim(s));
  }

  /** The trim is empty exactly when every character is white space. */
  lemma {:induction false} TrimEmptyIff(s: string)
    ensures Trim(s) == [] <==> forall i :: 0 <= i < |s| ==> IsSpace(s[i])
  {
    TrimRemovesOnlySpace(s);
  }

  // ---------------------------------------------------------------- splitToWordTokens

  /** The length of the longest prefix of s whose characters are white space
      exactly when `space` holds. */
  function RunLength(s: string, space: bool): (n: nat)
    ensures n <= |s|
    ensures forall i :: 0 <= i < n ==> IsSpace(s[i]) == space
    ensures n < |s| ==> IsSpace(s[n]) != space
  {
    if s == [] || IsSpace(s[0]) != space then 0
    else
      var n := RunLength(s[1..], space);
      assert forall i :: 1 <= i < |s| ==> s[i] == s[1..][i - 1];
      1 + n
  }

  /** `text.split(/(\s+)/).filter(t => t.length > 0)`: the maximal runs of
      white space and of other characters, in order. */
  function WordTokens(s: string): (ts: seq<string>)
    decreases |s|
  {
    if s == [] then []
    else
      var n := RunLength(s, IsSpace(s[0]));
      [s[..n]] + WordTokens(s[n..])
  }

  /** All strings of ts one after the other. */
  function Concat(ts: seq<string>): string
  {
    if ts == [] then [] else ts[0] + Concat(ts[1..])
  }

  lemma ConcatCons(x: string, r: seq<string>)
    ensures Concat([x] + r) == x + Concat(r)
  {
    assert ([x] + r)[1..] == r;
  }

  /** The tokens put back together give the text. */
  lemma {:induction false} TokensConcat(s: string)
    ensures Concat(WordTokens(s)) == s
    decreases |s|
  {
    if s != [] {
      var n := RunLength(s, IsSpace(s[0]));
      var rest := WordTokens(s[n..]);
      assert WordTokens(s) == [s[..n]] + rest;
      TokensConcat(s[n..]);
      ConcatCons(s[..n], rest);
      assert s[..n] + s[n..] == s;
    }
  }

  /** Every token is non-empty and is either all white space or free of it;
      two neighbouring tokens are never of the same kind. */
  lemma {:induction false} TokensShape(s: string)
    ensures forall k :: 0 <= k < |WordTokens(s)| ==> |WordTokens(s)[k]| > 0
    ensures forall k, i :: 0 <= k < |WordTokens(s)| && 0 <= i < |WordTokens(s)[k]| ==>
              IsSpace(WordTokens(s)[k][i]) == IsSpace(WordTokens(s)[k][0])
    ensures forall k :: 0 <= k < |WordTokens(s)| - 1 ==>
              IsSpace(WordTokens(s)[k][0]) != IsSpace(WordTokens(s)[k + 1][0])
    decreases |s|
  {
    if s != [] {
      var n := RunLength(s, IsSpace(s[0]));
      var ts := WordTokens(s);
      var rest := WordTokens(s[n..]);
      TokensShape(s[n..]);
      assert ts == [s[..n]] + rest;
      forall k | 0 <= k < |ts| - 1 ensures IsSpace(ts[k][0]) != IsSpace(ts[k + 1][0]) {
        if k == 0 {
          assert rest[0][0] == s[n];
        } else {
          assert ts[k] == rest[k - 1] && ts[k + 1] == rest[k];
        }
      }
    }
  }

  // ---------------------------------------------------------------- isMostlyEnglish

  /** `[A-Za-z]`. */
  predicate IsLatinLetter(c: char)
  {
    ('A' <= c <= 'Z') || ('a' <= c <= 'z')
  }

  /** `[A-Za-z؀-ۿ]`: a Latin letter or a character of the Arabic block. */
  predicate IsLetter(c: char)
  {
    IsLatinLetter(c) || ('\U{0600}' <= c <= '\U{06FF}')
  }

  /** The number of characters of t that are Latin letters. */
  function CountLatin(t: string): (n: nat)
    ensures n <= |t|
  {
    if t == [] then 0 else (if IsLatinLetter(t[0]) then 1 else 0) + CountLatin(t[1..])
  }

  /** The number of characters of t that are letters. */
  function CountLetters(t: string): (n: nat)
    ensures n <= |t|
  {
    if t == [] then 0 else (if IsLetter(t[0]) then 1 else 0) + CountLetters(t[1..])
  }

  /** isMostlyEnglish: at least 60% of the letters are Latin; false when the
      text has no letters. */
  function IsMostlyEnglish(t: string): bool
  {
    var letters := CountLetters(t);
    var eng := CountLatin(t);
    if letters == 0 then false else eng as real / letters as real >= 0.6
  }

  /** `eng / letters >= 0.6` in integer terms. */
  lemma RatioAtLeastThreeFifths(eng: nat, letters: nat)
    requires letters > 0
    ensures eng as real / letters as real >= 0.6 <==> 5 * eng >= 3 * letters
  {
    var l, e := letters as real, eng as real;
    var q := e / l;
    assert l * q == e;
    if q >= 0.6 {
      ScaleMonotone(l, 0.6, q);
    } else {
      ScaleMonotone(l, q, 0.6);
    }
  }

  /** The ratio test in integers: mostly English exactly when there is a
      letter and five times the Latin count is at least three times the
      letter count. */
  lemma MostlyEnglishIff(t: string)
    ensures IsMostlyEnglish(t) <==> CountLetters(t) > 0 && 5 * CountLatin(t) >= 3 * CountLetters(t)
  {
    if CountLetters(t) > 0 {
      RatioAtLeastThreeFifths(CountLatin(t), CountLetters(t));
    }
  }

  /** A text without letters is never mostly English. */
  lemma {:induction false} NoLettersNotEnglish(t: string)
    requires forall i :: 0 <= i < |t| ==> !IsLetter(t[i])
    ensures !IsMostlyEnglish(t)
    decreases |t|
  {
    if t != [] {
      assert forall i :: 0 <= i < |t[1..]| ==> !IsLetter(t[1..][i]) by {
        forall i | 0 <= i < |t[1..]| ensures !IsLetter(t[1..][i]) {
          assert t[1..][i] == t[i + 1];
        }
      }
      NoLettersNotEnglish(t[1..]);
    }
  }
}

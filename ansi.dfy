/** Removal of terminal escape sequences from log text (remove_ansi_escape_sequences).

    The script deletes every match of one fixed regular expression, which
    recognises two families of ECMA-48 (ISO/IEC 6429) escape sequences:
      - ESC Fe:   ESC followed by one byte in 0x40-0x5A or 0x5C-0x5F
                  (the 7-bit form of a C1 control, section 5.3 of ECMA-48);
      - ESC [ ... a control sequence: ESC, '[', any number of parameter bytes
                  0x30-0x3F, any number of intermediate bytes 0x20-0x2F and
                  one final byte 0x40-0x7E (section 5.4 of ECMA-48).
    A regex substitution replaces the leftmost, non-overlapping matches, so
    the model is a left-to-right scanner: at each position it either drops
    the sequence that starts there or keeps one character and moves on. */
module AnsiEscape {

  /** The escape character, 0x1B. */
  const ESC: char := '\U{1B}'

  /** Second byte of a two-character escape: 0x40-0x5A or 0x5C-0x5F ('[' is 0x5B). */
  predicate IsFe(c: char) { ('@' <= c <= 'Z') || ('\\' <= c <= '_') }

  /** Parameter byte of a control sequence, 0x30-0x3F. */
  predicate IsParameter(c: char) { '0' <= c <= '?' }

  /** Intermediate byte of a control sequence, 0x20-0x2F. */
  predicate IsIntermediate(c: char) { ' ' <= c <= '/' }

  /** Final byte of a control sequence, 0x40-0x7E. */
  predicate IsFinal(c: char) { '@' <= c <= '~' }

  /** The two byte classes that may repeat inside a control sequence. */
  datatype ByteClass = Parameter | Intermediate

  predicate InClass(c: char, k: ByteClass)
  {
    match k
    case Parameter => IsParameter(c)
    case Intermediate => IsIntermediate(c)
  }

  predicate AllIn(s: seq<char>, k: ByteClass)
  {
    forall i :: 0 <= i < |s| ==> InClass(s[i], k)
  }

  // ---------------------------------------------------------------------------
  // The grammar: which whole strings are escape sequences

  /** t is exactly one two-character escape ESC Fe. */
  predicate IsTwoCharEscape(t: seq<char>)
  {
    |t| == 2 && t[0] == ESC && IsFe(t[1])
  }

  /** t is exactly one control sequence ESC [ P* I* F. */
  predicate IsControlSequence(t: seq<char>)
  {
    |t| >= 3 && t[0] == ESC && t[1] == '[' && IsFinal(t[|t| - 1]) &&
    exists m :: 2 <= m <= |t| - 1 && AllIn(t[2..m], Parameter) && AllIn(t[m..|t| - 1], Intermediate)
  }

  /** t is exactly one string the pattern matches. */
  predicate IsEscapeSequence(t: seq<char>)
  {
    IsTwoCharEscape(t) || IsControlSequence(t)
  }

  /** No substring of s is an escape sequence: there is nothing to delete. */
  predicate ContainsNoEscapeSequence(s: seq<char>)
  {
    forall i, j :: 0 <= i < j <= |s| ==> !IsEscapeSequence(s[i..j])
  }

  // ---------------------------------------------------------------------------
  // The scanner

  /** Length of the longest prefix of s whose characters are all in the class. */
  function LeadingRun(s: seq<char>, k: ByteClass): (n: nat)
    ensures n <= |s|
    ensures AllIn(s[..n], k)
    ensures n < |s| ==> !InClass(s[n], k)
  {
    if s == [] || !InClass(s[0], k) then 0 else 1 + LeadingRun(s[1..], k)
  }

  /** Length of the escape sequence the pattern matches at the start of s, 0 if none.
      The two alternatives cannot both apply, since '[' is not an Fe byte, and the
      three byte classes of a control sequence are disjoint, so no backtracking
      can find a different match. */
  function MatchLength(s: seq<char>): (n: nat)
    ensures n == 0 || 2 <= n <= |s|
    ensures n > 0 ==> s[0] == ESC
  {
    if |s| < 2 || s[0] != ESC then 0
    else if IsFe(s[1]) then 2
    else if s[1] != '[' then 0
    else
      var p := LeadingRun(s[2..], Parameter);
      var q := LeadingRun(s[2 + p..], Intermediate);
      if 2 + p + q < |s| && IsFinal(s[2 + p + q]) then 3 + p + q else 0
  }

  /** The text with every escape sequence deleted, scanning left to right. */
  function Strip(s: seq<char>): (r: seq<char>)
    ensures |r| <= |s|
    decreases |s|
  {
    if s == [] then []
    else
      var n := MatchLength(s);
      if n > 0 then Strip(s[n..]) else [s[0]] + Strip(s[1..])
  }

  // ---------------------------------------------------------------------------
  // The scanner recognises exactly the grammar

  lemma {:induction false} LeadingRunUnique(s: seq<char>, k: ByteClass, j: nat)
    requires j <= |s| && AllIn(s[..j], k)
    requires j < |s| ==> !InClass(s[j], k)
    ensures LeadingRun(s, k) == j
  {
    if s != [] && InClass(s[0], k) {
      assert j > 0;
      var t, u := s[1..][..j - 1], s[..j];
      assert AllIn(t, k) by {
        forall i | 0 <= i < |t| ensures InClass(t[i], k) {
          assert t[i] == u[i + 1];
        }
      }
      LeadingRunUnique(s[1..], k, j - 1);
    }
  }

  /** The prefix of length k is an escape sequence exactly when k is the length the
      scanner finds; in particular, when the scanner finds none, no prefix is one. */
  lemma MatchLengthExact(s: seq<char>, k: nat)
    requires 0 < k <= |s|
    ensures IsEscapeSequence(s[..k]) <==> k == MatchLength(s)
  {
    var t := s[..k];
    if k == MatchLength(s) {
      if !IsFe(s[1]) {
        var p := LeadingRun(s[2..], Parameter);
        var q := LeadingRun(s[2 + p..], Intermediate);
        assert t[2..2 + p] == s[2..][..p];
        assert t[2 + p..k - 1] == s[2 + p..][..q];
        assert IsControlSequence(t);
      }
    }
    if IsEscapeSequence(t) {
      if IsTwoCharEscape(t) {
        assert MatchLength(s) == 2;
      } else {
        var m :| 2 <= m <= k - 1 && AllIn(t[2..m], Parameter) && AllIn(t[m..k - 1], Intermediate);
        assert !IsFe(s[1]);
        ParamRunIs(s, k, m);
        IntermediateRunIs(s, k, m);
      }
    }
  }

  lemma ParamRunIs(s: seq<char>, k: nat, m: nat)
    requires 2 <= m <= k - 1 && k <= |s|
    requires AllIn(s[..k][2..m], Parameter) && AllIn(s[..k][m..k - 1], Intermediate)
    requires IsFinal(s[k - 1])
    ensures LeadingRun(s[2..], Parameter) == m - 2
  {
    assert s[2..][..m - 2] == s[..k][2..m];
    if m < k - 1 {
      assert s[2..][m - 2] == s[..k][m..k - 1][0];
    }
    LeadingRunUnique(s[2..], Parameter, m - 2);
  }

  lemma IntermediateRunIs(s: seq<char>, k: nat, m: nat)
    requires 2 <= m <= k - 1 && k <= |s|
    requires AllIn(s[..k][m..k - 1], Intermediate)
    requires IsFinal(s[k - 1])
    ensures LeadingRun(s[m..], Intermediate) == k - 1 - m
  {
    assert s[m..][..k - 1 - m] == s[..k][m..k - 1];
    LeadingRunUnique(s[m..], Intermediate, k - 1 - m);
  }

  // ---------------------------------------------------------------------------
  // Properties of the substitution

  /** A prefix without ESC is copied through unchanged. */
  lemma {:induction false} StripCleanPrefix(a: seq<char>, b: seq<char>)
    requires ESC !in a
    ensures Strip(a + b) == a + Strip(b)
  {
    if a != [] {
      var s := a + b;
      assert a[0] in a;
      assert s[0] == a[0] != ESC;
      assert Strip(s) == [s[0]] + Strip(s[1..]);
      assert s[1..] == a[1..] + b;
      assert ESC !in a[1..] by {
        forall c | c in a[1..] ensures c != ESC { assert c in a; }
      }
      StripCleanPrefix(a[1..], b);
      assert [a[0]] + (a[1..] + Strip(b)) == a + Strip(b);
    } else {
      assert a + b == b;
    }
  }

  /** Text without any ESC character is returned unchanged. */
  lemma StripWithoutEscIsIdentity(s: seq<char>)
    requires ESC !in s
    ensures Strip(s) == s
  {
    StripCleanPrefix(s, []);
    assert s + [] == s;
  }

  /** b contains a as a subsequence (a can be obtained from b by deleting characters). */
  predicate IsSubsequence(a: seq<char>, b: seq<char>)
    decreases |b|
  {
    a == [] || (b != [] && ((a[0] == b[0] && IsSubsequence(a[1..], b[1..])) || IsSubsequence(a, b[1..])))
  }

  lemma {:induction false} SubsequenceOfSuffix(a: seq<char>, b: seq<char>, k: nat)
    requires k <= |b| && IsSubsequence(a, b[k..])
    ensures IsSubsequence(a, b)
  {
    if k > 0 {
      assert b[1..][k - 1..] == b[k..];
      SubsequenceOfSuffix(a, b[1..], k - 1);
    }
  }

  /** Stripping only deletes characters: the output is a subsequence of the input. */
  lemma {:induction false} StripIsSubsequence(s: seq<char>)
    ensures IsSubsequence(Strip(s), s)
    decreases |s|
  {
    if s != [] {
      var n := MatchLength(s);
      if n > 0 {
        StripIsSubsequence(s[n..]);
        SubsequenceOfSuffix(Strip(s[n..]), s, n);
      } else {
        StripIsSubsequence(s[1..]);
        var r := Strip(s);
        assert r[0] == s[0] && r[1..] == Strip(s[1..]);
      }
    }
  }

  /** A complete escape sequence at the scan position is deleted entirely. */
  lemma StripRemovesSequence(t: seq<char>, rest: seq<char>)
    requires IsEscapeSequence(t)
    ensures Strip(t + rest) == Strip(rest)
  {
    assert (t + rest)[..|t|] == t;
    MatchLengthExact(t + rest, |t|);
    assert (t + rest)[|t|..] == rest;
  }

  /** ESC Fe is deleted, for every Fe byte. */
  lemma StripRemovesTwoCharEscape(x: char, rest: seq<char>)
    requires IsFe(x)
    ensures Strip([ESC, x] + rest) == Strip(rest)
  {
    StripRemovesSequence([ESC, x], rest);
  }

  /** ESC [ is never taken as a two-character escape: whatever the scanner
      deletes at an ESC [ is a whole control sequence. */
  lemma BracketStartsControlSequence(rest: seq<char>)
    ensures !IsTwoCharEscape([ESC, '['])
    ensures MatchLength([ESC, '['] + rest) > 0 ==>
              MatchLength([ESC, '['] + rest) >= 3 &&
              IsControlSequence(([ESC, '['] + rest)[..MatchLength([ESC, '['] + rest)])
  {
    var s := [ESC, '['] + rest;
    var n := MatchLength(s);
    if n > 0 {
      MatchLengthExact(s, n);
    }
  }

  /** An ESC that begins no escape sequence is kept, and scanning resumes at the
      character after it. */
  lemma StripKeepsUnmatchedEsc(s: seq<char>)
    requires s != [] && s[0] == ESC
    requires forall k :: 0 < k <= |s| ==> !IsEscapeSequence(s[..k])
    ensures Strip(s) == [ESC] + Strip(s[1..])
  {
    var n := MatchLength(s);
    if n > 0 {
      MatchLengthExact(s, n);
    }
  }

  lemma {:induction false} StripUnchangedWithoutMatch(s: seq<char>)
    ensures Strip(s) == s <==> forall i :: 0 <= i < |s| ==> MatchLength(s[i..]) == 0
    decreases |s|
  {
    if s != [] {
      StripUnchangedWithoutMatch(s[1..]);
      var n := MatchLength(s);
      assert s[0..] == s;
      if n == 0 {
        assert Strip(s) == [s[0]] + Strip(s[1..]);
        forall i | 1 <= i < |s| ensures s[i..] == s[1..][i - 1..] { }
        if Strip(s) == s {
          assert Strip(s[1..]) == s[1..];
        }
        if forall i :: 0 <= i < |s| ==> MatchLength(s[i..]) == 0 {
          forall i | 0 <= i < |s[1..]| ensures MatchLength(s[1..][i..]) == 0 {
            assert s[1..][i..] == s[i + 1..];
          }
        }
      }
    }
  }

  lemma NoEscapeSequenceNoMatch(s: seq<char>, i: nat)
    requires ContainsNoEscapeSequence(s) && i < |s|
    ensures MatchLength(s[i..]) == 0
  {
    var n := MatchLength(s[i..]);
    if n > 0 {
      assert s[i..][..n] == s[i..i + n];
      MatchLengthExact(s[i..], n);
    }
  }

  lemma EscapeSequenceMatches(s: seq<char>, i: nat, j: nat)
    requires i < j <= |s| && IsEscapeSequence(s[i..j])
    ensures MatchLength(s[i..]) > 0
  {
    assert s[i..][..j - i] == s[i..j];
    MatchLengthExact(s[i..], j - i);
  }

  /** The output equals the input exactly when no escape sequence occurs anywhere in it. */
  lemma StripUnchangedIff(s: seq<char>)
    ensures Strip(s) == s <==> ContainsNoEscapeSequence(s)
  {
    StripUnchangedWithoutMatch(s);
    if ContainsNoEscapeSequence(s) {
      forall i | 0 <= i < |s| ensures MatchLength(s[i..]) == 0 {
        NoEscapeSequenceNoMatch(s, i);
      }
    } else {
      var i, j :| 0 <= i < j <= |s| && IsEscapeSequence(s[i..j]);
      EscapeSequenceMatches(s, i, j);
    }
  }

  // ---------------------------------------------------------------------------
  // Examples

  /** ESC [, parameter bytes, intermediate bytes and a final byte form a control sequence. */
  lemma ControlSequenceOf(params: seq<char>, inters: seq<char>, f: char)
    requires AllIn(params, Parameter) && AllIn(inters, Intermediate) && IsFinal(f)
    ensures IsControlSequence([ESC, '['] + params + inters + [f])
  {
    var t := [ESC, '['] + params + inters + [f];
    var m := 2 + |params|;
    assert t[2..m] == params;
    assert t[m..|t| - 1] == inters;
  }

  /** A word wrapped in "set red" and "reset" colour codes keeps only the word. */
  lemma StripColouredWord(word: seq<char>, rest: seq<char>)
    requires ESC !in word && ESC !in rest
    ensures Strip("\U{1B}[31m" + word + "\U{1B}[0m" + rest) == word + rest
  {
    ControlSequenceOf("31", "", 'm');
    ControlSequenceOf("0", "", 'm');
    assert [ESC, '['] + "31" + "" + ['m'] == "\U{1B}[31m";
    assert [ESC, '['] + "0" + "" + ['m'] == "\U{1B}[0m";
    assert "\U{1B}[31m" + word + "\U{1B}[0m" + rest == "\U{1B}[31m" + (word + ("\U{1B}[0m" + rest));
    StripRemovesSequence("\U{1B}[31m", word + ("\U{1B}[0m" + rest));
    StripCleanPrefix(word, "\U{1B}[0m" + rest);
    StripRemovesSequence("\U{1B}[0m", rest);
    StripWithoutEscIsIdentity(rest);
  }

  /** "ESC[31mERROR ESC[0m: failed" becomes "ERROR: failed". */
  lemma ColouredErrorExample()
    ensures Strip("\U{1B}[31m" + "ERROR" + "\U{1B}[0m" + ": failed") == "ERROR" + ": failed"
  {
    StripColouredWord("ERROR", ": failed");
  }

  /** ESCs that begin no sequence survive: a trailing ESC, an unterminated control
      sequence and an ESC before a byte outside both alternatives. */
  lemma UnmatchedEscExamples()
    ensures Strip("ab" + [ESC]) == "ab" + [ESC]
    ensures Strip([ESC, '['] + "12") == [ESC, '['] + "12"
    ensures Strip([ESC, 'a']) == [ESC, 'a']
  {
    StripCleanPrefix("ab", [ESC]);
    assert Strip([ESC]) == [ESC];
    assert AllIn("12", Parameter);
    StripKeepsInterruptedSequence("12", []);
    assert [ESC, '['] + "12" + [] == [ESC, '['] + "12";
    assert MatchLength([ESC, 'a']) == 0;
    assert [ESC, 'a'][1..] == "a";
  }

  lemma InterruptedSequenceUnmatched(params: seq<char>, rest: seq<char>)
    requires AllIn(params, Parameter)
    requires rest == [] || rest[0] == ESC
    ensures MatchLength([ESC, '['] + params + rest) == 0
  {
    var s := [ESC, '['] + params + rest;
    assert s[2..] == params + rest;
    assert (params + rest)[..|params|] == params;
    LeadingRunUnique(params + rest, Parameter, |params|);
    assert s[2 + |params|..] == rest;
    LeadingRunUnique(rest, Intermediate, 0);
  }

  lemma ConsTwo(a: char, b: char, p: seq<char>, x: seq<char>)
    ensures [a] + ([b] + p + x) == [a, b] + p + x
  {
  }

  lemma BracketAndParametersHaveNoEsc(params: seq<char>)
    requires AllIn(params, Parameter)
    ensures ESC !in ['['] + params
  {
    var u := ['['] + params;
    forall i | 0 <= i < |u| ensures u[i] != ESC {
      if i > 0 { assert u[i] == params[i - 1]; assert InClass(params[i - 1], Parameter); }
    }
  }

  /** A control sequence cut short by another ESC, or by the end of the text, is
      kept, and the scan resumes right after its ESC. */
  lemma StripKeepsInterruptedSequence(params: seq<char>, rest: seq<char>)
    requires AllIn(params, Parameter)
    requires rest == [] || rest[0] == ESC
    ensures Strip([ESC, '['] + params + rest) == [ESC, '['] + params + Strip(rest)
  {
    var s := [ESC, '['] + params + rest;
    var u := ['['] + params;
    InterruptedSequenceUnmatched(params, rest);
    BracketAndParametersHaveNoEsc(params);
    assert s == [ESC] + (u + rest);
    StripCleanPrefix(u, rest);
    ConsTwo(ESC, '[', params, Strip(rest));
  }

  /** "ESC[1;2 ESC[0m" keeps the interrupted "ESC[1;2" and removes "ESC[0m". */
  lemma InterruptedSequenceExample()
    ensures Strip("\U{1B}[1;2" + "\U{1B}[0m") == "\U{1B}[1;2"
  {
    var cut, reset := "\U{1B}[1;2", "\U{1B}[0m";
    assert AllIn("1;2", Parameter);
    assert cut == [ESC, '['] + "1;2";
    StripKeepsInterruptedSequence("1;2", reset);
    assert Strip(reset) == [];
    assert cut + [] == cut;
  }

  /** Stripping is not idempotent: deleting ESC [ m brings an earlier unmatched
      ESC next to "[m", which a second pass deletes. */
  lemma StripNotIdempotent()
    ensures Strip("\U{1B}\U{1B}[m[m") == "\U{1B}[m"
    ensures Strip(Strip("\U{1B}\U{1B}[m[m")) == ""
  {
    var s := "\U{1B}\U{1B}[m[m";
    assert MatchLength(s) == 0;
    ControlSequenceOf("", "", 'm');
    assert [ESC, '['] + "" + "" + ['m'] == "\U{1B}[m";
    assert s[1..] == "\U{1B}[m" + "[m";
    StripRemovesSequence("\U{1B}[m", "[m");
    StripWithoutEscIsIdentity("[m");
    StripRemovesSequence("\U{1B}[m", "");
    assert "\U{1B}[m" + "" == "\U{1B}[m";
  }
}

/**
 * The pure string clean-ups of the scraper: the file-name filter `sanitize_filename`,
 * the author clean-up `re.sub(r'\([^()]*\)', '', s).strip()` that
 * `remove_strings_in_parentheses` applies to every element of a list in place, and the
 * page-count field, which keeps what precedes the first backslash.
 */
module Normalizer {
  import opened Wrappers

  // ---------------------------------------------------------------------------
  // sanitize_filename
  // ---------------------------------------------------------------------------

  /** The punctuation a file name keeps besides alphanumerics. */
  predicate IsNamePunct(c: char) {
    c == ' ' || c == '.' || c == '_' || c == '-'
  }

  /** A character `sanitize_filename` keeps; `isAlnum` stands for Python's str.isalnum. */
  predicate Allowed(isAlnum: char -> bool, c: char) {
    isAlnum(c) || IsNamePunct(c)
  }

  /** The characters of `s` that are allowed, in their order; every other one is dropped. */
  function Sanitize(isAlnum: char -> bool, s: string): (r: string)
    ensures |r| <= |s|
    ensures forall i :: 0 <= i < |r| ==> Allowed(isAlnum, r[i])
  {
    if s == [] then []
    else (if Allowed(isAlnum, s[0]) then [s[0]] else []) + Sanitize(isAlnum, s[1..])
  }

  /** Sanitizing distributes over concatenation: it is a character-by-character filter. */
  lemma {:induction false} SanitizeConcat(isAlnum: char -> bool, a: string, b: string)
    ensures Sanitize(isAlnum, a + b) == Sanitize(isAlnum, a) + Sanitize(isAlnum, b)
  {
    if a == [] {
      assert a + b == b;
    } else {
      assert (a + b)[1..] == a[1..] + b;
      SanitizeConcat(isAlnum, a[1..], b);
    }
  }

  /** Every allowed character keeps its number of occurrences; no other character survives. */
  lemma {:induction false} SanitizeCounts(isAlnum: char -> bool, s: string, c: char)
    ensures Allowed(isAlnum, c) ==> multiset(Sanitize(isAlnum, s))[c] == multiset(s)[c]
    ensures !Allowed(isAlnum, c) ==> c !in Sanitize(isAlnum, s)
  {
    if s != [] {
      SanitizeCounts(isAlnum, s[1..], c);
      assert s == [s[0]] + s[1..];
    }
  }

  /** A name is left alone exactly when all of its characters are allowed. */
  lemma {:induction false} SanitizeFixpoint(isAlnum: char -> bool, s: string)
    ensures Sanitize(isAlnum, s) == s <==> forall i :: 0 <= i < |s| ==> Allowed(isAlnum, s[i])
  {
    if s != [] {
      SanitizeFixpoint(isAlnum, s[1..]);
      if Sanitize(isAlnum, s) == s {
        assert |Sanitize(isAlnum, s[1..])| <= |s[1..]|;
        assert Allowed(isAlnum, s[0]);
        assert Sanitize(isAlnum, s[1..]) == s[1..];
        forall i | 0 <= i < |s| ensures Allowed(isAlnum, s[i]) {
          if i > 0 { assert s[i] == s[1..][i - 1]; }
        }
      }
      if forall i :: 0 <= i < |s| ==> Allowed(isAlnum, s[i]) {
        assert forall i :: 0 <= i < |s[1..]| ==> Allowed(isAlnum, s[1..][i]) by {
          forall i | 0 <= i < |s[1..]| ensures Allowed(isAlnum, s[1..][i]) {
            assert s[1..][i] == s[i + 1];
          }
        }
        assert [s[0]] + s[1..] == s;
      }
    }
  }

  /** Sanitizing twice is sanitizing once. */
  lemma SanitizeIdempotent(isAlnum: char -> bool, s: string)
    ensures Sanitize(isAlnum, Sanitize(isAlnum, s)) == Sanitize(isAlnum, s)
  {
    SanitizeFixpoint(isAlnum, Sanitize(isAlnum, s));
  }

  // ---------------------------------------------------------------------------
  // str.strip()
  // ---------------------------------------------------------------------------

  /** Python's str.isspace for one character, by code point. */
  predicate IsSpace(c: char) {
    var n := c as int;
    (0x09 <= n <= 0x0D) || (0x1C <= n <= 0x20) || n == 0x85 || n == 0xA0 || n == 0x1680
    || (0x2000 <= n <= 0x200A) || n == 0x2028 || n == 0x2029 || n == 0x202F || n == 0x205F
    || n == 0x3000
  }

  /** What str.strip() leaves: no whitespace at either end. */
  predicate NoEdgeSpace(s: string) {
    s == [] || (!IsSpace(s[0]) && !IsSpace(s[|s| - 1]))
  }

  /** The index of the first non-space character at or after `i` (or |s|). */
  function LeadingEnd(s: string, i: nat): (r: nat)
    requires i <= |s|
    ensures i <= r <= |s|
    ensures forall k :: i <= k < r ==> IsSpace(s[k])
    ensures r < |s| ==> !IsSpace(s[r])
    decreases |s| - i
  {
    if i < |s| && IsSpace(s[i]) then LeadingEnd(s, i + 1) else i
  }

  /** The index just past the last non-space character of s[lo..j] (or lo). */
  function TrailingStart(s: string, lo: nat, j: nat): (r: nat)
    requires lo <= j <= |s|
    ensures lo <= r <= j
    ensures forall k :: r <= k < j ==> IsSpace(s[k])
    ensures r > lo ==> !IsSpace(s[r - 1])
    decreases j
  {
    if j > lo && IsSpace(s[j - 1]) then TrailingStart(s, lo, j - 1) else j
  }

  /** Python's str.strip() with no argument: the slice between the leading and the trailing
      whitespace. */
  function Trim(s: string): (r: string)
    ensures NoEdgeSpace(r)
    ensures |r| <= |s|
  {
    var i := LeadingEnd(s, 0);
    s[i..TrailingStart(s, i, |s|)]
  }

  /** Trim keeps one contiguous slice of its input and drops only whitespace around it. */
  lemma TrimSlice(s: string) returns (i: nat, j: nat)
    ensures i <= j <= |s| && Trim(s) == s[i..j]
    ensures forall k :: 0 <= k < i ==> IsSpace(s[k])
    ensures forall k :: j <= k < |s| ==> IsSpace(s[k])
  {
    i := LeadingEnd(s, 0);
    j := TrailingStart(s, i, |s|);
  }

  /** A string without edge whitespace is its own strip(); in particular strip() is idempotent. */
  lemma TrimFixpoint(s: string)
    ensures Trim(s) == s <==> NoEdgeSpace(s)
    ensures Trim(Trim(s)) == Trim(s)
  {
    if NoEdgeSpace(s) && s != [] {
      assert LeadingEnd(s, 0) == 0;
      assert TrailingStart(s, 0, |s|) == |s|;
    }
    var t := Trim(s);
    if t != [] {
      assert LeadingEnd(t, 0) == 0;
      assert TrailingStart(t, 0, |t|) == |t|;
    }
  }

  // ---------------------------------------------------------------------------
  // re.sub(r'\([^()]*\)', '', s)
  // ---------------------------------------------------------------------------

  predicate IsParen(c: char) {
    c == '(' || c == ')'
  }

  /** The pattern \([^()]*\) matches s[i..j+1]: an opening and a closing parenthesis with no
      parenthesis between them. */
  ghost predicate MatchAt(s: string, i: int, j: int) {
    0 <= i < j < |s| && s[i] == '(' && s[j] == ')' && forall k :: i < k < j ==> !IsParen(s[k])
  }

  ghost predicate HasMatch(s: string) {
    exists i, j :: MatchAt(s, i, j)
  }

  /** The index of the first parenthesis in s[from..], or |s| if there is none. */
  function FirstParen(s: string, from: nat): (r: nat)
    requires from <= |s|
    ensures from <= r <= |s|
    ensures forall k :: from <= k < r ==> !IsParen(s[k])
    ensures r < |s| ==> IsParen(s[r])
    decreases |s| - from
  {
    if from == |s| || IsParen(s[from]) then from else FirstParen(s, from + 1)
  }

  /** Where a match of the pattern that starts at s[0] ends, if the pattern matches there. */
  function MatchEnd(s: string): (r: Option<nat>)
    ensures r.Some? ==> MatchAt(s, 0, r.value)
    ensures r.None? ==> forall j :: !MatchAt(s, 0, j)
  {
    if |s| > 0 && s[0] == '(' then
      var e := FirstParen(s, 1);
      if e < |s| && s[e] == ')' then Some(e) else None
    else None
  }

  /** One left-to-right pass of re.sub: at each position either the pattern matches and the
      whole match is dropped, or one character is kept and the scan moves on. The output is
      not scanned again. */
  function RemoveParens(s: string): (r: string)
    ensures |r| <= |s|
    decreases |s|
  {
    if s == [] then []
    else match MatchEnd(s)
      case Some(e) => RemoveParens(s[e + 1..])
      case None => [s[0]] + RemoveParens(s[1..])
  }

  /** A match in the tail of a string is a match in the string, one position further on. */
  lemma ShiftMatch(s: string, i: int, j: int)
    requires |s| > 0 && MatchAt(s[1..], i, j)
    ensures MatchAt(s, i + 1, j + 1)
  {
    forall k | i + 1 < k < j + 1 ensures !IsParen(s[k]) {
      assert s[k] == s[1..][k - 1];
    }
  }

  /** Without a ')' there is no match. */
  lemma NoCloseNoMatch(s: string)
    requires ')' !in s
    ensures !HasMatch(s)
  {
    forall i, j ensures !MatchAt(s, i, j) {
      if 0 <= j < |s| {
        assert s[j] in s;
      }
    }
  }

  /** A string in which the pattern does not match anywhere comes through re.sub unchanged. */
  lemma {:induction false} NoMatchUnchanged(s: string)
    requires !HasMatch(s)
    ensures RemoveParens(s) == s
  {
    if s != [] {
      assert MatchEnd(s).None?;
      if HasMatch(s[1..]) {
        var i, j :| MatchAt(s[1..], i, j);
        ShiftMatch(s, i, j);
      }
      NoMatchUnchanged(s[1..]);
      assert [s[0]] + s[1..] == s;
    }
  }

  /** A string in which the pattern matches somewhere loses at least that many characters. */
  lemma {:induction false} MatchShrinks(s: string)
    requires HasMatch(s)
    ensures |RemoveParens(s)| < |s|
  {
    var i, j :| MatchAt(s, i, j);
    match MatchEnd(s)
    case Some(e) =>
    case None =>
      assert i > 0;
      assert MatchAt(s[1..], i - 1, j - 1) by {
        forall k | i - 1 < k < j - 1 ensures !IsParen(s[1..][k]) {
          assert s[1..][k] == s[k + 1];
        }
      }
      MatchShrinks(s[1..]);
  }

  /** re.sub leaves a string alone exactly when the pattern matches nowhere in it. */
  lemma RemoveParensUnchangedIff(s: string)
    ensures RemoveParens(s) == s <==> !HasMatch(s)
  {
    if HasMatch(s) {
      MatchShrinks(s);
    } else {
      NoMatchUnchanged(s);
    }
  }

  /** A match holds exactly one '(' and one ')'. */
  lemma MatchCounts(s: string, e: nat)
    requires MatchAt(s, 0, e)
    ensures multiset(s[..e + 1])['('] == 1 && multiset(s[..e + 1])[')'] == 1
  {
    var inner := s[1..e];
    forall k | 0 <= k < |inner| ensures !IsParen(inner[k]) {
      assert inner[k] == s[k + 1];
    }
    assert '(' !in inner && ')' !in inner;
    assert s[..e + 1] == [s[0]] + inner + [s[e]];
  }

  /** The pass removed as many '(' as ')' from s. */
  ghost predicate RemovedBalanced(s: string) {
    multiset(s)['('] + multiset(RemoveParens(s))[')'] == multiset(s)[')'] + multiset(RemoveParens(s))['(']
  }

  /** Every removed match holds exactly one '(' and one ')': the pass removes as many
      opening as closing parentheses (which need not leave none behind). */
  lemma {:induction false} RemoveParensBalanced(s: string)
    ensures multiset(s)['('] + multiset(RemoveParens(s))[')']
         == multiset(s)[')'] + multiset(RemoveParens(s))['(']
    decreases |s|
  {
    if s != [] {
      match MatchEnd(s)
      case Some(e) =>
        RemoveParensBalanced(s[e + 1..]);
        BalancedAfterMatch(s, e);
      case None =>
        RemoveParensBalanced(s[1..]);
        BalancedAfterKeep(s);
    }
  }

  /** A dropped match keeps the balance of the rest. */
  lemma BalancedAfterMatch(s: string, e: nat)
    requires s != [] && MatchEnd(s) == Some(e) && RemovedBalanced(s[e + 1..])
    ensures RemovedBalanced(s)
  {
    MatchCounts(s, e);
    SplitMultiset(s, e + 1);
  }

  /** A kept character keeps the balance of the rest. */
  lemma BalancedAfterKeep(s: string)
    requires s != [] && MatchEnd(s).None? && RemovedBalanced(s[1..])
    ensures RemovedBalanced(s)
  {
    SplitMultiset(s, 1);
    assert RemoveParens(s) == s[..1] + RemoveParens(s[1..]);
  }

  lemma SplitMultiset(s: string, n: nat)
    requires n <= |s|
    ensures multiset(s) == multiset(s[..n]) + multiset(s[n..])
  {
    assert s == s[..n] + s[n..];
  }

  /** A text without '(' in front of one parenthesised span without inner parentheses: the
      span vanishes and the text in front is kept. */
  lemma {:induction false} RemoveOneSpan(a: string, m: string, b: string)
    requires '(' !in a
    requires forall k :: 0 <= k < |m| ==> !IsParen(m[k])
    ensures RemoveParens(a + "(" + m + ")" + b) == a + RemoveParens(b)
  {
    var s := a + "(" + m + ")" + b;
    if a == [] {
      assert s == "(" + m + ")" + b;
      SpanAtFront(m, b);
    } else {
      assert s[0] == a[0] && a[0] != '(';
      assert s[1..] == a[1..] + "(" + m + ")" + b;
      RemoveOneSpan(a[1..], m, b);
      assert a == [a[0]] + a[1..];
    }
  }

  /** A parenthesised span without inner parentheses at the front is dropped whole. */
  lemma SpanAtFront(m: string, b: string)
    requires forall k :: 0 <= k < |m| ==> !IsParen(m[k])
    ensures RemoveParens("(" + m + ")" + b) == RemoveParens(b)
  {
    var s := "(" + m + ")" + b;
    forall k | 1 <= k < |m| + 1 ensures !IsParen(s[k]) {
      assert s[k] == m[k - 1];
    }
    assert IsParen(s[|m| + 1]);
    assert FirstParen(s, 1) == |m| + 1;
    assert MatchEnd(s) == Some(|m| + 1);
    assert s[|m| + 2..] == b;
  }

  // ---------------------------------------------------------------------------
  // remove_strings_in_parentheses
  // ---------------------------------------------------------------------------

  /** What remove_strings_in_parentheses stores for one element. */
  function Normalize(s: string): (r: string)
    ensures NoEdgeSpace(r)
    ensures |r| <= |s|
  {
    Trim(RemoveParens(s))
  }

  /** An element without '(' is only stripped. */
  lemma NoOpenOnlyTrimmed(s: string)
    requires '(' !in s
    ensures Normalize(s) == Trim(s)
  {
    NoMatchUnchanged(s);
  }

  /** A string whose first and last characters are not whitespace is its own strip(). */
  lemma TrimNoEdge(s: string)
    requires NoEdgeSpace(s)
    ensures Trim(s) == s
  {
    TrimFixpoint(s);
  }

  /** A name followed by one parenthesised credit, as in "Jane Doe (Translator)": the credit
      is removed and the blank before it stripped, leaving "Jane Doe". */
  lemma CreditRemoved(name: string, credit: string)
    requires name != [] && NoEdgeSpace(name) && '(' !in name
    requires forall k :: 0 <= k < |credit| ==> !IsParen(credit[k])
    ensures Normalize(name + " (" + credit + ")") == name
  {
    var t := name + " ";
    assert '(' !in t by {
      assert forall k :: 0 <= k < |t| ==> t[k] != '(' by {
        forall k | 0 <= k < |t| ensures t[k] != '(' {
          if k < |name| { assert t[k] == name[k] && name[k] in name; }
        }
      }
    }
    RemoveOneSpan(t, credit, "");
    assert t + "(" + credit + ")" + "" == name + " (" + credit + ")";
    assert RemoveParens("") == "";
    assert RemoveParens(name + " (" + credit + ")") == name + " ";
    TrimOneTrailingSpace(name);
  }

  /** One trailing blank after a string without edge whitespace is stripped. */
  lemma TrimOneTrailingSpace(s: string)
    requires s != [] && NoEdgeSpace(s)
    ensures Trim(s + " ") == s
  {
    var t := s + " ";
    assert LeadingEnd(t, 0) == 0;
    assert TrailingStart(t, 0, |t|) == TrailingStart(t, 0, |s|) == |s|;
    assert t[..|s|] == s;
  }

  /** The single pass only removes the innermost span of a nested one: "((a))" becomes "()". */
  lemma NestedSpanHalfRemoved(m: string)
    requires forall k :: 0 <= k < |m| ==> !IsParen(m[k])
    ensures Normalize("((" + m + "))") == "()"
  {
    var s := "((" + m + "))";
    assert MatchEnd(s) == None by {
      assert FirstParen(s, 1) == 1;
    }
    assert s[1..] == "" + "(" + m + ")" + ")";
    RemoveOneSpan("", m, ")");
    assert MatchEnd(")") == None;
    assert RemoveParens(")") == ")";
    assert RemoveParens(s) == "()";
    TrimNoEdge("()");
  }

  /** An opening parenthesis that is never closed is not a match and survives, as in
      "Smith (ed". */
  lemma UnclosedSurvives(a: string, b: string)
    requires ')' !in a && ')' !in b
    requires NoEdgeSpace(a + "(" + b)
    ensures Normalize(a + "(" + b) == a + "(" + b
  {
    var s := a + "(" + b;
    assert ')' !in s;
    NoCloseNoMatch(s);
    NoMatchUnchanged(s);
    TrimNoEdge(s);
  }

  /** remove_strings_in_parentheses: every element is rewritten in place; the same list
      comes back. */
  method RemoveStringsInParentheses(strings: array<string>) returns (r: array<string>)
    modifies strings
    ensures r == strings
    ensures forall k :: 0 <= k < strings.Length ==> strings[k] == Normalize(old(strings[k]))
    ensures forall k :: 0 <= k < strings.Length ==> NoEdgeSpace(strings[k])
  {
    for i := 0 to strings.Length
      invariant forall k :: 0 <= k < i ==> strings[k] == Normalize(old(strings[k]))
      invariant forall k :: i <= k < strings.Length ==> strings[k] == old(strings[k])
    {
      strings[i] := Normalize(strings[i]);
    }
    return strings;
  }

  // ---------------------------------------------------------------------------
  // text.strip().split('\\')[0]
  // ---------------------------------------------------------------------------

  /** The part of `s` before its first backslash (all of `s` if it has none). */
  function BeforeBackslash(s: string): (r: string)
    ensures |r| <= |s| && r == s[..|r|]
    ensures '\\' !in r
    ensures |r| < |s| ==> s[|r|] == '\\'
  {
    if s == [] || s[0] == '\\' then [] else [s[0]] + BeforeBackslash(s[1..])
  }

  /** The page-count field of a detail page: stripped, then cut at the first backslash. */
  function PagesField(text: string): (r: string)
    ensures '\\' !in r
    ensures '\\' !in Trim(text) ==> r == Trim(text)
  {
    BeforeBackslash(Trim(text))
  }
}

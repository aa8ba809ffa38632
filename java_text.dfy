/**
 * The parts of java.lang.String and java.lang.Character that the core relies on:
 * trim, isBlank, startsWith/endsWith/contains, split on one character, the regex split
 * "\\s*,\\s*", equalsIgnoreCase against ASCII words, and length() in UTF-16 units.
 * Dafny's `char` is a Unicode scalar value, so a Java string is a `seq<char>` here.
 */
module JavaText {
  import opened Wrappers

  // ---------------------------------------------------------------------------
  // Character classes
  // ---------------------------------------------------------------------------

  /** Character.isWhitespace: space separators other than the no-break ones, the line and
      paragraph separators, and the ASCII controls TAB, LF, VT, FF, CR and FS..US. */
  predicate IsWhitespace(c: char) {
    || c == '\t' || c == '\n' || c == '\U{000B}' || c == '\U{000C}' || c == '\r'
    || ('\U{001C}' <= c <= '\U{001F}') || c == ' '
    || c == '\U{1680}' || ('\U{2000}' <= c <= '\U{2006}') || ('\U{2008}' <= c <= '\U{200A}')
    || c == '\U{2028}' || c == '\U{2029}' || c == '\U{205F}' || c == '\U{3000}'
  }

  /** String.trim removes every leading and trailing character at or below U+0020. */
  predicate IsTrimmable(c: char) {
    c <= ' '
  }

  /** The regex class \s without UNICODE_CHARACTER_CLASS: [ \t\n\x0B\f\r]. */
  predicate IsRegexSpace(c: char) {
    c == ' ' || c == '\t' || c == '\n' || c == '\U{000B}' || c == '\U{000C}' || c == '\r'
  }

  // ---------------------------------------------------------------------------
  // trim, isBlank, hasText
  // ---------------------------------------------------------------------------

  function TrimStart(s: string): (r: string)
    ensures |r| <= |s| && r == s[|s| - |r|..]
    ensures forall i :: 0 <= i < |s| - |r| ==> IsTrimmable(s[i])
    ensures r == [] || !IsTrimmable(r[0])
  {
    if s != [] && IsTrimmable(s[0]) then
      var r := TrimStart(s[1..]);
      assert forall i :: 1 <= i < |s| ==> s[i] == s[1..][i - 1];
      r
    else s
  }

  function TrimEnd(s: string): (r: string)
    ensures |r| <= |s| && r == s[..|r|]
    ensures forall i :: |r| <= i < |s| ==> IsTrimmable(s[i])
    ensures r == [] || !IsTrimmable(r[|r| - 1])
  {
    if s != [] && IsTrimmable(s[|s| - 1]) then
      var r := TrimEnd(s[..|s| - 1]);
      assert forall i :: 0 <= i < |s| - 1 ==> s[i] == s[..|s| - 1][i];
      r
    else s
  }

  /** String.trim: the longest infix whose first and last characters are above U+0020. */
  function Trim(s: string): (r: string)
    ensures exists i, j :: 0 <= i <= j <= |s| && r == s[i..j]
                           && (forall k :: 0 <= k < i ==> IsTrimmable(s[k]))
                           && (forall k :: j <= k < |s| ==> IsTrimmable(s[k]))
    ensures r == [] || (!IsTrimmable(r[0]) && !IsTrimmable(r[|r| - 1]))
  {
    var t := TrimStart(s);
    var r := TrimEnd(t);
    TrimmedInfix(s, t, r);
    r
  }

  /** A prefix of a suffix of `s` is an infix of `s`, trimmed on both sides. */
  lemma TrimmedInfix(s: string, t: string, r: string)
    requires |t| <= |s| && t == s[|s| - |t|..]
    requires |r| <= |t| && r == t[..|r|]
    requires forall k :: 0 <= k < |s| - |t| ==> IsTrimmable(s[k])
    requires forall k :: |r| <= k < |t| ==> IsTrimmable(t[k])
    requires t == [] || !IsTrimmable(t[0])
    requires r == [] || !IsTrimmable(r[|r| - 1])
    ensures r == [] || (!IsTrimmable(r[0]) && !IsTrimmable(r[|r| - 1]))
    ensures exists i, j :: 0 <= i <= j <= |s| && r == s[i..j]
                           && (forall k :: 0 <= k < i ==> IsTrimmable(s[k]))
                           && (forall k :: j <= k < |s| ==> IsTrimmable(s[k]))
  {
    if r != [] {
      assert r[0] == t[0];
    }
    var i, j := |s| - |t|, |s| - |t| + |r|;
    assert r == s[i..j];
    forall k | j <= k < |s|
      ensures IsTrimmable(s[k])
    {
      assert s[k] == t[k - i];
    }
  }

  /** Trimming an already trimmed string changes nothing. */
  lemma TrimIdempotent(s: string)
    ensures Trim(Trim(s)) == Trim(s)
  {
    TrimUntrimmable(Trim(s));
  }

  /** A string whose ends are above U+0020 is its own trim. */
  lemma TrimUntrimmable(t: string)
    requires t == [] || (!IsTrimmable(t[0]) && !IsTrimmable(t[|t| - 1]))
    ensures Trim(t) == t
  {
    assert TrimStart(t) == t;
    assert TrimEnd(t) == t;
  }

  /** `s.trim().isEmpty()` holds exactly when every character is at or below U+0020. */
  lemma TrimEmptyIff(s: string)
    ensures Trim(s) == [] <==> forall k :: 0 <= k < |s| ==> IsTrimmable(s[k])
  {
  }

  /** String.isBlank: empty or whitespace only (by Character.isWhitespace). */
  predicate IsBlank(s: string) {
    forall i :: 0 <= i < |s| ==> IsWhitespace(s[i])
  }

  /** A nullable string that is null or blank, the guard `s == null || s.isBlank()`. */
  predicate IsNullOrBlank(s: Option<string>) {
    s.None? || IsBlank(s.value)
  }

  /** StringUtils.hasText / Assert.hasText: at least one non-whitespace character. */
  predicate HasText(s: string) {
    exists i :: 0 <= i < |s| && !IsWhitespace(s[i])
  }

  lemma HasTextIffNotBlank(s: string)
    ensures HasText(s) <==> !IsBlank(s)
  {
  }

  // ---------------------------------------------------------------------------
  // startsWith, endsWith, contains
  // ---------------------------------------------------------------------------

  predicate StartsWith(s: string, prefix: string) {
    prefix <= s
  }

  predicate EndsWith(s: string, suffix: string) {
    |suffix| <= |s| && s[|s| - |suffix|..] == suffix
  }

  /** String.contains. */
  predicate Contains(s: string, t: string)
    decreases |s|
  {
    t <= s || (s != [] && Contains(s[1..], t))
  }

  /** `contains` finds exactly the occurrences at some offset. */
  lemma {:induction false} ContainsAt(s: string, t: string)
    ensures Contains(s, t) <==> exists k :: 0 <= k <= |s| - |t| && t <= s[k..]
    decreases |s|
  {
    if t <= s {
      assert s[0..] == s;
    } else if s != [] {
      ContainsAt(s[1..], t);
      if Contains(s[1..], t) {
        var k :| 0 <= k <= |s| - 1 - |t| && t <= s[1..][k..];
        assert s[1..][k..] == s[k + 1..];
      }
      if exists k :: 0 <= k <= |s| - |t| && t <= s[k..] {
        var k :| 0 <= k <= |s| - |t| && t <= s[k..];
        if k > 0 {
          assert s[1..][k - 1..] == s[k..];
        }
      }
    }
  }

  // ---------------------------------------------------------------------------
  // Case-insensitive comparison against ASCII words
  // ---------------------------------------------------------------------------

  /** Folds a character the way equalsIgnoreCase compares it with an ASCII letter:
      toUpperCase then toLowerCase. Besides A-Z, four characters fold onto ASCII letters:
      U+017F (long s) onto 's', U+0131 (dotless i) and U+0130 (dotted capital I) onto 'i',
      and U+212A (Kelvin sign) onto 'k'. Every other non-ASCII character folds onto a
      non-ASCII one, so keeping it unchanged decides comparisons with ASCII words exactly. */
  function FoldCase(c: char): char {
    if 'A' <= c <= 'Z' then (c as int + 32) as char
    else if c == '\U{017F}' then 's'
    else if c == '\U{0131}' || c == '\U{0130}' then 'i'
    else if c == '\U{212A}' then 'k'
    else c
  }

  /** `word.equalsIgnoreCase(s)` for an ASCII word. */
  predicate EqualsIgnoreCase(s: string, word: string) {
    |s| == |word| && forall i :: 0 <= i < |s| ==> FoldCase(s[i]) == FoldCase(word[i])
  }

  lemma EqualsIgnoreCaseItself(s: string)
    ensures EqualsIgnoreCase(s, s)
  {
  }

  // ---------------------------------------------------------------------------
  // Splitting
  // ---------------------------------------------------------------------------

  /** Every piece between separators, empty pieces included (there is always one more
      piece than there are separators). */
  function SplitOn(s: string, sep: char): (r: seq<string>)
    ensures |r| >= 1
    ensures forall i :: 0 <= i < |r| ==> sep !in r[i]
    decreases |s|
  {
    if s == [] then [""]
    else
      var rest := SplitOn(s[1..], sep);
      if s[0] == sep then [""] + rest
      else [[s[0]] + rest[0]] + rest[1..]
  }

  /** Joins pieces with a separator: the inverse of SplitOn. */
  function JoinWith(pieces: seq<string>, sep: char): string
    decreases |pieces|
  {
    if pieces == [] then ""
    else if |pieces| == 1 then pieces[0]
    else pieces[0] + [sep] + JoinWith(pieces[1..], sep)
  }

  /** Splitting undoes joining, for pieces free of the separator. */
  lemma {:induction false} SplitJoin(pieces: seq<string>, sep: char)
    requires |pieces| >= 1
    requires forall i :: 0 <= i < |pieces| ==> sep !in pieces[i]
    ensures SplitOn(JoinWith(pieces, sep), sep) == pieces
    decreases |pieces|
  {
    if |pieces| == 1 {
      SplitNoSep(pieces[0], sep);
    } else {
      SplitJoin(pieces[1..], sep);
      SplitAppend(pieces[0], JoinWith(pieces[1..], sep), sep);
      assert SplitOn(pieces[0], sep) == [pieces[0]] by { SplitNoSep(pieces[0], sep); }
    }
  }

  /** Joining undoes splitting. */
  lemma {:induction false} JoinSplit(s: string, sep: char)
    ensures JoinWith(SplitOn(s, sep), sep) == s
    decreases |s|
  {
    if s != [] {
      JoinSplit(s[1..], sep);
      var rest := SplitOn(s[1..], sep);
      if s[0] == sep {
        assert SplitOn(s, sep)[1..] == rest;
      } else {
        var r := SplitOn(s, sep);
        assert r[1..] == rest[1..];
        if |rest| == 1 {
          assert JoinWith(r, sep) == [s[0]] + rest[0];
        } else {
          assert JoinWith(r, sep) == [s[0]] + rest[0] + [sep] + JoinWith(rest[1..], sep);
          assert JoinWith(rest, sep) == rest[0] + [sep] + JoinWith(rest[1..], sep);
        }
      }
    }
  }

  lemma {:induction false} SplitNoSep(s: string, sep: char)
    requires sep !in s
    ensures SplitOn(s, sep) == [s]
    decreases |s|
  {
    if s != [] {
      SplitNoSep(s[1..], sep);
      assert [s[0]] + s[1..] == s;
    }
  }

  /** A separator splits the pieces of its two sides apart. */
  lemma {:induction false} SplitAppend(a: string, b: string, sep: char)
    ensures SplitOn(a + [sep] + b, sep) == SplitOn(a, sep) + SplitOn(b, sep)
    decreases |a|
  {
    if a == [] {
      assert a + [sep] + b == [sep] + b;
      assert ([sep] + b)[1..] == b;
    } else {
      assert (a + [sep] + b)[1..] == a[1..] + [sep] + b;
      SplitAppend(a[1..], b, sep);
    }
  }

  /** Drops the trailing empty strings, as String.split does with limit 0. */
  function DropTrailingEmpty(pieces: seq<string>): (r: seq<string>)
    ensures |r| <= |pieces| && r == pieces[..|r|]
    ensures forall i :: |r| <= i < |pieces| ==> pieces[i] == ""
    ensures r == [] || r[|r| - 1] != ""
    decreases |pieces|
  {
    if pieces != [] && pieces[|pieces| - 1] == "" then DropTrailingEmpty(pieces[..|pieces| - 1])
    else pieces
  }

  /** The result list of String.split(regex) with limit 0, given the pieces between matches:
      when nothing matched it is the input itself, otherwise the pieces without the trailing
      empty ones. */
  function SplitResult(pieces: seq<string>): seq<string> {
    if |pieces| == 1 then pieces else DropTrailingEmpty(pieces)
  }

  /** `s.split(",")`. */
  function SplitComma(s: string): seq<string> {
    SplitResult(SplitOn(s, ','))
  }

  /** Every non-empty comma field of `s` survives String.split(","). */
  lemma SplitCommaKeepsNonEmpty(s: string, i: nat)
    requires i < |SplitOn(s, ',')| && SplitOn(s, ',')[i] != ""
    ensures i < |SplitComma(s)| && SplitComma(s)[i] == SplitOn(s, ',')[i]
  {
  }

  function StripStart(s: string): (r: string)
    ensures |r| <= |s| && r == s[|s| - |r|..]
    ensures forall i :: 0 <= i < |s| - |r| ==> IsRegexSpace(s[i])
    ensures r == [] || !IsRegexSpace(r[0])
  {
    if s != [] && IsRegexSpace(s[0]) then
      var r := StripStart(s[1..]);
      assert forall i :: 1 <= i < |s| ==> s[i] == s[1..][i - 1];
      r
    else s
  }

  function StripEnd(s: string): (r: string)
    ensures |r| <= |s| && r == s[..|r|]
    ensures forall i :: |r| <= i < |s| ==> IsRegexSpace(s[i])
    ensures r == [] || !IsRegexSpace(r[|r| - 1])
  {
    if s != [] && IsRegexSpace(s[|s| - 1]) then
      var r := StripEnd(s[..|s| - 1]);
      assert forall i :: 0 <= i < |s| - 1 ==> s[i] == s[..|s| - 1][i];
      r
    else s
  }

  /** `s.split("\\s*,\\s*")`: the regex eats the whitespace on both sides of every comma, so the
      first field loses only its trailing whitespace, the last only its leading whitespace and
      the fields in between both. */
  function SplitCommaSpaced(s: string): seq<string> {
    var p := SplitOn(s, ',');
    if |p| == 1 then [s]
    else
      DropTrailingEmpty(seq(|p|, i requires 0 <= i < |p| =>
        if i == 0 then StripEnd(p[i])
        else if i == |p| - 1 then StripStart(p[i])
        else StripStart(StripEnd(p[i]))))
  }

  /** Joining role names with a comma and splitting them again with "\\s*,\\s*" gives them
      back, as long as each is non-empty, comma-free and not padded with whitespace. */
  lemma SplitCommaSpacedJoin(roles: seq<string>)
    requires |roles| >= 1
    requires forall i :: 0 <= i < |roles| ==> roles[i] != [] && ',' !in roles[i]
    requires forall i :: 0 <= i < |roles| ==> !IsRegexSpace(roles[i][0]) && !IsRegexSpace(roles[i][|roles[i]| - 1])
    ensures SplitCommaSpaced(JoinWith(roles, ',')) == roles
  {
    SplitJoin(roles, ',');
    var p := SplitOn(JoinWith(roles, ','), ',');
    assert p == roles;
    if |p| > 1 {
      var q := seq(|p|, i requires 0 <= i < |p| =>
        if i == 0 then StripEnd(p[i])
        else if i == |p| - 1 then StripStart(p[i])
        else StripStart(StripEnd(p[i])));
      forall i | 0 <= i < |p| ensures q[i] == p[i] {
        assert StripEnd(p[i]) == p[i];
        assert StripStart(p[i]) == p[i];
      }
      assert q == p;
    }
  }

  /** "" splits to [""], and a string without commas is its own single field. */
  lemma SplitCommaSpacedNoComma(s: string)
    requires ',' !in s
    ensures SplitCommaSpaced(s) == [s]
  {
    SplitNoSep(s, ',');
  }

  // ---------------------------------------------------------------------------
  // Lengths
  // ---------------------------------------------------------------------------

  /** String.length(): UTF-16 code units, two for a character outside the BMP. */
  function Utf16Length(s: string): (n: nat)
    ensures |s| <= n <= 2 * |s|
  {
    if s == [] then 0 else (if s[0] as int >= 0x10000 then 2 else 1) + Utf16Length(s[1..])
  }

  /** `s.replaceAll("^/+", "")`: removes the leading slashes. */
  function StripLeadingSlashes(s: string): (r: string)
    ensures |r| <= |s| && r == s[|s| - |r|..]
    ensures forall i :: 0 <= i < |s| - |r| ==> s[i] == '/'
    ensures r == [] || r[0] != '/'
  {
    if s != [] && s[0] == '/' then
      var r := StripLeadingSlashes(s[1..]);
      assert forall i :: 1 <= i < |s| ==> s[i] == s[1..][i - 1];
      r
    else s
  }


  /** The characters of joined pieces, separators aside, are those of the pieces. */
  lemma {:induction false} JoinWithChars(pieces: seq<string>, sep: char, c: char)
    requires c != sep
    ensures c in JoinWith(pieces, sep) <==> exists i :: 0 <= i < |pieces| && c in pieces[i]
    decreases |pieces|
  {
    if |pieces| > 1 {
      JoinWithChars(pieces[1..], sep, c);
      if exists i :: 0 <= i < |pieces[1..]| && c in pieces[1..][i] {
        var i :| 0 <= i < |pieces[1..]| && c in pieces[1..][i];
        assert pieces[1..][i] == pieces[i + 1];
      }
      if exists i :: 0 <= i < |pieces| && c in pieces[i] {
        var i :| 0 <= i < |pieces| && c in pieces[i];
        if i > 0 {
          assert pieces[1..][i - 1] == pieces[i];
        }
      }
    }
  }
}

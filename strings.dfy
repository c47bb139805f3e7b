/** The parts of Python's `str` that the resume parser relies on: character
    classes, `strip`, `split`, `join`, `lower` and substring search.

    Whitespace is Python's own `str.isspace()` set (which is also what the
    `re` module's `\s` matches in a `str` pattern). Letters, digits, word
    characters and lower-casing are the ASCII ones. */
module Strings {
  import opened Wrappers

  // ---------------------------------------------------------------------
  // Character classes

  /** `c.isspace()`: general category Zs, or bidirectional class WS, B or S. */
  predicate IsSpace(c: char) {
    || '\t' <= c <= '\r'
    || '\U{1C}' <= c <= '\U{1F}'
    || c == ' '
    || c == '\U{85}'
    || c == '\U{A0}'
    || c == '\U{1680}'
    || '\U{2000}' <= c <= '\U{200A}'
    || c == '\U{2028}'
    || c == '\U{2029}'
    || c == '\U{202F}'
    || c == '\U{205F}'
    || c == '\U{3000}'
  }

  /** The regular-expression class `[A-Z]`. */
  predicate IsUpper(c: char) { 'A' <= c <= 'Z' }

  /** The regular-expression class `[a-z]`. */
  predicate IsLower(c: char) { 'a' <= c <= 'z' }

  /** `[a-zA-Z]` */
  predicate IsLetter(c: char) { IsUpper(c) || IsLower(c) }

  /** `\d`, ASCII digits. */
  predicate IsDigit(c: char) { '0' <= c <= '9' }

  /** `\w`, ASCII word characters: letters, digits and the underscore. */
  predicate IsWordChar(c: char) { IsLetter(c) || IsDigit(c) || c == '_' }

  /** `[a-zA-Z0-9._%+-]`, the local part of an e-mail address. */
  predicate IsLocalChar(c: char) {
    IsLetter(c) || IsDigit(c) || c == '.' || c == '_' || c == '%' || c == '+' || c == '-'
  }

  /** `str.lower()` on one character (ASCII letters only). */
  function LowerChar(c: char): (r: char)
    ensures IsUpper(c) ==> IsLower(r) && r as int == c as int + 32
    ensures !IsUpper(c) ==> r == c
  {
    if IsUpper(c) then (c as int + 32) as char else c
  }

  /** `s.lower()`: every character lower-cased, position by position. */
  function Lower(s: string): (r: string)
    ensures |r| == |s|
    ensures forall i :: 0 <= i < |s| ==> r[i] == LowerChar(s[i])
  {
    seq(|s|, i requires 0 <= i < |s| => LowerChar(s[i]))
  }

  lemma LowerOfConcat(a: string, b: string)
    ensures Lower(a + b) == Lower(a) + Lower(b)
  {
  }

  /** `lower()` leaves no capital, changes only capitals, and a second
      `lower()` changes nothing: a string is its own lower-case form
      exactly when it has no capital. */
  lemma LowerFolds(s: string)
    ensures forall i :: 0 <= i < |s| ==> !IsUpper(Lower(s)[i])
    ensures forall i :: 0 <= i < |s| && !IsUpper(s[i]) ==> Lower(s)[i] == s[i]
    ensures Lower(Lower(s)) == Lower(s)
    ensures Lower(s) == s <==> forall i :: 0 <= i < |s| ==> !IsUpper(s[i])
  {
    if Lower(s) == s {
      forall i | 0 <= i < |s| ensures !IsUpper(s[i]) {
        assert Lower(s)[i] == s[i];
      }
    }
  }

  // ---------------------------------------------------------------------
  // strip
  //
  // The scanning functions below work on positions of one string rather
  // than on its suffixes, so that a proof about them talks about `s[k]`
  // for indices `k` and not about a growing family of slices.

  /** The first position at or after `i` that holds no whitespace, or `|s|`. */
  function SkipSpaces(s: string, i: nat): (j: nat)
    requires i <= |s|
    ensures i <= j <= |s|
    ensures j < |s| ==> !IsSpace(s[j])
    decreases |s| - i
  {
    if i < |s| && IsSpace(s[i]) then SkipSpaces(s, i + 1) else i
  }

  /** Everything that `SkipSpaces` steps over is whitespace. */
  lemma {:induction false} SkipSpacesAt(s: string, i: nat, k: nat)
    requires i <= k && k < |s| && i <= |s| && k < SkipSpaces(s, i)
    ensures IsSpace(s[k])
    decreases |s| - i
  {
    if k > i {
      SkipSpacesAt(s, i + 1, k);
    }
  }

  /** The position just after the last non-whitespace character of
      `s[lo..j]`, or `lo` when there is none. */
  function TrimEnd(s: string, lo: nat, j: nat): (e: nat)
    requires lo <= j <= |s|
    ensures lo <= e <= j
    ensures e > lo ==> !IsSpace(s[e - 1])
    decreases j
  {
    if j > lo && IsSpace(s[j - 1]) then TrimEnd(s, lo, j - 1) else j
  }

  /** Everything that `TrimEnd` steps back over is whitespace. */
  lemma {:induction false} TrimEndAt(s: string, lo: nat, j: nat, k: nat)
    requires lo <= j <= |s| && TrimEnd(s, lo, j) <= k < j
    ensures IsSpace(s[k])
    decreases j
  {
    if k < j - 1 {
      TrimEndAt(s, lo, j - 1, k);
    }
  }

  /** `TrimEnd` never steps back over a non-whitespace character at `lo`. */
  lemma {:induction false} TrimEndKeeps(s: string, lo: nat, j: nat)
    requires lo < j <= |s| && !IsSpace(s[lo])
    ensures TrimEnd(s, lo, j) > lo
    decreases j
  {
    if j - 1 > lo && IsSpace(s[j - 1]) {
      TrimEndKeeps(s, lo, j - 1);
    }
  }

  /** Where the stripped text starts and ends in `s`. */
  function StripStart(s: string): nat {
    SkipSpaces(s, 0)
  }

  function StripEnd(s: string): (e: nat)
    ensures StripStart(s) <= e <= |s|
  {
    TrimEnd(s, StripStart(s), |s|)
  }

  /** `s.strip()` */
  function Strip(s: string): string {
    s[StripStart(s)..StripEnd(s)]
  }

  /** Every character is whitespace (the empty string included). */
  predicate IsBlank(s: string) {
    forall i :: 0 <= i < |s| ==> IsSpace(s[i])
  }

  /** `not s.strip()` holds exactly for the strings made of whitespace only. */
  lemma StripEmptyIffBlank(s: string)
    ensures Strip(s) == "" <==> IsBlank(s)
  {
    var a := StripStart(s);
    if a == |s| {
      forall k | 0 <= k < |s| ensures IsSpace(s[k]) {
        SkipSpacesAt(s, 0, k);
      }
    } else {
      TrimEndKeeps(s, a, |s|);
    }
  }

  /** `strip` removes exactly the whitespace at both ends: the result is the
      part of `s` between a whitespace prefix and a whitespace suffix, and,
      when it is not empty, it starts and ends with a non-space. */
  lemma StripShape(s: string)
    ensures Strip(s) == s[StripStart(s)..StripEnd(s)]
    ensures forall k :: 0 <= k < StripStart(s) ==> IsSpace(s[k])
    ensures forall k :: StripEnd(s) <= k < |s| ==> IsSpace(s[k])
    ensures var r := Strip(s); r != "" ==> !IsSpace(r[0]) && !IsSpace(r[|r| - 1])
  {
    var a, e := StripStart(s), StripEnd(s);
    forall k | 0 <= k < a ensures IsSpace(s[k]) {
      SkipSpacesAt(s, 0, k);
    }
    forall k | e <= k < |s| ensures IsSpace(s[k]) {
      TrimEndAt(s, a, |s|, k);
    }
  }

  /** A string with no whitespace at either end is its own strip. */
  lemma StripKeeps(s: string)
    requires s != "" && !IsSpace(s[0]) && !IsSpace(s[|s| - 1])
    ensures Strip(s) == s
  {
  }

  // ---------------------------------------------------------------------
  // split on a separator character, and join

  /** The first position at or after `i` that holds `sep`, or `|s|`. */
  function NextSep(s: string, sep: char, i: nat): (j: nat)
    requires i <= |s|
    ensures i <= j <= |s|
    ensures j < |s| ==> s[j] == sep
    decreases |s| - i
  {
    if i == |s| || s[i] == sep then i else NextSep(s, sep, i + 1)
  }

  /** `NextSep` steps over no separator. */
  lemma {:induction false} NextSepAt(s: string, sep: char, i: nat, k: nat)
    requires i <= k && k < |s| && i <= |s| && k < NextSep(s, sep, i)
    ensures s[k] != sep
    decreases |s| - i
  {
    if k > i {
      NextSepAt(s, sep, i + 1, k);
    }
  }

  /** `NextSep` finds the first separator. */
  lemma {:induction false} NextSepIs(s: string, sep: char, i: nat, j: nat)
    requires i <= j <= |s| && (j < |s| ==> s[j] == sep)
    requires forall k :: i <= k < j ==> s[k] != sep
    ensures NextSep(s, sep, i) == j
    decreases j - i
  {
    if i < j {
      NextSepIs(s, sep, i + 1, j);
    }
  }

  /** The pieces of `s[i..]` between separators. */
  function SplitFrom(s: string, sep: char, i: nat): (r: seq<string>)
    requires i <= |s|
    ensures |r| >= 1
    decreases |s| - i
  {
    var j := NextSep(s, sep, i);
    if j == |s| then [s[i..]] else [s[i..j]] + SplitFrom(s, sep, j + 1)
  }

  /** `s.split(sep)` for a one-character separator. */
  function Split(s: string, sep: char): (r: seq<string>)
    ensures |r| >= 1
  {
    SplitFrom(s, sep, 0)
  }

  /** `sep.join(parts)` */
  function Join(sep: string, parts: seq<string>): string {
    if |parts| == 0 then ""
    else if |parts| == 1 then parts[0]
    else parts[0] + sep + Join(sep, parts[1..])
  }

  /** Joining the pieces of `s[i..]` with the separator gives `s[i..]` back. */
  lemma {:induction false} SplitFromJoin(s: string, sep: char, i: nat)
    requires i <= |s|
    ensures Join([sep], SplitFrom(s, sep, i)) == s[i..]
    decreases |s| - i
  {
    var j := NextSep(s, sep, i);
    if j < |s| {
      var r, rest := SplitFrom(s, sep, i), SplitFrom(s, sep, j + 1);
      SplitFromJoin(s, sep, j + 1);
      assert r == [s[i..j]] + rest;
      assert r[1..] == rest;
      assert Join([sep], r) == s[i..j] + [sep] + s[j + 1..];
      assert s[i..] == s[i..j] + [s[j]] + s[j + 1..];
    }
  }

  /** No piece of `s[i..]` contains the separator. */
  lemma {:induction false} SplitFromNoSep(s: string, sep: char, i: nat)
    requires i <= |s|
    ensures forall k :: 0 <= k < |SplitFrom(s, sep, i)| ==> sep !in SplitFrom(s, sep, i)[k]
    decreases |s| - i
  {
    var j := NextSep(s, sep, i);
    forall k | i <= k < j ensures s[k] != sep {
      NextSepAt(s, sep, i, k);
    }
    assert sep !in s[i..j];
    if j < |s| {
      var r, rest := SplitFrom(s, sep, i), SplitFrom(s, sep, j + 1);
      SplitFromNoSep(s, sep, j + 1);
      assert r == [s[i..j]] + rest;
      forall k | 0 <= k < |r| ensures sep !in r[k] {
        if k > 0 {
          assert r[k] == rest[k - 1];
        }
      }
    }
  }

  /** Splitting on a character and joining with it gives the string back,
      and no piece contains the separator. */
  lemma SplitJoin(s: string, sep: char)
    ensures Join([sep], Split(s, sep)) == s
    ensures forall k :: 0 <= k < |Split(s, sep)| ==> sep !in Split(s, sep)[k]
  {
    SplitFromJoin(s, sep, 0);
    SplitFromNoSep(s, sep, 0);
  }

  /** Every text in `xs` is whitespace only. */
  predicate AllBlank(xs: seq<string>) {
    forall k :: 0 <= k < |xs| ==> IsBlank(xs[k])
  }

  /** A join with a blank separator is blank exactly when all parts are. */
  lemma {:induction false} JoinBlank(sep: string, parts: seq<string>)
    requires IsBlank(sep)
    ensures IsBlank(Join(sep, parts)) <==> forall k :: 0 <= k < |parts| ==> IsBlank(parts[k])
  {
    if |parts| > 1 {
      var t := parts[1..];
      JoinBlank(sep, t);
      BlankConcat(parts[0], sep);
      BlankConcat(parts[0] + sep, Join(sep, t));
      if forall k :: 0 <= k < |t| ==> IsBlank(t[k]) {
        assert forall k :: 1 <= k < |parts| ==> parts[k] == t[k - 1];
      } else {
        var k :| 0 <= k < |t| && !IsBlank(t[k]);
        assert parts[k + 1] == t[k];
      }
    }
  }

  lemma BlankConcat(a: string, b: string)
    ensures IsBlank(a + b) <==> IsBlank(a) && IsBlank(b)
  {
    if IsBlank(a) && IsBlank(b) {
      forall i | 0 <= i < |a + b| ensures IsSpace((a + b)[i]) {
        if i >= |a| {
          assert (a + b)[i] == b[i - |a|];
        }
      }
    }
    if IsBlank(a + b) {
      forall i | 0 <= i < |a| ensures IsSpace(a[i]) {
        assert a[i] == (a + b)[i];
      }
      forall i | 0 <= i < |b| ensures IsSpace(b[i]) {
        assert b[i] == (a + b)[|a| + i];
      }
    }
  }

  /** Every character of a join is a character of the separator or of a part. */
  lemma {:induction false} JoinChars(sep: string, parts: seq<string>, c: char)
    requires c in Join(sep, parts)
    ensures c in sep || exists k :: 0 <= k < |parts| && c in parts[k]
  {
    if |parts| > 1 {
      var tail := Join(sep, parts[1..]);
      if c !in parts[0] && c !in sep {
        assert c in tail;
        JoinChars(sep, parts[1..], c);
        var k :| 0 <= k < |parts[1..]| && c in parts[1..][k];
        assert c in parts[k + 1];
      }
    }
  }

  // ---------------------------------------------------------------------
  // split on whitespace

  /** The first position at or after `i` that holds whitespace, or `|s|`. */
  function WordEnd(s: string, i: nat): (j: nat)
    requires i <= |s|
    ensures i <= j <= |s|
    ensures j < |s| ==> IsSpace(s[j])
    ensures i < |s| && !IsSpace(s[i]) ==> j > i
    decreases |s| - i
  {
    if i < |s| && !IsSpace(s[i]) then WordEnd(s, i + 1) else i
  }

  /** `WordEnd` steps over no whitespace. */
  lemma {:induction false} WordEndAt(s: string, i: nat, k: nat)
    requires i <= k && k < |s| && i <= |s| && k < WordEnd(s, i)
    ensures !IsSpace(s[k])
    decreases |s| - i
  {
    if k > i {
      WordEndAt(s, i + 1, k);
    }
  }

  /** The maximal runs of non-whitespace in `s[i..]`, in order. */
  function WordsFrom(s: string, i: nat): seq<string>
    requires i <= |s|
    decreases |s| - i
  {
    if i == |s| then []
    else if IsSpace(s[i]) then WordsFrom(s, i + 1)
    else [s[i..WordEnd(s, i)]] + WordsFrom(s, WordEnd(s, i))
  }

  /** `s.split()` */
  function SplitWs(s: string): seq<string> {
    WordsFrom(s, 0)
  }

  /** Leading whitespace makes no word. */
  lemma {:induction false} WordsFromSkip(s: string, i: nat)
    requires i <= |s|
    ensures WordsFrom(s, i) == WordsFrom(s, SkipSpaces(s, i))
    decreases |s| - i
  {
    if i < |s| && IsSpace(s[i]) {
      WordsFromSkip(s, i + 1);
    }
  }

  /** There is a word exactly when some non-space lies ahead. */
  lemma {:induction false} WordsFromEmpty(s: string, i: nat)
    requires i <= |s|
    ensures WordsFrom(s, i) == [] <==> forall k :: i <= k < |s| ==> IsSpace(s[k])
    decreases |s| - i
  {
    if i < |s| && IsSpace(s[i]) {
      WordsFromEmpty(s, i + 1);
    }
  }

  /** The words are non-empty, whitespace-free, and made of characters of `s`. */
  lemma {:induction false} WordsFromWords(s: string, i: nat)
    requires i <= |s|
    ensures forall k :: 0 <= k < |WordsFrom(s, i)| ==> WordsFrom(s, i)[k] != ""
    ensures forall k, q :: 0 <= k < |WordsFrom(s, i)| && 0 <= q < |WordsFrom(s, i)[k]| ==>
      !IsSpace(WordsFrom(s, i)[k][q]) && WordsFrom(s, i)[k][q] in s
    decreases |s| - i
  {
    if i < |s| {
      if IsSpace(s[i]) {
        WordsFromWords(s, i + 1);
      } else {
        var j := WordEnd(s, i);
        var rest := WordsFrom(s, j);
        WordsFromWords(s, j);
        var w := WordsFrom(s, i);
        assert w == [s[i..j]] + rest;
        forall k, q | 0 <= k < |w| && 0 <= q < |w[k]| ensures !IsSpace(w[k][q]) && w[k][q] in s {
          if k == 0 {
            assert w[k][q] == s[i + q];
            WordEndAt(s, i, i + q);
          } else {
            assert w[k] == rest[k - 1];
          }
        }
        forall k | 0 <= k < |w| ensures w[k] != "" {
          if k > 0 {
            assert w[k] == rest[k - 1];
          }
        }
      }
    }
  }

  /** A string whose only whitespace is single inner `' '` characters:
      what `' '.join(s.split())` produces. */
  predicate IsSqueezed(s: string) {
    && (forall i :: 0 <= i < |s| && IsSpace(s[i]) ==> s[i] == ' ')
    && (|s| > 0 ==> s[0] != ' ' && s[|s| - 1] != ' ')
    && (forall i :: 0 <= i < |s| - 1 && s[i] == ' ' ==> s[i + 1] != ' ')
  }

  /** Joining non-empty, whitespace-free words with single spaces. */
  lemma {:induction false} JoinWordsSqueezed(parts: seq<string>)
    requires forall k :: 0 <= k < |parts| ==> parts[k] != ""
    requires forall k, i :: 0 <= k < |parts| && 0 <= i < |parts[k]| ==> !IsSpace(parts[k][i])
    ensures IsSqueezed(Join(" ", parts))
    ensures Join(" ", parts) == "" <==> parts == []
  {
    if |parts| > 1 {
      JoinWordsSqueezed(parts[1..]);
      var h, t := parts[0], Join(" ", parts[1..]);
      var s := h + " " + t;
      assert Join(" ", parts) == s;
      forall i | 0 <= i < |s| && IsSpace(s[i]) ensures s[i] == ' ' {
        if i > |h| {
          assert s[i] == t[i - |h| - 1];
        }
      }
      assert s[0] == h[0];
      assert s[|s| - 1] == t[|t| - 1];
      forall i | 0 <= i < |s| - 1 && s[i] == ' ' ensures s[i + 1] != ' ' {
        if i == |h| {
          assert s[i + 1] == t[0];
        } else if i > |h| {
          assert s[i] == t[i - |h| - 1] && s[i + 1] == t[i - |h|];
        }
      }
    } else if |parts| == 1 {
      assert Join(" ", parts) == parts[0];
    }
  }

  /** `' '.join(s.split())`: collapse whitespace runs to one space and trim. */
  function Squeeze(s: string): string {
    Join(" ", SplitWs(s))
  }

  /** The squeezed string is in normal form, it is empty exactly when `s` is
      blank, and each of its characters is a space or a character of `s`. */
  lemma SqueezeProperties(s: string)
    ensures IsSqueezed(Squeeze(s))
    ensures Squeeze(s) == "" <==> IsBlank(s)
    ensures forall c :: c in Squeeze(s) ==> c == ' ' || c in s
  {
    var w := SplitWs(s);
    WordsFromWords(s, 0);
    WordsFromEmpty(s, 0);
    JoinWordsSqueezed(w);
    forall c | c in Squeeze(s) ensures c == ' ' || c in s {
      JoinChars(" ", w, c);
      if c != ' ' {
        var k :| 0 <= k < |w| && c in w[k];
        var q :| 0 <= q < |w[k]| && w[k][q] == c;
      }
    }
  }

  // ---------------------------------------------------------------------
  // substring search

  /** `pat in s` */
  predicate IsSubstring(pat: string, s: string) {
    exists i | 0 <= i <= |s| :: OccursAt(pat, s, i)
  }

  /** `pat` occurs in `s` starting at index `i`. */
  predicate OccursAt(pat: string, s: string, i: int) {
    0 <= i && i + |pat| <= |s| && s[i..i + |pat|] == pat
  }

  /** A substring of a substring is a substring. */
  lemma SubstringOfSubstring(a: string, b: string, s: string)
    requires IsSubstring(a, b) && IsSubstring(b, s)
    ensures IsSubstring(a, s)
  {
    var i :| 0 <= i <= |b| && OccursAt(a, b, i);
    var j :| 0 <= j <= |s| && OccursAt(b, s, j);
    forall k | 0 <= k < |a| ensures s[j + i + k] == a[k] {
      assert s[j + i + k] == s[j..j + |b|][i + k];
    }
    assert s[j + i..j + i + |a|] == a;
    assert OccursAt(a, s, j + i);
  }

  // ---------------------------------------------------------------------
  // hexadecimal digits, as the escapes of `repr` and `json.dumps` write them

  function Pow16(width: nat): (p: nat)
    ensures p >= 1
  {
    if width == 0 then 1 else 16 * Pow16(width - 1)
  }

  /** The lower-case hexadecimal digit for `d`. */
  function HexDigit(d: nat): (c: char)
    requires d < 16
  {
    "0123456789abcdef"[d]
  }

  /** The value of a hexadecimal digit of either case. */
  function HexValue(c: char): Option<nat> {
    if '0' <= c <= '9' then Some(c as int - '0' as int)
    else if 'a' <= c <= 'f' then Some(c as int - 'a' as int + 10)
    else if 'A' <= c <= 'F' then Some(c as int - 'A' as int + 10)
    else None
  }

  /** `format(n, '0{width}x')` for an `n` that fits in `width` digits. */
  function ToHex(n: nat, width: nat): (r: string)
    requires n < Pow16(width)
    ensures |r| == width
  {
    if width == 0 then "" else ToHex(n / 16, width - 1) + [HexDigit(n % 16)]
  }

  /** The number that a string of hexadecimal digits denotes. */
  function FromHex(s: string): Option<nat> {
    if s == "" then Some(0)
    else match (FromHex(s[..|s| - 1]), HexValue(s[|s| - 1]))
      case (Some(h), Some(d)) => Some(16 * h + d)
      case _ => None
  }

  lemma {:induction false} FromHexToHex(n: nat, width: nat)
    requires n < Pow16(width)
    ensures FromHex(ToHex(n, width)) == Some(n)
  {
    if width > 0 {
      var d := n % 16;
      assert n / 16 < Pow16(width - 1);
      FromHexToHex(n / 16, width - 1);
      var h := ToHex(n, width);
      assert h[..|h| - 1] == ToHex(n / 16, width - 1);
      assert HexValue(HexDigit(d)) == Some(d);
    }
  }
}

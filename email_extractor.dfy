/** `EmailExtractor.extract`: the first match of
    `[a-zA-Z0-9._%+-]+@[a-zA-Z0-9.-]+\.[a-zA-Z]{2,}` in the text, or
    `"unknown@example.com"` when the text is blank or holds no match. */
module EmailExtractor {
  import opened Wrappers
  import opened Strings

  /** What `extract` returns when it finds nothing. */
  const Sentinel: string := "unknown@example.com"

  /** `[a-zA-Z0-9.-]`, the domain part. */
  predicate IsDomainChar(c: char) {
    IsLetter(c) || IsDigit(c) || c == '.' || c == '-'
  }

  // ---------------------------------------------------------------------
  // The pattern, declaratively

  /** `s[a..b]` matches the pattern with its `@` at `at` and the dot
      before the top-level domain at `d` (positions within `s`). */
  predicate ShapeIn(s: string, a: nat, b: nat, at: nat, d: nat) {
    && a < at && at + 1 < d && d + 3 <= b <= |s|
    && (forall i :: a <= i < at ==> IsLocalChar(s[i]))
    && s[at] == '@'
    && (forall i :: at < i < d ==> IsDomainChar(s[i]))
    && s[d] == '.'
    && (forall i :: d < i < b ==> IsLetter(s[i]))
  }

  /** `s[a..b]` as a whole matches the pattern. */
  predicate MatchedIn(s: string, a: nat, b: nat) {
    exists at: nat, d: nat | a < at < d < b :: ShapeIn(s, a, b, at, d)
  }

  /** `w` as a whole matches the pattern. */
  predicate IsEmail(w: string) {
    MatchedIn(w, 0, |w|)
  }

  // ---------------------------------------------------------------------
  // The pattern, as the backtracking matcher runs it

  /** End of the longest run of `[a-zA-Z0-9._%+-]` from `i`. */
  function LocalEnd(s: string, i: nat): (j: nat)
    requires i <= |s|
    ensures i <= j <= |s|
    ensures forall k :: i <= k < j ==> IsLocalChar(s[k])
    ensures j < |s| ==> !IsLocalChar(s[j])
    decreases |s| - i
  {
    if i < |s| && IsLocalChar(s[i]) then LocalEnd(s, i + 1) else i
  }

  /** End of the longest run of `[a-zA-Z0-9.-]` from `i`. */
  function DomainEnd(s: string, i: nat): (j: nat)
    requires i <= |s|
    ensures i <= j <= |s|
    ensures forall k :: i <= k < j ==> IsDomainChar(s[k])
    ensures j < |s| ==> !IsDomainChar(s[j])
    decreases |s| - i
  {
    if i < |s| && IsDomainChar(s[i]) then DomainEnd(s, i + 1) else i
  }

  /** End of the longest run of `[a-zA-Z]` from `i`. */
  function LetterEnd(s: string, i: nat): (j: nat)
    requires i <= |s|
    ensures i <= j <= |s|
    ensures forall k :: i <= k < j ==> IsLetter(s[k])
    ensures j < |s| ==> !IsLetter(s[j])
    decreases |s| - i
  {
    if i < |s| && IsLetter(s[i]) then LetterEnd(s, i + 1) else i
  }

  /** `\.[a-zA-Z]{2,}` matches at `d`. */
  predicate TldAt(s: string, d: nat) {
    d < |s| && s[d] == '.' && LetterEnd(s, d + 1) >= d + 3
  }

  /** Where the greedy `[a-zA-Z0-9.-]+` ending before `k` backs off to:
      the last position in `[lo, k)` at which the top-level domain
      matches. */
  function LastTld(s: string, lo: nat, k: nat): (r: Option<nat>)
    requires k <= |s|
    ensures r.Some? ==> lo <= r.value < k && TldAt(s, r.value)
    ensures r.Some? ==> forall d :: r.value < d < k ==> !TldAt(s, d)
    ensures r.None? ==> forall d :: lo <= d < k ==> !TldAt(s, d)
    decreases k
  {
    if k <= lo then None
    else if TldAt(s, k - 1) then Some(k - 1)
    else LastTld(s, lo, k - 1)
  }

  /** The end of the match the regular expression engine finds when it
      tries the pattern at `p`. The local part cannot give characters
      back (`@` is not one of them), the domain part backs off to the
      last dot followed by two letters, and the top-level domain takes
      every letter after it. */
  function MatchAt(s: string, p: nat): (r: Option<nat>)
    requires p <= |s|
    ensures r.Some? ==> p < r.value <= |s|
  {
    var at := LocalEnd(s, p);
    if at == p || at == |s| || s[at] != '@' then None
    else
      match LastTld(s, at + 2, DomainEnd(s, at + 1))
      case None => None
      case Some(d) => Some(LetterEnd(s, d + 1))
  }

  /** The first match of `re.findall` from position `p`: the first start
      at which the pattern matches, and its end there. */
  function FirstMatch(s: string, p: nat): (r: Option<(nat, nat)>)
    requires p <= |s|
    ensures r.Some? ==> p <= r.value.0 <= |s| && MatchAt(s, r.value.0) == Some(r.value.1)
    ensures r.Some? ==> forall q :: p <= q < r.value.0 ==> MatchAt(s, q).None?
    ensures r.None? ==> forall q :: p <= q <= |s| ==> MatchAt(s, q).None?
    decreases |s| - p
  {
    match MatchAt(s, p)
    case Some(e) => Some((p, e))
    case None => if p == |s| then None else FirstMatch(s, p + 1)
  }

  /** `matches[0]`, when `re.findall` found anything. */
  function FirstFound(s: string): Option<string> {
    match FirstMatch(s, 0)
    case Some((a, b)) => Some(s[a..b])
    case None => None
  }

  /** `EmailExtractor.extract(text)`. Whatever the text, the result has
      the form of an e-mail address: the first match, which occurs in the
      text, or the sentinel. */
  function Extract(text: string): (r: string)
    ensures IsEmail(r)
    ensures r == Sentinel || IsSubstring(r, text)
  {
    if text == "" || Strip(text) == "" then SentinelIsEmail(); Sentinel
    else
      match FirstFound(text)
      case Some(m) =>
        FirstFoundIsEmail(text);
        FirstFoundOccurs(text);
        m
      case None => SentinelIsEmail(); Sentinel
  }

  // ---------------------------------------------------------------------
  // The matcher finds exactly the leftmost, longest match

  /** What the matcher returns at `p` matches the pattern. */
  lemma MatchAtSound(s: string, p: nat)
    requires p <= |s| && MatchAt(s, p).Some?
    ensures MatchedIn(s, p, MatchAt(s, p).value)
  {
    var at := LocalEnd(s, p);
    var e := DomainEnd(s, at + 1);
    var d := LastTld(s, at + 2, e).value;
    var b := LetterEnd(s, d + 1);
    assert MatchAt(s, p) == Some(b);
    assert forall i :: at < i < d ==> IsDomainChar(s[i]);
    assert ShapeIn(s, p, b, at, d);
  }

  /** Whenever the pattern matches `s[a..b]`, the matcher succeeds at `a`
      and ends no earlier than `b`. */
  lemma MatchAtComplete(s: string, a: nat, b: nat, at: nat, d: nat)
    requires ShapeIn(s, a, b, at, d)
    ensures MatchAt(s, a).Some? && b <= MatchAt(s, a).value
  {
    assert LocalEnd(s, a) == at;
    var e := DomainEnd(s, at + 1);
    assert b <= e;
    assert TldAt(s, d);
    var d0 := LastTld(s, at + 2, e).value;
    assert d <= d0;
  }

  /** The matcher returns the longest text the pattern matches at `a`. */
  lemma MatchAtLongest(s: string, a: nat, b: nat)
    requires a <= |s| && MatchAt(s, a) == Some(b)
    ensures MatchedIn(s, a, b)
    ensures forall b' :: b < b' <= |s| ==> !MatchedIn(s, a, b')
  {
    MatchAtSound(s, a);
    forall b' | b < b' <= |s| ensures !MatchedIn(s, a, b') {
      if MatchedIn(s, a, b') {
        var at, d :| a < at < d < b' && ShapeIn(s, a, b', at, d);
        MatchAtComplete(s, a, b', at, d);
      }
    }
  }

  /** The matcher fails at `p` exactly when no text starting at `p`
      matches the pattern. */
  lemma MatchAtNone(s: string, p: nat)
    requires p <= |s|
    ensures MatchAt(s, p).None? <==> forall b :: p <= b <= |s| ==> !MatchedIn(s, p, b)
  {
    if MatchAt(s, p).Some? {
      MatchAtSound(s, p);
    } else {
      forall b | p <= b <= |s| ensures !MatchedIn(s, p, b) {
        if MatchedIn(s, p, b) {
          var at, d :| p < at < d < b && ShapeIn(s, p, b, at, d);
          MatchAtComplete(s, p, b, at, d);
        }
      }
    }
  }

  // ---------------------------------------------------------------------
  // What `extract` returns

  /** The sentinel itself has the form of an e-mail address. */
  lemma SentinelIsEmail()
    ensures IsEmail(Sentinel)
  {
    var s := Sentinel;
    assert forall i :: 0 <= i < 7 ==> IsLocalChar(s[i]);
    assert forall i :: 7 < i < 15 ==> IsDomainChar(s[i]);
    assert forall i :: 15 < i < 19 ==> IsLetter(s[i]);
    assert ShapeIn(s, 0, 19, 7, 15);
  }

  /** A match of the pattern within `s`, read on its own, matches it. */
  lemma MatchedInSlice(s: string, a: nat, b: nat)
    requires a <= b <= |s| && MatchedIn(s, a, b)
    ensures IsEmail(s[a..b])
  {
    var at, d :| a < at < d < b && ShapeIn(s, a, b, at, d);
    var w := s[a..b];
    assert forall i :: 0 <= i < |w| ==> w[i] == s[a + i];
    assert ShapeIn(w, 0, |w|, at - a, d - a);
  }

  /** An e-mail address has exactly one `@`. */
  lemma EmailOneAt(w: string)
    requires IsEmail(w)
    ensures exists at :: 0 <= at < |w| && w[at] == '@'
    ensures forall i, j :: 0 <= i < |w| && 0 <= j < |w| && w[i] == '@' && w[j] == '@' ==> i == j
  {
    var at, d :| 0 < at < d < |w| && ShapeIn(w, 0, |w|, at, d);
    assert forall i :: 0 <= i < |w| && w[i] == '@' ==> i == at;
  }

  /** No match of the pattern starts before `a`. */
  predicate NoneBefore(s: string, a: nat) {
    forall p, e :: 0 <= p < a && p <= e <= |s| ==> !MatchedIn(s, p, e)
  }

  /** No match of the pattern starting at `a` ends after `b`. */
  predicate NoneLonger(s: string, a: nat, b: nat) {
    forall e :: b < e <= |s| ==> !MatchedIn(s, a, e)
  }

  /** `s[a..b]` is the leftmost match of the pattern, taken as long as
      it goes. */
  predicate LeftmostLongest(s: string, a: nat, b: nat) {
    a <= b <= |s| && MatchedIn(s, a, b) && NoneBefore(s, a) && NoneLonger(s, a, b)
  }

  /** Where the matcher fails, nothing matches. */
  lemma MatchAtNoneHere(s: string, p: nat, e: nat)
    requires p <= e <= |s| && MatchAt(s, p).None?
    ensures !MatchedIn(s, p, e)
  {
    if MatchedIn(s, p, e) {
      var at, d :| p < at < d < e && ShapeIn(s, p, e, at, d);
      MatchAtComplete(s, p, e, at, d);
    }
  }

  /** When the matcher fails everywhere before `a`, no match starts
      before `a`. */
  lemma NoneBeforeOfMatchAt(s: string, a: nat)
    requires a <= |s| && forall p :: 0 <= p < a ==> MatchAt(s, p).None?
    ensures NoneBefore(s, a)
  {
    forall p, e | 0 <= p < a && p <= e <= |s| ensures !MatchedIn(s, p, e) {
      MatchAtNoneHere(s, p, e);
    }
  }

  /** When no match starts before `a`, the matcher fails everywhere
      before `a`. */
  lemma MatchAtOfNoneBefore(s: string, a: nat)
    requires a <= |s| && NoneBefore(s, a)
    ensures forall p :: 0 <= p < a ==> MatchAt(s, p).None?
  {
    forall p | 0 <= p < a ensures MatchAt(s, p).None? {
      if MatchAt(s, p).Some? {
        MatchAtSound(s, p);
      }
    }
  }

  /** `FirstMatch` stops at the first place the matcher succeeds. */
  lemma FirstMatchAt(s: string, a: nat, b: nat)
    requires a <= |s| && MatchAt(s, a) == Some(b)
    requires forall p :: 0 <= p < a ==> MatchAt(s, p).None?
    ensures FirstMatch(s, 0) == Some((a, b))
  {
    var m := FirstMatch(s, 0);
    assert m.Some?;
    assert m.value.0 == a;
  }

  /** The first match `re.findall` reports is the leftmost, longest one. */
  lemma FirstMatchSound(s: string)
    requires FirstMatch(s, 0).Some?
    ensures LeftmostLongest(s, FirstMatch(s, 0).value.0, FirstMatch(s, 0).value.1)
  {
    var a, b := FirstMatch(s, 0).value.0, FirstMatch(s, 0).value.1;
    MatchAtLongest(s, a, b);
    NoneBeforeOfMatchAt(s, a);
  }

  /** The leftmost, longest match is the first match `re.findall`
      reports. */
  lemma FirstMatchComplete(s: string, a: nat, b: nat)
    requires LeftmostLongest(s, a, b)
    ensures FirstMatch(s, 0) == Some((a, b))
  {
    var at, d :| a < at < d < b && ShapeIn(s, a, b, at, d);
    MatchAtComplete(s, a, b, at, d);
    MatchAtSound(s, a);
    MatchAtOfNoneBefore(s, a);
    FirstMatchAt(s, a, b);
  }

  /** `re.findall` reports something whenever anything matches. */
  lemma FirstMatchSome(s: string, a: nat, b: nat)
    requires a <= b <= |s| && MatchedIn(s, a, b)
    ensures FirstMatch(s, 0).Some?
  {
    var at, d :| a < at < d < b && ShapeIn(s, a, b, at, d);
    MatchAtComplete(s, a, b, at, d);
  }

  /** `re.findall` reports nothing exactly when nothing in `s` matches. */
  lemma FirstMatchNone(s: string)
    ensures FirstMatch(s, 0).None? <==> forall a, b :: 0 <= a <= b <= |s| ==> !MatchedIn(s, a, b)
  {
    if FirstMatch(s, 0).Some? {
      FirstMatchSound(s);
    } else {
      forall a, b | 0 <= a <= b <= |s| ensures !MatchedIn(s, a, b) {
        MatchAtNoneHere(s, a, b);
      }
    }
  }

  /** Blank text (`not text.strip()`) gives the sentinel. */
  lemma ExtractBlank(text: string)
    requires IsBlank(text)
    ensures Extract(text) == Sentinel
  {
    StripEmptyIffBlank(text);
  }

  /** Text in which nothing matches gives the sentinel. */
  lemma ExtractNoMatch(text: string)
    requires forall a, b :: 0 <= a <= b <= |text| ==> !MatchedIn(text, a, b)
    ensures Extract(text) == Sentinel
  {
    FirstMatchNone(text);
  }

  /** A text without `@` gives the sentinel. */
  lemma ExtractNoAt(text: string)
    requires '@' !in text
    ensures Extract(text) == Sentinel
  {
    ExtractNoMatch(text);
  }

  /** Non-blank text gives its leftmost, longest match. */
  lemma ExtractLeftmostLongest(text: string, a: nat, b: nat)
    requires !IsBlank(text) && LeftmostLongest(text, a, b)
    ensures Extract(text) == text[a..b]
  {
    StripEmptyIffBlank(text);
    FirstMatchComplete(text, a, b);
  }

  /** When anything in non-blank text matches, the result is the
      leftmost, longest match. */
  lemma ExtractFound(text: string, a: nat, b: nat)
    requires !IsBlank(text) && a <= b <= |text| && MatchedIn(text, a, b)
    ensures exists a': nat, b': nat :: LeftmostLongest(text, a', b') && Extract(text) == text[a'..b']
  {
    StripEmptyIffBlank(text);
    FirstMatchSome(text, a, b);
    FirstMatchSound(text);
    var a', b' := FirstMatch(text, 0).value.0, FirstMatch(text, 0).value.1;
    assert Extract(text) == text[a'..b'];
  }

  /** What `re.findall` reports first has the form of an e-mail
      address. */
  lemma FirstFoundIsEmail(s: string)
    requires FirstFound(s).Some?
    ensures IsEmail(FirstFound(s).value)
  {
    var a, b := FirstMatch(s, 0).value.0, FirstMatch(s, 0).value.1;
    MatchAtSound(s, a);
    MatchedInSlice(s, a, b);
  }

  /** What `re.findall` reports first occurs in the text. */
  lemma FirstFoundOccurs(s: string)
    requires FirstFound(s).Some?
    ensures IsSubstring(FirstFound(s).value, s)
  {
    var a, b := FirstMatch(s, 0).value.0, FirstMatch(s, 0).value.1;
    assert OccursAt(s[a..b], s, a);
  }

  // ---------------------------------------------------------------------
  // Scenarios

  /** A match read on its own is a match in any context. */
  lemma ShapeShift(x: string, y: string, z: string, at: nat, d: nat)
    requires ShapeIn(y, 0, |y|, at, d)
    ensures ShapeIn(x + y + z, |x|, |x| + |y|, |x| + at, |x| + d)
  {
    var s, a := x + y + z, |x|;
    forall i | 0 <= i < |y| ensures s[a + i] == y[i] {
    }
    forall i | a <= i < a + at ensures IsLocalChar(s[i]) {
      assert s[i] == y[i - a];
    }
    forall i | a + at < i < a + d ensures IsDomainChar(s[i]) {
      assert s[i] == y[i - a];
    }
    forall i | a + d < i < a + |y| ensures IsLetter(s[i]) {
      assert s[i] == y[i - a];
    }
  }

  /** The local part of a match is the whole run of local characters
      at its start. */
  lemma ShapeLocalEnd(s: string, a: nat, b: nat, at: nat, d: nat)
    ensures ShapeIn(s, a, b, at, d) ==> LocalEnd(s, a) == at
  {
  }

  /** Nothing before an address `y` starts a match when nothing there
      has an `@` and the character just before `y` cannot be part of a
      local part. */
  lemma ContextNoneBefore(x: string, y: string, z: string)
    requires '@' !in x && (x == "" || !IsLocalChar(x[|x| - 1]))
    ensures NoneBefore(x + y + z, |x|)
  {
    var s := x + y + z;
    forall p, e | 0 <= p < |x| && p <= e <= |s| ensures !MatchedIn(s, p, e) {
      assert forall i :: 0 <= i < |x| ==> s[i] == x[i] && x[i] != '@';
      assert s[|x| - 1] == x[|x| - 1];
    }
  }

  /** A match at the start of an address `y` cannot run past it when the
      character after `y` cannot be part of a domain. */
  lemma ContextNoneLonger(x: string, y: string, z: string, at: nat, d: nat)
    requires ShapeIn(x + y + z, |x|, |x| + |y|, at, d)
    requires z == "" || !IsDomainChar(z[0])
    ensures NoneLonger(x + y + z, |x|, |x| + |y|)
  {
    var s, a, b := x + y + z, |x|, |x| + |y|;
    ShapeLocalEnd(s, a, b, at, d);
    forall e | b < e <= |s| ensures !MatchedIn(s, a, e) {
      assert s[b] == z[0];
      forall at', d' | a < at' < d' < e ensures !ShapeIn(s, a, e, at', d') {
        ShapeLocalEnd(s, a, e, at', d');
      }
    }
  }

  /** An address `y` set off by a character before it that cannot end
      a local part and a character after it that cannot continue a domain
      is what `extract` returns when nothing before it has an `@`. */
  lemma EmailInContext(x: string, y: string, z: string)
    requires '@' !in x && (x == "" || !IsLocalChar(x[|x| - 1]))
    requires IsEmail(y)
    requires z == "" || !IsDomainChar(z[0])
    ensures Extract(x + y + z) == y
  {
    var s := x + y + z;
    var a, b := |x|, |x| + |y|;
    var at, d :| 0 < at < d < |y| && ShapeIn(y, 0, |y|, at, d);
    ShapeShift(x, y, z, at, d);
    assert !IsBlank(s) by {
      assert IsLocalChar(s[a]);
    }
    ContextNoneBefore(x, y, z);
    ContextNoneLonger(x, y, z, a + at, a + d);
    ExtractLeftmostLongest(s, a, b);
    assert s[a..b] == y;
  }

  /** `john.doe@example.com` has the form of an address. */
  lemma JohnDoeIsEmail()
    ensures IsEmail("john.doe@example.com")
  {
    var y := "john.doe@example.com";
    assert forall i :: 0 <= i < 8 ==> IsLocalChar(y[i]);
    assert forall i :: 8 < i < 16 ==> IsDomainChar(y[i]);
    assert forall i :: 16 < i < 20 ==> IsLetter(y[i]);
    assert ShapeIn(y, 0, 20, 8, 16);
  }

  /** `john@example.com` has the form of an address. */
  lemma JohnIsEmail()
    ensures IsEmail("john@example.com")
  {
    var y := "john@example.com";
    assert forall i :: 0 <= i < 4 ==> IsLocalChar(y[i]);
    assert forall i :: 4 < i < 12 ==> IsDomainChar(y[i]);
    assert forall i :: 12 < i < 16 ==> IsLetter(y[i]);
    assert ShapeIn(y, 0, 16, 4, 12);
  }

  /** `jane.doe+resume@company-name.co.uk` has the form of an address. */
  lemma JaneDoeIsEmail()
    ensures IsEmail("jane.doe+resume@company-name.co.uk")
  {
    var y := "jane.doe+resume@company-name.co.uk";
    assert forall i :: 0 <= i < 15 ==> IsLocalChar(y[i]);
    assert forall i :: 15 < i < 31 ==> IsDomainChar(y[i]);
    assert forall i :: 31 < i < 34 ==> IsLetter(y[i]);
    assert ShapeIn(y, 0, 34, 15, 31);
  }

  /** `"Contact me at john.doe@example.com for more info"` gives
      `"john.doe@example.com"`. */
  lemma ScenarioBasic()
    ensures Extract("Contact me at " + "john.doe@example.com" + " for more info") == "john.doe@example.com"
  {
    var x := "Contact me at ";
    assert '@' !in x && x[|x| - 1] == ' ';
    assert " for more info"[0] == ' ';
    JohnDoeIsEmail();
    EmailInContext(x, "john.doe@example.com", " for more info");
  }

  /** Of two addresses, the first is returned. */
  lemma ScenarioFirstOfTwo()
    ensures Extract("" + "john@example.com" + " or jane@example.com") == "john@example.com"
  {
    assert " or jane@example.com"[0] == ' ';
    JohnIsEmail();
    EmailInContext("", "john@example.com", " or jane@example.com");
  }

  /** The domain part backs off only to the last dot: the whole of
      `jane.doe+resume@company-name.co.uk` is returned. */
  lemma ScenarioSubdomains()
    ensures Extract("Email: " + "jane.doe+resume@company-name.co.uk" + "") == "jane.doe+resume@company-name.co.uk"
  {
    var x := "Email: ";
    assert '@' !in x && x[|x| - 1] == ' ';
    JaneDoeIsEmail();
    EmailInContext(x, "jane.doe+resume@company-name.co.uk", "");
  }

  /** `"No email address here"` gives the sentinel. */
  lemma ScenarioNoEmail()
    ensures Extract("No email address here") == Sentinel
  {
    assert '@' !in "No email address here";
    ExtractNoAt("No email address here");
  }
}

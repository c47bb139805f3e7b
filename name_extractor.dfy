/** `NameExtractor.extract`: the candidate's name is the first of the first
    five non-empty lines that looks like a capitalised name; failing that,
    a cleaned-up first line (or second line, when the first looks like an
    e-mail address), unless it looks like something else; failing that,
    `"Unknown"`. */
module NameExtractor {
  import opened Wrappers
  import opened Strings

  // ---------------------------------------------------------------------
  // The two name patterns, read position by position as the regular
  // expressions match them. Every repetition in them is followed by a
  // character its class excludes, so the greedy runs never back off and
  // each recogniser below is deterministic.

  /** `[A-Z][a-z]+` as a whole word. */
  predicate IsCapWord(w: string) {
    |w| >= 2 && IsUpper(w[0]) && forall i :: 1 <= i < |w| ==> IsLower(w[i])
  }

  predicate AllCapWords(ws: seq<string>) {
    ws == [] || (IsCapWord(ws[0]) && AllCapWords(ws[1..]))
  }

  /** `[A-Z]\.?` as a whole word: a capital initial, with or without a period. */
  predicate IsInitial(w: string) {
    (|w| == 1 || (|w| == 2 && w[1] == '.')) && IsUpper(w[0])
  }

  /** The end of the run of `[a-z]` that starts at `i`. */
  function LowerEnd(s: string, i: nat): (j: nat)
    requires i <= |s|
    ensures i <= j <= |s|
    ensures j < |s| ==> !IsLower(s[j])
    ensures i < |s| && IsLower(s[i]) ==> j > i
    decreases |s| - i
  {
    if i < |s| && IsLower(s[i]) then LowerEnd(s, i + 1) else i
  }

  lemma {:induction false} LowerEndAt(s: string, i: nat, k: nat)
    requires i <= k && k < |s| && i <= |s| && k < LowerEnd(s, i)
    ensures IsLower(s[k])
    decreases |s| - i
  {
    if k > i {
      LowerEndAt(s, i + 1, k);
    }
  }

  /** The end of the `[A-Z][a-z]+` that starts at `i`, or `i` when none does. */
  function CapWordEnd(s: string, i: nat): (j: nat)
    requires i <= |s|
    ensures i <= j <= |s|
    ensures j > i ==> j >= i + 2 && IsUpper(s[i])
    ensures j > i && j < |s| ==> !IsLower(s[j])
  {
    if i + 1 < |s| && IsUpper(s[i]) && IsLower(s[i + 1]) then LowerEnd(s, i + 1) else i
  }

  /** From `i` to the end, exactly `k` repetitions of `(?:\s+[A-Z][a-z]+)`. */
  predicate Repeats(s: string, i: nat, k: nat)
    requires i <= |s|
    decreases k
  {
    if k == 0 then i == |s|
    else
      var m := SkipSpaces(s, i);
      var n := CapWordEnd(s, m);
      m > i && n > m && Repeats(s, n, k - 1)
  }

  /** `re.match(r'^([A-Z][a-z]+(?:\s+[A-Z][a-z]+){1,3})$', s)` */
  predicate MatchesStrict(s: string) {
    var n := CapWordEnd(s, 0);
    n > 0 && (Repeats(s, n, 1) || Repeats(s, n, 2) || Repeats(s, n, 3))
  }

  /** From `i` to the end, `(?:\s+[A-Z][a-z]+)+$` */
  predicate RepeatedWords(s: string, i: nat)
    requires i <= |s|
    decreases |s| - i
  {
    var m := SkipSpaces(s, i);
    var n := CapWordEnd(s, m);
    m > i && n > m && (n == |s| || RepeatedWords(s, n))
  }

  /** From `i` to the end, `(?:\s+[A-Z]\.?\s*)(?:\s+[A-Z][a-z]+)+$`. The
      `\s*` before the `\s+` adds nothing: together they are one `\s+`. */
  predicate InitialThenWords(s: string, i: nat)
    requires i <= |s|
  {
    var m := SkipSpaces(s, i);
    && i < m < |s|
    && IsUpper(s[m])
    && (|| RepeatedWords(s, m + 1)
        || (m + 1 < |s| && s[m + 1] == '.' && RepeatedWords(s, m + 2)))
  }

  /** `re.match(r'^([A-Z][a-z]+(?:\s+[A-Z]\.?\s*)?(?:\s+[A-Z][a-z]+)+)$', s)`:
      the optional initial is tried first, and the reading without it when
      that fails. */
  predicate MatchesAlt(s: string) {
    var n := CapWordEnd(s, 0);
    n > 0 && (InitialThenWords(s, n) || RepeatedWords(s, n))
  }

  /** One of the two patterns accepts the line. */
  predicate MatchesName(s: string) {
    MatchesStrict(s) || MatchesAlt(s)
  }

  // ---------------------------------------------------------------------
  // Words and the capitalised words the patterns read

  /** Non-empty, with no whitespace at either end, as a stripped line is. */
  predicate Unpadded(s: string) {
    s != "" && !IsSpace(s[0]) && !IsSpace(s[|s| - 1])
  }

  /** What `Repeats` and `RepeatedWords` read from `i`: nothing, or
      whitespace, then capitalised words, up to a non-space end. */
  predicate TailForm(s: string, i: nat)
    requires i <= |s|
  {
    i == |s| || (IsSpace(s[i]) && !IsSpace(s[|s| - 1]) && AllCapWords(WordsFrom(s, i)))
  }

  /** What `CapWordEnd` reads is a capitalised word. */
  lemma CapWordLetters(s: string, p: nat)
    requires p <= |s| && CapWordEnd(s, p) > p
    ensures IsCapWord(s[p..CapWordEnd(s, p)])
  {
    var w := s[p..CapWordEnd(s, p)];
    forall q | 1 <= q < |w| ensures IsLower(w[q]) {
      LowerEndAt(s, p + 1, p + q);
    }
  }

  /** A run of `[a-z]` ends the word it is in exactly when whitespace or the
      end follows it. */
  lemma {:induction false} LowerEndWord(s: string, i: nat)
    requires i <= |s|
    ensures var j := LowerEnd(s, i); (j == |s| || IsSpace(s[j])) ==> WordEnd(s, i) == j
    ensures var j := LowerEnd(s, i); (j < |s| && !IsSpace(s[j])) ==> WordEnd(s, i) > j
    decreases |s| - i
  {
    if i < |s| && IsLower(s[i]) {
      LowerEndWord(s, i + 1);
    }
  }

  /** The capitalised word at `p` against the word at `p`. */
  lemma CapWordWord(s: string, p: nat)
    requires p <= |s|
    ensures var n := CapWordEnd(s, p); n > p && (n == |s| || IsSpace(s[n])) ==> WordEnd(s, p) == n
    ensures var n := CapWordEnd(s, p); n > p && n < |s| && !IsSpace(s[n]) ==> WordEnd(s, p) > n
  {
    if CapWordEnd(s, p) > p {
      LowerEndWord(s, p + 1);
    }
  }

  /** The word at `p` is a capitalised word exactly when `CapWordEnd` reads
      one there that whitespace or the end follows. */
  lemma WordAtCap(s: string, p: nat)
    requires p < |s| && !IsSpace(s[p])
    ensures var n := CapWordEnd(s, p);
      IsCapWord(s[p..WordEnd(s, p)]) <==> n > p && (n == |s| || IsSpace(s[n]))
  {
    var n, e := CapWordEnd(s, p), WordEnd(s, p);
    var w := s[p..e];
    CapWordWord(s, p);
    if n > p {
      CapWordLetters(s, p);
      if n < |s| && !IsSpace(s[n]) {
        assert w[n - p] == s[n];
      }
    } else if |w| >= 2 {
      assert w[0] == s[p] && w[1] == s[p + 1];
    }
  }

  /** One well-formed repetition at `i`: whitespace, then a capitalised
      word that whitespace or the end follows. */
  predicate Step(s: string, i: nat)
    requires i <= |s|
  {
    var m := SkipSpaces(s, i);
    var n := CapWordEnd(s, m);
    i < m && n > m && (n == |s| || IsSpace(s[n]))
  }

  /** The words from a repetition on: its capitalised word, then the rest. */
  lemma StepWords(s: string, i: nat)
    requires i <= |s| && Step(s, i)
    ensures var m := SkipSpaces(s, i); var n := CapWordEnd(s, m);
      && WordsFrom(s, i) == [s[m..n]] + WordsFrom(s, n)
      && IsCapWord(s[m..n])
      && IsSpace(s[i])
  {
    var m := SkipSpaces(s, i);
    WordsFromSkip(s, i);
    CapWordWord(s, m);
    CapWordLetters(s, m);
    SkipSpacesAt(s, i, i);
  }

  /** A capitalised word in front of the words from `n`. */
  lemma TailCons(s: string, i: nat, n: nat, x: string)
    requires i < n <= |s| && IsSpace(s[i]) && IsCapWord(x)
    requires WordsFrom(s, i) == [x] + WordsFrom(s, n)
    requires n == |s| ==> !IsSpace(s[n - 1])
    requires n < |s| ==> IsSpace(s[n])
    ensures TailForm(s, i) <==> TailForm(s, n)
    ensures |WordsFrom(s, i)| == 1 + |WordsFrom(s, n)|
  {
    var ws := [x] + WordsFrom(s, n);
    assert ws[1..] == WordsFrom(s, n);
    assert AllCapWords(ws) == AllCapWords(WordsFrom(s, n));
    if n == |s| {
      assert WordsFrom(s, n) == [];
    }
  }

  /** A repetition keeps `TailForm` and adds one word. */
  lemma StepTail(s: string, i: nat)
    requires i <= |s| && Step(s, i)
    ensures var n := CapWordEnd(s, SkipSpaces(s, i));
      && (TailForm(s, i) <==> TailForm(s, n))
      && |WordsFrom(s, i)| == 1 + |WordsFrom(s, n)|
  {
    var m := SkipSpaces(s, i);
    var n := CapWordEnd(s, m);
    StepWords(s, i);
    if n == |s| {
      LowerEndAt(s, m + 1, n - 1);
    }
    TailCons(s, i, n, s[m..n]);
  }

  /** A text that starts with a non-space character is no repetition. */
  lemma Glued(s: string, n: nat, k: nat)
    requires n < |s| && !IsSpace(s[n])
    ensures !Repeats(s, n, k) && !RepeatedWords(s, n)
  {
  }

  /** No repetition at `i`, where the text goes on: no `TailForm` either. */
  lemma NoStep(s: string, i: nat, k: nat)
    requires i < |s| && !Step(s, i)
    ensures !TailForm(s, i) && !RepeatedWords(s, i) && !Repeats(s, i, k)
  {
    var m := SkipSpaces(s, i);
    if m == |s| {
      SkipSpacesAt(s, i, |s| - 1);
    } else if m > i {
      NoStepWord(s, i, k);
    }
  }

  /** Whitespace, then a word that the repetition does not read. */
  lemma NoStepWord(s: string, i: nat, k: nat)
    requires i < |s| && !Step(s, i)
    requires i < SkipSpaces(s, i) < |s|
    ensures !TailForm(s, i) && !RepeatedWords(s, i) && !Repeats(s, i, k)
  {
    var m := SkipSpaces(s, i);
    var n := CapWordEnd(s, m);
    WordsFromSkip(s, i);
    WordAtCap(s, m);
    assert WordsFrom(s, m)[0] == s[m..WordEnd(s, m)];
    if n > m && k > 0 {
      Glued(s, n, k - 1);
    }
  }

  /** `k` repetitions read exactly a `TailForm` of `k` words. */
  lemma {:induction false} RepeatsTokens(s: string, i: nat, k: nat)
    requires i <= |s|
    ensures Repeats(s, i, k) <==> TailForm(s, i) && |WordsFrom(s, i)| == k
    decreases k
  {
    if i < |s| {
      if !Step(s, i) {
        NoStep(s, i, k);
      } else {
        var n := CapWordEnd(s, SkipSpaces(s, i));
        StepTail(s, i);
        if k > 0 {
          RepeatsTokens(s, n, k - 1);
        }
      }
    }
  }

  /** One or more repetitions read exactly a non-empty `TailForm`. */
  lemma {:induction false} RepeatedWordsTokens(s: string, i: nat)
    requires i <= |s|
    ensures RepeatedWords(s, i) <==> i < |s| && TailForm(s, i)
    decreases |s| - i
  {
    if i < |s| {
      if !Step(s, i) {
        NoStep(s, i, 0);
      } else {
        var n := CapWordEnd(s, SkipSpaces(s, i));
        StepTail(s, i);
        if n < |s| {
          RepeatedWordsTokens(s, n);
        }
      }
    }
  }

  /** A text starting with a non-space: reading a capitalised word and then
      a `TailForm` is reading capitalised words only, to a non-space end. */
  lemma FirstWord(s: string)
    requires s != "" && !IsSpace(s[0])
    ensures var n := CapWordEnd(s, 0);
      (n > 0 && TailForm(s, n)) <==> (!IsSpace(s[|s| - 1]) && AllCapWords(SplitWs(s)))
    ensures var n := CapWordEnd(s, 0);
      n > 0 && TailForm(s, n) ==> SplitWs(s) == [s[0..n]] + WordsFrom(s, n) && IsCapWord(s[0..n])
  {
    var n, e := CapWordEnd(s, 0), WordEnd(s, 0);
    WordAtCap(s, 0);
    CapWordWord(s, 0);
    var w := SplitWs(s);
    assert w == [s[0..e]] + WordsFrom(s, e);
    assert w[1..] == WordsFrom(s, e);
    if n > 0 && n == |s| {
      LowerEndAt(s, 1, n - 1);
    }
  }

  /** A text with a non-space character at or after `i` has a word there. */
  lemma HasWord(s: string, i: nat)
    requires i < |s| && !IsSpace(s[|s| - 1])
    ensures WordsFrom(s, i) != []
  {
    WordsFromEmpty(s, i);
  }

  // ---------------------------------------------------------------------
  // The patterns in terms of words

  /** The strict pattern accepts exactly the unpadded lines of two to four
      capitalised words. */
  lemma StrictTokens(s: string)
    ensures MatchesStrict(s) <==> Unpadded(s) && 2 <= |SplitWs(s)| <= 4 && AllCapWords(SplitWs(s))
  {
    if s != "" && !IsSpace(s[0]) {
      var n := CapWordEnd(s, 0);
      FirstWord(s);
      RepeatsTokens(s, n, 1);
      RepeatsTokens(s, n, 2);
      RepeatsTokens(s, n, 3);
    }
  }

  /** The reading without the initial: two or more capitalised words. */
  lemma AltWordsTokens(s: string)
    requires s != "" && !IsSpace(s[0])
    ensures var n := CapWordEnd(s, 0);
      (n > 0 && RepeatedWords(s, n)) <==> Unpadded(s) && |SplitWs(s)| >= 2 && AllCapWords(SplitWs(s))
  {
    var n := CapWordEnd(s, 0);
    FirstWord(s);
    RepeatedWordsTokens(s, n);
    if n > 0 && n < |s| && TailForm(s, n) {
      HasWord(s, n);
    }
  }

  /** The word at `m` is a capital that whitespace follows, or a capital and
      a period that whitespace follows. */
  lemma InitialWordAt(s: string, m: nat, d: nat)
    requires m + d < |s| && (d == 1 || (d == 2 && s[m + 1] == '.'))
    requires IsUpper(s[m]) && IsSpace(s[m + d])
    ensures WordEnd(s, m) == m + d
    ensures IsInitial(s[m..m + d])
    ensures WordsFrom(s, m) == [s[m..m + d]] + WordsFrom(s, m + d)
  {
    assert WordEnd(s, m) == WordEnd(s, m + 1);
    if d == 2 {
      assert WordEnd(s, m + 1) == WordEnd(s, m + 2);
    }
  }

  /** The first word and the words after it. */
  lemma ConsParts(w: seq<string>, a: string, t: seq<string>)
    requires w == [a] + t && |t| >= 1
    ensures |w| == 1 + |t| && w[0] == a && w[1] == t[0] && w[1..] == t && w[2..] == t[1..]
  {
    assert w[1..] == t;
  }

  /** A capitalised word that whitespace follows, at the start: the first word. */
  lemma HeadWord(s: string, n: nat)
    requires n == CapWordEnd(s, 0) && 0 < n < |s| && IsSpace(s[n])
    ensures SplitWs(s) == [s[0..n]] + WordsFrom(s, n) && IsCapWord(s[0..n])
  {
    CapWordWord(s, 0);
    CapWordLetters(s, 0);
  }

  /** The reading with an initial, from the pattern to the words. */
  lemma AltInitialForward(s: string)
    requires s != "" && !IsSpace(s[0])
    requires CapWordEnd(s, 0) > 0 && InitialThenWords(s, CapWordEnd(s, 0))
    ensures Unpadded(s)
    ensures var w := SplitWs(s);
      |w| >= 3 && IsCapWord(w[0]) && IsInitial(w[1]) && AllCapWords(w[2..])
  {
    var n := CapWordEnd(s, 0);
    InitialTail(s, n);
    HeadWord(s, n);
    ConsParts(SplitWs(s), s[0..n], WordsFrom(s, n));
  }

  /** What follows the first word in the reading with an initial: whitespace,
      the initial, then capitalised words to a non-space end. */
  lemma InitialTail(s: string, n: nat)
    requires n < |s| && InitialThenWords(s, n)
    ensures IsSpace(s[n]) && !IsSpace(s[|s| - 1])
    ensures var t := WordsFrom(s, n); |t| >= 2 && IsInitial(t[0]) && AllCapWords(t[1..])
  {
    var m := SkipSpaces(s, n);
    SkipSpacesAt(s, n, n);
    WordsFromSkip(s, n);
    if RepeatedWords(s, m + 1) {
      InitialForward(s, m, 1);
      ConsParts(WordsFrom(s, m), s[m..m + 1], WordsFrom(s, m + 1));
    } else {
      InitialForward(s, m, 2);
      ConsParts(WordsFrom(s, m), s[m..m + 2], WordsFrom(s, m + 2));
    }
  }

  /** The initial at `m` and the words after it, from the pattern. */
  lemma InitialForward(s: string, m: nat, d: nat)
    requires m < |s| && IsUpper(s[m]) && (d == 1 || d == 2)
    requires m + d <= |s| && RepeatedWords(s, m + d)
    requires d == 2 ==> m + 1 < |s| && s[m + 1] == '.'
    ensures !IsSpace(s[|s| - 1])
    ensures WordsFrom(s, m) == [s[m..m + d]] + WordsFrom(s, m + d)
    ensures IsInitial(s[m..m + d]) && WordsFrom(s, m + d) != [] && AllCapWords(WordsFrom(s, m + d))
  {
    RepeatedWordsTokens(s, m + d);
    HasWord(s, m + d);
    InitialWordAt(s, m, d);
  }

  /** The reading with an initial, from the words to the pattern. */
  lemma AltInitialBackward(s: string)
    requires Unpadded(s)
    requires var w := SplitWs(s);
      |w| >= 3 && IsCapWord(w[0]) && IsInitial(w[1]) && AllCapWords(w[2..])
    ensures CapWordEnd(s, 0) > 0 && InitialThenWords(s, CapWordEnd(s, 0))
  {
    var w := SplitWs(s);
    var n, e := CapWordEnd(s, 0), WordEnd(s, 0);
    assert w == [s[0..e]] + WordsFrom(s, e);
    WordAtCap(s, 0);
    CapWordWord(s, 0);
    assert WordsFrom(s, n) == w[1..];
    InitialBackward(s, n, w[1..]);
  }

  /** What follows the first word, from the initial and the words to the
      pattern. */
  lemma InitialBackward(s: string, n: nat, tw: seq<string>)
    requires 0 < n < |s| && !IsSpace(s[|s| - 1])
    requires WordsFrom(s, n) == tw
    requires |tw| >= 2 && IsInitial(tw[0]) && AllCapWords(tw[1..])
    requires IsSpace(s[n])
    ensures InitialThenWords(s, n)
  {
    var m := SkipSpaces(s, n);
    WordsFromSkip(s, n);
    var e := WordEnd(s, m);
    assert WordsFrom(s, m) == [s[m..e]] + WordsFrom(s, e);
    assert tw[0] == s[m..e] && tw[1..] == WordsFrom(s, e);
    assert s[m] == tw[0][0];
    if e - m == 2 {
      assert s[m + 1] == tw[0][1];
    }
    RepeatedWordsTokens(s, e);
  }

  /** The alternative pattern accepts exactly the unpadded lines of a
      capitalised word, then optionally a capital initial with or without a
      period, then one or more capitalised words. */
  lemma AltTokens(s: string)
    ensures MatchesAlt(s) <==>
      Unpadded(s) &&
      var w := SplitWs(s);
      && |w| >= 2
      && IsCapWord(w[0])
      && (AllCapWords(w[1..]) || (|w| >= 3 && IsInitial(w[1]) && AllCapWords(w[2..])))
  {
    if s != "" && !IsSpace(s[0]) {
      var n := CapWordEnd(s, 0);
      var w := SplitWs(s);
      AltWordsTokens(s);
      if w != [] {
        assert AllCapWords(w) <==> IsCapWord(w[0]) && AllCapWords(w[1..]);
      }
      if n > 0 && InitialThenWords(s, n) {
        AltInitialForward(s);
      }
      if Unpadded(s) && |w| >= 3 && IsCapWord(w[0]) && IsInitial(w[1]) && AllCapWords(w[2..]) {
        AltInitialBackward(s);
      }
    }
  }

  /** Every line the strict pattern accepts, the alternative pattern accepts
      as well. */
  lemma StrictWithinAlt(s: string)
    ensures MatchesStrict(s) ==> MatchesAlt(s)
  {
    StrictTokens(s);
    AltTokens(s);
    if MatchesStrict(s) {
      var w := SplitWs(s);
      assert AllCapWords(w) == (IsCapWord(w[0]) && AllCapWords(w[1..]));
    }
  }

  /** A line accepted by either pattern consists of letters, whitespace and
      periods only. */
  lemma MatchedChars(s: string)
    requires MatchesName(s)
    ensures forall q :: 0 <= q < |s| ==> NameChar(s[q])
  {
    StrictWithinAlt(s);
    var n := CapWordEnd(s, 0);
    CapWordChars(s, 0);
    if InitialThenWords(s, n) {
      InitialThenWordsChars(s, n);
    } else {
      RepeatedWordsChars(s, n);
    }
  }

  lemma InitialThenWordsChars(s: string, n: nat)
    requires n <= |s| && InitialThenWords(s, n)
    ensures forall q :: n <= q < |s| ==> NameChar(s[q])
  {
    var m := SkipSpaces(s, n);
    var d := if RepeatedWords(s, m + 1) then 1 else 2;
    RepeatedWordsChars(s, m + d);
    forall q | n <= q < m ensures IsSpace(s[q]) {
      SkipSpacesAt(s, n, q);
    }
  }

  /** `[A-Za-z]`, `\s` or `.` */
  predicate NameChar(c: char) {
    IsLetter(c) || IsSpace(c) || c == '.'
  }

  lemma CapWordChars(s: string, p: nat)
    requires p <= |s|
    ensures forall q :: p <= q < CapWordEnd(s, p) ==> IsLetter(s[q])
  {
    forall q | p < q < CapWordEnd(s, p) ensures IsLetter(s[q]) {
      LowerEndAt(s, p + 1, q);
    }
  }

  lemma SpacesChars(s: string, i: nat)
    requires i <= |s|
    ensures forall q :: i <= q < SkipSpaces(s, i) ==> IsSpace(s[q])
  {
    forall q | i <= q < SkipSpaces(s, i) ensures IsSpace(s[q]) {
      SkipSpacesAt(s, i, q);
    }
  }

  lemma {:induction false} RepeatedWordsChars(s: string, i: nat)
    requires i <= |s| && RepeatedWords(s, i)
    ensures forall q :: i <= q < |s| ==> NameChar(s[q])
    decreases |s| - i
  {
    var m := SkipSpaces(s, i);
    var n := CapWordEnd(s, m);
    SpacesChars(s, i);
    CapWordChars(s, m);
    if n < |s| {
      RepeatedWordsChars(s, n);
    }
  }

  // ---------------------------------------------------------------------
  // The lines of the text

  /** `[l.strip() for l in parts[i..] if l.strip()]` */
  function StrippedFrom(parts: seq<string>, i: nat): (r: seq<string>)
    requires i <= |parts|
    ensures |r| <= |parts| - i
    decreases |parts| - i
  {
    if i == |parts| then []
    else
      var l := Strip(parts[i]);
      (if l == "" then [] else [l]) + StrippedFrom(parts, i + 1)
  }

  /** `[line.strip() for line in text.split('\n') if line.strip()]` */
  function Lines(text: string): seq<string> {
    StrippedFrom(Split(text, '\n'), 0)
  }

  /** The kept lines are stripped and not empty. */
  lemma {:induction false} StrippedFromUnpadded(parts: seq<string>, i: nat)
    requires i <= |parts|
    ensures forall k :: 0 <= k < |StrippedFrom(parts, i)| ==> Unpadded(StrippedFrom(parts, i)[k])
    decreases |parts| - i
  {
    if i < |parts| {
      var l := Strip(parts[i]);
      var rest := StrippedFrom(parts, i + 1);
      StrippedFromUnpadded(parts, i + 1);
      StripShape(parts[i]);
      var r := StrippedFrom(parts, i);
      forall k | 0 <= k < |r| ensures Unpadded(r[k]) {
        if l != "" && k > 0 {
          assert r[k] == rest[k - 1];
        } else if l == "" {
          assert r[k] == rest[k];
        }
      }
    }
  }

  /** No line is kept exactly when every piece is blank. */
  lemma {:induction false} StrippedFromEmpty(parts: seq<string>, i: nat)
    requires i <= |parts|
    ensures StrippedFrom(parts, i) == [] <==> forall j :: i <= j < |parts| ==> StripEnd(parts[j]) == StripStart(parts[j])
    decreases |parts| - i
  {
    if i < |parts| {
      StrippedFromEmpty(parts, i + 1);
      var l := Strip(parts[i]);
      assert |l| == StripEnd(parts[i]) - StripStart(parts[i]);
      if |l| == 0 {
        assert StrippedFrom(parts, i) == StrippedFrom(parts, i + 1);
      } else {
        assert StrippedFrom(parts, i) == [l] + StrippedFrom(parts, i + 1);
      }
    }
  }

  /** Every line is stripped and non-empty. */
  lemma LinesUnpadded(text: string)
    ensures forall k :: 0 <= k < |Lines(text)| ==> Unpadded(Lines(text)[k])
  {
    StrippedFromUnpadded(Split(text, '\n'), 0);
  }

  /** There are no lines exactly when the text is whitespace only. */
  lemma LinesEmptyIffBlank(text: string)
    ensures Lines(text) == [] <==> IsBlank(text)
  {
    var parts := Split(text, '\n');
    SplitJoin(text, '\n');
    JoinBlank("\n", parts);
    StrippedFromEmpty(parts, 0);
    forall j | 0 <= j < |parts|
      ensures StripEnd(parts[j]) == StripStart(parts[j]) <==> IsBlank(parts[j])
    {
      StripEmptyIffBlank(parts[j]);
    }
  }

  /** The lines that the patterns are tried on: `lines[:5]`. */
  function Head(lines: seq<string>): (h: seq<string>)
    ensures |h| <= 5 && |h| <= |lines| && h == lines[..|h|]
    ensures |h| == |lines| || |h| == 5
  {
    if |lines| <= 5 then lines else lines[..5]
  }

  /** The first line from `i` on that either pattern accepts. */
  function FirstNameFrom(lines: seq<string>, i: nat): Option<string>
    requires i <= |lines|
    decreases |lines| - i
  {
    if i == |lines| then None
    else if MatchesName(lines[i]) then Some(lines[i])
    else FirstNameFrom(lines, i + 1)
  }

  /** The search returns the first accepted line. */
  lemma {:induction false} FirstNameFound(lines: seq<string>, i: nat, k: nat)
    requires i <= k < |lines| && MatchesName(lines[k])
    requires forall j :: i <= j < k ==> !MatchesName(lines[j])
    ensures FirstNameFrom(lines, i) == Some(lines[k])
    decreases k - i
  {
    if i < k {
      FirstNameFound(lines, i + 1, k);
    }
  }

  /** The search fails exactly when no line is accepted. */
  lemma {:induction false} FirstNameNone(lines: seq<string>, i: nat)
    requires i <= |lines|
    ensures FirstNameFrom(lines, i) == None <==> forall j :: i <= j < |lines| ==> !MatchesName(lines[j])
    decreases |lines| - i
  {
    if i < |lines| {
      FirstNameNone(lines, i + 1);
      if MatchesName(lines[i]) {
        assert FirstNameFrom(lines, i) == Some(lines[i]);
      } else {
        assert FirstNameFrom(lines, i) == FirstNameFrom(lines, i + 1);
        assert (forall j :: i <= j < |lines| ==> !MatchesName(lines[j]))
          <==> (forall j :: i + 1 <= j < |lines| ==> !MatchesName(lines[j]));
      }
    }
  }

  // ---------------------------------------------------------------------
  // The fallback

  /** The provider names of the e-mail pattern. */
  const Providers: seq<string> := ["gmail", "yahoo", "hotmail", "outlook", "mail", "email"]

  /** `p` occurs at `k`, ignoring case. */
  predicate ProviderAt(s: string, k: nat, p: string) {
    k + |p| <= |s| && Lower(s[k..k + |p|]) == p
  }

  /** `[a-zA-Z0-9._%+-]+\s*(p1|p2|...)` matches with its last local
      character at `j` and the provider name at `k`. */
  predicate EmailAt(s: string, j: nat, k: nat, providers: seq<string>) {
    && j < k <= |s|
    && IsLocalChar(s[j])
    && (forall q :: j < q < k ==> IsSpace(s[q]))
    && exists p :: p in providers && ProviderAt(s, k, p)
  }

  /** `re.search(r'[@]|[a-zA-Z0-9._%+-]+\s*(gmail|yahoo|hotmail|outlook|mail|email)', s, re.IGNORECASE)` */
  predicate EmailLike(s: string) {
    '@' in s || exists j, k | 0 <= j < k <= |s| :: EmailAt(s, j, k, Providers)
  }

  /** A `\w`, `\s` or `.` character: what the cleanup keeps. */
  predicate Kept(c: char) {
    IsWordChar(c) || IsSpace(c) || c == '.'
  }

  /** `re.sub(r'[^\w\s\.]', ' ', s)` */
  function Scrub(s: string): string {
    seq(|s|, i requires 0 <= i < |s| => if Kept(s[i]) then s[i] else ' ')
  }

  /** `' '.join(re.sub(r'[^\w\s\.]', ' ', s).split())` */
  function Tidy(s: string): string {
    Squeeze(Scrub(s))
  }

  /** `re.search(r'\d{3,}', s)` */
  predicate HasDigitRun(s: string) {
    exists i :: 0 <= i && i + 3 <= |s| && IsDigit(s[i]) && IsDigit(s[i + 1]) && IsDigit(s[i + 2])
  }

  /** `re.search(r'\..*\.', s)`: two periods with no newline between them. */
  predicate HasDotPair(s: string) {
    exists i, j :: 0 <= i < j < |s| && s[i] == '.' && s[j] == '.' && forall q :: i < q < j ==> s[q] != '\n'
  }

  const Unknown: string := "Unknown"

  /** The checks on the cleaned-up candidate (name_extractor.py:64-71). */
  function Vet(c: string): string {
    if HasDigitRun(c) || HasDotPair(c) then Unknown
    else if 0 < |c| <= 50 then c
    else Unknown
  }

  /** The first line, or the second when the first looks like an e-mail
      address, cleaned up and vetted. */
  function Fallback(lines: seq<string>): string
    requires lines != []
  {
    if EmailLike(lines[0]) then
      if |lines| > 1 then Vet(Tidy(lines[1])) else Unknown
    else Vet(Tidy(lines[0]))
  }

  /** What `NameExtractor.extract(text)` returns. */
  function NameOf(text: string): string {
    if Strip(text) == "" then Unknown
    else
      var lines := Lines(text);
      if lines == [] then Unknown
      else match FirstNameFrom(Head(lines), 0)
        case Some(l) => l
        case None => Fallback(lines)
  }

  /** `NameExtractor.extract`, step by step: the search loop over the first
      five lines, then the fallback with its reassignments of `first_line`. */
  method Extract(text: string) returns (name: string)
    ensures name == NameOf(text)
  {
    if Strip(text) == "" {
      return Unknown;
    }
    var lines := Lines(text);
    if lines == [] {
      return Unknown;
    }
    var head := Head(lines);
    var i := 0;
    while i < |head|
      invariant 0 <= i <= |head|
      invariant FirstNameFrom(head, 0) == FirstNameFrom(head, i)
    {
      if MatchesStrict(head[i]) {
        return head[i];
      }
      if MatchesAlt(head[i]) {
        return head[i];
      }
      i := i + 1;
    }
    var firstLine := lines[0];
    if EmailLike(firstLine) {
      if |lines| > 1 {
        firstLine := lines[1];
      } else {
        return Unknown;
      }
    }
    firstLine := Scrub(firstLine);
    firstLine := Squeeze(firstLine);
    if HasDigitRun(firstLine) || HasDotPair(firstLine) {
      return Unknown;
    }
    if |firstLine| <= 50 && |firstLine| > 0 {
      return firstLine;
    }
    return Unknown;
  }

  // ---------------------------------------------------------------------
  // What `extract` promises

  /** Empty or whitespace-only text gives `"Unknown"`; any other text has
      at least one line, so the `if not lines` branch is never taken. */
  lemma BlankIsUnknown(text: string)
    ensures IsBlank(text) ==> NameOf(text) == Unknown
    ensures !IsBlank(text) ==> Lines(text) != []
  {
    StripEmptyIffBlank(text);
    LinesEmptyIffBlank(text);
  }

  /** The search returns a line that a pattern accepts. */
  lemma {:induction false} FirstNameMatches(lines: seq<string>, i: nat)
    requires i <= |lines|
    ensures FirstNameFrom(lines, i).Some? ==>
      && MatchesName(FirstNameFrom(lines, i).value)
      && FirstNameFrom(lines, i).value in lines[i..]
    decreases |lines| - i
  {
    if i < |lines| && !MatchesName(lines[i]) {
      FirstNameMatches(lines, i + 1);
      assert lines[i + 1..] == lines[i..][1..];
    }
  }

  /** The first of the first five lines that either pattern accepts is the
      name, verbatim. */
  lemma FirstMatchWins(text: string, k: nat)
    requires k < 5 && k < |Lines(text)| && MatchesName(Lines(text)[k])
    requires forall j :: 0 <= j < k ==> !MatchesName(Lines(text)[j])
    ensures NameOf(text) == Lines(text)[k]
  {
    BlankIsUnknown(text);
    StripEmptyIffBlank(text);
    LinesEmptyIffBlank(text);
    FirstNameFound(Head(Lines(text)), 0, k);
  }

  /** When none of the first five lines is accepted, the fallback decides. */
  lemma NoMatchFallback(text: string)
    requires Lines(text) != []
    requires forall j :: 0 <= j < 5 && j < |Lines(text)| ==> !MatchesName(Lines(text)[j])
    ensures NameOf(text) == Fallback(Lines(text))
  {
    StripEmptyIffBlank(text);
    LinesEmptyIffBlank(text);
    FirstNameNone(Head(Lines(text)), 0);
  }

  /** Only the first five lines matter: texts that agree on them get the
      same name. */
  lemma OnlyFirstFive(t1: string, t2: string)
    requires Head(Lines(t1)) == Head(Lines(t2))
    ensures NameOf(t1) == NameOf(t2)
  {
    StripEmptyIffBlank(t1);
    StripEmptyIffBlank(t2);
    LinesEmptyIffBlank(t1);
    LinesEmptyIffBlank(t2);
    var l1, l2 := Lines(t1), Lines(t2);
    if l1 != [] && l2 != [] {
      assert l1[0] == Head(l1)[0] && l2[0] == Head(l2)[0];
      if |l1| > 1 {
        assert l1[1] == Head(l1)[1] && l2[1] == Head(l2)[1];
      }
    }
  }

  /** The cleanup leaves only `\w`, `\s` and `.` characters, keeps those in
      place, and changes nothing in a string made of them. */
  lemma ScrubProperties(s: string)
    ensures |Scrub(s)| == |s|
    ensures forall c :: c in Scrub(s) ==> Kept(c)
    ensures forall i :: 0 <= i < |s| && Kept(s[i]) ==> Scrub(s)[i] == s[i]
    ensures (forall i :: 0 <= i < |s| ==> Kept(s[i])) ==> Scrub(s) == s
  {
  }

  /** A vetted candidate is `"Unknown"` or a squeezed string of `\w`, ` `
      and `.` characters, 1 to 50 long, with no run of three digits and no
      two periods. */
  lemma VetTidy(line: string)
    ensures var r := Vet(Tidy(line));
      || r == Unknown
      || (&& IsSqueezed(r) && 0 < |r| <= 50
          && !HasDigitRun(r) && !HasDotPair(r)
          && forall c :: c in r ==> Kept(c))
  {
    var c := Scrub(line);
    ScrubProperties(line);
    SqueezeProperties(c);
  }

  /** The fallback's result has the shape `VetTidy` describes. */
  lemma FallbackShape(lines: seq<string>)
    requires lines != []
    ensures var r := Fallback(lines);
      || r == Unknown
      || (&& IsSqueezed(r) && 0 < |r| <= 50
          && !HasDigitRun(r) && !HasDotPair(r)
          && forall c :: c in r ==> Kept(c))
  {
    VetTidy(lines[0]);
    if |lines| > 1 {
      VetTidy(lines[1]);
    }
  }

  /** On a squeezed candidate, `\..*\.` finds any two periods: such a
      candidate holds no newline. */
  lemma DotPairSqueezed(s: string)
    requires IsSqueezed(s)
    ensures HasDotPair(s) <==> exists i, j :: 0 <= i < j < |s| && s[i] == '.' && s[j] == '.'
  {
    if exists i, j :: 0 <= i < j < |s| && s[i] == '.' && s[j] == '.' {
      var i, j :| 0 <= i < j < |s| && s[i] == '.' && s[j] == '.';
      assert forall q :: i < q < j ==> s[q] != '\n';
    }
  }

  /** The name is `Unknown`, a line a pattern accepts, or what the
      fallback makes of the first lines. */
  lemma NameOfCases(text: string)
    ensures var r := NameOf(text);
      || r == Unknown
      || MatchesName(r)
      || (Lines(text) != [] && r == Fallback(Lines(text)))
  {
    if Strip(text) != "" && Lines(text) != [] {
      FirstNameMatches(Head(Lines(text)), 0);
    }
  }

  /** None of the three kinds of result contains `@`. */
  lemma AtFree(r: string, lines: seq<string>)
    requires r == Unknown || MatchesName(r) || (lines != [] && r == Fallback(lines))
    ensures '@' !in r
  {
    if MatchesName(r) {
      MatchedChars(r);
      assert forall q :: 0 <= q < |r| ==> r[q] != '@';
    } else if r != Unknown {
      FallbackShape(lines);
    }
  }

  /** The name never contains `@`. */
  lemma NoAtSign(text: string)
    ensures '@' !in NameOf(text)
  {
    NameOfCases(text);
    AtFree(NameOf(text), Lines(text));
  }

  /** The provider names that the e-mail test comes down to. */
  const MailProviders: seq<string> := ["mail", "yahoo", "outlook"]

  /** `gmail`, `hotmail` and `email` end in `mail` after a letter, so the
      e-mail test needs only `@`, `mail`, `yahoo` and `outlook`. */
  lemma EmailLikeReduced(s: string)
    ensures EmailLike(s) <==>
      '@' in s || exists j, k | 0 <= j < k <= |s| :: EmailAt(s, j, k, MailProviders)
  {
    if exists j, k | 0 <= j < k <= |s| :: EmailAt(s, j, k, Providers) {
      var j, k :| 0 <= j < k <= |s| && EmailAt(s, j, k, Providers);
      ProviderToMail(s, j, k);
    }
    if exists j, k | 0 <= j < k <= |s| :: EmailAt(s, j, k, MailProviders) {
      var j, k :| 0 <= j < k <= |s| && EmailAt(s, j, k, MailProviders);
      var p :| p in MailProviders && ProviderAt(s, k, p);
      assert p in Providers;
      assert EmailAt(s, j, k, Providers);
    }
  }

  /** An e-mail-like match with any provider gives one with a provider of
      the shorter list. */
  lemma ProviderToMail(s: string, j: nat, k: nat)
    requires 0 <= j < k <= |s| && EmailAt(s, j, k, Providers)
    ensures exists j', k' | 0 <= j' < k' <= |s| :: EmailAt(s, j', k', MailProviders)
  {
    var p :| p in Providers && ProviderAt(s, k, p);
    if p == "gmail" || p == "email" {
      MailInside(s, k, p, 1);
    } else if p == "hotmail" {
      MailInside(s, k, p, 3);
    } else {
      assert p in MailProviders;
      assert EmailAt(s, j, k, MailProviders);
    }
  }

  /** A provider name whose part from `o` on is `mail`, after a letter. */
  lemma MailInside(s: string, k: nat, p: string, o: nat)
    requires ProviderAt(s, k, p) && 0 < o < |p| && p[o..] == "mail" && IsLower(p[o - 1])
    ensures EmailAt(s, k + o - 1, k + o, MailProviders)
  {
    var a := s[k..k + |p|];
    var b := s[k + o..k + |p|];
    forall i | 0 <= i < |b| ensures LowerChar(b[i]) == p[o..][i] {
      assert b[i] == a[o + i];
    }
    assert Lower(b) == "mail";
    assert ProviderAt(s, k + o, "mail");
    assert LowerChar(s[k + o - 1]) == LowerChar(a[o - 1]) == p[o - 1];
  }

  // ---------------------------------------------------------------------
  // Scenarios

  /** Lines that need no stripping are kept as they are. */
  lemma {:induction false} StrippedFromKeeps(parts: seq<string>, i: nat)
    requires i <= |parts|
    requires forall k :: i <= k < |parts| ==> Unpadded(parts[k])
    ensures StrippedFrom(parts, i) == parts[i..]
    decreases |parts| - i
  {
    if i < |parts| {
      StripKeeps(parts[i]);
      StrippedFromKeeps(parts, i + 1);
      assert parts[i..] == [parts[i]] + parts[i + 1..];
    }
  }

  /** Splitting three newline-free pieces joined by newlines gives them back. */
  lemma SplitThree(x: string, y: string, z: string)
    requires '\n' !in x && '\n' !in y && '\n' !in z
    ensures Split(x + "\n" + y + "\n" + z, '\n') == [x, y, z]
  {
    var t := x + "\n" + y + "\n" + z;
    var a, b := |x|, |x| + 1 + |y|;
    assert t[..a] == x && t[a + 1..b] == y && t[b + 1..] == z;
    forall k | 0 <= k < a ensures t[k] != '\n' {
      assert t[k] == x[k];
    }
    forall k | a < k < b ensures t[k] != '\n' {
      assert t[k] == y[k - a - 1];
    }
    forall k | b < k < |t| ensures t[k] != '\n' {
      assert t[k] == z[k - b - 1];
    }
    NextSepIs(t, '\n', 0, a);
    NextSepIs(t, '\n', a + 1, b);
    NextSepIs(t, '\n', b + 1, |t|);
    assert SplitFrom(t, '\n', b + 1) == [z];
    assert SplitFrom(t, '\n', a + 1) == [y] + [z];
    assert SplitFrom(t, '\n', 0) == [x] + [y, z];
  }

  /** Splitting two newline-free pieces joined by a newline gives them back. */
  lemma SplitTwo(x: string, y: string)
    requires '\n' !in x && '\n' !in y
    ensures Split(x + "\n" + y, '\n') == [x, y]
  {
    var t := x + "\n" + y;
    var a := |x|;
    assert t[..a] == x && t[a + 1..] == y;
    forall k | 0 <= k < a ensures t[k] != '\n' {
      assert t[k] == x[k];
    }
    forall k | a < k < |t| ensures t[k] != '\n' {
      assert t[k] == y[k - a - 1];
    }
    NextSepIs(t, '\n', 0, a);
    NextSepIs(t, '\n', a + 1, |t|);
    assert SplitFrom(t, '\n', a + 1) == [y];
    assert SplitFrom(t, '\n', 0) == [x] + [y];
  }

  /** The lines of a text of three unpadded lines. */
  lemma ThreeLines(x: string, y: string, z: string)
    requires '\n' !in x && '\n' !in y && '\n' !in z
    requires Unpadded(x) && Unpadded(y) && Unpadded(z)
    ensures Lines(x + "\n" + y + "\n" + z) == [x, y, z]
  {
    SplitThree(x, y, z);
    StrippedFromKeeps([x, y, z], 0);
  }

  /** The lines of a text of two unpadded lines. */
  lemma TwoLines(x: string, y: string)
    requires '\n' !in x && '\n' !in y
    requires Unpadded(x) && Unpadded(y)
    ensures Lines(x + "\n" + y) == [x, y]
  {
    SplitTwo(x, y);
    StrippedFromKeeps([x, y], 0);
  }

  /** The one line of a text of one unpadded line. */
  lemma OneLine(x: string)
    requires '\n' !in x && Unpadded(x)
    ensures Lines(x) == [x]
  {
    NextSepIs(x, '\n', 0, |x|);
    StrippedFromKeeps(Split(x, '\n'), 0);
  }

  /** A text of lines that need no stripping, whose first accepted line is
      line `k` of the first two. */
  lemma NameOfTwo(x: string, y: string, k: nat)
    requires '\n' !in x && '\n' !in y && Unpadded(x) && Unpadded(y)
    requires k == 0 ==> MatchesName(x)
    requires k == 1 ==> !MatchesName(x) && MatchesName(y)
    requires k <= 1
    ensures NameOf(x + "\n" + y) == [x, y][k]
  {
    TwoLines(x, y);
    FirstMatchWins(x + "\n" + y, k);
  }

  lemma NameOfThree(x: string, y: string, z: string, k: nat)
    requires '\n' !in x && '\n' !in y && '\n' !in z
    requires Unpadded(x) && Unpadded(y) && Unpadded(z)
    requires k == 0 ==> MatchesName(x)
    requires k == 1 ==> !MatchesName(x) && MatchesName(y)
    requires k <= 1
    ensures NameOf(x + "\n" + y + "\n" + z) == [x, y, z][k]
  {
    ThreeLines(x, y, z);
    FirstMatchWins(x + "\n" + y + "\n" + z, k);
  }

  /** A one-line text that looks like an e-mail address and that no
      pattern accepts. */
  lemma NameOfLoneEmail(x: string)
    requires '\n' !in x && Unpadded(x) && !MatchesName(x) && '@' in x
    ensures NameOf(x) == Unknown
  {
    OneLine(x);
    NoMatchFallback(x);
  }

  /** `"John Doe\nEmail: john@example.com\nSkills: Python, Java"` */
  lemma ScenarioBasic()
    ensures NameOf("John Doe" + "\n" + "Email: john@example.com" + "\n" + "Skills: Python, Java") == "John Doe"
  {
    assert '\n' !in "John Doe" && Unpadded("John Doe");
    assert '\n' !in "Email: john@example.com" && Unpadded("Email: john@example.com");
    assert '\n' !in "Skills: Python, Java" && Unpadded("Skills: Python, Java");
    JohnDoe();
    NameOfThree("John Doe", "Email: john@example.com", "Skills: Python, Java", 0);
  }

  /** `"Jane M. Smith\nSoftware Engineer"`: the alternative pattern reads the initial. */
  lemma ScenarioMiddleInitial()
    ensures NameOf("Jane M. Smith" + "\n" + "Software Engineer") == "Jane M. Smith"
  {
    assert '\n' !in "Jane M. Smith" && Unpadded("Jane M. Smith");
    assert '\n' !in "Software Engineer" && Unpadded("Software Engineer");
    JaneMSmith();
    NameOfTwo("Jane M. Smith", "Software Engineer", 0);
  }

  /** `""` */
  lemma ScenarioEmpty()
    ensures NameOf("") == Unknown
  {
    BlankIsUnknown("");
  }

  /** `"John Michael Smith\nDeveloper"` */
  lemma ScenarioThreeNames()
    ensures NameOf("John Michael Smith" + "\n" + "Developer") == "John Michael Smith"
  {
    assert '\n' !in "John Michael Smith" && Unpadded("John Michael Smith");
    assert '\n' !in "Developer" && Unpadded("Developer");
    JohnMichaelSmith();
    NameOfTwo("John Michael Smith", "Developer", 0);
  }

  /** `"lei.ming296 gmail.com\nLei Ming\nSoftware Engineer"`: the first line
      is no name, the second is. */
  lemma ScenarioEmailFirst()
    ensures NameOf("lei.ming296 gmail.com" + "\n" + "Lei Ming" + "\n" + "Software Engineer") == "Lei Ming"
  {
    assert '\n' !in "lei.ming296 gmail.com" && Unpadded("lei.ming296 gmail.com");
    assert '\n' !in "Lei Ming" && Unpadded("Lei Ming");
    assert '\n' !in "Software Engineer" && Unpadded("Software Engineer");
    NoName("lei.ming296 gmail.com");
    LeiMing();
    NameOfThree("lei.ming296 gmail.com", "Lei Ming", "Software Engineer", 1);
  }

  /** `"john.doe@example.com\nJohn Doe\nDeveloper"` */
  lemma ScenarioAtSign()
    ensures NameOf("john.doe@example.com" + "\n" + "John Doe" + "\n" + "Developer") == "John Doe"
  {
    assert '\n' !in "john.doe@example.com" && Unpadded("john.doe@example.com");
    assert '\n' !in "John Doe" && Unpadded("John Doe");
    assert '\n' !in "Developer" && Unpadded("Developer");
    NoName("john.doe@example.com");
    JohnDoe();
    NameOfThree("john.doe@example.com", "John Doe", "Developer", 1);
  }

  /** `"user12345\nJane Smith\nEngineer"` */
  lemma ScenarioNumbers()
    ensures NameOf("user12345" + "\n" + "Jane Smith" + "\n" + "Engineer") == "Jane Smith"
  {
    assert '\n' !in "user12345" && Unpadded("user12345");
    assert '\n' !in "Jane Smith" && Unpadded("Jane Smith");
    assert '\n' !in "Engineer" && Unpadded("Engineer");
    NoName("user12345");
    JaneSmith();
    NameOfThree("user12345", "Jane Smith", "Engineer", 1);
  }

  /** A lone e-mail address leaves no line to fall back on. */
  lemma ScenarioOnlyEmail()
    ensures NameOf("john.doe@example.com") == Unknown
  {
    assert '\n' !in "john.doe@example.com" && Unpadded("john.doe@example.com");
    assert "john.doe@example.com"[8] == '@';
    NoName("john.doe@example.com");
    NameOfLoneEmail("john.doe@example.com");
  }

  // The pattern tests on the scenarios' lines.

  lemma JohnDoe()
    ensures MatchesStrict("John Doe")
  {
    var s := "John Doe";
    assert CapWordEnd(s, 0) == 4;
    assert SkipSpaces(s, 4) == 5;
    assert LowerEnd(s, 6) == 8;
    assert CapWordEnd(s, 5) == 8;
    assert Repeats(s, 4, 1);
  }

  lemma JaneSmith()
    ensures MatchesStrict("Jane Smith")
  {
    var s := "Jane Smith";
    assert CapWordEnd(s, 0) == 4;
    assert SkipSpaces(s, 4) == 5;
    assert LowerEnd(s, 6) == 10;
    assert CapWordEnd(s, 5) == 10;
    assert Repeats(s, 4, 1);
  }

  lemma LeiMing()
    ensures MatchesStrict("Lei Ming")
  {
    var s := "Lei Ming";
    assert CapWordEnd(s, 0) == 3;
    assert SkipSpaces(s, 3) == 4;
    assert LowerEnd(s, 5) == 8;
    assert CapWordEnd(s, 4) == 8;
    assert Repeats(s, 3, 1);
  }

  lemma JohnMichaelSmith()
    ensures MatchesStrict("John Michael Smith")
  {
    var s := "John Michael Smith";
    assert CapWordEnd(s, 0) == 4;
    assert SkipSpaces(s, 4) == 5;
    assert LowerEnd(s, 9) == 12;
    assert CapWordEnd(s, 5) == 12;
    assert SkipSpaces(s, 12) == 13;
    assert LowerEnd(s, 16) == 18;
    assert CapWordEnd(s, 13) == 18;
    assert Repeats(s, 12, 1);
  }

  lemma JaneMSmith()
    ensures MatchesAlt("Jane M. Smith")
  {
    var s := "Jane M. Smith";
    assert CapWordEnd(s, 0) == 4;
    assert SkipSpaces(s, 4) == 5;
    assert s[5] == 'M' && s[6] == '.';
    assert SkipSpaces(s, 7) == 8;
    assert LowerEnd(s, 11) == 13;
    assert CapWordEnd(s, 8) == 13;
    assert RepeatedWords(s, 7);
  }

  lemma NoName(s: string)
    requires s != [] && IsLower(s[0])
    ensures !MatchesName(s)
  {
  }
}

/**
  The chat message validator and sanitizer. Validation rejects, in this
  order, a missing or empty message, one longer than 1000 UTF-16 units, a
  blank one, and then, on the message with its URLs masked, runs of six or
  more equal characters, four or more equal words in a row, ten or more
  combining marks in a row, and characters outside the allowed class.
  Sanitizing cuts the message to 1000 units, masks its URLs, deletes the
  characters outside the allowed class, cuts runs longer than five to five,
  puts the URLs back and trims.
 */
module MessageValidator {
  import opened Text
  import opened UrlMasking

  const MaxMessageLength: nat := 1000
  /** The default bound of the character-repeat check: a character followed by five copies is too many. */
  const MaxCharRepeats: nat := 5
  /** The default bound of the word-repeat check: a word occurring four times in a row is too many. */
  const MaxWordRepeats: nat := 3
  /** How many combining marks in a row count as excessive. */
  const MarkRunLength: nat := 10
  /** How many copies sanitizing leaves of a longer run. */
  const KeptRun: nat := 5

  /** What the validator is given: a string, or some other value. */
  datatype Input = Message(content: string) | NotAString

  /** The validator's error cases, each reported with status 400. */
  datatype ValidationError =
    | InvalidContent
    | TooLong
    | Blank
    | ExcessiveRepeats
    | RepeatedWords
    | ExcessiveDiacritics
    | InvalidCharacters

  datatype Verdict = Valid | Invalid(error: ValidationError)

  /** `(.)\1{k,}` matches at `i`: a character other than a line terminator followed by at least `k` copies of it. */
  predicate RepeatAt(s: string, i: nat, k: nat)
  {
    i + k < |s| && !IsLineTerminator(s[i]) && forall j :: i < j <= i + k ==> s[j] == s[i]
  }

  /** `has_excessive_repeats`: the pattern's search, tried at each position from the left. */
  function HasExcessiveRepeats(text: string, maxRepeats: nat): bool
    decreases |text|
  {
    if |text| <= maxRepeats then false
    else RepeatAt(text, 0, maxRepeats) || HasExcessiveRepeats(text[1..], maxRepeats)
  }

  lemma RepeatAtShift(s: string, i: nat, k: nat)
    requires s != []
    ensures RepeatAt(s[1..], i, k) <==> RepeatAt(s, i + 1, k)
  {
    if RepeatAt(s, i + 1, k) {
      assert forall j :: i < j <= i + k ==> s[1..][j] == s[j + 1];
    }
  }

  /** The search finds a match exactly when the pattern matches somewhere. */
  lemma {:induction false} HasExcessiveRepeatsIff(text: string, k: nat)
    ensures HasExcessiveRepeats(text, k) <==> exists i: nat :: RepeatAt(text, i, k)
    decreases |text|
  {
    if |text| > k {
      HasExcessiveRepeatsIff(text[1..], k);
      if exists i: nat :: RepeatAt(text[1..], i, k) {
        var i: nat :| RepeatAt(text[1..], i, k);
        RepeatAtShift(text, i, k);
      }
      if exists i: nat :: RepeatAt(text, i, k) {
        var i: nat :| RepeatAt(text, i, k);
        if i > 0 {
          RepeatAtShift(text, i - 1, k);
        }
      }
    }
  }

  /** Ten combining marks in a row start at `i`. */
  predicate MarksAt(u: Unicode, s: string, i: nat)
  {
    i + MarkRunLength <= |s| && forall j :: i <= j < i + MarkRunLength ==> IsMark(u, s[j])
  }

  /** `\p{M}{10,}` matches: ten combining marks in a row. */
  predicate HasMarkRun(u: Unicode, s: string)
  {
    exists i: nat :: i <= |s| && MarksAt(u, s, i)
  }

  /** Every character is in the allowed class. */
  predicate AllAllowed(u: Unicode, s: string)
  {
    forall i :: 0 <= i < |s| ==> Allowed(u, s[i])
  }

  /** No character of `w` is white space. */
  predicate Unspaced(w: string)
  {
    forall i :: 0 <= i < |w| ==> !IsSpace(w[i])
  }

  /** `g` is a run of white space that separates two tokens. */
  predicate IsGap(g: string)
  {
    g != [] && forall i :: 0 <= i < |g| ==> IsSpace(g[i])
  }

  /**
    `split(/\s+/)`: the pieces between runs of white space. No token holds
    white space, and only the first and the last may be empty, the first one
    only when the text starts with white space.
   */
  function SplitOnSpace(s: string): (words: seq<string>)
    ensures |words| >= 1
    ensures forall j :: 0 <= j < |words| ==> Unspaced(words[j])
    ensures forall j :: 0 < j < |words| - 1 ==> words[j] != []
    ensures words[0] == [] ==> s == [] || IsSpace(s[0])
    decreases |s|
  {
    var k := NonSpaceRun(s);
    if k == |s| then [s]
    else
      var gap := LeadingSpace(s[k..]);
      assert gap >= 1 by { assert IsSpace(s[k..][0]); }
      [s[..k]] + SplitOnSpace(s[k + gap..])
  }

  /** The tokens with the gaps between them spell `s`. */
  predicate Rebuilds(words: seq<string>, gaps: seq<string>, s: string)
  {
    && |gaps| + 1 == |words|
    && (forall j :: 0 <= j < |gaps| ==> IsGap(gaps[j]))
    && Interleave(words, gaps) == s
  }

  /** The tokens, with runs of white space between them, give the text back. */
  lemma {:induction false} SplitOnSpaceRebuilds(s: string)
    ensures exists gaps: seq<string> :: Rebuilds(SplitOnSpace(s), gaps, s)
    decreases |s|
  {
    var words := SplitOnSpace(s);
    var k := NonSpaceRun(s);
    if k == |s| {
      assert Rebuilds(words, [], s);
    } else {
      var gap := LeadingSpace(s[k..]);
      assert IsSpace(s[k..][0]);
      var tail := s[k + gap..];
      SplitOnSpaceRebuilds(tail);
      var gaps' :| Rebuilds(SplitOnSpace(tail), gaps', tail);
      var g := s[k..k + gap];
      assert IsGap(g) by {
        assert forall i :: 0 <= i < gap ==> g[i] == s[k..][i];
      }
      RebuildsCons(s[..k], g, SplitOnSpace(tail), gaps', tail);
      assert words == [s[..k]] + SplitOnSpace(tail);
      ThreeParts(s, k, k + gap);
      assert Rebuilds(words, [g] + gaps', s);
    }
  }

  lemma ThreeParts(s: string, i: nat, j: nat)
    requires i <= j <= |s|
    ensures s == s[..i] + s[i..j] + s[j..]
  {
  }

  lemma RebuildsCons(w: string, g: string, words: seq<string>, gaps: seq<string>, tail: string)
    requires IsGap(g) && Rebuilds(words, gaps, tail)
    ensures Rebuilds([w] + words, [g] + gaps, w + g + tail)
  {
    var ws, gs := [w] + words, [g] + gaps;
    assert ws[1..] == words && gs[1..] == gaps;
    assert forall j :: 1 <= j < |gs| ==> gs[j] == gaps[j - 1];
  }

  /** The words that are not empty, in order. */
  function NonEmptyWords(ws: seq<string>): seq<string>
  {
    if ws == [] then []
    else NonEmptyWords(ws[..|ws| - 1]) + (if ws[|ws| - 1] != [] then [ws[|ws| - 1]] else [])
  }

  /** The word at `i` occurs `n` times in a row from there. */
  predicate RunFrom(ws: seq<string>, i: nat, n: nat)
  {
    i + n <= |ws| && forall j :: i <= j < i + n ==> ws[j] == ws[i]
  }

  /** Some word occurs `n` times in a row. */
  predicate TokenRun(ws: seq<string>, n: nat)
  {
    exists i: nat :: i <= |ws| && RunFrom(ws, i, n)
  }

  /** The loop's count starts at one and is checked only after it grew, so it detects runs of at least two. */
  function RunBound(maxRepeats: nat): nat
  {
    (if maxRepeats >= 1 then maxRepeats else 1) + 1
  }

  /** What `has_repeated_words` decides: after lower-casing, some word occurs more than `maxRepeats` times in a row. */
  predicate RepeatedWordsIn(u: Unicode, text: string, maxRepeats: nat)
  {
    TokenRun(NonEmptyWords(SplitOnSpace(u.lower(text))), RunBound(maxRepeats))
  }

  /** How many words at the end equal the last one. */
  function Trailing(ws: seq<string>): (t: nat)
    requires ws != []
    ensures 1 <= t <= |ws|
    ensures forall j :: |ws| - t <= j < |ws| ==> ws[j] == ws[|ws| - 1]
    ensures t < |ws| ==> ws[|ws| - 1 - t] != ws[|ws| - 1]
  {
    if |ws| == 1 || ws[|ws| - 2] != ws[|ws| - 1] then 1
    else
      var init := ws[..|ws| - 1];
      var t := Trailing(init);
      assert forall j :: |ws| - 1 - t <= j < |ws| - 1 ==> ws[j] == init[j];
      t + 1
  }

  /** A run appears with a new last word exactly when it was there before or ends with that word. */
  lemma TokenRunExtend(ws: seq<string>, w: string, n: nat)
    requires n >= 1
    ensures TokenRun(ws + [w], n) <==> TokenRun(ws, n) || Trailing(ws + [w]) >= n
  {
    var xs := ws + [w];
    if TokenRun(xs, n) && !TokenRun(ws, n) {
      var i: nat :| i <= |xs| && RunFrom(xs, i, n);
      if i + n <= |ws| {
        assert forall j :: i <= j < i + n ==> ws[j] == xs[j];
        assert RunFrom(ws, i, n);
      }
    }
    if TokenRun(ws, n) {
      var i: nat :| i <= |ws| && RunFrom(ws, i, n);
      assert forall j :: i <= j < i + n ==> xs[j] == ws[j];
      assert RunFrom(xs, i, n);
    }
    if Trailing(xs) >= n {
      var i: nat := |xs| - n;
      assert forall j :: i <= j < i + n ==> xs[j] == xs[|xs| - 1];
      assert RunFrom(xs, i, n);
    }
  }

  lemma TokenRunPrefix(a: seq<string>, b: seq<string>, n: nat)
    requires TokenRun(a, n)
    ensures TokenRun(a + b, n)
  {
    var i: nat :| i <= |a| && RunFrom(a, i, n);
    assert forall j :: i <= j < i + n ==> (a + b)[j] == a[j];
    assert RunFrom(a + b, i, n);
  }

  lemma {:induction false} NonEmptyAppend(a: seq<string>, b: seq<string>)
    ensures NonEmptyWords(a + b) == NonEmptyWords(a) + NonEmptyWords(b)
    decreases |b|
  {
    if b == [] {
      assert a + b == a;
    } else {
      var b' := b[..|b| - 1];
      NonEmptyAppend(a, b');
      assert (a + b)[..|a + b| - 1] == a + b';
    }
  }

  lemma NonEmptyStep(words: seq<string>, i: nat)
    requires i < |words|
    ensures NonEmptyWords(words[..i + 1])
      == NonEmptyWords(words[..i]) + (if words[i] != [] then [words[i]] else [])
  {
    assert words[..i + 1][..i] == words[..i];
  }

  /** The loop's state after the words `seen`: the last word and how often it occurred in a row. */
  predicate WordState(seen: seq<string>, currentWord: string, repeatCount: nat)
  {
    && (seen == [] ==> currentWord == [] && repeatCount == 1)
    && (seen != [] ==> currentWord == seen[|seen| - 1] && repeatCount == Trailing(seen))
  }

  /** One non-empty word through the loop body: a repeat counts up, any other word restarts the count. */
  lemma WordStep(seen: seq<string>, word: string, currentWord: string, repeatCount: nat, n: nat)
    requires word != [] && n >= 2 && WordState(seen, currentWord, repeatCount) && !TokenRun(seen, n)
    ensures var count := if word == currentWord then repeatCount + 1 else 1;
      && WordState(seen + [word], word, count)
      && (TokenRun(seen + [word], n) <==> count >= n)
  {
    var xs := seen + [word];
    TokenRunExtend(seen, word, n);
    if seen != [] {
      assert xs[..|xs| - 1] == seen;
    } else {
      assert |xs| == 1;
    }
  }

  /** `has_repeated_words`, as the source loops over the lower-cased words. */
  method HasRepeatedWords(u: Unicode, text: string, maxRepeats: nat) returns (b: bool)
    ensures b == RepeatedWordsIn(u, text, maxRepeats)
  {
    var words := SplitOnSpace(u.lower(text));
    ghost var n := RunBound(maxRepeats);
    var currentWord: string := [];
    var repeatCount: nat := 1;
    for i := 0 to |words|
      invariant !TokenRun(NonEmptyWords(words[..i]), n)
      invariant WordState(NonEmptyWords(words[..i]), currentWord, repeatCount)
    {
      var word := words[i];
      ghost var seen := NonEmptyWords(words[..i]);
      NonEmptyStep(words, i);
      if word == [] {
        assert NonEmptyWords(words[..i + 1]) == seen;
        continue;
      }
      assert NonEmptyWords(words[..i + 1]) == seen + [word];
      WordStep(seen, word, currentWord, repeatCount, n);
      if word == currentWord {
        repeatCount := repeatCount + 1;
        if repeatCount > maxRepeats {
          assert words == words[..i + 1] + words[i + 1..];
          NonEmptyAppend(words[..i + 1], words[i + 1..]);
          TokenRunPrefix(seen + [word], NonEmptyWords(words[i + 1..]), n);
          return true;
        }
      } else {
        currentWord := word;
        repeatCount := 1;
      }
    }
    assert words[..|words|] == words;
    return false;
  }

  /** `validate_message`: the first check that fails decides the error. */
  function ValidateMessage(u: Unicode, input: Input): (r: Verdict)
    ensures r == Invalid(InvalidContent) <==> input.NotAString? || input.content == []
    ensures r == Invalid(TooLong) <==>
      input.Message? && input.content != [] && Utf16Length(input.content) > MaxMessageLength
    ensures r == Invalid(Blank) <==>
      && input.Message? && input.content != [] && Utf16Length(input.content) <= MaxMessageLength
      && forall i :: 0 <= i < |input.content| ==> IsSpace(input.content[i])
    ensures r.Valid? ==>
      var p := ExtractUrls(input.content).processed;
      && input.Message? && 0 < |input.content| && Utf16Length(input.content) <= MaxMessageLength
      && (forall i: nat :: !RepeatAt(p, i, MaxCharRepeats))
      && !RepeatedWordsIn(u, p, MaxWordRepeats)
      && !HasMarkRun(u, p)
      && AllAllowed(u, p)
    ensures
      && input.Message? && input.content != [] && Utf16Length(input.content) <= MaxMessageLength
      && (exists i :: 0 <= i < |input.content| && !IsSpace(input.content[i]))
      ==>
      var p := ExtractUrls(input.content).processed;
      var repeats := exists i: nat :: RepeatAt(p, i, MaxCharRepeats);
      var words := RepeatedWordsIn(u, p, MaxWordRepeats);
      var marks := HasMarkRun(u, p);
      && (r == Invalid(ExcessiveRepeats) <==> repeats)
      && (r == Invalid(RepeatedWords) <==> !repeats && words)
      && (r == Invalid(ExcessiveDiacritics) <==> !repeats && !words && marks)
      && (r == Invalid(InvalidCharacters) <==> !repeats && !words && !marks && !AllAllowed(u, p))
      && (r.Valid? <==> !repeats && !words && !marks && AllAllowed(u, p))
  {
    if input.NotAString? || input.content == [] then Invalid(InvalidContent)
    else
      var message := input.content;
      if Utf16Length(message) > MaxMessageLength then Invalid(TooLong)
      else if Trim(message) == [] then Invalid(Blank)
      else
        var processed := ExtractUrls(message).processed;
        HasExcessiveRepeatsIff(processed, MaxCharRepeats);
        if HasExcessiveRepeats(processed, MaxCharRepeats) then Invalid(ExcessiveRepeats)
        else if RepeatedWordsIn(u, processed, MaxWordRepeats) then Invalid(RepeatedWords)
        else if HasMarkRun(u, processed) then Invalid(ExcessiveDiacritics)
        else if !(|processed| > 0 && AllAllowed(u, processed)) then Invalid(InvalidCharacters)
        else Valid
  }

  /** `is_valid_message`: the validator raised no error. */
  function IsValidMessage(u: Unicode, input: Input): (r: bool)
    ensures r ==> input.Message? && input.content != [] && Utf16Length(input.content) <= MaxMessageLength
    ensures r ==> exists i :: 0 <= i < |input.content| && !IsSpace(input.content[i])
  {
    ValidateMessage(u, input).Valid?
  }

  /** Deletes every character outside the allowed class. */
  function RemoveInvalid(u: Unicode, s: string): (r: string)
    ensures |r| <= |s| && AllAllowed(u, r)
    ensures forall c :: c in r <==> c in s && Allowed(u, c)
    ensures AllAllowed(u, s) ==> r == s
  {
    if s == [] then []
    else
      var rest := RemoveInvalid(u, s[1..]);
      assert forall c :: c in s <==> c == s[0] || c in s[1..] by {
        assert s == [s[0]] + s[1..];
      }
      if Allowed(u, s[0]) then
        assert AllAllowed(u, s) ==> AllAllowed(u, s[1..]) by {
          assert forall i :: 0 < i < |s| ==> s[1..][i - 1] == s[i];
        }
        [s[0]] + rest
      else rest
  }

  /** Deleting works character by character: it distributes over concatenation. */
  lemma {:induction false} RemoveInvalidAppend(u: Unicode, a: string, b: string)
    ensures RemoveInvalid(u, a + b) == RemoveInvalid(u, a) + RemoveInvalid(u, b)
    decreases |a|
  {
    if a == [] {
      assert a + b == b;
    } else {
      var c := a[0];
      assert (a + b)[0] == c && (a + b)[1..] == a[1..] + b;
      RemoveInvalidAppend(u, a[1..], b);
      RemoveInvalidUnfold(u, a + b);
      RemoveInvalidUnfold(u, a);
      Associative(if Allowed(u, c) then [c] else [], RemoveInvalid(u, a[1..]), RemoveInvalid(u, b));
    }
  }

  lemma Associative(h: string, x: string, y: string)
    ensures h + (x + y) == (h + x) + y
  {
  }

  lemma RemoveInvalidUnfold(u: Unicode, s: string)
    requires s != []
    ensures RemoveInvalid(u, s) == (if Allowed(u, s[0]) then [s[0]] else []) + RemoveInvalid(u, s[1..])
  {
  }

  /** A single character is kept exactly when it is allowed. */
  lemma RemoveInvalidChar(u: Unicode, c: char)
    ensures RemoveInvalid(u, [c]) == if Allowed(u, c) then [c] else []
  {
    assert [c][1..] == [];
  }

  /** The length of the run of equal characters `s` starts with. */
  function RunLength(s: string): (k: nat)
    requires s != []
    ensures 1 <= k <= |s| && (forall j :: 0 <= j < k ==> s[j] == s[0]) && (k < |s| ==> s[k] != s[0])
  {
    if |s| == 1 || s[1] != s[0] then 1
    else
      var k := RunLength(s[1..]);
      assert forall j :: 1 <= j < k + 1 ==> s[j] == s[1..][j - 1];
      k + 1
  }

  function Repeat(c: char, n: nat): (r: string)
    ensures |r| == n && forall j :: 0 <= j < n ==> r[j] == c
  {
    seq(n, _ => c)
  }

  /**
    The replace of `(.)\1{5,}` by five copies of the character: every run of
    six or more of a character other than a line terminator becomes five.
   */
  function CollapseRuns(s: string): (r: string)
    ensures |r| <= |s| && (s != [] ==> r != [] && r[0] == s[0])
    ensures forall c :: c in r <==> c in s
    decreases |s|
  {
    if s == [] then []
    else
      var k := RunLength(s);
      var keep := if k > KeptRun && !IsLineTerminator(s[0]) then KeptRun else k;
      var rest := CollapseRuns(s[k..]);
      assert forall c :: c in rest <==> c in s[k..];
      assert forall c :: c in s <==> c == s[0] || c in s[k..] by {
        assert s == s[..k] + s[k..];
        assert forall c :: c in s[..k] ==> c == s[0];
      }
      Repeat(s[0], keep) + rest
  }

  /**
    Collapsing works run by run: a run of `n` copies of `c`, followed by text
    that does not continue it, keeps five copies when it is longer than five
    and `c` is not a line terminator, and all `n` otherwise.
   */
  lemma CollapseRunsOfRun(c: char, n: nat, t: string)
    requires n >= 1 && (t == [] || t[0] != c)
    ensures CollapseRuns(Repeat(c, n) + t)
      == Repeat(c, if n > KeptRun && !IsLineTerminator(c) then KeptRun else n) + CollapseRuns(t)
  {
    var s := Repeat(c, n) + t;
    var k := RunLength(s);
    assert forall j :: 0 <= j < n ==> s[j] == c;
    assert n < |s| ==> s[n] == t[0] != c;
    assert k == n;
    assert s[k..] == t;
  }

  /** A match in a concatenation that starts after the first part is a match in the second part. */
  lemma RepeatAtSuffix(a: string, b: string, i: nat, k: nat)
    requires |a| <= i && RepeatAt(a + b, i, k)
    ensures RepeatAt(b, i - |a|, k)
  {
    var i' := i - |a|;
    assert (a + b)[i] == b[i'];
    forall j | i' < j <= i' + k
      ensures b[j] == b[i']
    {
      assert (a + b)[j + |a|] == b[j];
    }
  }

  /** After collapsing, no character other than a line terminator occurs six times in a row. */
  lemma {:induction false} CollapseRunsBounded(s: string)
    ensures forall i: nat :: !RepeatAt(CollapseRuns(s), i, KeptRun)
    decreases |s|
  {
    if s != [] {
      var k := RunLength(s);
      var c := s[0];
      var keep := if k > KeptRun && !IsLineTerminator(c) then KeptRun else k;
      var head, rest := Repeat(c, keep), CollapseRuns(s[k..]);
      CollapseRunsBounded(s[k..]);
      var r := head + rest;
      assert CollapseRuns(s) == r;
      forall i: nat
        ensures !RepeatAt(r, i, KeptRun)
      {
        if i >= keep {
          if RepeatAt(r, i, KeptRun) {
            RepeatAtSuffix(head, rest, i, KeptRun);
          }
        } else if keep < |r| {
          assert r[i] == c;
          assert r[keep] == rest[0] == s[k..][0] == s[k];
        }
      }
    }
  }

  /** Without a match at the start, the first run is short or of line terminators, so it is kept whole. */
  lemma ShortFirstRun(s: string)
    requires s != [] && !RepeatAt(s, 0, KeptRun)
    ensures RunLength(s) <= KeptRun || IsLineTerminator(s[0])
  {
  }

  /** A text without matches has none after its first `k` characters either. */
  lemma NoRepeatAfter(s: string, k: nat)
    requires k <= |s| && forall i: nat :: !RepeatAt(s, i, KeptRun)
    ensures forall i: nat :: !RepeatAt(s[k..], i, KeptRun)
  {
    forall i: nat | RepeatAt(s[k..], i, KeptRun)
      ensures false
    {
      forall j | k + i < j <= k + i + KeptRun
        ensures s[j] == s[k + i]
      {
        assert s[k..][j - k] == s[j];
      }
      assert RepeatAt(s, k + i, KeptRun);
    }
  }

  /** Text without a run of six is left as it is. */
  lemma {:induction false} CollapseRunsKeepsClean(s: string)
    requires forall i: nat :: !RepeatAt(s, i, KeptRun)
    ensures CollapseRuns(s) == s
    decreases |s|
  {
    if s != [] {
      var k := RunLength(s);
      ShortFirstRun(s);
      NoRepeatAfter(s, k);
      CollapseRunsKeepsClean(s[k..]);
      KeptFirstRun(s, k);
    }
  }

  /** A first run that is not cut, followed by a rest that is left as it is. */
  lemma KeptFirstRun(s: string, k: nat)
    requires s != [] && k == RunLength(s) && (k <= KeptRun || IsLineTerminator(s[0]))
    requires CollapseRuns(s[k..]) == s[k..]
    ensures CollapseRuns(s) == s
  {
    KeptRunUnfold(s, k);
    RunIsRepeat(s, k);
    SplitJoin(s, k, Repeat(s[0], k), CollapseRuns(s[k..]));
  }

  lemma SplitJoin(s: string, k: nat, head: string, rest: string)
    requires k <= |s| && head == s[..k] && rest == s[k..]
    ensures head + rest == s
  {
  }

  lemma KeptRunUnfold(s: string, k: nat)
    requires s != [] && k == RunLength(s) && (k <= KeptRun || IsLineTerminator(s[0]))
    ensures CollapseRuns(s) == Repeat(s[0], k) + CollapseRuns(s[k..])
  {
  }

  lemma RunIsRepeat(s: string, k: nat)
    requires s != [] && k == RunLength(s)
    ensures Repeat(s[0], k) == s[..k]
  {
  }

  /** The middle of sanitizing: invalid characters deleted, then long runs cut. */
  function Cleaned(u: Unicode, processed: string): (r: string)
    ensures AllAllowed(u, r) && forall i: nat :: !RepeatAt(r, i, KeptRun)
    ensures forall c :: c in r <==> c in processed && Allowed(u, c)
  {
    var filtered := RemoveInvalid(u, processed);
    var r := CollapseRuns(filtered);
    CollapseRunsBounded(filtered);
    assert forall i :: 0 <= i < |r| ==> Allowed(u, r[i]) by {
      forall i | 0 <= i < |r|
        ensures Allowed(u, r[i])
      {
        assert r[i] in r;
        var j :| 0 <= j < |filtered| && filtered[j] == r[i];
      }
    }
    r
  }

  /** Cleaning a cleaned text changes nothing. */
  lemma CleanedIdempotent(u: Unicode, processed: string)
    ensures Cleaned(u, Cleaned(u, processed)) == Cleaned(u, processed)
  {
    var r := Cleaned(u, processed);
    assert RemoveInvalid(u, r) == r;
    CollapseRunsKeepsClean(r);
  }

  /** `sanitize_message`, over a restoring step. */
  function SanitizeWith(u: Unicode, input: Input, asWritten: bool): (r: string)
    ensures input.NotAString? || input.content == [] ==> r == []
    ensures r != [] ==> !IsSpace(r[0]) && !IsSpace(r[|r| - 1])
  {
    if input.NotAString? || input.content == [] then []
    else
      var masked := ExtractUrls(Truncate(input.content, MaxMessageLength));
      var cleaned := Cleaned(u, masked.processed);
      var restored := if asWritten then RestoredAsWritten(cleaned, masked.urls) else Restored(cleaned, masked.urls);
      Trim(restored)
  }

  /** `sanitize_message` with the URLs put back literally. */
  function Sanitize(u: Unicode, input: Input): string
  {
    SanitizeWith(u, input, false)
  }

  /** `sanitize_message` as written, with each URL read as a replacement pattern. */
  function SanitizeAsWritten(u: Unicode, input: Input): string
  {
    SanitizeWith(u, input, true)
  }

  /**
    A message the validator accepts, and that has no placeholder text of its
    own, comes out of sanitizing unchanged apart from trimming: nothing is cut,
    deleted or collapsed, and every URL is put back where it was.
   */
  lemma ValidMessageSanitizesToItself(u: Unicode, m: string)
    requires ValidateMessage(u, Message(m)).Valid? && NoPlaceholderText(m)
    ensures Sanitize(u, Message(m)) == Trim(m)
  {
    TruncateShort(m, MaxMessageLength);
    var masked := ExtractUrls(m);
    CollapseRunsKeepsClean(masked.processed);
    RoundTrip(m);
  }

  /** A piece of a text keeps only allowed characters and gains no runs. */
  lemma SliceKeeps(u: Unicode, s: string, t: string, a: nat)
    requires a + |t| <= |s| && t == s[a..a + |t|]
    requires AllAllowed(u, s) && forall i: nat :: !RepeatAt(s, i, KeptRun)
    ensures AllAllowed(u, t) && forall i: nat :: !RepeatAt(t, i, KeptRun)
  {
    forall i | 0 <= i < |t|
      ensures Allowed(u, t[i])
    {
      assert t[i] == s[a + i];
    }
    forall i: nat | RepeatAt(t, i, KeptRun)
      ensures false
    {
      forall j | a + i < j <= a + i + KeptRun
        ensures s[j] == s[a + i]
      {
        assert t[j - a] == s[j];
      }
      assert RepeatAt(s, a + i, KeptRun);
    }
  }

  /** Trimming keeps only allowed characters and adds no runs. */
  lemma TrimKeeps(u: Unicode, s: string)
    requires AllAllowed(u, s) && forall i: nat :: !RepeatAt(s, i, KeptRun)
    ensures AllAllowed(u, Trim(s)) && forall i: nat :: !RepeatAt(Trim(s), i, KeptRun)
  {
    SliceKeeps(u, s, Trim(s), LeadingSpace(s));
  }

  /**
    Without URLs, sanitizing a message cuts it to the length limit, deletes
    the characters outside the allowed class, collapses the long runs and
    trims; the result has only allowed characters and no character other than
    a line terminator six times in a row.
   */
  lemma SanitizedWithoutUrls(u: Unicode, m: string)
    requires m != [] && ExtractUrls(Truncate(m, MaxMessageLength)).urls == []
    ensures Sanitize(u, Message(m)) == Trim(CollapseRuns(RemoveInvalid(u, Truncate(m, MaxMessageLength))))
    ensures AllAllowed(u, Sanitize(u, Message(m)))
    ensures forall i: nat :: !RepeatAt(Sanitize(u, Message(m)), i, KeptRun)
  {
    var t := Truncate(m, MaxMessageLength);
    var masked := ExtractUrls(t);
    MaskShape(t, 0);
    assert masked.processed == t;
    var cleaned := Cleaned(u, masked.processed);
    assert Restored(cleaned, []) == cleaned;
    assert Sanitize(u, Message(m)) == Trim(cleaned);
    TrimKeeps(u, cleaned);
  }

  /** The masked form of `http://x/$$` goes through the cleaning unchanged. */
  lemma PlaceholderIsClean(u: Unicode)
    ensures Cleaned(u, "[URL_0]") == "[URL_0]"
  {
    var p := "[URL_0]";
    assert forall i :: 0 <= i < |p| ==> p[i] < '\U{80}' && AsciiCategory(p[i]) in {Letter, Number, Punctuation};
    assert RemoveInvalid(u, p) == p;
    forall i: nat
      ensures !RepeatAt(p, i, KeptRun)
    {
      if i + 1 < |p| {
        assert p[i + 1] != p[i];
      }
    }
    CollapseRunsKeepsClean(p);
  }

  /** Sanitizing a non-empty message no longer than the limit, spelled out. */
  lemma SanitizeShort(u: Unicode, m: string, asWritten: bool)
    requires m != [] && Utf16Length(m) <= MaxMessageLength
    ensures var masked := ExtractUrls(m);
      var cleaned := Cleaned(u, masked.processed);
      SanitizeWith(u, Message(m), asWritten)
      == Trim(if asWritten then RestoredAsWritten(cleaned, masked.urls) else Restored(cleaned, masked.urls))
  {
    TruncateShort(m, MaxMessageLength);
  }

  /**
    The validator lets `http://x/$$` through: its masked form `[URL_0]` has
    no run, a single word once lower-cased, no marks and only allowed
    characters.
   */
  lemma DollarMessageAccepted(u: Unicode)
    requires u.lower("[URL_0]") == "[url_0]"
    ensures ValidateMessage(u, Message("http://x/$$")).Valid?
  {
    DollarUrlMasked();
    DollarMessagePasses();
    PlaceholderChecks(u);
  }

  /** `http://x/$$` is within the length limit and not blank. */
  lemma DollarMessagePasses()
    ensures var m := "http://x/$$";
      Utf16Length(m) <= MaxMessageLength && exists i :: 0 <= i < |m| && !IsSpace(m[i])
  {
    var m := "http://x/$$";
    assert |m| == 11 && m[0] == 'h';
  }

  /** The checks the validator runs on the masked text all pass on `[URL_0]`. */
  lemma PlaceholderChecks(u: Unicode)
    requires u.lower("[URL_0]") == "[url_0]"
    ensures var p := "[URL_0]";
      && !(exists i: nat :: RepeatAt(p, i, MaxCharRepeats))
      && !RepeatedWordsIn(u, p, MaxWordRepeats)
      && !HasMarkRun(u, p)
      && AllAllowed(u, p)
  {
    PlaceholderNoRepeat();
    SingleWord("[url_0]");
    PlaceholderAllowed(u);
  }

  lemma PlaceholderNoRepeat()
    ensures forall i: nat :: !RepeatAt("[URL_0]", i, MaxCharRepeats)
  {
    var p := "[URL_0]";
    forall i: nat
      ensures !RepeatAt(p, i, MaxCharRepeats)
    {
      if i + 1 < |p| {
        assert p[i + 1] != p[i];
      }
    }
  }

  lemma PlaceholderAllowed(u: Unicode)
    ensures AllAllowed(u, "[URL_0]") && !HasMarkRun(u, "[URL_0]")
  {
    var p := "[URL_0]";
    assert forall i :: 0 <= i < |p| ==> p[i] < '\U{80}' && AsciiCategory(p[i]) in {Letter, Number, Punctuation};
  }

  /** A text of one word without white space has no repeated words. */
  lemma SingleWord(w: string)
    requires w != [] && Unspaced(w)
    ensures NonEmptyWords(SplitOnSpace(w)) == [w]
    ensures !TokenRun([w], RunBound(MaxWordRepeats))
  {
    assert NonSpaceRun(w) == |w|;
    assert SplitOnSpace(w) == [w];
    assert [w][..0] == [];
  }

  /**
    The source's sanitizing alters a message the validator lets through (see
    `DollarMessageAccepted`): the URL of `http://x/$$` comes back as
    `http://x/$`, where restoring the URL literally gives the message back.
   */
  lemma DollarUrlSanitized(u: Unicode)
    ensures SanitizeAsWritten(u, Message("http://x/$$")) == "http://x/$"
    ensures Sanitize(u, Message("http://x/$$")) == "http://x/$$"
  {
    DollarMessageSanitized(u, "http://x/$$");
  }

  lemma DollarMessageSanitized(u: Unicode, m: string)
    requires m == "http://x/$$"
    ensures SanitizeAsWritten(u, Message(m)) == "http://x/$"
    ensures Sanitize(u, Message(m)) == m
  {
    assert |m| == 11;
    SanitizeShort(u, m, true);
    SanitizeShort(u, m, false);
    DollarUrlIsAltered();
    PlaceholderIsClean(u);
    TrimUnspaced("http://x/$");
    TrimUnspaced(m);
  }

  /**
    The placeholder's `[` joins a run of `[` just before a URL: the message
    `[[[[[http://x` has no character six times in a row, yet its masked form
    has, so the validator rejects it for excessive repeats.
   */
  lemma BracketRunJoinsPlaceholder(u: Unicode)
    ensures forall i: nat :: !RepeatAt("[[[[[http://x", i, MaxCharRepeats)
    ensures ValidateMessage(u, Message("[[[[[http://x")) == Invalid(ExcessiveRepeats)
  {
    BracketMessageShape();
    BracketMessageRejected(u);
  }

  lemma BracketMessageRejected(u: Unicode)
    ensures ValidateMessage(u, Message("[[[[[http://x")) == Invalid(ExcessiveRepeats)
  {
    BracketRunMasked();
    BracketMessageShape();
    SixBrackets();
  }

  lemma SixBrackets()
    ensures RepeatAt("[[[[[[URL_0]", 0, MaxCharRepeats)
  {
  }

  lemma BracketMessageShape()
    ensures var m := "[[[[[http://x";
      && Utf16Length(m) <= MaxMessageLength && (exists i :: 0 <= i < |m| && !IsSpace(m[i]))
      && forall i: nat :: !RepeatAt(m, i, MaxCharRepeats)
  {
    var m := "[[[[[http://x";
    assert |m| == 13 && m[0] == '[';
    forall i: nat
      ensures !RepeatAt(m, i, MaxCharRepeats)
    {
      if i + MaxCharRepeats < |m| {
        assert m[i + MaxCharRepeats] != m[i] by {
          assert forall j :: 5 <= j < |m| ==> m[j] != '[';
        }
      }
    }
  }

  /** A string that starts and ends with a non-space character is its own trim. */
  lemma TrimUnspaced(s: string)
    requires s != [] && !IsSpace(s[0]) && !IsSpace(s[|s| - 1])
    ensures Trim(s) == s
  {
    assert LeadingSpace(s) == 0;
    assert s[0..] == s;
    assert TrailingSpace(s) == 0;
  }
}

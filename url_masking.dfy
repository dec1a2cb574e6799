/**
  URL masking for the message validator. Every match of the URL pattern (an
  optional `@`, `http://` or `https://` in either case, then a run of
  non-space characters) is replaced, left to right, by the placeholder
  `[URL_i]`, and the URLs are kept in order; restoring puts the i-th URL back
  in place of the first occurrence of `[URL_i]`, for i = 0, 1, ...
 */
module UrlMasking {
  import opened Common
  import opened Text

  /** `c` is the ASCII letter `l`, in either case. */
  predicate LetterCi(c: char, l: char)
    requires 'a' <= l <= 'z'
  {
    c == l || c as int == l as int - 32
  }

  /** The length of the scheme part `http://` or `https://` at the start of `t`, or 0 when there is none. */
  function SchemeLength(t: string): (k: nat)
    ensures k == 0 || k == 7 || k == 8
    ensures k > 0 ==> k <= |t| && t[k - 3..k] == "://" && forall i :: 0 <= i < k ==> !IsSpace(t[i])
  {
    if |t| >= 4 && LetterCi(t[0], 'h') && LetterCi(t[1], 't') && LetterCi(t[2], 't') && LetterCi(t[3], 'p') then
      if |t| >= 7 && t[4..7] == "://" then
        assert t[4] == ':' && t[5] == '/' && t[6] == '/' by { assert t[4..7][0] == t[4] && t[4..7][1] == t[5] && t[4..7][2] == t[6]; }
        7
      else if |t| >= 8 && LetterCi(t[4], 's') && t[5..8] == "://" then
        assert t[5] == ':' && t[6] == '/' && t[7] == '/' by { assert t[5..8][0] == t[5] && t[5..8][1] == t[6] && t[5..8][2] == t[7]; }
        8
      else 0
    else 0
  }

  /** The length of the run of non-space characters `t` starts with. */
  function NonSpaceRun(t: string): (k: nat)
    ensures k <= |t| && (forall i :: 0 <= i < k ==> !IsSpace(t[i])) && (k < |t| ==> IsSpace(t[k]))
  {
    if t == [] || IsSpace(t[0]) then 0 else 1 + NonSpaceRun(t[1..])
  }

  /**
    The length of the URL pattern's match at the start of `s`, 0 when it does
    not match there. A match is a scheme, optionally after `@`, followed by
    everything up to the next white space.
   */
  function UrlLength(s: string): (k: nat)
    ensures k <= |s|
    ensures k > 0 ==> 8 <= k && (s[0] == '@' || LetterCi(s[0], 'h'))
    ensures k > 0 ==> (forall i :: 0 <= i < k ==> !IsSpace(s[i])) && (k == |s| || IsSpace(s[k]))
  {
    var at := if |s| > 0 && s[0] == '@' then 1 else 0;
    var scheme := SchemeLength(s[at..]);
    if scheme == 0 then 0
    else
      var run := NonSpaceRun(s[at + scheme..]);
      if run == 0 then 0
      else
        assert forall i :: at <= i < at + scheme ==> s[i] == s[at..][i - at];
        assert forall i :: at + scheme <= i < at + scheme + run ==> s[i] == s[at + scheme..][i - at - scheme];
        assert at + scheme + run < |s| ==> s[at + scheme + run] == s[at + scheme..][run];
        at + scheme + run
  }

  predicate AllDigits(s: string)
  {
    forall i :: 0 <= i < |s| ==> '0' <= s[i] <= '9'
  }

  /** The number a string of decimal digits denotes. */
  function DigitsValue(s: string): nat
    requires AllDigits(s)
  {
    if s == [] then 0 else 10 * DigitsValue(s[..|s| - 1]) + (s[|s| - 1] as int - '0' as int)
  }

  /** The decimal digits of `n`, without leading zeros. */
  function Decimal(n: nat): (r: string)
    ensures |r| >= 1 && AllDigits(r) && DigitsValue(r) == n
    ensures r[0] == '0' ==> r == "0"
  {
    var digit := (48 + n % 10) as char;
    if n < 10 then [digit] else Decimal(n / 10) + [digit]
  }

  /** Different indices have different decimal forms, so the placeholders are distinct. */
  lemma DecimalInjective(a: nat, b: nat)
    ensures Decimal(a) == Decimal(b) ==> a == b
  {
  }

  /** The i-th placeholder, `[URL_i]`: it opens with the only `[` it contains and closes with `]`. */
  function Placeholder(i: nat): (r: string)
    ensures |r| >= 7 && r[0] == '[' && r[|r| - 1] == ']'
    ensures forall j :: 0 < j < |r| ==> r[j] != '['
  {
    "[URL_" + Decimal(i) + "]"
  }

  /** The placeholders `[URL_from]`, ..., `[URL_(from + n - 1)]`. */
  function Placeholders(from: nat, n: nat): (r: seq<string>)
    ensures |r| == n && forall k :: 0 <= k < n ==> r[k] == Placeholder(from + k)
  {
    seq(n, k requires 0 <= k < n => Placeholder(from + k))
  }

  lemma PlaceholdersCons(from: nat, n: nat)
    ensures Placeholders(from, n + 1) == [Placeholder(from)] + Placeholders(from + 1, n)
  {
    var a, b := Placeholders(from, n + 1), [Placeholder(from)] + Placeholders(from + 1, n);
    forall k | 0 <= k < |a|
      ensures a[k] == b[k]
    {
      if k > 0 {
        assert b[k] == Placeholders(from + 1, n)[k - 1];
      }
    }
    assert a == b;
  }

  /** The masked message and the URLs, in the order they occur. */
  datatype Masked = Masked(processed: string, urls: seq<string>)

  /** The global replace over `s`, numbering the placeholders from `next`. */
  function MaskFrom(s: string, next: nat): Masked
    decreases |s|
  {
    if s == [] then Masked([], [])
    else
      var k := UrlLength(s);
      if k > 0 then
        var rest := MaskFrom(s[k..], next + 1);
        Masked(Placeholder(next) + rest.processed, [s[..k]] + rest.urls)
      else
        var rest := MaskFrom(s[1..], next);
        Masked([s[0]] + rest.processed, rest.urls)
  }

  /** Replaces every URL of `message` by its placeholder and collects the URLs. */
  function ExtractUrls(message: string): (r: Masked)
    ensures r.processed == [] <==> message == []
  {
    MaskFrom(message, 0)
  }

  /** `t0 + u0 + t1 + u1 + ... + tn`: the texts with the separators between them. */
  function Interleave(ts: seq<string>, us: seq<string>): string
    requires |ts| == |us| + 1
    decreases |us|
  {
    if us == [] then ts[0] else ts[0] + us[0] + Interleave(ts[1..], us[1..])
  }

  /** The texts between the URLs that masking finds. */
  function Pieces(s: string): (ps: seq<string>)
    ensures |ps| >= 1
    decreases |s|
  {
    if s == [] then [[]]
    else
      var k := UrlLength(s);
      if k > 0 then [[]] + Pieces(s[k..])
      else
        var ps := Pieces(s[1..]);
        [[s[0]] + ps[0]] + ps[1..]
  }

  lemma {:induction false} InterleaveCons(c: char, ts: seq<string>, us: seq<string>)
    requires |ts| == |us| + 1
    ensures Interleave([[c] + ts[0]] + ts[1..], us) == [c] + Interleave(ts, us)
  {
    var ts' := [[c] + ts[0]] + ts[1..];
    assert ts'[0] == [c] + ts[0];
    if us != [] {
      assert ts'[1..] == ts[1..];
      var tail := Interleave(ts[1..], us[1..]);
      assert Interleave(ts', us) == ts'[0] + us[0] + tail;
      assert Interleave(ts, us) == ts[0] + us[0] + tail;
      assert ([c] + ts[0]) + us[0] + tail == [c] + (ts[0] + us[0] + tail);
    }
  }

  lemma {:induction false} InterleaveEmptyHead(u: string, ps: seq<string>, us: seq<string>)
    requires |ps| == |us| + 1
    ensures Interleave([[]] + ps, [u] + us) == u + Interleave(ps, us)
  {
    var ts, vs := [[]] + ps, [u] + us;
    assert ts[1..] == ps && vs[1..] == us;
    assert ts[0] + vs[0] == u;
  }

  /** The shape of a masking that starts with a URL of length `k`, from the shape of the rest. */
  lemma MaskShapeUrl(s: string, next: nat, k: nat, rest: Masked, ps: seq<string>)
    requires 0 < k == UrlLength(s) && rest == MaskFrom(s[k..], next + 1) && ps == Pieces(s[k..])
    requires |ps| == |rest.urls| + 1 && s[k..] == Interleave(ps, rest.urls)
    requires rest.processed == Interleave(ps, Placeholders(next + 1, |rest.urls|))
    ensures var r := MaskFrom(s, next);
      && |Pieces(s)| == |r.urls| + 1
      && s == Interleave(Pieces(s), r.urls)
      && r.processed == Interleave(Pieces(s), Placeholders(next, |r.urls|))
  {
    assert MaskFrom(s, next) == Masked(Placeholder(next) + rest.processed, [s[..k]] + rest.urls);
    assert Pieces(s) == [[]] + ps;
    InterleaveEmptyHead(s[..k], ps, rest.urls);
    PlaceholdersCons(next, |rest.urls|);
    InterleaveEmptyHead(Placeholder(next), ps, Placeholders(next + 1, |rest.urls|));
    assert s == s[..k] + s[k..];
  }

  /** The shape of a masking that starts with a character outside any URL, from the shape of the rest. */
  lemma MaskShapeChar(s: string, next: nat, rest: Masked, ps: seq<string>)
    requires s != [] && UrlLength(s) == 0 && rest == MaskFrom(s[1..], next) && ps == Pieces(s[1..])
    requires |ps| == |rest.urls| + 1 && s[1..] == Interleave(ps, rest.urls)
    requires rest.processed == Interleave(ps, Placeholders(next, |rest.urls|))
    ensures var r := MaskFrom(s, next);
      && |Pieces(s)| == |r.urls| + 1
      && s == Interleave(Pieces(s), r.urls)
      && r.processed == Interleave(Pieces(s), Placeholders(next, |r.urls|))
  {
    assert MaskFrom(s, next) == Masked([s[0]] + rest.processed, rest.urls);
    assert Pieces(s) == [[s[0]] + ps[0]] + ps[1..];
    InterleaveCons(s[0], ps, rest.urls);
    InterleaveCons(s[0], ps, Placeholders(next, |rest.urls|));
    assert s == [s[0]] + s[1..];
  }

  /**
    Masking cuts the message into texts and URLs: the message is the texts
    with the URLs between them, and the masked message is the same texts with
    the placeholders, numbered in order, between them.
   */
  lemma {:induction false} MaskShape(s: string, next: nat)
    ensures var r := MaskFrom(s, next);
      && |Pieces(s)| == |r.urls| + 1
      && s == Interleave(Pieces(s), r.urls)
      && r.processed == Interleave(Pieces(s), Placeholders(next, |r.urls|))
    decreases |s|
  {
    if s != [] {
      var k := UrlLength(s);
      if k > 0 {
        MaskShape(s[k..], next + 1);
        MaskShapeUrl(s, next, k, MaskFrom(s[k..], next + 1), Pieces(s[k..]));
      } else {
        MaskShape(s[1..], next);
        MaskShapeChar(s, next, MaskFrom(s[1..], next), Pieces(s[1..]));
      }
    }
  }

  /** `pat` occurs in `s` at position `i`. */
  predicate Occurs(s: string, pat: string, i: nat)
  {
    i + |pat| <= |s| && s[i..i + |pat|] == pat
  }

  /** The first position at or after `from` where `pat` occurs in `s`. */
  function FirstOccurrenceFrom(s: string, pat: string, from: nat): (r: Option<nat>)
    ensures r.Some? ==>
      from <= r.value && Occurs(s, pat, r.value) && forall j :: from <= j < r.value ==> !Occurs(s, pat, j)
    ensures r.None? ==> forall j :: from <= j ==> !Occurs(s, pat, j)
    decreases |s| - from
  {
    if from + |pat| > |s| then None
    else if Occurs(s, pat, from) then Some(from)
    else FirstOccurrenceFrom(s, pat, from + 1)
  }

  /** `s.replace(pat, rep)` with a replacer function: the first occurrence is replaced by `rep` as it is. */
  function ReplaceFirst(s: string, pat: string, rep: string): string
  {
    var k := FirstOccurrenceFrom(s, pat, 0);
    if k.None? then s else s[..k.value] + rep + s[k.value + |pat|..]
  }

  /**
    The replacement string's `$` patterns, expanded for a match of `matched`
    between `before` and `after`: `$$` is `$`, `$&` the match, `` $` `` what
    precedes it and `$'` what follows it; any other `$` stands for itself.
   */
  function Substitute(rep: string, matched: string, before: string, after: string): string
    decreases |rep|
  {
    if rep == [] then []
    else if rep[0] == '$' && |rep| >= 2 && rep[1] in "$&`'" then
      (match rep[1]
         case '$' => "$"
         case '&' => matched
         case '`' => before
         case _ => after)
      + Substitute(rep[2..], matched, before, after)
    else [rep[0]] + Substitute(rep[1..], matched, before, after)
  }

  /** `s.replace(pat, rep)` with a string replacement, as the source calls it: `rep`'s `$` patterns are expanded. */
  function ReplaceFirstAsWritten(s: string, pat: string, rep: string): string
  {
    var k := FirstOccurrenceFrom(s, pat, 0);
    if k.None? then s
    else s[..k.value] + Substitute(rep, pat, s[..k.value], s[k.value + |pat|..]) + s[k.value + |pat|..]
  }

  /** The masked message after the first `i` URLs were put back. */
  function RestoredUpTo(processed: string, urls: seq<string>, i: nat): string
    requires i <= |urls|
  {
    if i == 0 then processed else ReplaceFirst(RestoredUpTo(processed, urls, i - 1), Placeholder(i - 1), urls[i - 1])
  }

  function Restored(processed: string, urls: seq<string>): string
  {
    RestoredUpTo(processed, urls, |urls|)
  }

  /** The same, with the source's string replacements. */
  function RestoredAsWrittenUpTo(processed: string, urls: seq<string>, i: nat): string
    requires i <= |urls|
  {
    if i == 0 then processed
    else ReplaceFirstAsWritten(RestoredAsWrittenUpTo(processed, urls, i - 1), Placeholder(i - 1), urls[i - 1])
  }

  function RestoredAsWritten(processed: string, urls: seq<string>): string
  {
    RestoredAsWrittenUpTo(processed, urls, |urls|)
  }

  /** Puts the URLs back, each in place of the first occurrence of its placeholder, the URL taken literally. */
  method RestoreUrls(processed: string, urls: seq<string>) returns (restored: string)
    ensures restored == Restored(processed, urls)
  {
    restored := processed;
    for i := 0 to |urls|
      invariant restored == RestoredUpTo(processed, urls, i)
    {
      restored := ReplaceFirst(restored, Placeholder(i), urls[i]);
    }
  }

  /** Puts the URLs back as the source does, with each URL read as a replacement pattern. */
  method RestoreUrlsAsWritten(processed: string, urls: seq<string>) returns (restored: string)
    ensures restored == RestoredAsWritten(processed, urls)
  {
    restored := processed;
    for i := 0 to |urls|
      invariant restored == RestoredAsWrittenUpTo(processed, urls, i)
    {
      restored := ReplaceFirstAsWritten(restored, Placeholder(i), urls[i]);
    }
  }

  /** The message contains no placeholder text of its own. */
  ghost predicate NoPlaceholderText(m: string)
  {
    forall k: nat, i: nat :: !Occurs(m, Placeholder(k), i)
  }

  /**
    A pattern that opens with a character it does not contain again, put
    after a text where it does not occur, is found first right after that
    text, so replacing it touches nothing else.
   */
  lemma ReplaceAfter(pre: string, pat: string, post: string, rep: string)
    requires |pat| >= 1 && forall j :: 0 < j < |pat| ==> pat[j] != pat[0]
    requires forall i: nat :: !Occurs(pre, pat, i)
    ensures ReplaceFirst(pre + pat + post, pat, rep) == pre + rep + post
  {
    var s := pre + pat + post;
    assert s[|pre|..|pre| + |pat|] == pat;
    assert Occurs(s, pat, |pre|);
    var r := FirstOccurrenceFrom(s, pat, 0);
    forall j | 0 <= j < |pre|
      ensures !Occurs(s, pat, j)
    {
      if j + |pat| <= |pre| {
        assert pre[j..j + |pat|] == s[j..j + |pat|];
        assert !Occurs(pre, pat, j);
      } else if j + |pat| <= |s| {
        assert s[j..j + |pat|][|pre| - j] == s[|pre|] == pat[0];
        assert pat[|pre| - j] != pat[0];
      }
    }
    assert r == Some(|pre|);
    assert s[..|pre|] == pre && s[|pre| + |pat|..] == post;
  }

  /** The interleaving cut at its i-th separator. */
  lemma {:induction false} InterleaveSplit(ts: seq<string>, us: seq<string>, i: nat)
    requires |ts| == |us| + 1 && i < |us|
    ensures Interleave(ts, us) == Interleave(ts[..i + 1], us[..i]) + us[i] + Interleave(ts[i + 1..], us[i + 1..])
    decreases i
  {
    if i > 0 {
      InterleaveSplit(ts[1..], us[1..], i - 1);
      assert ts[..i + 1][1..] == ts[1..][..i];
      assert us[..i][1..] == us[1..][..i - 1];
      assert ts[1..][i..] == ts[i + 1..] && us[1..][i..] == us[i + 1..];
      assert us[1..][i - 1] == us[i];
    } else {
      assert ts[..1][0] == ts[0];
    }
  }

  /** Halfway through restoring: the first `i` URLs, then the placeholders from the i-th on. */
  function Halfway(us: seq<string>, i: nat): (a: seq<string>)
    requires i <= |us|
    ensures |a| == |us|
  {
    us[..i] + Placeholders(i, |us| - i)
  }

  /** Two consecutive halfway points differ only at slot `i`. */
  lemma HalfwaySlots(us: seq<string>, i: nat)
    requires i < |us|
    ensures Halfway(us, i)[..i] == us[..i] && Halfway(us, i + 1)[..i] == us[..i]
    ensures Halfway(us, i)[i] == Placeholder(i) && Halfway(us, i + 1)[i] == us[i]
    ensures Halfway(us, i)[i + 1..] == Halfway(us, i + 1)[i + 1..]
  {
    var a, b := Halfway(us, i), Halfway(us, i + 1);
    assert a[i + 1..] == Placeholders(i + 1, |us| - i - 1);
    assert b[i + 1..] == Placeholders(i + 1, |us| - i - 1);
  }

  /** A prefix of a message without placeholder text has none. */
  lemma NoPlaceholderInPrefix(pre: string, rest: string, k: nat)
    requires NoPlaceholderText(pre + rest)
    ensures forall i: nat :: !Occurs(pre, Placeholder(k), i)
  {
    forall i: nat | Occurs(pre, Placeholder(k), i)
      ensures false
    {
      assert (pre + rest)[i..i + |Placeholder(k)|] == pre[i..i + |Placeholder(k)|];
      assert Occurs(pre + rest, Placeholder(k), i);
    }
  }

  /** Restoring the i-th URL moves from one halfway point to the next. */
  lemma RestoreOne(m: string, ts: seq<string>, us: seq<string>, i: nat)
    requires |ts| == |us| + 1 && i < |us| && m == Interleave(ts, us) && NoPlaceholderText(m)
    ensures ReplaceFirst(Interleave(ts, Halfway(us, i)), Placeholder(i), us[i]) == Interleave(ts, Halfway(us, i + 1))
  {
    var a, b := Halfway(us, i), Halfway(us, i + 1);
    HalfwaySlots(us, i);
    InterleaveSplit(ts, a, i);
    InterleaveSplit(ts, b, i);
    InterleaveSplit(ts, us, i);
    var pre := Interleave(ts[..i + 1], us[..i]);
    assert m == pre + (us[i] + Interleave(ts[i + 1..], us[i + 1..]));
    NoPlaceholderInPrefix(pre, us[i] + Interleave(ts[i + 1..], us[i + 1..]), i);
    ReplaceAfter(pre, Placeholder(i), Interleave(ts[i + 1..], a[i + 1..]), us[i]);
  }

  /**
    After `i` steps of restoring a masked message, the first `i` URLs are
    back between the texts and the remaining placeholders are still there.
   */
  lemma {:induction false} RestoredStep(m: string, i: nat)
    requires NoPlaceholderText(m)
    requires i <= |ExtractUrls(m).urls|
    ensures |Pieces(m)| == |ExtractUrls(m).urls| + 1
    ensures RestoredUpTo(ExtractUrls(m).processed, ExtractUrls(m).urls, i) == Interleave(Pieces(m), Halfway(ExtractUrls(m).urls, i))
    decreases i
  {
    var r := ExtractUrls(m);
    MaskShape(m, 0);
    if i == 0 {
      assert Halfway(r.urls, 0) == Placeholders(0, |r.urls|);
    } else {
      RestoredStep(m, i - 1);
      RestoreOne(m, Pieces(m), r.urls, i - 1);
    }
  }

  /**
    Masking and restoring give the message back, provided the message has no
    placeholder text of its own.
   */
  lemma RoundTrip(m: string)
    requires NoPlaceholderText(m)
    ensures Restored(ExtractUrls(m).processed, ExtractUrls(m).urls) == m
  {
    var r := ExtractUrls(m);
    RestoredStep(m, |r.urls|);
    MaskShape(m, 0);
    assert Halfway(r.urls, |r.urls|) == r.urls;
  }

  /** A replacement without `$` expands to itself. */
  lemma {:induction false} SubstitutePlain(rep: string, matched: string, before: string, after: string)
    requires '$' !in rep
    ensures Substitute(rep, matched, before, after) == rep
    decreases |rep|
  {
    if rep != [] {
      SubstitutePlain(rep[1..], matched, before, after);
      assert rep == [rep[0]] + rep[1..];
    }
  }

  /** With a replacement without `$`, the source's replace is the literal one. */
  lemma ReplacePlain(s: string, pat: string, rep: string)
    requires '$' !in rep
    ensures ReplaceFirstAsWritten(s, pat, rep) == ReplaceFirst(s, pat, rep)
  {
    var k := FirstOccurrenceFrom(s, pat, 0);
    if k.Some? {
      SubstitutePlain(rep, pat, s[..k.value], s[k.value + |pat|..]);
    }
  }

  /** When no URL contains `$`, the source's restoring is the literal one. */
  lemma {:induction false} AsWrittenAgreesWithoutDollar(processed: string, urls: seq<string>, i: nat)
    requires i <= |urls| && forall k :: 0 <= k < |urls| ==> '$' !in urls[k]
    ensures RestoredAsWrittenUpTo(processed, urls, i) == RestoredUpTo(processed, urls, i)
    decreases i
  {
    if i > 0 {
      AsWrittenAgreesWithoutDollar(processed, urls, i - 1);
      ReplacePlain(RestoredUpTo(processed, urls, i - 1), Placeholder(i - 1), urls[i - 1]);
    }
  }

  /** Masking `http://x/$$` gives `[URL_0]` and the URL. */
  lemma DollarUrlMasked()
    ensures ExtractUrls("http://x/$$") == Masked("[URL_0]", ["http://x/$$"])
  {
    var m := "http://x/$$";
    assert m[0..] == m && m[7..] == "x/$$";
    assert SchemeLength(m) == 7;
    assert NonSpaceRun("x/$$") == 4;
    assert UrlLength(m) == 11;
    assert m[11..] == [] && m[..11] == m;
    assert Decimal(0) == "0";
  }

  /** Masking `[[[[[http://x` puts the placeholder's `[` right after the five of the message. */
  lemma BracketRunMasked()
    ensures ExtractUrls("[[[[[http://x") == Masked("[[[[[[URL_0]", ["http://x"])
  {
    var url := "http://x";
    UrlOnlyMasked();
    var t4 := ['['] + url;
    MaskSkipsBracket(url, 0);
    var t3 := ['['] + t4;
    MaskSkipsBracket(t4, 0);
    var t2 := ['['] + t3;
    MaskSkipsBracket(t3, 0);
    var t1 := ['['] + t2;
    MaskSkipsBracket(t2, 0);
    var t0 := ['['] + t1;
    MaskSkipsBracket(t1, 0);
    FiveBrackets(url, "[URL_0]");
    assert MaskFrom(t0, 0) == Masked(['['] + (['['] + (['['] + (['['] + (['['] + "[URL_0]")))), [url]);
  }

  lemma FiveBrackets(url: string, placeholder: string)
    requires url == "http://x" && placeholder == "[URL_0]"
    ensures ['['] + (['['] + (['['] + (['['] + (['['] + url)))) == "[[[[[http://x"
    ensures ['['] + (['['] + (['['] + (['['] + (['['] + placeholder)))) == "[[[[[[URL_0]"
  {
  }

  /** A `[` is never the start of a URL, so masking copies it. */
  lemma MaskSkipsBracket(t: string, next: nat)
    ensures var rest := MaskFrom(t, next);
      MaskFrom(['['] + t, next) == Masked(['['] + rest.processed, rest.urls)
  {
    var s := ['['] + t;
    assert s[1..] == t;
    assert UrlLength(s) == 0;
  }

  lemma UrlOnlyMasked()
    ensures MaskFrom("http://x", 0) == Masked("[URL_0]", ["http://x"])
  {
    var url := "http://x";
    assert url[0..] == url && url[7..] == "x";
    assert SchemeLength(url) == 7;
    assert NonSpaceRun("x") == 1;
    assert UrlLength(url) == 8;
    assert url[8..] == [] && url[..8] == url;
    assert Decimal(0) == "0";
  }

  /** A `$`-free prefix of a replacement stands for itself. */
  lemma {:induction false} SubstitutePrefix(a: string, b: string, matched: string, before: string, after: string)
    requires '$' !in a
    ensures Substitute(a + b, matched, before, after) == a + Substitute(b, matched, before, after)
    decreases |a|
  {
    if a != [] {
      SubstitutePrefix(a[1..], b, matched, before, after);
      var ab := a + b;
      assert ab[0] == a[0] && a[0] != '$';
      assert ab[1..] == a[1..] + b;
      assert Substitute(ab, matched, before, after) == [ab[0]] + Substitute(ab[1..], matched, before, after);
      assert a == [a[0]] + a[1..];
    } else {
      assert a + b == b;
    }
  }

  /** Read as a replacement pattern, `http://x/$$` stands for `http://x/$`. */
  lemma DollarPattern(matched: string, before: string, after: string)
    ensures Substitute("http://x/$$", matched, before, after) == "http://x/$"
  {
    SubstitutePrefix("http://x/", "$$", matched, before, after);
    assert "http://x/" + "$$" == "http://x/$$";
    assert Substitute("$$", matched, before, after) == "$";
  }

  lemma FirstPlaceholderFound()
    ensures Placeholder(0) == "[URL_0]"
    ensures FirstOccurrenceFrom("[URL_0]", "[URL_0]", 0) == Some(0)
  {
    assert Decimal(0) == "0";
    assert Occurs("[URL_0]", "[URL_0]", 0);
  }

  /** The source's restoring turns the masked `http://x/$$` into `http://x/$`. */
  lemma DollarRestoredAsWritten()
    ensures RestoredAsWritten("[URL_0]", ["http://x/$$"]) == "http://x/$"
  {
    FirstPlaceholderFound();
    DollarPattern(Placeholder(0), [], []);
    assert "[URL_0]"[..0] == [] && "[URL_0]"[7..] == [];
  }

  /** The literal restoring gives `http://x/$$` back. */
  lemma DollarRestored()
    ensures Restored("[URL_0]", ["http://x/$$"]) == "http://x/$$"
  {
    FirstPlaceholderFound();
    assert "[URL_0]"[..0] == [] && "[URL_0]"[7..] == [];
  }

  /**
    The source's restoring changes a URL that contains `$$`: masking
    `http://x/$$` gives `[URL_0]`, and putting the URL back as a replacement
    pattern yields `http://x/$`, where the literal restoring gives the URL back.
   */
  lemma DollarUrlIsAltered()
    ensures ExtractUrls("http://x/$$") == Masked("[URL_0]", ["http://x/$$"])
    ensures RestoredAsWritten("[URL_0]", ["http://x/$$"]) == "http://x/$"
    ensures Restored("[URL_0]", ["http://x/$$"]) == "http://x/$$"
  {
    DollarUrlMasked();
    DollarRestoredAsWritten();
    DollarRestored();
  }
}

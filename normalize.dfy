/** tool.py line 33: the key under which the single-axis annotator recognises
    a text it has seen before. Two `re.sub` passes, each a left-to-right scan
    that replaces non-overlapping matches: first `@(\w){1,15}` becomes `@_`,
    then `https?://t.co/\w+` becomes `http://_` (the dot unescaped, so any
    character but a newline stands between `t` and `co/`). */
module Normalize {

  /** `\w`, taken as ASCII: letters, digits and the underscore. */
  predicate IsWordChar(c: char)
  {
    'a' <= c <= 'z' || 'A' <= c <= 'Z' || '0' <= c <= '9' || c == '_'
  }

  /** The length of the greedy run of word characters at `s[i..]`, taking at
      most `max` of them. */
  function WordRun(s: string, i: nat, max: nat): (n: nat)
    requires i <= |s|
    ensures i + n <= |s| && n <= max
    decreases max
  {
    if max == 0 || i == |s| || !IsWordChar(s[i]) then 0 else 1 + WordRun(s, i + 1, max - 1)
  }

  /** The run is made of word characters and stops at the first other
      character unless `max` stops it first. */
  lemma {:induction false} WordRunSpec(s: string, i: nat, max: nat)
    requires i <= |s|
    ensures forall k :: i <= k < i + WordRun(s, i, max) ==> IsWordChar(s[k])
    ensures WordRun(s, i, max) < max && i + WordRun(s, i, max) < |s| ==> !IsWordChar(s[i + WordRun(s, i, max)])
    decreases max
  {
    if max > 0 && i < |s| && IsWordChar(s[i]) {
      WordRunSpec(s, i + 1, max - 1);
    }
  }

  /** The length of a match of `@(\w){1,15}` at position i, or 0 for none. */
  function MentionAt(s: string, i: nat): nat
    requires i < |s|
  {
    if s[i] == '@' then (var n := WordRun(s, i + 1, 15); if n == 0 then 0 else 1 + n) else 0
  }

  /** The mention pass over `s[i..]`. */
  function MentionsFrom(s: string, i: nat): (r: string)
    requires i <= |s|
    ensures |r| <= |s| - i
    decreases |s| - i
  {
    if i == |s| then []
    else if MentionAt(s, i) > 0 then "@_" + MentionsFrom(s, i + MentionAt(s, i))
    else [s[i]] + MentionsFrom(s, i + 1)
  }

  /** `re.sub(username_re, '@_', text)`. */
  function StripMentions(s: string): string
  {
    MentionsFrom(s, 0)
  }

  /** For an `http` at i, the index where `://t` has to start: just after
      the `http`, or one further when an `s` follows it. */
  function AfterScheme(s: string, i: nat): nat
  {
    if i + 4 < |s| && s[i + 4] == 's' then i + 5 else i + 4
  }

  /** The length of a match of `https?://t.co/\w+` at position i, or 0 for
      none: `http`, an optional `s`, `://t`, any character but a newline,
      `co/`, and the greedy run of one or more word characters. */
  function UrlAt(s: string, i: nat): nat
    requires i <= |s|
  {
    var j := AfterScheme(s, i);
    if i + 4 <= |s| && s[i..i + 4] == "http" && j + 8 <= |s|
      && s[j..j + 4] == "://t" && s[j + 4] != '\n' && s[j + 5..j + 8] == "co/"
    then
      var n := WordRun(s, j + 8, |s| - (j + 8));
      if n == 0 then 0 else j + 8 + n - i
    else 0
  }

  /** `http` starts at position k. */
  predicate HttpAt(s: string, k: nat)
  {
    k + 4 <= |s| && s[k..k + 4] == "http"
  }

  /** A URL match is at least 13 characters long, more than its 8-character
      replacement. */
  lemma UrlAtLength(s: string, i: nat)
    requires i <= |s| && UrlAt(s, i) > 0
    ensures 13 <= UrlAt(s, i) <= |s| - i
    ensures HttpAt(s, i)
  {
  }

  /** What a URL match at i is: `http`, an optional `s`, `://t`, any
      character but a newline, `co/`, and the longest run of one or more word
      characters there. */
  lemma UrlAtSpec(s: string, i: nat)
    requires i <= |s| && UrlAt(s, i) > 0
    ensures var j, e := AfterScheme(s, i), i + UrlAt(s, i);
      && HttpAt(s, i)
      && (j == i + 4 || (j == i + 5 && s[i + 4] == 's'))
      && j + 8 < e <= |s|
      && s[j..j + 4] == "://t" && s[j + 4] != '\n' && s[j + 5..j + 8] == "co/"
      && (forall k :: j + 8 <= k < e ==> IsWordChar(s[k]))
      && (e < |s| ==> !IsWordChar(s[e]))
  {
    var j := AfterScheme(s, i);
    WordRunSpec(s, j + 8, |s| - (j + 8));
  }

  /** The URL pass over `s[i..]`. */
  function UrlsFrom(s: string, i: nat): (r: string)
    requires i <= |s|
    ensures |r| <= |s| - i
    decreases |s| - i
  {
    if i == |s| then []
    else if UrlAt(s, i) > 0 then
      UrlAtLength(s, i);
      "http://_" + UrlsFrom(s, i + UrlAt(s, i))
    else [s[i]] + UrlsFrom(s, i + 1)
  }

  /** `re.sub(url_re, 'http://_', text)`. */
  function StripUrls(s: string): string
  {
    UrlsFrom(s, 0)
  }

  /** The stripped text: mentions first, then URLs. */
  function Normalize(text: string): string
  {
    StripUrls(StripMentions(text))
  }

  // ---------------------------------------------------------------------
  // Properties of the two passes

  /** Neither pass lengthens the text, so neither does their composition. */
  lemma NormalizeShorter(text: string)
    ensures |StripMentions(text)| <= |text|
    ensures |Normalize(text)| <= |StripMentions(text)|
  {
  }

  /** Without an `@` from position i on, the mention pass copies the text. */
  lemma {:induction false} MentionsIdentity(s: string, i: nat)
    requires i <= |s|
    requires forall k :: i <= k < |s| ==> s[k] != '@'
    ensures MentionsFrom(s, i) == s[i..]
    decreases |s| - i
  {
    if i < |s| {
      MentionsIdentity(s, i + 1);
      assert s[i..] == [s[i]] + s[i + 1..];
    }
  }

  /** Without an `http` from position i on, the URL pass copies the text. */
  lemma {:induction false} UrlsIdentity(s: string, i: nat)
    requires i <= |s|
    requires forall k :: i <= k < |s| ==> !HttpAt(s, k)
    ensures UrlsFrom(s, i) == s[i..]
    decreases |s| - i
  {
    if i < |s| {
      if UrlAt(s, i) > 0 {
        UrlAtLength(s, i);
        assert false;
      }
      UrlsIdentity(s, i + 1);
      assert s[i..] == [s[i]] + s[i + 1..];
    }
  }

  /** A text with neither `@` nor `http` is its own key. */
  lemma NormalizePlain(text: string)
    requires forall k :: 0 <= k < |text| ==> text[k] != '@'
    requires forall k :: 0 <= k < |text| ==> !HttpAt(text, k)
    ensures Normalize(text) == text
  {
    MentionsIdentity(text, 0);
    assert text[0..] == text;
    UrlsIdentity(text, 0);
  }

  /** The mention pass copies everything before the first `@`. */
  lemma {:induction false} MentionsCopyPrefix(s: string, i: nat, p: nat)
    requires i <= p < |s| && s[p] == '@'
    requires forall k :: i <= k < p ==> s[k] != '@'
    ensures MentionsFrom(s, i) == s[i..p] + MentionsFrom(s, p)
    decreases p - i
  {
    if i < p {
      MentionsCopyPrefix(s, i + 1, p);
      MentionsStep(s, i);
      SliceCons(s, i, p);
      ConsAssoc(s[i], s[i + 1..p], MentionsFrom(s, p));
    }
  }

  lemma ConsAssoc(c: char, a: string, b: string)
    ensures [c] + (a + b) == ([c] + a) + b
  {
  }

  /** A character other than `@` is copied as it is. */
  lemma MentionsStep(s: string, i: nat)
    requires i < |s| && s[i] != '@'
    ensures MentionsFrom(s, i) == [s[i]] + MentionsFrom(s, i + 1)
  {
    assert MentionAt(s, i) == 0;
  }

  lemma SliceCons(s: string, i: nat, j: nat)
    requires i < j <= |s|
    ensures s[i..j] == [s[i]] + s[i + 1..j]
  {
  }

  /** The number of `@` characters in a text. */
  function Ats(s: string): nat
  {
    if s == [] then 0 else (if s[0] == '@' then 1 else 0) + Ats(s[1..])
  }

  lemma {:induction false} AtsAppend(a: string, b: string)
    ensures Ats(a + b) == Ats(a) + Ats(b)
  {
    if a != [] {
      assert (a + b)[1..] == a[1..] + b;
      AtsAppend(a[1..], b);
    } else {
      assert a + b == b;
    }
  }

  /** Counting `@` in `s[i..]` splits at any later position. */
  lemma AtsSplit(s: string, i: nat, j: nat)
    requires i <= j <= |s|
    ensures Ats(s[i..]) == Ats(s[i..j]) + Ats(s[j..])
  {
    assert s[i..] == s[i..j] + s[j..];
    AtsAppend(s[i..j], s[j..]);
  }

  /** A run of word characters holds no `@`. */
  lemma {:induction false} RunHasNoAt(s: string, i: nat, j: nat)
    requires i <= j <= |s|
    requires forall k :: i <= k < j ==> IsWordChar(s[k])
    ensures Ats(s[i..j]) == 0
    decreases j - i
  {
    if i < j {
      RunHasNoAt(s, i + 1, j);
      assert s[i..j][1..] == s[i + 1..j];
    }
  }

  /** The `@` of a match at i is the only one in it. */
  lemma AtsOfMatch(s: string, i: nat)
    requires i < |s| && MentionAt(s, i) > 0
    ensures Ats(s[i..]) == 1 + Ats(s[i + MentionAt(s, i)..])
  {
    var n := WordRun(s, i + 1, 15);
    assert s[i] == '@' && MentionAt(s, i) == 1 + n;
    WordRunSpec(s, i + 1, 15);
    AtsOfRun(s, i, i + 1 + n);
  }

  /** An `@` followed by word characters up to j counts once. */
  lemma AtsOfRun(s: string, i: nat, j: nat)
    requires i < j <= |s| && s[i] == '@'
    requires forall k :: i + 1 <= k < j ==> IsWordChar(s[k])
    ensures Ats(s[i..]) == 1 + Ats(s[j..])
  {
    RunHasNoAt(s, i + 1, j);
    AtsHead(s, i);
    AtsSplit(s, i + 1, j);
  }

  /** Counting `@` in `s[i..]` starts with `s[i]`. */
  lemma AtsHead(s: string, i: nat)
    requires i < |s|
    ensures Ats(s[i..]) == (if s[i] == '@' then 1 else 0) + Ats(s[i + 1..])
  {
    assert s[i..][1..] == s[i + 1..];
  }

  /** Every `@` survives the mention pass and no new one appears: a match
      trades `@` and word characters for `@_`. */
  lemma {:induction false} MentionsKeepAts(s: string, i: nat)
    requires i <= |s|
    ensures Ats(MentionsFrom(s, i)) == Ats(s[i..])
    decreases |s| - i
  {
    if i < |s| {
      var m := MentionAt(s, i);
      if m > 0 {
        MentionsKeepAts(s, i + m);
        AtsOfMatch(s, i);
        AtsAppend("@_", MentionsFrom(s, i + m));
      } else {
        MentionsKeepAts(s, i + 1);
        assert s[i..][1..] == s[i + 1..];
        AtsAppend([s[i]], MentionsFrom(s, i + 1));
      }
    }
  }

  /** A mention takes at most 15 word characters: after `@` and 16 of them the
      last one is left behind the `@_`. */
  lemma LongMention(w: string)
    requires |w| == 16 && forall k :: 0 <= k < 16 ==> IsWordChar(w[k])
    ensures StripMentions("@" + w) == "@_" + [w[15]]
  {
    var s := "@" + w;
    assert WordRun(s, 1, 15) == 15 by {
      WordRunFull(s, 1, 15);
    }
    assert MentionAt(s, 0) == 16;
    assert MentionAt(s, 16) == 0;
    assert MentionsFrom(s, 17) == [];
    assert MentionsFrom(s, 16) == [s[16]];
  }

  /** A run of at least `max` word characters is taken whole up to `max`. */
  lemma {:induction false} WordRunFull(s: string, i: nat, max: nat)
    requires i + max <= |s|
    requires forall k :: i <= k < i + max ==> IsWordChar(s[k])
    ensures WordRun(s, i, max) == max
    decreases max
  {
    if max > 0 {
      WordRunFull(s, i + 1, max - 1);
    }
  }

  /** Normalising is not idempotent: the key of a key can differ from it. */
  lemma NotIdempotent()
    ensures var s := "@abcdefghijklmnop"; Normalize(Normalize(s)) != Normalize(s)
  {
    var w := "abcdefghijklmnop";
    LongMention(w);
    assert "@" + w == "@abcdefghijklmnop";
    var once := "@_p";
    assert StripMentions("@abcdefghijklmnop") == once;
    UrlsIdentity(once, 0);
    assert once[0..] == once;
    assert Normalize("@abcdefghijklmnop") == once;
    assert MentionAt(once, 0) == 3;
    assert StripMentions(once) == "@_";
    UrlsIdentity("@_", 0);
    assert "@_"[0..] == "@_";
  }

  /** The dot after `t` is not escaped: any character but a newline
      stands in for it. */
  lemma UnescapedDot()
    ensures StripUrls("http://tXco/abc") == "http://_"
  {
    var s := "http://tXco/abc";
    assert AfterScheme(s, 0) == 4;
    assert s[0..4] == "http" && s[4..8] == "://t" && s[8] != '\n' && s[9..12] == "co/";
    WordRunFull(s, 12, 3);
    assert UrlAt(s, 0) == 15;
    assert UrlsFrom(s, 15) == [];
  }

  /** `https` links get the same `http://_` replacement. */
  lemma SecureScheme()
    ensures StripUrls("https://t.co/x") == "http://_"
  {
    var t := "https://t.co/x";
    assert AfterScheme(t, 0) == 5;
    assert t[0..4] == "http" && t[5..9] == "://t" && t[9] != '\n' && t[10..13] == "co/";
    WordRunFull(t, 13, 1);
    assert UrlAt(t, 0) == 14;
    assert UrlsFrom(t, 14) == [];
  }

  /** A text without `h` holds no `http`. */
  lemma NoHttpWithoutH(s: string)
    requires forall k :: 0 <= k < |s| ==> s[k] != 'h'
    ensures forall k :: 0 <= k < |s| ==> !HttpAt(s, k)
  {
    forall k | 0 <= k < |s|
      ensures !HttpAt(s, k)
    {
      if k + 4 <= |s| {
        assert s[k..k + 4][0] == s[k];
      }
    }
  }

  /** A mention that runs into a URL swallows its scheme. */
  lemma MentionIntoUrl()
    ensures StripMentions("@https://t.co/x") == "@_://t.co/x"
  {
    var s := "@https://t.co/x";
    assert WordRun(s, 1, 15) == 5 by {
      WordRunFull(s, 1, 5);
      assert !IsWordChar(s[6]);
    }
    assert MentionAt(s, 0) == 6;
    MentionsIdentity(s, 6);
    assert s[6..] == "://t.co/x";
  }

  /** What is left holds no URL, so it is the key. */
  lemma KeyAfterMention()
    ensures StripUrls("@_://t.co/x") == "@_://t.co/x"
  {
    var m := "@_://t.co/x";
    NoHttpWithoutH(m);
    UrlsIdentity(m, 0);
    assert m[0..] == m;
  }

  /** The URL pass alone on that text. */
  lemma UrlPassAlone()
    ensures StripUrls("@https://t.co/x") == "@http://_"
  {
    var s := "@https://t.co/x";
    assert s[1..5] == "http" && s[6..10] == "://t" && s[11..14] == "co/";
    WordRunFull(s, 14, 1);
    assert UrlAt(s, 1) == 14;
    assert UrlAt(s, 0) == 0;
    assert UrlsFrom(s, 15) == [];
  }

  /** The mention pass after it: `@http` is now a mention. */
  lemma MentionAfterUrl()
    ensures StripMentions("@http://_") == "@_://_"
  {
    var u := "@http://_";
    assert WordRun(u, 1, 15) == 4 by {
      WordRunFull(u, 1, 4);
      assert !IsWordChar(u[5]);
    }
    assert MentionAt(u, 0) == 5;
    MentionsIdentity(u, 5);
    assert u[5..] == "://_";
  }

  /** The mention pass runs first, and the order shows: with the passes
      swapped the same text gets another key. */
  lemma PassOrderMatters()
    ensures Normalize("@https://t.co/x") != StripMentions(StripUrls("@https://t.co/x"))
  {
    MentionIntoUrl();
    KeyAfterMention();
    UrlPassAlone();
    MentionAfterUrl();
  }
}

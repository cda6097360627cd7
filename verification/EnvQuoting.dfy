/** What the two scanners make of the quoted form of a value. */
module EnvQuoting {
  import opened Common
  import opened EnvText

  // ---------------------------------------------------------------------------------------
  // Escaping
  // ---------------------------------------------------------------------------------------

  function EscapedChar(c: char): string {
    if c == '\\' then "\\\\" else if c == '\'' then "\\'" else [c]
  }

  lemma {:induction false} ReplaceCharAppend(a: string, b: string, c: char, sub: string)
    ensures ReplaceChar(a + b, c, sub) == ReplaceChar(a, c, sub) + ReplaceChar(b, c, sub)
  {
    if a == "" {
      assert a + b == b;
    } else {
      assert (a + b)[1..] == a[1..] + b;
      ReplaceCharAppend(a[1..], b, c, sub);
    }
  }

  /** Escaping works character by character, although it is two passes over the whole value. */
  lemma EscapeAppend(a: string, b: string)
    ensures Escape(a + b) == Escape(a) + Escape(b)
  {
    ReplaceCharAppend(a, b, '\\', "\\\\");
    ReplaceCharAppend(ReplaceChar(a, '\\', "\\\\"), ReplaceChar(b, '\\', "\\\\"), '\'', "\\'");
  }

  lemma EscapeOne(c: char)
    ensures Escape([c]) == EscapedChar(c)
  {
    assert ReplaceChar([c], '\\', "\\\\") == if c == '\\' then "\\\\" else [c];
    assert "\\\\"[1..] == "\\" && "\\"[1..] == "";
    assert ReplaceChar("\\", '\'', "\\'") == "\\";
    assert ReplaceChar("\\\\", '\'', "\\'") == "\\\\";
  }

  lemma EscapeCons(v: string)
    requires v != ""
    ensures Escape(v) == EscapedChar(v[0]) + Escape(v[1..])
  {
    assert v == [v[0]] + v[1..];
    EscapeAppend([v[0]], v[1..]);
    EscapeOne(v[0]);
  }

  lemma SliceStep(s: string, i: nat, e: string, rest: string)
    requires i <= |s| && s[i..] == e + rest
    ensures i + |e| <= |s| && s[i + |e|..] == rest && forall k | 0 <= k < |e| :: s[i + k] == e[k]
  {
    assert s[i + |e|..] == s[i..][|e|..];
    assert forall k | 0 <= k < |e| :: s[i + k] == s[i..][k];
  }

  /** Where the escaped form of a value goes on after its first character. */
  lemma EscapeStep(s: string, i: nat, v: string, tail: string)
    requires i <= |s| && v != "" && s[i..] == Escape(v) + tail
    ensures
      var e := EscapedChar(v[0]);
      && i + |e| <= |s| && s[i] == e[0] && (|e| == 2 ==> s[i + 1] == e[1])
      && s[i + |e|..] == Escape(v[1..]) + tail
  {
    EscapeCons(v);
    assert |EscapedChar(v[0])| >= 1;
    hide *;
    var e := EscapedChar(v[0]);
    Reassociate(e, Escape(v[1..]), tail);
    SliceStep(s, i, e, Escape(v[1..]) + tail);
    assert s[i + 0] == e[0];
  }

  lemma Reassociate(a: string, b: string, c: string)
    ensures (a + b) + c == a + (b + c)
  {
  }

  // ---------------------------------------------------------------------------------------
  // The decoder
  // ---------------------------------------------------------------------------------------

  /** Decoding the escaped form of a value up to its closing quote gives the value. */
  lemma {:induction false} QuotedEscape(s: string, i: nat, v: string, tail: string)
    requires i <= |s| && s[i..] == Escape(v) + ("'" + tail)
    ensures Quoted(s, i, '\'') == Some((v, |s| - |tail|))
    decreases v
  {
    if v == "" {
      assert s[i..][0] == '\'';
    } else {
      hide Escape;
      EscapeStep(s, i, v, "'" + tail);
      QuotedEscape(s, i + |EscapedChar(v[0])|, v[1..], tail);
      assert v == [v[0]] + v[1..];
    }
  }

  /** Without the closing quote, decoding runs off the end. */
  lemma {:induction false} QuotedUnterminated(s: string, i: nat, v: string)
    requires i <= |s| && s[i..] == Escape(v)
    ensures Quoted(s, i, '\'') == None
    decreases v
  {
    if v != "" {
      hide Escape;
      assert Escape(v) + "" == Escape(v) && Escape(v[1..]) + "" == Escape(v[1..]);
      EscapeStep(s, i, v, "");
      QuotedUnterminated(s, i + |EscapedChar(v[0])|, v[1..]);
    }
  }

  /** Nothing, or white space followed by a comment. */
  predicate IsSuffix(s: string) {
    s == "" || (0 < SkipSpace(s, 0) < |s| && s[SkipSpace(s, 0)] == '#')
  }

  lemma {:induction false} SkipSpaceIs(s: string, i: nat, j: nat)
    requires i <= j <= |s| && (forall k | i <= k < j :: IsSpace(s[k])) && (j < |s| ==> !IsSpace(s[j]))
    ensures SkipSpace(s, i) == j
    decreases j - i
  {
    if i < j {
      SkipSpaceIs(s, i + 1, j);
    }
  }

  lemma {:induction false} SkipSpaceStops(s: string, i: nat)
    requires i <= |s|
    ensures forall k | i <= k < SkipSpace(s, i) :: IsSpace(s[k])
    ensures SkipSpace(s, i) < |s| ==> !IsSpace(s[SkipSpace(s, i)])
    decreases |s| - i
  {
    if i < |s| && IsSpace(s[i]) {
      SkipSpaceStops(s, i + 1);
    }
  }

  lemma QuoteShape(v: string, suffix: string)
    ensures
      var s := Quote(v) + suffix;
      var n := |s| - |suffix|;
      && n >= 2 && s[0] == '\'' && s[n - 1] == '\'' && s[n..] == suffix
      && s[1..] == Escape(v) + ("'" + suffix) && s[0..] == s
  {
    hide Escape;
    var s := Quote(v) + suffix;
    assert s == "'" + (Escape(v) + ("'" + suffix));
  }

  lemma SkipToSuffix(s: string, n: nat, suffix: string)
    requires n <= |s| && s[n..] == suffix
    ensures SkipSpace(s, n) == n + SkipSpace(suffix, 0)
  {
    assert forall k | 0 <= k < |suffix| :: suffix[k] == s[n + k];
    SkipSpaceStops(suffix, 0);
    SkipSpaceIs(s, n, n + SkipSpace(suffix, 0));
  }

  /** What decoding a quoted text comes to, once its closing quote is found. */
  lemma DecodeQuoted(s: string, v: string, n: nat)
    requires s != "" && (s[0] == '"' || s[0] == '\'') && SkipSpace(s, 0) == 0 && n <= |s|
    requires Quoted(s, 1, s[0]) == Some((v, n))
    ensures
      var t := SkipSpace(s, n);
      Decode(s) == if t == |s| || s[t] == '#' then Success(v) else Failure(TrailingText)
  {
    hide Quoted, SkipSpace, UnquotedEnd, StripRight;
    assert s[0..] == s;
  }

  lemma RestAfter(s: string, n: nat, rest: string)
    requires n <= |s| && s[n..] == rest
    ensures
      var t, u := SkipSpace(rest, 0), SkipSpace(s, n);
      (u == |s| || s[u] == '#') <==> (t == |rest| || rest[t] == '#')
  {
    SkipToSuffix(s, n, rest);
    hide SkipSpace;
    var t := SkipSpace(rest, 0);
    assert t < |rest| ==> s[n + t] == s[n..][t];
  }

  lemma NoSpaceFirst(s: string)
    requires s != "" && (s[0] == '"' || s[0] == '\'')
    ensures SkipSpace(s, 0) == 0
  {
  }

  /** A single-quoted value is accepted exactly when only white space, or a comment, follows. */
  lemma DecodeQuoteIff(v: string, rest: string)
    ensures
      var t := SkipSpace(rest, 0);
      Decode(Quote(v) + rest) == if t == |rest| || rest[t] == '#' then Success(v) else Failure(TrailingText)
  {
    hide *;
    var s := Quote(v) + rest;
    QuoteShape(v, rest);
    NoSpaceFirst(s);
    QuotedEscape(s, 1, v, rest);
    DecodeQuoted(s, v, |s| - |rest|);
    RestAfter(s, |s| - |rest|, rest);
  }

  lemma SuffixEnds(suffix: string)
    requires IsSuffix(suffix)
    ensures
      var t := SkipSpace(suffix, 0);
      t == |suffix| || suffix[t] == '#'
  {
  }

  /** Quoting and decoding are inverse, with or without a comment after the quoted value. */
  lemma DecodeQuote(v: string, suffix: string)
    requires IsSuffix(suffix)
    ensures Decode(Quote(v) + suffix) == Success(v)
  {
    SuffixEnds(suffix);
    hide *;
    DecodeQuoteIff(v, suffix);
  }

  lemma DecodeUnterminated(v: string)
    ensures Decode("'" + Escape(v)).Failure?
  {
    var s := "'" + Escape(v);
    SkipSpaceIs(s, 0, 0);
    assert s[0..] == s && s[1..] == Escape(v);
    QuotedUnterminated(s, 1, v);
  }

  // ---------------------------------------------------------------------------------------
  // The comment scanner
  // ---------------------------------------------------------------------------------------

  lemma CommentAtChar(s: string, i: nat, c: char)
    requires
      var e := EscapedChar(c);
      i + |e| <= |s| && s[i] == e[0] && (|e| == 2 ==> s[i + 1] == e[1])
    ensures CommentAt(s, i, Some('\''), false) == CommentAt(s, i + |EscapedChar(c)|, Some('\''), false)
  {
    if c == '\\' || c == '\'' {
      assert CommentAt(s, i, Some('\''), false) == CommentAt(s, i + 1, Some('\''), true);
    }
  }

  /** Scanning over the escaped form of a value stays inside the quotes until they close. */
  lemma {:induction false} CommentAtEscape(s: string, i: nat, v: string, tail: string)
    requires i <= |s| && s[i..] == Escape(v) + ("'" + tail)
    ensures CommentAt(s, i, Some('\''), false) == CommentAt(s, |s| - |tail|, None, false)
    decreases v
  {
    if v == "" {
      assert s[i..][0] == '\'';
    } else {
      hide Escape, CommentAt, EscapedChar;
      EscapeStep(s, i, v, "'" + tail);
      CommentAtChar(s, i, v[0]);
      CommentAtEscape(s, i + |EscapedChar(v[0])|, v[1..], tail);
    }
  }

  lemma {:induction false} CommentAtSpace(s: string, i: nat, j: nat)
    requires i <= j < |s| && s[j] == '#' && j > 0 && IsSpace(s[j - 1])
    requires forall k | i <= k < j :: IsSpace(s[k])
    ensures CommentAt(s, i, None, false) == Some(j)
    decreases j - i
  {
    if i < j {
      CommentAtSpace(s, i + 1, j);
    }
  }

  lemma {:induction false} SpaceStartIs(s: string, i: nat, j: nat)
    requires j <= i <= |s| && (forall k | j <= k < i :: IsSpace(s[k])) && (j > 0 ==> !IsSpace(s[j - 1]))
    ensures SpaceStart(s, i) == j
  {
    if j < i {
      SpaceStartIs(s, i - 1, j);
    }
  }

  lemma {:induction false} SpaceStartStops(s: string, i: nat)
    requires i <= |s|
    ensures forall k | SpaceStart(s, i) <= k < i :: IsSpace(s[k])
  {
    if i > 0 && IsSpace(s[i - 1]) {
      SpaceStartStops(s, i - 1);
    }
  }

  lemma CommentAfterQuote(s: string, n: nat, suffix: string)
    requires 0 < n <= |s| && s[n..] == suffix && !IsSpace(s[n - 1]) && IsSuffix(suffix) && suffix != ""
    ensures
      var at := CommentAt(s, n, None, false);
      at.Some? && SpaceStart(s, at.value) == n
  {
    var j := n + SkipSpace(suffix, 0);
    assert forall k | 0 <= k < |suffix| :: suffix[k] == s[n + k];
    SkipSpaceStops(suffix, 0);
    CommentAtSpace(s, n, j);
    SpaceStartIs(s, j, n);
  }

  /** The comment scanner recovers the suffix from the editor's own output. */
  lemma SuffixOfQuote(v: string, suffix: string)
    requires IsSuffix(suffix)
    ensures CommentSuffix(Quote(v) + suffix) == suffix
  {
    hide Escape, Quote;
    var s := Quote(v) + suffix;
    var n := |s| - |suffix|;
    QuoteShape(v, suffix);
    CommentAtEscape(s, 1, v, suffix);
    assert CommentAt(s, 0, None, false) == CommentAt(s, n, None, false);
    if suffix != "" {
      CommentAfterQuote(s, n, suffix);
    }
  }

  /** Whatever the raw value, what is kept of it is a suffix in this sense, and part of it. */
  lemma CommentSuffixIsSuffix(raw: string) returns (j: nat)
    ensures IsSuffix(CommentSuffix(raw))
    ensures j <= |raw| && CommentSuffix(raw) == raw[j..]
  {
    var at := CommentAt(raw, 0, None, false);
    j := |raw|;
    if at.Some? {
      j := SpaceStart(raw, at.value);
      SpaceStartStops(raw, at.value);
      var suffix := raw[j..];
      assert forall k | 0 <= k < |suffix| :: suffix[k] == raw[j + k];
      SkipSpaceIs(suffix, 0, at.value - j);
    }
  }
}

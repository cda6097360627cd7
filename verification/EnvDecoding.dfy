/** What else the decoder reads: values in double quotes and unquoted values. */
module EnvDecoding {
  import opened Common
  import opened EnvText
  import opened EnvQuoting

  // ---------------------------------------------------------------------------------------
  // Double quotes
  // ---------------------------------------------------------------------------------------

  /** How a character is written between double quotes. */
  function InDouble(c: char): string {
    if c == '"' || c == '\\' || c == '$' then ['\\', c]
    else if c == '\n' then "\\n"
    else if c == '\r' then "\\r"
    else if c == '\t' then "\\t"
    else [c]
  }

  function AllInDouble(v: string): string {
    if v == "" then "" else InDouble(v[0]) + AllInDouble(v[1..])
  }

  lemma QuotedChar(s: string, i: nat, c: char)
    requires
      var e := InDouble(c);
      i + |e| <= |s| && s[i] == e[0] && (|e| == 2 ==> s[i + 1] == e[1])
    ensures Quoted(s, i, '"') == Prepend([c], Quoted(s, i + |InDouble(c)|, '"'))
  {
  }

  lemma {:induction false} QuotedDouble(s: string, i: nat, v: string, tail: string)
    requires i <= |s| && s[i..] == AllInDouble(v) + ("\"" + tail)
    ensures Quoted(s, i, '"') == Some((v, |s| - |tail|))
    decreases v
  {
    if v == "" {
      assert s[i..][0] == '"';
    } else {
      DoubleStep(s, i, v, "\"" + tail);
      QuotedChar(s, i, v[0]);
      hide *;
      QuotedDouble(s, i + |InDouble(v[0])|, v[1..], tail);
      PrependFirst(v, |s| - |tail|);
    }
  }

  lemma PrependFirst(v: string, n: nat)
    requires v != ""
    ensures Prepend([v[0]], Some((v[1..], n))) == Some((v, n))
  {
    assert [v[0]] + v[1..] == v;
  }

  lemma DoubleStep(s: string, i: nat, v: string, tail: string)
    requires i <= |s| && v != "" && s[i..] == AllInDouble(v) + tail
    ensures
      var e := InDouble(v[0]);
      && i + |e| <= |s| && s[i] == e[0] && (|e| == 2 ==> s[i + 1] == e[1])
      && s[i + |e|..] == AllInDouble(v[1..]) + tail
  {
    assert AllInDouble(v) == InDouble(v[0]) + AllInDouble(v[1..]) && |InDouble(v[0])| >= 1;
    hide *;
    var e := InDouble(v[0]);
    Reassociate(e, AllInDouble(v[1..]), tail);
    SliceStep(s, i, e, AllInDouble(v[1..]) + tail);
    assert s[i + 0] == e[0];
  }

  /** Every value, also one of several lines, can be written in double quotes and is read back. */
  lemma DecodeDouble(v: string, suffix: string)
    requires IsSuffix(suffix)
    ensures Decode("\"" + AllInDouble(v) + ("\"" + suffix)) == Success(v)
  {
    var s := "\"" + AllInDouble(v) + ("\"" + suffix);
    var n := |s| - |suffix|;
    DoubleShape(AllInDouble(v), suffix);
    SuffixEnds(suffix);
    hide *;
    NoSpaceFirst(s);
    QuotedDouble(s, 1, v, suffix);
    DecodeQuoted(s, v, n);
    RestAfter(s, n, suffix);
  }

  lemma DoubleShape(inner: string, suffix: string)
    ensures
      var s := "\"" + inner + ("\"" + suffix);
      s[0] == '"' && s[1..] == inner + ("\"" + suffix) && s[|s| - |suffix|..] == suffix
  {
  }

  // ---------------------------------------------------------------------------------------
  // Unquoted values
  // ---------------------------------------------------------------------------------------

  predicate StartsComment(s: string, k: nat)
    requires k < |s|
  {
    s[k] == '#' && k > 0 && IsSpace(s[k - 1])
  }

  lemma {:induction false} UnquotedEndIs(s: string, i: nat, j: nat)
    requires i <= j <= |s| && (forall k | i <= k < j :: !StartsComment(s, k)) && (j < |s| ==> StartsComment(s, j))
    ensures UnquotedEnd(s, i) == j
    decreases j - i
  {
    if i < j {
      assert !StartsComment(s, i);
      UnquotedEndIs(s, i + 1, j);
    }
  }

  lemma {:induction false} StripRightIs(s: string, n: nat)
    requires 0 < n <= |s| && !IsSpace(s[n - 1]) && forall k | n <= k < |s| :: IsSpace(s[k])
    ensures StripRight(s) == s[..n]
    decreases |s|
  {
    if n < |s| {
      StripRightIs(s[..|s| - 1], n);
      assert s[..|s| - 1][..n] == s[..n];
    } else {
      assert s[..n] == s;
    }
  }

  /** A text that needs no quotes. */
  predicate Bare(v: string) {
    && v != "" && !IsSpace(v[0]) && v[0] != '"' && v[0] != '\'' && !IsSpace(v[|v| - 1])
    && forall k | 0 <= k < |v| :: !StartsComment(v, k)
  }

  lemma BareEnd(v: string, suffix: string) returns (j: nat)
    requires Bare(v) && IsSuffix(suffix)
    ensures
      var s := v + suffix;
      && |v| <= j <= |s| && UnquotedEnd(s, 0) == j && forall k | |v| <= k < j :: IsSpace(s[k])
  {
    var s := v + suffix;
    var n := |v|;
    j := if suffix == "" then n else n + SkipSpace(suffix, 0);
    SkipSpaceStops(suffix, 0);
    assert forall k | 0 <= k < |suffix| :: s[n + k] == suffix[k];
    assert forall k | 0 <= k < n :: s[k] == v[k];
    forall k | 0 <= k < j ensures !StartsComment(s, k) {
      if k < n {
        assert !StartsComment(v, k);
      } else {
        assert IsSpace(suffix[k - n]);
      }
    }
    UnquotedEndIs(s, 0, j);
  }

  /** An unquoted value is read as it stands, without the white space and comment after it. */
  lemma DecodeBare(v: string, suffix: string)
    requires Bare(v) && IsSuffix(suffix)
    ensures Decode(v + suffix) == Success(v)
  {
    var s := v + suffix;
    assert s[0] == v[0] && s[|v| - 1] == v[|v| - 1];
    SkipSpaceIs(s, 0, 0);
    var j := BareEnd(v, suffix);
    assert s[0..] == s && s[..j][|v| - 1] == v[|v| - 1] && s[..j][..|v|] == v;
    StripRightIs(s[..j], |v|);
  }

  // ---------------------------------------------------------------------------------------
  // Comments behind values that the editor did not write
  // ---------------------------------------------------------------------------------------

  lemma {:induction false} CommentAtPlain(s: string, i: nat, n: nat)
    requires i <= n <= |s|
    requires forall k | i <= k < n :: s[k] !in "\"'\\" && !StartsComment(s, k)
    ensures CommentAt(s, i, None, false) == CommentAt(s, n, None, false)
    decreases n - i
  {
    if i < n {
      CommentAtPlain(s, i + 1, n);
    }
  }

  lemma SuffixFound(s: string, n: nat, suffix: string)
    requires 0 < n <= |s| && s[n..] == suffix && !IsSpace(s[n - 1]) && IsSuffix(suffix)
    requires CommentAt(s, 0, None, false) == CommentAt(s, n, None, false)
    ensures CommentSuffix(s) == suffix
  {
    if suffix != "" {
      CommentAfterQuote(s, n, suffix);
    }
  }

  /** Behind an unquoted value the scanner finds the comment, with the white space before it. */
  lemma SuffixOfBare(v: string, suffix: string)
    requires Bare(v) && (forall k | 0 <= k < |v| :: v[k] !in "\"'\\") && IsSuffix(suffix)
    ensures CommentSuffix(v + suffix) == suffix
  {
    var s := v + suffix;
    forall k | 0 <= k < |v| ensures s[k] !in "\"'\\" && !StartsComment(s, k) {
      assert s[k] == v[k] && !StartsComment(v, k);
      assert k > 0 ==> s[k - 1] == v[k - 1];
    }
    hide CommentAt, IsSuffix, IsSpace;
    CommentAtPlain(s, 0, |v|);
    assert s[|v|..] == suffix && s[|v| - 1] == v[|v| - 1];
    SuffixFound(s, |v|, suffix);
  }

  lemma CommentAtPair(s: string, i: nat, c: char)
    requires
      var e := InDouble(c);
      i + |e| <= |s| && s[i] == e[0] && (|e| == 2 ==> s[i + 1] == e[1])
    ensures CommentAt(s, i, Some('"'), false) == CommentAt(s, i + |InDouble(c)|, Some('"'), false)
  {
    if |InDouble(c)| == 2 {
      assert CommentAt(s, i, Some('"'), false) == CommentAt(s, i + 1, Some('"'), true);
    }
  }

  lemma {:induction false} CommentAtDouble(s: string, i: nat, v: string, tail: string)
    requires i <= |s| && s[i..] == AllInDouble(v) + tail && tail != "" && tail[0] == '"'
    ensures CommentAt(s, i, Some('"'), false) == CommentAt(s, |s| - |tail| + 1, None, false)
    decreases v
  {
    hide *;
    if v == "" {
      CommentAtClose(s, i, tail);
    } else {
      DoubleStep(s, i, v, tail);
      CommentAtPair(s, i, v[0]);
      CommentAtDouble(s, i + |InDouble(v[0])|, v[1..], tail);
    }
  }

  lemma CommentAtClose(s: string, i: nat, tail: string)
    requires i <= |s| && s[i..] == AllInDouble("") + tail && tail != "" && tail[0] == '"'
    ensures CommentAt(s, i, Some('"'), false) == CommentAt(s, |s| - |tail| + 1, None, false)
  {
    assert AllInDouble("") + tail == tail && s[i..][0] == '"';
  }

  /** And behind a value in double quotes, whatever is in it. */
  lemma SuffixOfDouble(v: string, suffix: string)
    requires IsSuffix(suffix)
    ensures CommentSuffix("\"" + AllInDouble(v) + ("\"" + suffix)) == suffix
  {
    var s := "\"" + AllInDouble(v) + ("\"" + suffix);
    var n := |s| - |suffix|;
    DoubleShape(AllInDouble(v), suffix);
    assert s[n - 1] == ("\"" + suffix)[0];
    assert s[0] == '"';
    assert CommentAt(s, 0, None, false) == CommentAt(s, 1, Some('"'), false);
    hide CommentAt, IsSuffix, AllInDouble;
    CommentAtDouble(s, 1, v, "\"" + suffix);
    SuffixFound(s, n, suffix);
  }
}

/** Values that hold a break the editor does not know, and lines whose own break it does not keep. */
module EnvCutting {
  import opened Common
  import opened EnvText
  import opened EnvLines
  import opened EnvQuoting
  import opened EnvAssignments
  import opened EnvParsing
  import opened EnvWriting

  // ---------------------------------------------------------------------------------------
  // Values holding a break that the editor lets through
  // ---------------------------------------------------------------------------------------

  lemma {:induction false} FirstExotic(v: string) returns (k: nat)
    requires !Plain(v) && SingleLine(v)
    ensures k < |v| && IsExotic(v[k]) && BreakFree(v[..k])
  {
    k := 0;
    if !IsExotic(v[0]) {
      assert v == [v[0]] + v[1..];
      PlainParts([v[0]], v[1..]);
      k := FirstExotic(v[1..]);
      assert forall i | 1 <= i < |v| :: v[i] == v[1..][i - 1];
      k := k + 1;
    }
  }

  /** The quoted form is cut at the first such break, inside the quotes. */
  lemma QuoteCut(v: string, k: nat)
    requires k < |v| && IsExotic(v[k])
    ensures Quote(v) == ("'" + Escape(v[..k])) + ([v[k]] + (Escape(v[k + 1..]) + "'"))
  {
    assert v == v[..k] + ([v[k]] + v[k + 1..]);
    EscapeAppend(v[..k], [v[k]] + v[k + 1..]);
    EscapeAppend([v[k]], v[k + 1..]);
    EscapeOne(v[k]);
  }

  /** What the parser sees of such a line stops at the break. */
  lemma CutLine(u: string, c: char, more: string)
    requires u != "" && BreakFree(u) && IsExotic(c)
    ensures Lines(u + ([c] + more)) == [u + [c]] + Lines(more)
    ensures Chomp(u + [c]) == u && ChompNewline(u + [c]) == u + [c]
  {
    OneLine(u, [c]);
    ChompIs(u, [c]);
    hide Lines;
    Regroup(u, [c], more);
    LinesAppend(u + [c], more);
  }

  /** The quote is not closed there, so the line cannot be decoded. */
  lemma CutLineFails(body: string, w: string, line: string, n: nat, values: map<string, string>)
    requires Match(body).Some? && Chomp(line) == PrefixOf(body) + ("'" + Escape(w))
    ensures ParseLine(line, n, values) == Failure(n)
  {
    MatchKeepsPrefix(body, "'" + Escape(w));
    assert RawOf(Chomp(line)) == "'" + Escape(w);
    DecodeUnterminated(w);
  }

  lemma JoinedBreakFree(a: string, b: string)
    requires BreakFree(a) && BreakFree(b)
    ensures BreakFree(a + b)
  {
    hide IsBreak;
  }

  lemma CutParts(prefix: string, start: string, c: char, end: string, tail: string)
    ensures prefix + (start + ([c] + end)) + tail == (prefix + start) + ([c] + (end + tail))
    ensures prefix + (start + ([c] + end)) + tail == ((prefix + start) + [c]) + (end + tail)
  {
  }

  /** A rewritten line is cut in two: what is before the break, and the rest of the value with
      all that the line had behind it. */
  lemma CutIs(body: string, v: string, k: nat, tail: string) returns (first: string, more: string)
    requires Match(body).Some? && k < |v| && IsExotic(v[k]) && BreakFree(v[..k]) && BreakFree(PrefixOf(body))
    ensures PrefixOf(body) + Quote(v) + tail == first + more && |more| > |tail|
    ensures Lines(first + more) == [first] + Lines(more)
    ensures Chomp(first) == PrefixOf(body) + ("'" + Escape(v[..k])) && ChompNewline(first) == first && first != ""
  {
    QuoteCut(v, k);
    EscapeBreakFree(v[..k]);
    hide Match, Quote, Escape, Lines, Chomp, ChompNewline, IsExotic, IsBreak;
    JoinedBreakFree("'", Escape(v[..k]));
    var start, end := "'" + Escape(v[..k]), Escape(v[k + 1..]) + "'";
    JoinedBreakFree(PrefixOf(body), start);
    hide PrefixOf, BreakFree;
    first, more := (PrefixOf(body) + start) + [v[k]], end + tail;
    CutLine(PrefixOf(body) + start, v[k], more);
    CutParts(PrefixOf(body), start, v[k], end, tail);
  }

  /** Unless the line is one that splits, its prefix holds no break. */
  lemma PrefixBreakFree(line: string)
    requires Match(ChompNewline(line)).Some? && BreakFree(Chomp(line)) && !Splits(line)
    ensures BreakFree(PrefixOf(ChompNewline(line)))
  {
    var body := ChompNewline(line);
    LineIs(line);
    MissedBreak(line);
    if Chomp(line) != body {
      var u := Chomp(line);
      hide Match, Chomp, ChompNewline, IsBreak, CommentSuffix;
      if RawOf(body) == "" {
        var suffix := KeptShape(line, "");
      } else {
        assert |PrefixOf(body)| <= |u|;
        assert forall i | 0 <= i < |PrefixOf(body)| :: PrefixOf(body)[i] == u[i];
      }
    } else {
      hide Match, Chomp, ChompNewline, IsBreak;
    }
  }

  /** The line, as the parser splits the text after such a value is written to it. */
  lemma ExoticLines(text: string, p: nat, v: string) returns (first: string, more: string, k: nat)
    requires SingleLine(v) && !Plain(v)
    requires p < |Lines(text)| && Match(ChompNewline(Lines(text)[p])).Some? && !Splits(Lines(text)[p])
    ensures Lines(Written(text, p, v)) == Lines(text)[..p] + ([first] + Lines(more)) && k <= |v|
    ensures Chomp(first) == PrefixOf(ChompNewline(Lines(text)[p])) + ("'" + Escape(v[..k]))
    ensures ChompNewline(first) == first && Written(text, p, v) == Concat(Lines(text)[..p]) + (first + more)
    ensures |more| > |TailOf(Lines(text)[p]) + Concat(Lines(text)[p + 1..])|
  {
    var lines := Lines(text);
    var line, rest := lines[p], Concat(lines[p + 1..]);
    var body := ChompNewline(line);
    k := FirstExotic(v);
    LineInPlace(text, p);
    PrefixBreakFree(line);
    HeadAndTail(line, v);
    RewrittenMatches(line, v);
    var tail := TailOf(line);
    hide Lines, Match, ChompNewline, Chomp, Quote, Rewrite, CommentSuffix, PrefixOf, RawOf, IsExotic, Plain, Splits;
    hide LineLength, Closed, Concat, BreakFree, ParseLines, ParseLine, SingleLine;
    first, more := CutIs(body, v, k, tail + rest);
    var x := Rewrite(line, Quote(v)) + rest;
    Regroup(PrefixOf(body) + Quote(v), tail, rest);
    ConcatUpdate(lines, p, Rewrite(line, Quote(v)));
    StartsSame(Rewrite(line, Quote(v)), rest);
    LinesBefore(text, p, x);
  }

  /** What an edit keeps behind the value. */
  function TailOf(line: string): string
    requires Match(ChompNewline(line)).Some?
  {
    CommentSuffix(RawOf(ChompNewline(line))) + line[|ChompNewline(line)|..]
  }

  /** A text with such a value written to it cannot be parsed: the parser fails on that line. */
  lemma WriteExotic(text: string, p: nat, v: string)
    requires Parse(text).Success? && SingleLine(v) && !Plain(v)
    requires p < |Lines(text)| && Match(ChompNewline(Lines(text)[p])).Some? && !Splits(Lines(text)[p])
    ensures Parse(Written(text, p, v)) == Failure(p + 1)
  {
    var lines := Lines(text);
    var first, more, k := ExoticLines(text, p, v);
    hide Lines, Match, ChompNewline, Chomp, Written, Concat, ParseLines, ParseLine, SingleLine, Plain, Splits, Escape;
    ParsesBefore(lines, p);
    ParseAppend(lines[..p], [first] + Lines(more), 1, map[]);
    CutLineFails(ChompNewline(lines[p]), v[..k], first, p + 1, ParseLines(lines[..p], 1, map[]).value);
    ParseFailsFirst(first, Lines(more), p + 1, ParseLines(lines[..p], 1, map[]).value);
  }

  lemma ParseFailsFirst(first: string, more: seq<string>, n: nat, values: map<string, string>)
    requires ParseLine(first, n, values) == Failure(n)
    ensures ParseLines([first] + more, n, values) == Failure(n)
  {
  }

  // ---------------------------------------------------------------------------------------
  // Lines that are not kept
  // ---------------------------------------------------------------------------------------

  /** A text without a break, put before a line, becomes part of it. */
  lemma Glue(u: string, line: string, rest: string)
    requires u != "" && BreakFree(u) && line != "" && LineLength(line + rest) == |line|
    ensures Lines(u + (line + rest)) == [u + line] + Lines(rest)
    ensures Chomp(u + line) == u + Chomp(line)
  {
    BreakFreePrefix(u, line + rest);
    assert !IsBreak(u[|u| - 1]);
    GlueChomp(u, line);
    hide LineLength, IsBreak, Chomp;
    Regroup(u, line, rest);
    LinesSplit(u + line, rest);
  }

  lemma GlueChomp(u: string, line: string)
    requires u != "" && line != "" && !IsBreak(u[|u| - 1])
    ensures Chomp(u + line) == u + Chomp(line)
  {
    var all := u + line;
    assert all[|all| - 1] == line[|line| - 1];
    assert |line| >= 2 ==> all[|all| - 2] == line[|line| - 2];
    assert EndsInCrLf(all) <==> EndsInCrLf(line);
  }

  /** The line is blank or a comment. */
  predicate Ignorable(line: string) {
    var t := SkipSpace(Chomp(line), 0);
    t == |Chomp(line)| || Chomp(line)[t] == '#'
  }

  lemma IgnorableIsIgnored(line: string)
    requires Ignorable(line)
    ensures Ignored(line)
  {
    hide Chomp;
    var s := Chomp(line);
    var t := SkipSpace(s, 0);
    assert SkipWord(s, t) == t && s[t..t] == "";
  }

  lemma QuotedIgnored(line: string)
    requires Chomp(line) != "" && Chomp(line)[0] == '\''
    ensures Ignored(line)
  {
    hide Chomp;
    var s := Chomp(line);
    assert SkipSpace(s, 0) == 0 && SkipWord(s, 0) == 0 && s[0..0] == "";
  }

  /** The break is lost with the old value: the rewritten line ends in the quote. */
  lemma MergesShape(line: string, v: string)
    requires Match(ChompNewline(line)).Some? && BreakFree(Chomp(line)) && !Kept(line) && !Splits(line)
    ensures ChompNewline(line) == line && Rewrite(line, Quote(v)) == PrefixOf(line) + Quote(v)
    ensures BreakFree(PrefixOf(line))
  {
    HeadAndTail(line, v);
    MissedBreak(line);
    PrefixBreakFree(line);
    hide Match, Quote, Rewrite, CommentSuffix, Chomp, ChompNewline;
    assert (PrefixOf(line) + Quote(v)) + ("" + "") == PrefixOf(line) + Quote(v) && line[|line|..] == "";
  }

  /** What such a line reads as, with the next one glued to it. */
  lemma MergedReads(line: string, v: string, next: string, n: nat, values: map<string, string>)
    requires Match(line).Some? && |PrefixOf(line) + Quote(v)| <= |next|
    requires Chomp(next) == PrefixOf(line) + (Quote(v) + Chomp(next[|PrefixOf(line) + Quote(v)|..]))
    ensures
      var rest := next[|PrefixOf(line) + Quote(v)|..];
      && (Ignorable(rest) ==> Reads(next, Match(line).value.key, v))
      && (!Ignorable(rest) ==> ParseLine(next, n, values).Failure?)
  {
    var rest := Chomp(next[|PrefixOf(line) + Quote(v)|..]);
    QuoteStarts(v);
    DecodeQuoteIff(v, rest);
    hide Quote, IsSpace, Decode, Chomp, SkipSpace;
    MatchKeepsPrefix(line, Quote(v) + rest);
    assert RawOf(Chomp(next)) == Quote(v) + rest;
  }

  lemma SplitsBody(line: string) returns (u: string, c: char)
    requires Match(ChompNewline(line)).Some? && Splits(line)
    ensures ChompNewline(line) == line == u + [c] && u == Chomp(line) && IsExotic(c)
    ensures PrefixOf(line) == line && CommentSuffix(RawOf(line)) == ""
  {
    LineIs(line);
    MissedBreak(line);
    hide Match, CommentSuffix, Chomp, ChompNewline, IsExotic;
    u, c := Chomp(line), BreakOf(line)[0];
    assert BreakOf(line) == [c];
  }

  lemma StretchedReads(u: string, c: char)
    requires IsExotic(c) && Match(u + [c]).Some? && PrefixOf(u + [c]) == u + [c]
    ensures Match(u).Some? && Match(u).value.key == Match(u + [c]).value.key && u[Match(u).value.prefix..] == ""
  {
    ExoticIsBreak(c);
    MatchSpace(u, c);
    hide Match, IsExotic, IsBreak;
    assert |PrefixOf(u + [c])| == |u| + 1;
  }

  lemma SplitsReads(line: string)
    requires Match(ChompNewline(line)).Some? && Splits(line)
    ensures ChompNewline(line) == line && Reads(line, Match(line).value.key, "")
  {
    var u, c := SplitsBody(line);
    StretchedReads(u, c);
    assert Decode("") == Success("");
    hide Match, Decode, Chomp, ChompNewline, CommentSuffix, IsExotic, RawOf, PrefixOf, Splits;
  }

  lemma ExoticEnd(u: string, c: char)
    requires BreakFree(u) && IsExotic(c)
    ensures Lines(u + [c]) == [u + [c]] && u + [c] != "" && (u + [c])[|u + [c]| - 1] == c
  {
    ExoticIsBreak(c);
    assert IsBrk([c]);
    hide IsBreak, IsExotic, Lines, BreakFree;
    OneLine(u, [c]);
  }

  lemma SplitsOneLine(line: string)
    requires Match(ChompNewline(line)).Some? && BreakFree(Chomp(line)) && Splits(line)
    ensures line != "" && IsExotic(line[|line| - 1]) && Lines(line) == [line]
  {
    var u, c := SplitsBody(line);
    hide *;
    ExoticEnd(u, c);
  }

  lemma SplitsShape(line: string, v: string)
    requires Match(ChompNewline(line)).Some? && Splits(line)
    ensures ChompNewline(line) == line && Rewrite(line, Quote(v)) == line + Quote(v)
  {
    HeadAndTail(line, v);
    var u, c := SplitsBody(line);
    hide *;
    assert line[|line|..] == "" && "" + "" == "" && (line + Quote(v)) + "" == line + Quote(v);
  }

  // ---------------------------------------------------------------------------------------
  // The text after such a line is written to
  // ---------------------------------------------------------------------------------------

  lemma NextLine(text: string, p: nat)
    requires p + 1 < |Lines(text)|
    ensures
      var lines := Lines(text);
      var next, rest := lines[p + 1], Concat(lines[p + 2..]);
      && Concat(lines[p + 1..]) == next + rest && LineLength(next + rest) == |next| && next != ""
      && Lines(rest) == lines[p + 2..]
  {
    LineInPlace(text, p + 1);
    LinesFrom(text, p + 2);
    hide Lines, LineLength;
    var after := Lines(text)[p + 1..];
    assert after[0] == Lines(text)[p + 1] && after[1..] == Lines(text)[p + 2..];
  }

  lemma QuoteLine(v: string)
    requires SingleLine(v) && Plain(v)
    ensures BreakFree(Quote(v)) && Quote(v) != "" && Lines(Quote(v)) == [Quote(v)]
  {
    SingleLineBreakFree(v);
    QuoteBreakFree(v);
    QuoteStarts(v);
    hide Quote, Lines, SingleLine, Plain;
    OneLine(Quote(v), "");
    assert Quote(v) + "" == Quote(v);
  }

  lemma WrittenStarts(text: string, p: nat, v: string)
    requires p < |Lines(text)| && Match(ChompNewline(Lines(text)[p])).Some?
    ensures
      var x := Rewrite(Lines(text)[p], Quote(v)) + Concat(Lines(text)[p + 1..]);
      Written(text, p, v) == Concat(Lines(text)[..p]) + x && Lines(Written(text, p, v)) == Lines(text)[..p] + Lines(x)
  {
    hide Lines, Match, ChompNewline, Quote, Rewrite, Concat;
    var lines, line' := Lines(text), Rewrite(Lines(text)[p], Quote(v));
    RewrittenMatches(lines[p], v);
    ConcatUpdate(lines, p, line');
    StartsSame(line', Concat(lines[p + 1..]));
    LinesBefore(text, p, line' + Concat(lines[p + 1..]));
  }

  lemma DroppedAt(lines: seq<string>, p: nat, x: string)
    requires p + 1 < |lines|
    ensures lines[..p] + ([x] + lines[p + 2..]) == Dropped(lines, p + 1)[p := x]
  {
  }

  lemma NothingAfter(lines: seq<string>, p: nat)
    requires p + 1 == |lines|
    ensures Concat(lines[p + 1..]) == "" && forall x: string :: lines[..p] + [x] == lines[p := x]
  {
  }

  /** The line and the next one become one, unless it is the last. */
  lemma MergesLines(text: string, p: nat, v: string)
    requires p < |Lines(text)| && Match(ChompNewline(Lines(text)[p])).Some? && SingleLine(v) && Plain(v)
    requires !Kept(Lines(text)[p]) && !Splits(Lines(text)[p])
    ensures
      var lines, line' := Lines(text), Rewrite(Lines(text)[p], Quote(v));
      && BreakFree(line') && line' != ""
      && Lines(Written(text, p, v))
         == if p + 1 < |lines| then Dropped(lines, p + 1)[p := line' + lines[p + 1]] else lines[p := line']
  {
    var lines, line' := Lines(text), Rewrite(Lines(text)[p], Quote(v));
    LineInPlace(text, p);
    MergesShape(lines[p], v);
    QuoteLine(v);
    WrittenStarts(text, p, v);
    hide Lines, Match, ChompNewline, Chomp, Quote, Rewrite, Concat, Kept;
    hide Splits, Written, LineLength, Dropped, PrefixOf;
    hide IsBreak, SingleLine, Plain;
    JoinedBreakFree(PrefixOf(lines[p]), Quote(v));
    if p + 1 < |lines| {
      NextLine(text, p);
      Glue(line', lines[p + 1], Concat(lines[p + 2..]));
      DroppedAt(lines, p, line' + lines[p + 1]);
    } else {
      NothingAfter(lines, p);
      OneLine(line', "");
      assert line' + "" == line';
    }
  }

  lemma PastTwo(lines: seq<string>, p: nat, x: string)
    requires p < |lines|
    ensures p + 1 < |lines| ==> lines[..p] + ([lines[p]] + ([x] + lines[p + 2..])) == lines[p + 1 := x]
    ensures p + 1 == |lines| ==> lines[..p] + ([lines[p]] + [x]) == lines + [x]
  {
  }

  lemma ExoticCloses(line: string, x: string)
    requires line != "" && IsExotic(line[|line| - 1])
    ensures Closed(line, x)
  {
  }

  lemma SplitsFirst(text: string, p: nat, v: string)
    requires p < |Lines(text)| && Match(ChompNewline(Lines(text)[p])).Some? && Splits(Lines(text)[p])
    ensures
      var lines := Lines(text);
      Lines(Written(text, p, v)) == lines[..p] + ([lines[p]] + Lines(Quote(v) + Concat(lines[p + 1..])))
  {
    var line, rest := Lines(text)[p], Concat(Lines(text)[p + 1..]);
    LineInPlace(text, p);
    SplitsShape(line, v);
    SplitsOneLine(line);
    WrittenStarts(text, p, v);
    ExoticCloses(line, Quote(v) + rest);
    hide *;
    LinesAppend(line, Quote(v) + rest);
    Regroup(line, Quote(v), rest);
  }

  /** The value goes to the beginning of the next line, or to a new last line. */
  lemma SplitsLines(text: string, p: nat, v: string)
    requires p < |Lines(text)| && Match(ChompNewline(Lines(text)[p])).Some? && SingleLine(v) && Plain(v)
    requires Splits(Lines(text)[p])
    ensures
      var lines := Lines(text);
      Lines(Written(text, p, v))
        == if p + 1 < |lines| then lines[p + 1 := Quote(v) + lines[p + 1]] else lines + [Quote(v)]
  {
    var lines := Lines(text);
    SplitsFirst(text, p, v);
    QuoteLine(v);
    hide *;
    if p + 1 < |lines| {
      NextLine(text, p);
      Glue(Quote(v), lines[p + 1], Concat(lines[p + 2..]));
      PastTwo(lines, p, Quote(v) + lines[p + 1]);
    } else {
      NothingAfter(lines, p);
      PastTwo(lines, p, Quote(v));
      assert Quote(v) + "" == Quote(v);
    }
  }

  /** A text put before a line hides it from the parser if it begins with a quote. */
  lemma QuotedNext(v: string, next: string)
    requires BreakFree(Quote(v)) && next != ""
    ensures Ignored(Quote(v) + next) && Ignored(Quote(v))
  {
    QuoteStarts(v);
    assert Chomp(Quote(v)) == Quote(v);
    assert !IsBreak(Quote(v)[|Quote(v)| - 1]);
    GlueChomp(Quote(v), next);
    hide Quote, Chomp, IsBreak;
    QuotedIgnored(Quote(v));
    QuotedIgnored(Quote(v) + next);
  }
}

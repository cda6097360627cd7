/** What writing a value into the line of its key does to a text, and how a new key is added. */
module EnvWriting {
  import opened Common
  import opened EnvText
  import opened EnvLines
  import opened EnvQuoting
  import opened EnvAssignments
  import opened EnvParsing

  /** The text with `v` written into the assignment on line `p`. */
  function Written(text: string, p: nat, v: string): string
    requires p < |Lines(text)| && Match(ChompNewline(Lines(text)[p])).Some?
  {
    Concat(Lines(text)[p := Rewrite(Lines(text)[p], Quote(v))])
  }

  lemma ConcatOnly(x: string, y: string)
    ensures Concat([x][0 := y]) == y
  {
    assert [x][0 := y] == [y] && [y][1..] == [] && y + "" == y;
  }

  lemma ReplaceIs(text: string, key: string, v: string, p: nat)
    requires ValidKey(key) && SingleLine(v) && OnlyAt(Lines(text), key, p)
    ensures Replace(text, key, v) == Success(Written(text, p, v))
  {
    OnlyAtCount(Lines(text), key, p);
    EditOne(Lines(text), key, Quote(v), p);
  }

  lemma SingleLineBreakFree(v: string)
    requires SingleLine(v) && Plain(v)
    ensures BreakFree(v)
  {
  }

  // ---------------------------------------------------------------------------------------
  // The rewritten line
  // ---------------------------------------------------------------------------------------

  lemma QuoteStarts(v: string)
    ensures |Quote(v)| >= 2 && Quote(v)[0] == '\'' && Quote(v)[|Quote(v)| - 1] == '\'' && !IsSpace('\'')
  {
    hide Escape;
  }

  /** Taking a final newline away never reaches into a text that ends in a quote. */
  lemma ChompKeeps(a: string, z: string)
    requires a != "" && a[|a| - 1] == '\''
    ensures |ChompNewline(a + z)| >= |a| && ChompNewline(a + z)[..|a|] == a
  {
    assert (a + z)[|a| - 1] == a[|a| - 1];
    assert (a + z)[..|a|] == a;
  }

  lemma HeadAndTail(line: string, v: string)
    requires Match(ChompNewline(line)).Some?
    ensures
      var body := ChompNewline(line);
      Rewrite(line, Quote(v)) == (PrefixOf(body) + Quote(v)) + (CommentSuffix(RawOf(body)) + line[|body|..])
    ensures PrefixOf(ChompNewline(line)) != "" && PrefixOf(ChompNewline(line))[0] == line[0]
  {
    RewriteIs(line, v);
    hide Match, Quote, CommentSuffix, Rewrite;
  }

  lemma AfterPrefix(s: string, a: string, b: string)
    requires b != "" && |a + b| <= |s| && s[..|a + b|] == a + b
    ensures s == a + s[|a|..] && s[|a|..] != "" && s[|a|..][0] == b[0] && s != ""
    ensures a != "" ==> s[0] == a[0]
  {
    assert s[..|a|] == s[..|a + b|][..|a|] == a;
    assert s[|a|] == s[..|a + b|][|a|];
  }

  /** However a line is rewritten, the editor sees the same assignment on it. */
  lemma RewrittenMatches(line: string, v: string)
    requires Match(ChompNewline(line)).Some?
    ensures Match(ChompNewline(Rewrite(line, Quote(v)))) == Match(ChompNewline(line))
    ensures Rewrite(line, Quote(v)) != "" && Rewrite(line, Quote(v))[0] == line[0]
  {
    var body, line' := ChompNewline(line), Rewrite(line, Quote(v));
    HeadAndTail(line, v);
    QuoteStarts(v);
    hide Match, Quote, CommentSuffix, Rewrite, IsSpace, RawOf, PrefixOf, ChompNewline;
    var head, tail := PrefixOf(body) + Quote(v), CommentSuffix(RawOf(body)) + line[|body|..];
    ChompKeeps(head, tail);
    AfterPrefix(ChompNewline(line'), PrefixOf(body), Quote(v));
    assert line'[..|head|] == head;
    AfterPrefix(line', PrefixOf(body), Quote(v));
    PrefixIs(body);
    MatchKeepsPrefix(body, ChompNewline(line')[|PrefixOf(body)|..]);
  }

  lemma PrefixIs(body: string)
    requires Match(body).Some?
    ensures PrefixOf(body) == body[..Match(body).value.prefix]
  {
  }

  lemma KeptCloses(line: string, v: string, rest: string)
    requires Match(ChompNewline(line)).Some? && Kept(line) && BreakFree(Chomp(line)) && Closed(line, rest) && line != ""
    ensures Closed(Rewrite(line, Quote(v)), rest)
  {
    var suffix := KeptShape(line, v);
    LineIs(line);
    hide Rewrite, Quote, Match, ChompNewline, PrefixOf, Kept, Chomp;
    var b := BreakOf(line);
    if rest != "" {
      assert b != "";
      assert line[|line| - 1] == b[|b| - 1];
    }
  }

  /** Whatever is written, the lines around such a line stay. */
  lemma WrittenSplit(text: string, p: nat, v: string)
    requires p < |Lines(text)| && Match(ChompNewline(Lines(text)[p])).Some? && Kept(Lines(text)[p])
    ensures
      var line' := Rewrite(Lines(text)[p], Quote(v));
      Lines(Written(text, p, v)) == Lines(text)[..p] + (Lines(line') + Lines(text)[p + 1..])
  {
    LineInPlace(text, p);
    hide Rewrite, Quote, Match, ChompNewline, Kept, Lines, Closed;
    var line := Lines(text)[p];
    RewrittenMatches(line, v);
    KeptCloses(line, v, Concat(Lines(text)[p + 1..]));
    LinesSplice(text, p, Rewrite(line, Quote(v)));
  }

  lemma KeptBodies(line: string, v: string, u: string)
    requires Match(ChompNewline(line)).Some? && BreakFree(u)
    requires Rewrite(line, Quote(v)) == u + BreakOf(line)
    ensures Chomp(Rewrite(line, Quote(v))) == u
    ensures ChompNewline(Rewrite(line, Quote(v))) == NewBodyOf(ChompNewline(line), v)
  {
    RewriteIs(line, v);
    LineIs(line);
    MissedBreak(line);
    ChompIs(u, BreakOf(line));
    hide *;
    if Chomp(line) == ChompNewline(line) {
      SameEnd(NewBodyOf(ChompNewline(line), v), u, BreakOf(line));
    } else {
      assert line[|line|..] == "" && NewBodyOf(line, v) + "" == NewBodyOf(line, v);
    }
  }

  lemma SameEnd(a: string, b: string, z: string)
    requires a + z == b + z
    ensures a == b
  {
    assert |a| == |b| && a == (a + z)[..|a|] && b == (b + z)[..|b|];
  }

  /** A value without a break leaves such a line one line, and it reads as that value. */
  lemma KeptOneLine(line: string, v: string)
    requires Match(ChompNewline(line)).Some? && Kept(line) && BreakFree(Chomp(line)) && BreakFree(v)
    ensures
      var line' := Rewrite(line, Quote(v));
      && Lines(line') == [line'] && ChompNewline(line') == NewBodyOf(ChompNewline(line), v)
      && Reads(line', Match(ChompNewline(line)).value.key, v)
  {
    var body := ChompNewline(line);
    var suffix := KeptShape(line, v);
    var u := PrefixOf(body) + (Quote(v) + suffix);
    BreakOfIsBrk(line);
    QuoteBreakFree(v);
    QuoteStarts(v);
    MatchKeepsPrefix(body, Quote(v) + suffix);
    DecodeQuote(v, suffix);
    hide Rewrite, Quote, Match, ChompNewline, Chomp, Kept, IsSuffix, Decode, IsBrk, Lines, IsSpace;
    OneLine(u, BreakOf(line));
    KeptBodies(line, v, u);
    assert RawOf(u) == Quote(v) + suffix;
  }

  /** Writing to a line changes that line only, and it then reads as `v`. */
  lemma {:induction false} WrittenLines(text: string, key: string, p: nat, v: string)
    requires OnlyAt(Lines(text), key, p) && Kept(Lines(text)[p]) && SingleLine(v) && Plain(v)
    ensures
      var line' := Rewrite(Lines(text)[p], Quote(v));
      && Lines(Written(text, p, v)) == Lines(text)[p := line']
      && OnlyAt(Lines(text)[p := line'], key, p) && Reads(line', key, v)
      && ChompNewline(line') == NewBodyOf(ChompNewline(Lines(text)[p]), v)
  {
    hide Rewrite, Quote, Match, ChompNewline, Chomp, Kept, Lines, LineLength, Closed, Reads, NewBodyOf, Written;
    hide SingleLine, Plain, BreakFree, Concat;
    LineInPlace(text, p);
    SingleLineBreakFree(v);
    WrittenSplit(text, p, v);
    var line := Lines(text)[p];
    KeptOneLine(line, v);
    RewrittenMatches(line, v);
    ConcatUpdate(Lines(text), p, Rewrite(line, Quote(v)));
  }

  /** A second write to the same line erases the first, byte for byte. */
  lemma {:induction false} RewriteTwice(line: string, line': string, v: string, w: string)
    requires Match(ChompNewline(line)).Some? && line' == Rewrite(line, Quote(v))
    requires ChompNewline(line') == NewBodyOf(ChompNewline(line), v)
    ensures Match(ChompNewline(line')) == Match(ChompNewline(line))
    ensures Rewrite(line', Quote(w)) == Rewrite(line, Quote(w))
  {
    var body, body' := ChompNewline(line), ChompNewline(line');
    NewBodyReads(body, v);
    RewriteIs(line, v);
    RewriteIs(line, w);
    RewriteIs(line', w);
    assert PrefixOf(body') == PrefixOf(body);
    assert line'[|body'|..] == line[|body|..];
  }

  // ---------------------------------------------------------------------------------------
  // A key that is not assigned yet
  // ---------------------------------------------------------------------------------------

  lemma NewlineIs(text: string)
    ensures Newline(text) in {"\n", "\r\n"} && IsBrk(Newline(text))
    ensures Lines(Newline(text)) == [Newline(text)] && Chomp(Newline(text)) == "" && ChompNewline(Newline(text)) == ""
    ensures Newline(text) != "" && !(|Newline(text)| == 1 && IsExotic(Newline(text)[0]))
  {
    var nl := Newline(text);
    assert "" + nl == nl;
    OneLine("", nl);
    ChompIs("", nl);
  }

  lemma NothingMatches()
    ensures Match("").None?
  {
    assert ""[0..0] == "";
  }

  lemma CompletedUnbroken(text: string)
    requires text != "" && !EndsInNewline(text) && !IsExotic(text[|text| - 1])
    ensures
      var lines, p := Lines(text), |Lines(text)| - 1;
      && p >= 0 && ChompNewline(lines[p]) == Chomp(lines[p]) == lines[p]
      && Lines(Completed(text)) == lines[p := lines[p] + Newline(text)]
  {
    NewlineIs(text);
    LastLine(text);
    var lines, p, nl := Lines(text), |Lines(text)| - 1, Newline(text);
    LineInPlace(text, p);
    var last := lines[p];
    UnbrokenLast(text, last);
    CompletedAs(text, Concat(lines[..p]), last);
    hide *;
    OneLine(last, nl);
    StartsSame(last, nl);
    LinesBefore(text, p, last + nl);
    LastReplaced(lines, last + nl);
  }

  lemma StartsSame(a: string, b: string)
    requires a != ""
    ensures a + b != "" && (a + b)[0] == a[0]
  {
  }

  lemma CompletedAs(text: string, before: string, last: string)
    requires text != "" && !EndsInNewline(text) && text == before + last
    ensures Completed(text) == before + (last + Newline(text))
  {
    hide Newline, EndsInNewline;
  }

  lemma CompletedExotic(text: string)
    requires text != "" && IsExotic(text[|text| - 1])
    ensures Lines(Completed(text)) == Lines(text) + [Newline(text)]
  {
    NewlineIs(text);
    hide Lines, Newline;
    LinesAppend(text, Newline(text));
  }

  /** What completing a text adds to its lines: nothing, a newline at the end of the last one, or
      an empty line after a break that the editor does not know. */
  lemma CompletedLines(text: string)
    ensures
      var lines, done, nl := Lines(text), Lines(Completed(text)), Newline(text);
      || done == lines
      || (lines != [] && ChompNewline(lines[|lines| - 1]) == Chomp(lines[|lines| - 1]) == lines[|lines| - 1]
          && done == lines[|lines| - 1 := lines[|lines| - 1] + nl])
      || done == lines + [nl]
  {
    hide Lines, Newline, IsExotic, Chomp, ChompNewline;
    if text != "" && !EndsInNewline(text) {
      if IsExotic(text[|text| - 1]) {
        CompletedExotic(text);
      } else {
        CompletedUnbroken(text);
      }
    }
  }

  lemma LastReplaced(lines: seq<string>, x: string)
    requires lines != []
    ensures lines[..|lines| - 1] + [x] == lines[|lines| - 1 := x]
  {
  }

  lemma UnbrokenLast(text: string, last: string)
    requires text != "" && last != "" && text[|text| - 1] == last[|last| - 1] && BreakFree(Chomp(last))
    requires !EndsInNewline(text) && !IsExotic(text[|text| - 1])
    ensures Chomp(last) == ChompNewline(last) == last && BreakFree(last)
  {
  }

  /** A completed text ends where a line can be added, assigns what it did, and reads as it did. */
  lemma CompletedReads(text: string)
    ensures forall x: string | x != "" && !IsBreak(x[0]) :: Closed(Completed(text), x)
    ensures Parse(Completed(text)) == Parse(text)
    ensures forall key :: Nowhere(Lines(text), key) ==> Nowhere(Lines(Completed(text)), key)
  {
    NewlineIs(text);
    CompletedLines(text);
    NothingMatches();
    CompletedCloses(text);
    var lines, done, nl := Lines(text), Lines(Completed(text)), Newline(text);
    hide Lines, Completed, Match, IsBreak, Newline, IsExotic, Closed;
    if done == lines + [nl] {
      ParseAppend(lines, [nl], 1, map[]);
      NothingRead(nl);
    } else if done != lines {
      var p := |lines| - 1;
      ChompOfCompleted(text, lines[p]);
      ParseChomped(done, lines, 1, map[]);
      forall key | Nowhere(lines, key) ensures Nowhere(done, key) {
        assert !Assigns(lines[p], key);
      }
    }
  }

  lemma NothingRead(nl: string)
    requires Chomp(nl) == "" && Match("").None? && ChompNewline(nl) == ""
    ensures forall n: nat, values: map<string, string> :: ParseLines([nl], n, values) == Success(values)
    ensures forall key :: !Assigns(nl, key)
  {
    forall n: nat, values: map<string, string> ensures ParseLines([nl], n, values) == Success(values) {
      assert ParseLine(nl, n, values) == Success(values);
      assert [nl][1..] == [];
    }
  }

  lemma ChompOfCompleted(text: string, last: string)
    requires Chomp(last) == ChompNewline(last) == last && last != ""
    ensures Chomp(last + Newline(text)) == ChompNewline(last + Newline(text)) == last
  {
    NewlineIs(text);
    assert !IsBreak(last[|last| - 1]);
    var line := last + Newline(text);
  }

  lemma CompletedCloses(text: string)
    ensures forall x: string | x != "" && !IsBreak(x[0]) :: Closed(Completed(text), x)
  {
    NewlineIs(text);
    hide Newline;
  }

  lemma {:induction false} WordCharsAll(s: string, i: nat)
    requires i <= |s| && SkipWordChars(s, i) == |s|
    ensures forall k | i <= k < |s| :: IsWordChar(s[k])
    ensures SkipWordChars(s + "=", i) == |s|
    decreases |s| - i
  {
    if i < |s| {
      WordCharsAll(s, i + 1);
      assert (s + "=")[i] == s[i];
    }
  }

  /** A freshly written key is recognised, and it is made of ordinary characters. */
  lemma MatchFresh(key: string)
    requires ValidKey(key)
    ensures Match(key + "=") == Some(Assignment(key, |key| + 1))
    ensures BreakFree(key + "=") && Decode("") == Success("")
  {
    var s := key + "=";
    WordCharsAll(key, 1);
    assert SkipSpace(s, 0) == 0 && SkipWord(s, 0) == |key|;
    assert SkipSpace(s, |key|) == |key|;
    assert s[0..|key|] == key;
  }

  /** A text with an empty assignment of a new key at its end. */
  function Declare(text: string, key: string): string {
    Completed(text) + (key + "=" + Newline(text))
  }

  /** The new line: how it is split, what it assigns, and what it reads as. */
  lemma FreshLine(text: string, key: string)
    requires ValidKey(key)
    ensures
      var line := key + "=" + Newline(text);
      && Lines(line) == [line] && Chomp(line) == ChompNewline(line) == key + "="
      && Assigns(line, key) && Reads(line, key, "") && line[0] == key[0] && !IsBreak(line[0])
  {
    MatchFresh(key);
    NewlineIs(text);
    hide Newline, Match, IsExotic, IsBrk, Decode;
    OneLine(key + "=", Newline(text));
    ChompIs(key + "=", Newline(text));
    assert (key + "=")[0] == key[0] && (key + "=")[|key| + 1..] == "";
  }

  lemma DeclareLines(text: string, key: string)
    requires ValidKey(key)
    ensures Lines(Declare(text, key)) == Lines(Completed(text)) + [key + "=" + Newline(text)]
  {
    FreshLine(text, key);
    CompletedCloses(text);
    hide Lines, Newline, Completed, Closed, IsBreak;
    LinesAppend(Completed(text), key + "=" + Newline(text));
  }

  lemma OnlyAtEnd(lines: seq<string>, line: string, key: string)
    requires Nowhere(lines, key) && Assigns(line, key)
    ensures OnlyAt(lines + [line], key, |lines|)
  {
    hide Assigns;
  }

  lemma DeclareOnly(text: string, key: string)
    requires ValidKey(key) && Nowhere(Lines(text), key)
    ensures OnlyAt(Lines(Declare(text, key)), key, |Lines(Completed(text))|)
  {
    hide *;
    DeclareLines(text, key);
    FreshLine(text, key);
    CompletedReads(text);
    OnlyAtEnd(Lines(Completed(text)), key + "=" + Newline(text), key);
  }

  lemma DeclareParse(text: string, key: string)
    requires ValidKey(key)
    ensures Parse(Declare(text, key)) == Put(Parse(text), key, "")
  {
    var line := key + "=" + Newline(text);
    DeclareLines(text, key);
    FreshLine(text, key);
    CompletedReads(text);
    hide Lines, Newline, Completed, Declare, Match, Chomp, ChompNewline, Decode;
    ParseAppend(Lines(Completed(text)), [line], 1, map[]);
    assert [line][1..] == [];
  }

  lemma FreshRewrite(text: string, key: string, v: string)
    requires ValidKey(key)
    ensures Match(ChompNewline(key + "=" + Newline(text))).Some? && Kept(key + "=" + Newline(text))
    ensures Rewrite(key + "=" + Newline(text), Quote(v)) == key + "=" + Quote(v) + Newline(text)
  {
    MatchFresh(key);
    FreshLine(text, key);
    RewriteIs(key + "=" + Newline(text), v);
    assert RawOf(key + "=") == "" && PrefixOf(key + "=") == key + "=";
  }

  lemma ConcatLast(lines: seq<string>, line: string)
    ensures Concat(lines + [line]) == Concat(lines) + line
  {
    ConcatAppend(lines, [line]);
    assert Concat([line]) == line;
  }

  /** Appending a key is declaring it empty and then setting it. */
  lemma {:induction false} AppendIsEdit(text: string, key: string, v: string)
    requires ValidKey(key) && Count(Lines(text), key) == 0 && SingleLine(v)
    ensures
      var base, p := Declare(text, key), |Lines(Completed(text))|;
      && OnlyAt(Lines(base), key, p) && Kept(Lines(base)[p])
      && Replace(text, key, v) == Success(Written(base, p, v))
      && Lines(base)[p := Rewrite(Lines(base)[p], Quote(v))]
         == Lines(Completed(text)) + [key + "=" + Quote(v) + Newline(text)]
  {
    CountZero(Lines(text), key);
    DeclareOnly(text, key);
    DeclareLines(text, key);
    FreshRewrite(text, key, v);
    ConcatLines(Completed(text));
    var done, line, line' := Lines(Completed(text)), key + "=" + Newline(text), key + "=" + Quote(v) + Newline(text);
    assert Replace(text, key, v) == Success(Completed(text) + line');
    hide Lines, Newline, Completed, Declare, Match, ChompNewline, Quote, Rewrite, Kept, OnlyAt, Replace, ValidKey;
    LastSet(done, line, line');
    ConcatLast(done, line');
  }

  lemma LastSet(lines: seq<string>, x: string, y: string)
    ensures (lines + [x])[|lines|] == x && (lines + [x])[|lines| := y] == lines + [y]
  {
  }
}

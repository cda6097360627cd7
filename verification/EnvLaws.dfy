/**
 The laws of the dotenv editor, for every text: exactly when setting a key acts as a map update
 on what the parser reads, leaves every other line alone, is erased by a second write, and
 commutes with an edit of another key.
 */
module EnvLaws {
  import opened Common
  import opened EnvText
  import opened EnvLines
  import opened EnvQuoting
  import opened EnvAssignments
  import opened EnvParsing
  import opened EnvWriting
  import opened EnvCutting

  /** Every edit is a write to the one line of its key, which is declared first if need be. */
  lemma EditIsWrite(text: string, key: string) returns (base: string, p: nat)
    requires Count(Lines(text), key) <= 1 && ValidKey(key)
    ensures OnlyAt(Lines(base), key, p)
    ensures forall v | SingleLine(v) :: Replace(text, key, v) == Success(Written(base, p, v))
    ensures if Count(Lines(text), key) == 0 then Parse(base) == Put(Parse(text), key, "") && Kept(Lines(base)[p])
            else base == text
  {
    hide Lines, Replace, SingleLine, Match, ChompNewline, Kept, Written, Count, Parse, ValidKey;
    if Count(Lines(text), key) == 0 {
      base, p := Declare(text, key), |Lines(Completed(text))|;
      DeclareParse(text, key);
      EmptySingle();
      AppendIsEdit(text, key, "");
      forall v | SingleLine(v) ensures Replace(text, key, v) == Success(Written(base, p, v)) {
        AppendIsEdit(text, key, v);
      }
    } else {
      base := text;
      p := CountOne(Lines(text), key);
      forall v | SingleLine(v) ensures Replace(text, key, v) == Success(Written(base, p, v)) {
        ReplaceIs(text, key, v, p);
      }
    }
  }

  lemma EmptySingle()
    ensures SingleLine("")
  {
  }

  // ---------------------------------------------------------------------------------------
  // Setting a key is a map update
  // ---------------------------------------------------------------------------------------

  /** Writing `v` to line `p` changes what that line reads as, and nothing else. A line whose
      break the editor does not keep must be the last, or be followed by a blank or a comment;
      one that splits reads as nothing before and after, and hides the next line. */
  predicate Fits(lines: seq<string>, p: nat, v: string)
    requires p < |lines| && Match(ChompNewline(lines[p])).Some?
  {
    if Kept(lines[p]) then true
    else if Splits(lines[p]) then
      v == "" && (p + 1 == |lines| || ParseLines(Dropped(lines, p + 1), 1, map[]) == ParseLines(lines, 1, map[]))
    else p + 1 == |lines| || Ignorable(lines[p + 1])
  }

  lemma GluedChomp(head: string, next: string)
    requires head != "" && head[|head| - 1] == '\''
    ensures Chomp(head + next) == head + Chomp(next)
  {
    if next == "" {
      assert head + "" == head && Chomp(head) == head && Chomp("") == "";
    } else {
      GlueChomp(head, next);
    }
  }

  lemma GluedReads(line: string, v: string, next: string, n: nat, values: map<string, string>)
    requires Match(line).Some?
    ensures
      var all := PrefixOf(line) + Quote(v) + next;
      && (Ignorable(next) ==> Reads(all, Match(line).value.key, v))
      && (!Ignorable(next) ==> ParseLine(all, n, values).Failure?)
  {
    QuoteStarts(v);
    hide Match, Quote, PrefixOf, Chomp, IsBreak, IsSpace, Ignorable, Reads, ParseLine;
    var head := PrefixOf(line) + Quote(v);
    GluedChomp(head, next);
    assert (head + next)[|head|..] == next;
    Regroup(PrefixOf(line), Quote(v), Chomp(next));
    MergedReads(line, v, head + next, n, values);
  }

  lemma OnlyInDropped(lines: seq<string>, key: string, p: nat)
    requires p + 1 < |lines| && OnlyAt(lines, key, p)
    ensures OnlyAt(Dropped(lines, p + 1), key, p) && Dropped(lines, p + 1)[..p] == lines[..p]
  {
    hide Assigns;
  }

  lemma KeptUpdates(text: string, key: string, p: nat, v: string)
    requires Parse(text).Success? && OnlyAt(Lines(text), key, p) && SingleLine(v) && Plain(v)
    requires Kept(Lines(text)[p])
    ensures Parse(Written(text, p, v)) == Put(Parse(text), key, v)
  {
    hide Lines, Rewrite, Quote, Match, ChompNewline, Reads, Written, Kept, NewBodyOf, SingleLine, Plain, ParseLines;
    WrittenLines(text, key, p, v);
    ParseUpdate(Lines(text), p, Rewrite(Lines(text)[p], Quote(v)), key, v);
  }

  lemma FailsAt(lines: seq<string>, p: nat, line: string, before: map<string, string>)
    requires p < |lines| && ParseLines(lines[..p], 1, map[]) == Success(before)
    requires ParseLine(line, p + 1, before).Failure?
    ensures ParseLines(lines[p := line], 1, map[]).Failure?
  {
    hide ParseLine, ParseLines;
    ParseCut(lines, p, line);
  }

  lemma MergesUpdates(text: string, key: string, p: nat, v: string)
    requires Parse(text).Success? && OnlyAt(Lines(text), key, p) && SingleLine(v) && Plain(v)
    requires !Kept(Lines(text)[p]) && !Splits(Lines(text)[p])
    ensures Parse(Written(text, p, v)) == Put(Parse(text), key, v) <==> Fits(Lines(text), p, v)
  {
    var lines := Lines(text);
    LineInPlace(text, p);
    MergesShape(lines[p], v);
    MergesLines(text, p, v);
    hide Lines, Rewrite, Quote, Match, ChompNewline, Chomp, Kept, Splits;
    hide Written, ParseLine, ParseLines, Ignorable, Reads;
    hide SingleLine, Plain, Closed, LineLength, BreakFree, Concat, PrefixOf;
    ParsesBefore(lines, p);
    var line', before := Rewrite(lines[p], Quote(v)), ParseLines(lines[..p], 1, map[]).value;
    if p + 1 == |lines| {
      EmptyIgnorable();
      GluedReads(lines[p], v, "", p + 1, before);
      assert line' + "" == line';
      ParseUpdate(lines, p, line', key, v);
    } else {
      var next, dropped := lines[p + 1], Dropped(lines, p + 1);
      GluedReads(lines[p], v, next, p + 1, before);
      OnlyInDropped(lines, key, p);
      if Ignorable(next) {
        IgnorableIsIgnored(next);
        ParseDropped(lines, p + 1);
        ParseUpdate(dropped, p, line' + next, key, v);
      } else {
        FailsAt(dropped, p, line' + next, before);
      }
    }
  }

  lemma EmptyIgnorable()
    ensures Ignorable("")
  {
  }

  /** A line that reads as nothing leaves the key with the empty value. */
  lemma SplitsValue(lines: seq<string>, key: string, p: nat)
    requires OnlyAt(lines, key, p) && Reads(lines[p], key, "") && ParseLines(lines, 1, map[]).Success?
    ensures key in ParseLines(lines, 1, map[]).value && ParseLines(lines, 1, map[]).value[key] == ""
  {
    hide Reads, Assigns, ParseLines;
    ParseUpdate(lines, p, lines[p], key, "");
    assert lines[p := lines[p]] == lines;
  }

  /** Hiding a line from the parser is dropping it. */
  lemma HiddenLine(lines: seq<string>, q: nat, line: string)
    requires q < |lines| && ParseLines(lines, 1, map[]).Success? && Ignored(line)
    ensures ParseLines(lines[q := line], 1, map[]) == ParseLines(Dropped(lines, q), 1, map[])
    ensures ParseLines(Dropped(lines, q), 1, map[]).Success?
  {
    hide ParseLines, ParseLine, Ignored;
    ParseDropped(lines, q);
    ParsesBefore(lines, q);
    var before := ParseLines(lines[..q], 1, map[]).value;
    var at := ParseOriginal(lines, q, before);
    IgnoredPasses(line, q + 1, before);
    ParseCut(lines, q, line);
    ParsesAnyway(lines[q + 1..], q + 2, q + 2, at, before);
    var lines' := lines[q := line];
    assert Dropped(lines', q) == Dropped(lines, q) && lines'[q] == line;
    ParseDropped(lines', q);
  }

  lemma IgnoredLast(lines: seq<string>, line: string)
    requires Ignored(line) && ParseLines(lines, 1, map[]).Success?
    ensures ParseLines(lines + [line], 1, map[]) == ParseLines(lines, 1, map[])
  {
    ParseAppend(lines, [line], 1, map[]);
    IgnoredPasses(line, |lines| + 1, ParseLines(lines, 1, map[]).value);
    hide ParseLine, Ignored;
    assert [line][1..] == [];
  }

  lemma HiddenUpdates(text: string, key: string, p: nat, v: string)
    requires Parse(text).Success? && OnlyAt(Lines(text), key, p) && Reads(Lines(text)[p], key, "")
    requires p + 1 < |Lines(text)|
    ensures
      var kept := ParseLines(Dropped(Lines(text), p + 1), 1, map[]);
      kept == Put(Parse(text), key, v) <==> v == "" && kept == Parse(text)
  {
    hide Lines, Match, ParseLine, ParseLines, Reads, Assigns;
    var lines := Lines(text);
    SplitsValue(lines, key, p);
    OnlyInDropped(lines, key, p);
    ParseDropped(lines, p + 1);
    SplitsValue(Dropped(lines, p + 1), key, p);
    SameUpdate(Parse(text).value, ParseLines(Dropped(lines, p + 1), 1, map[]).value, key, v);
  }

  lemma SameUpdate(values: map<string, string>, kept: map<string, string>, key: string, v: string)
    requires key in values && values[key] == "" && key in kept && kept[key] == ""
    ensures kept == values[key := v] <==> v == "" && kept == values
  {
    assert v == "" ==> values[key := v] == values;
    assert kept == values[key := v] ==> kept[key] == v;
  }

  lemma SplitsUpdates(text: string, key: string, p: nat, v: string)
    requires Parse(text).Success? && OnlyAt(Lines(text), key, p) && SingleLine(v) && Plain(v) && Splits(Lines(text)[p])
    ensures Parse(Written(text, p, v)) == Put(Parse(text), key, v) <==> Fits(Lines(text), p, v)
  {
    var lines := Lines(text);
    SplitsLines(text, p, v);
    SplitsReads(lines[p]);
    QuoteLine(v);
    assert !Kept(lines[p]) && key == Match(lines[p]).value.key;
    hide Lines, Rewrite, Quote, Match, ChompNewline, Chomp, Kept, Splits;
    hide Written, ParseLine, ParseLines, Ignored, Reads;
    hide SingleLine, Plain, BreakFree, OnlyAt, Assigns;
    if p + 1 == |lines| {
      QuotedNext(v, "x");
      IgnoredLast(lines, Quote(v));
      SplitsValue(lines, key, p);
      SameUpdate(Parse(text).value, Parse(text).value, key, v);
    } else {
      QuotedNext(v, lines[p + 1]);
      HiddenLine(lines, p + 1, Quote(v) + lines[p + 1]);
      HiddenUpdates(text, key, p, v);
    }
  }

  /** A value that cannot be read back is not there to be read. */
  lemma ExoticNeverReads(text: string, values: map<string, string>, key: string, v: string)
    requires !Plain(v)
    ensures Parse(text) != Success(values[key := v])
  {
    hide Plain, Parse;
    assert !AllPlain(values[key := v]) by {
      assert key in values[key := v] && values[key := v][key] == v;
    }
    if Parse(text).Success? {
      ParsePlain(text);
    }
  }

  lemma WriteIsMapUpdate(text: string, key: string, p: nat, v: string)
    requires Parse(text).Success? && OnlyAt(Lines(text), key, p) && SingleLine(v)
    ensures Parse(Written(text, p, v)) == Put(Parse(text), key, v) <==> Plain(v) && Fits(Lines(text), p, v)
    ensures !Plain(v) && !Splits(Lines(text)[p]) ==> Parse(Written(text, p, v)) == Failure(p + 1)
  {
    if !Plain(v) {
      ExoticNeverReads(Written(text, p, v), Parse(text).value, key, v);
      if !Splits(Lines(text)[p]) {
        WriteExotic(text, p, v);
      }
    } else if Kept(Lines(text)[p]) {
      KeptUpdates(text, key, p, v);
    } else if Splits(Lines(text)[p]) {
      SplitsUpdates(text, key, p, v);
    } else {
      MergesUpdates(text, key, p, v);
    }
  }

  /** The line that assigns the key, if any, suits the value. */
  predicate FitsKey(lines: seq<string>, key: string, v: string) {
    forall p | 0 <= p < |lines| && Assigns(lines[p], key) :: Fits(lines, p, v)
  }

  lemma OnlyFits(lines: seq<string>, key: string, p: nat, v: string)
    requires OnlyAt(lines, key, p)
    ensures FitsKey(lines, key, v) <==> Fits(lines, p, v)
  {
    hide Assigns, Fits;
  }

  lemma NowhereFits(lines: seq<string>, key: string, v: string)
    requires Count(lines, key) == 0
    ensures FitsKey(lines, key, v)
  {
    CountZero(lines, key);
    hide Assigns, Fits, Count;
  }

  /**
   Setting a key in a text that parses and assigns the key at most once acts as a map update
   on what the parser reads -- exactly when the value is free of the breaks that the editor
   does not look for, and the line that assigns the key, if any, suits the value. With such a
   break in the value the result does not parse, unless the line splits.
   */
  lemma {:induction false} SetIsMapUpdate(text: string, key: string, v: string)
    requires Parse(text).Success? && Count(Lines(text), key) <= 1 && ValidKey(key) && SingleLine(v)
    ensures Replace(text, key, v).Success?
    ensures
      var updated := Success(Parse(text).value[key := v]);
      Parse(Replace(text, key, v).value) == updated <==> Plain(v) && FitsKey(Lines(text), key, v)
    ensures !Plain(v) && KeepsBreak(text, key) ==> Parse(Replace(text, key, v).value).Failure?
  {
    hide Replace, Written, Parse, Count, ValidKey, Plain, Lines, Fits, Match;
    hide ChompNewline, Kept, Splits, FitsKey, SingleLine;
    var base, p := EditIsWrite(text, key);
    WriteIsMapUpdate(base, key, p, v);
    var values := Parse(text).value;
    if Count(Lines(text), key) == 0 {
      assert values[key := ""][key := v] == values[key := v];
      NowhereFits(Lines(text), key, v);
      KeptFits(Lines(base), p, v);
    } else {
      OnlyFits(Lines(text), key, p, v);
      OnlyKeeps(text, key, p);
    }
  }

  lemma KeptFits(lines: seq<string>, p: nat, v: string)
    requires p < |lines| && Match(ChompNewline(lines[p])).Some? && Kept(lines[p])
    ensures Fits(lines, p, v) && !Splits(lines[p])
  {
  }

  /** The editor keeps the break of every line that assigns the key. */
  predicate KeepsBreak(text: string, key: string) {
    forall p | 0 <= p < |Lines(text)| && Assigns(Lines(text)[p], key) :: Kept(Lines(text)[p])
  }

  lemma OnlyKeeps(text: string, key: string, p: nat)
    requires OnlyAt(Lines(text), key, p)
    ensures KeepsBreak(text, key) <==> Kept(Lines(text)[p])
    ensures KeepsBreak(text, key) ==> !Splits(Lines(text)[p])
  {
    hide Lines, Match, ChompNewline, Chomp, CommentSuffix, RawOf;
  }

  // ---------------------------------------------------------------------------------------
  // The other lines
  // ---------------------------------------------------------------------------------------

  ghost predicate SameBut(lines: seq<string>, after: seq<string>, p: nat) {
    |after| == |lines| && forall i | 0 <= i < |lines| && i != p :: after[i] == lines[i]
  }

  lemma PushedOn(lines: seq<string>, p: nat, x: string)
    requires p < |lines| && x != ""
    ensures !SameBut(lines, if p + 1 < |lines| then lines[p + 1 := x + lines[p + 1]] else lines + [x], p)
  {
    assert p + 1 < |lines| ==> |x + lines[p + 1]| != |lines[p + 1]|;
  }

  lemma OneChanged(lines: seq<string>, p: nat, x: string)
    requires p < |lines|
    ensures SameBut(lines, lines[p := x], p)
    ensures p + 1 < |lines| ==> !SameBut(lines, Dropped(lines, p + 1)[p := x], p)
  {
  }

  lemma PlainUntouched(text: string, key: string, p: nat, v: string)
    requires OnlyAt(Lines(text), key, p) && SingleLine(v) && Plain(v)
    ensures
      var lines := Lines(text);
      SameBut(lines, Lines(Written(text, p, v)), p) <==> Kept(lines[p]) || (p + 1 == |lines| && !Splits(lines[p]))
  {
    hide Lines, Rewrite, Quote, Match, ChompNewline, Kept, Splits, Written, SingleLine, Plain, SameBut, Dropped;
    var lines, line' := Lines(text), Rewrite(Lines(text)[p], Quote(v));
    if Kept(lines[p]) {
      WrittenLines(text, key, p, v);
      OneChanged(lines, p, line');
    } else if Splits(lines[p]) {
      SplitsLines(text, p, v);
      QuoteLine(v);
      PushedOn(lines, p, Quote(v));
    } else {
      MergesLines(text, p, v);
      OneChanged(lines, p, if p + 1 < |lines| then line' + lines[p + 1] else line');
    }
  }

  /**
   An edit of an assigned key changes the line that assigns it and no other line -- exactly if
   the editor keeps the break of that line, or the line is the last and its value is not empty.
   For any value, the lines around a line whose break is kept stay.
   */
  lemma OtherLinesUntouched(text: string, key: string, v: string) returns (p: nat)
    requires ValidKey(key) && SingleLine(v) && Count(Lines(text), key) == 1
    ensures OnlyAt(Lines(text), key, p) && Replace(text, key, v).Success?
    ensures
      var lines, after := Lines(text), Lines(Replace(text, key, v).value);
      && (Kept(lines[p]) ==> after == lines[..p] + (Lines(Rewrite(lines[p], Quote(v))) + lines[p + 1..]))
      && (Plain(v) ==> (SameBut(lines, after, p) <==> Kept(lines[p]) || (p + 1 == |lines| && !Splits(lines[p]))))
  {
    p := CountOne(Lines(text), key);
    ReplaceIs(text, key, v, p);
    hide Lines, Rewrite, Quote, Match, ChompNewline, Kept, Splits, Written, SingleLine, Plain, Replace, Count, SameBut;
    if Kept(Lines(text)[p]) {
      WrittenSplit(text, p, v);
    }
    if Plain(v) {
      PlainUntouched(text, key, p, v);
    }
  }

  /** Completing a text keeps every line; it adds a newline to a last line without a break, and
      an empty line after a break that the editor does not know. */
  lemma CompletionKeepsLines(text: string)
    ensures
      var before, kept, exotic := Lines(text), Lines(Completed(text)), text != "" && IsExotic(text[|text| - 1]);
      && |kept| == |before| + (if exotic then 1 else 0)
      && (exotic ==> kept[|before|] == Newline(text))
      && forall i | 0 <= i < |before| ::
           kept[i] == before[i] || (i == |before| - 1 && !exotic && kept[i] == before[i] + Newline(text))
  {
    hide Lines, Newline, IsExotic, Chomp, ChompNewline;
    if text != "" && !EndsInNewline(text) {
      if IsExotic(text[|text| - 1]) {
        CompletedExotic(text);
      } else {
        CompletedUnbroken(text);
      }
    } else if text != "" {
      NewlineKnown(text);
    }
  }

  lemma NewlineKnown(text: string)
    requires EndsInNewline(text)
    ensures !IsExotic(text[|text| - 1])
  {
  }

  lemma DeclaredWrite(text: string, key: string, v: string)
    requires ValidKey(key) && SingleLine(v) && Count(Lines(text), key) == 0
    ensures
      var base, p, line := Declare(text, key), |Lines(Completed(text))|, key + "=" + Newline(text);
      && p < |Lines(base)| && Match(ChompNewline(line)).Some? && Kept(line) && Lines(base)[p] == line
      && Replace(text, key, v) == Success(Written(base, p, v))
      && Lines(base)[..p] == Lines(Completed(text)) && Lines(base)[p + 1..] == []
      && Rewrite(line, Quote(v)) == key + "=" + Quote(v) + Newline(text)
      && BreakFree(Chomp(line))
  {
    AppendIsEdit(text, key, v);
    FreshRewrite(text, key, v);
    FreshLine(text, key);
    DeclareLines(text, key);
    MatchFresh(key);
    hide *;
    var lines, line := Lines(Completed(text)), key + "=" + Newline(text);
    assert (lines + [line])[..|lines|] == lines && (lines + [line])[|lines| + 1..] == [];
  }

  /** An edit that appends keeps the completed text before it and adds the lines of one line,
      which are one line if the value is free of the breaks that the editor does not know. */
  lemma AppendKeepsLines(text: string, key: string, v: string)
    requires ValidKey(key) && SingleLine(v) && Count(Lines(text), key) == 0
    ensures Replace(text, key, v).Success?
    ensures
      var line := key + "=" + Quote(v) + Newline(text);
      && Lines(Replace(text, key, v).value) == Lines(Completed(text)) + Lines(line)
      && (Plain(v) ==> Lines(line) == [line])
  {
    DeclaredWrite(text, key, v);
    WrittenSplit(Declare(text, key), |Lines(Completed(text))|, v);
    if Plain(v) {
      SingleLineBreakFree(v);
      KeptOneLine(key + "=" + Newline(text), v);
    }
    hide *;
    var line := key + "=" + Quote(v) + Newline(text);
    assert Lines(line) + [] == Lines(line);
  }

  // ---------------------------------------------------------------------------------------
  // The last write wins
  // ---------------------------------------------------------------------------------------

  lemma WrittenIs(text: string, p: nat, v: string)
    requires p < |Lines(text)| && Match(ChompNewline(Lines(text)[p])).Some?
    ensures
      var lines := Lines(text);
      && Written(text, p, v) == Concat(lines[..p]) + (Rewrite(lines[p], Quote(v)) + Concat(lines[p + 1..]))
      && text == Concat(lines[..p]) + (lines[p] + Concat(lines[p + 1..]))
  {
    hide Lines, Rewrite, Quote, Match, ChompNewline, Concat;
    var lines := Lines(text);
    ConcatUpdate(lines, p, Rewrite(lines[p], Quote(v)));
    ConcatUpdate(lines, p, lines[p]);
    assert lines[p := lines[p]] == lines;
    ConcatLines(text);
  }

  /** If an edit succeeds, it writes to the first line that assigns the key. */
  lemma EditsFirst(text: string, key: string, p: nat, w: string)
    requires p < |Lines(text)| && Assigns(Lines(text)[p], key) && ValidKey(key) && SingleLine(w)
    ensures Replace(text, key, w).Success? ==> Replace(text, key, w) == Success(Written(text, p, w))
  {
    if Replace(text, key, w).Success? {
      CountZero(Lines(text), key);
      hide Lines, Written, Assigns, Count;
      var q := CountOne(Lines(text), key);
      assert q == p;
      hide Replace;
      ReplaceIs(text, key, w, p);
    }
  }

  /** The second value is put before the first one. */
  lemma SplitsTwice(text: string, key: string, p: nat, v: string, w: string)
    requires OnlyAt(Lines(text), key, p) && ValidKey(key) && SingleLine(w) && Splits(Lines(text)[p])
    ensures Replace(Written(text, p, v), key, w) != Success(Written(text, p, w))
  {
    var line, one := Lines(text)[p], Written(text, p, v);
    SplitsFirst(text, p, v);
    SplitsShape(line, v);
    SplitsShape(line, w);
    QuoteStarts(v);
    hide Lines, Rewrite, Quote, Match, ChompNewline, Concat, Written, ValidKey, SingleLine, Replace, Splits;
    assert Lines(one)[p] == line;
    EditsFirst(one, key, p, w);
    WrittenIs(text, p, v);
    WrittenIs(text, p, w);
    WrittenIs(one, p, w);
  }

  lemma CutMatches(body: string, first: string, x: string)
    requires Match(body).Some? && Chomp(first) == PrefixOf(body) + ("'" + x) && ChompNewline(first) == first
    ensures Match(first) == Match(body)
  {
    LineIs(first);
    hide Match, Chomp, ChompNewline;
    var b := BreakOf(first);
    assert first == PrefixOf(body) + ("'" + x + b);
    assert !IsSpace(("'" + x + b)[0]);
    MatchKeepsPrefix(body, "'" + x + b);
  }

  lemma RewriteLength(line: string, v: string)
    requires Match(ChompNewline(line)).Some?
    ensures |Rewrite(line, Quote(v))| == Match(ChompNewline(line)).value.prefix + |Quote(v)| + |TailOf(line)|
  {
    HeadAndTail(line, v);
    hide Rewrite, Quote, Match, ChompNewline, CommentSuffix;
  }

  /** What was behind the break stays behind the second value. */
  lemma ExoticTwice(text: string, key: string, p: nat, v: string, w: string)
    requires OnlyAt(Lines(text), key, p) && ValidKey(key) && SingleLine(v) && SingleLine(w)
    requires !Plain(v) && !Splits(Lines(text)[p])
    ensures Replace(Written(text, p, v), key, w) != Success(Written(text, p, w))
  {
    var lines, one := Lines(text), Written(text, p, v);
    var line, before, rest := lines[p], Concat(lines[..p]), Concat(lines[p + 1..]);
    var first, more, k := ExoticLines(text, p, v);
    CutMatches(ChompNewline(line), first, Escape(v[..k]));
    hide Lines, Rewrite, Quote, Match, ChompNewline, Chomp, Concat, Written;
    hide ValidKey, SingleLine, Replace, Splits, Plain;
    hide PrefixOf, TailOf, Escape, EndsInNewline;
    assert Lines(one)[p] == first && Lines(one)[..p] == lines[..p];
    EditsFirst(one, key, p, w);
    WrittenIs(text, p, w);
    WrittenIs(one, p, w);
    assert |more| == |Concat(Lines(one)[p + 1..])|;
    RewriteLength(line, w);
    RewriteLength(first, w);
  }

  lemma GlueChompNewline(u: string, line: string)
    requires u != "" && line != "" && u[|u| - 1] == '\''
    ensures ChompNewline(u + line) == u + ChompNewline(line)
    ensures (u + line)[|u + ChompNewline(line)|..] == line[|ChompNewline(line)|..]
  {
    var all := u + line;
    assert all[|all| - 1] == line[|line| - 1];
    assert |line| >= 2 ==> all[|all| - 2] == line[|line| - 2];
    assert EndsInCrLf(all) <==> EndsInCrLf(line);
  }

  /** The line and the next one, glued by a write: what the editor sees on it. */
  lemma MergedMatches(line: string, v: string, next: string)
    requires Match(line).Some? && next != ""
    ensures
      var all := (PrefixOf(line) + Quote(v)) + next;
      && Match(ChompNewline(all)) == Match(line) && RawOf(ChompNewline(all)) == Quote(v) + ChompNewline(next)
      && all[|ChompNewline(all)|..] == next[|ChompNewline(next)|..]
  {
    QuoteStarts(v);
    hide Match, Quote, ChompNewline, IsSpace;
    var head := PrefixOf(line) + Quote(v);
    GlueChompNewline(head, next);
    Regroup(PrefixOf(line), Quote(v), ChompNewline(next));
    MatchKeepsPrefix(line, Quote(v) + ChompNewline(next));
  }

  lemma SuffixIff(v: string, x: string)
    ensures CommentSuffix(Quote(v) + x) == x <==> IsSuffix(x)
  {
    var j := CommentSuffixIsSuffix(Quote(v) + x);
    hide Quote, CommentSuffix;
    if IsSuffix(x) {
      SuffixOfQuote(v, x);
    }
  }

  lemma SameMiddle(a: string, x: string, y: string, z: string)
    ensures a + (x + z) == a + (y + z) <==> x == y
  {
    if a + (x + z) == a + (y + z) {
      assert (a + (x + z))[|a|..] == x + z && (a + (y + z))[|a|..] == y + z;
      SameEnd(x, y, z);
    }
  }

  lemma MergedRewrite(line: string, v: string, next: string, w: string)
    requires Match(line).Some? && next != ""
    ensures
      var all := (PrefixOf(line) + Quote(v)) + next;
      && Match(ChompNewline(all)).Some?
      && (Rewrite(all, Quote(w)) == (PrefixOf(line) + Quote(w)) + next <==> IsSuffix(ChompNewline(next)))
  {
    var all := (PrefixOf(line) + Quote(v)) + next;
    MergedMatches(line, v, next);
    HeadAndTail(all, w);
    LineIs(next);
    SuffixIff(v, ChompNewline(next));
    assert PrefixOf(ChompNewline(all)) == PrefixOf(line) by {
      QuoteStarts(v);
      hide Match, Quote, ChompNewline, IsSpace;
      GlueChompNewline(PrefixOf(line) + Quote(v), next);
    }
    hide *;
    SameMiddle(PrefixOf(line) + Quote(w), CommentSuffix(Quote(v) + ChompNewline(next)), ChompNewline(next),
      next[|ChompNewline(next)|..]);
  }

  /** The second write puts the next line back only if it takes it for a comment, or for nothing. */
  lemma MergesTwice(text: string, p: nat, v: string, w: string)
    requires p + 1 < |Lines(text)| && Match(ChompNewline(Lines(text)[p])).Some? && SingleLine(v) && Plain(v)
    requires !Kept(Lines(text)[p]) && !Splits(Lines(text)[p])
    ensures
      var one, next := Written(text, p, v), Lines(text)[p + 1];
      && p < |Lines(one)| && Match(ChompNewline(Lines(one)[p])) == Match(ChompNewline(Lines(text)[p]))
      && (Written(one, p, w) == Written(text, p, w) <==> IsSuffix(ChompNewline(next)))
  {
    var lines, one := Lines(text), Written(text, p, v);
    var line, next, rest := lines[p], lines[p + 1], Concat(lines[p + 2..]);
    LineInPlace(text, p);
    MergesShape(line, v);
    MergesShape(line, w);
    MergesLines(text, p, v);
    NextLine(text, p);
    MergedMatches(line, v, next);
    MergedRewrite(line, v, next, w);
    hide Lines, Rewrite, Quote, Match, ChompNewline, Chomp, Concat, Written, SingleLine;
    hide Kept, Splits, Plain, PrefixOf, IsSuffix;
    hide LineLength, Closed, BreakFree;
    var merged, head := Rewrite(line, Quote(v)) + next, PrefixOf(line) + Quote(w);
    DroppedParts(lines, p, merged);
    WrittenIs(text, p, w);
    WrittenIs(one, p, w);
    Regroup(head, next, rest);
    SameMiddle(Concat(lines[..p]), Rewrite(merged, Quote(w)), head + next, rest);
  }

  lemma DroppedParts(lines: seq<string>, p: nat, x: string)
    requires p + 1 < |lines|
    ensures
      var lines' := Dropped(lines, p + 1)[p := x];
      && |lines'| == |lines| - 1 && lines'[p] == x && lines'[..p] == lines[..p] && lines'[p + 1..] == lines[p + 2..]
  {
  }

  lemma WriteWriteOne(text: string, key: string, p: nat, v: string, w: string, line': string)
    requires OnlyAt(Lines(text), key, p) && ValidKey(key) && SingleLine(w)
    requires line' == Rewrite(Lines(text)[p], Quote(v)) && Lines(Written(text, p, v)) == Lines(text)[p := line']
    requires ChompNewline(line') == NewBodyOf(ChompNewline(Lines(text)[p]), v)
    requires OnlyAt(Lines(text)[p := line'], key, p)
    ensures Replace(Written(text, p, v), key, w) == Success(Written(text, p, w))
  {
    hide Lines, Rewrite, Quote, Match, ChompNewline, Concat, ValidKey, SingleLine, Replace, NewBodyOf;
    var line := Lines(text)[p];
    ReplaceIs(Written(text, p, v), key, w, p);
    RewriteTwice(line, line', v, w);
    assert Lines(text)[p := line'][p := Rewrite(line, Quote(w))] == Lines(text)[p := Rewrite(line, Quote(w))];
  }

  /** The first value leaves no trace when a second one is written to the line. */
  predicate Erasable(lines: seq<string>, p: nat)
    requires p < |lines| && Match(ChompNewline(lines[p])).Some?
  {
    || Kept(lines[p])
    || (!Splits(lines[p]) && (p + 1 == |lines| || IsSuffix(ChompNewline(lines[p + 1]))))
  }

  lemma MergedLast(line: string, v: string)
    requires Match(ChompNewline(line)).Some? && BreakFree(Chomp(line)) && !Kept(line) && !Splits(line)
    requires BreakFree(Rewrite(line, Quote(v)))
    ensures ChompNewline(Rewrite(line, Quote(v))) == NewBodyOf(ChompNewline(line), v)
  {
    MergesShape(line, v);
    hide Rewrite, Quote, Match, CommentSuffix, PrefixOf;
    assert Quote(v) + "" == Quote(v);
    ChompIs(Rewrite(line, Quote(v)), "");
    assert Rewrite(line, Quote(v)) + "" == Rewrite(line, Quote(v));
  }

  lemma OnlyReplaced(lines: seq<string>, key: string, p: nat, x: string)
    requires OnlyAt(lines, key, p) && Assigns(x, key)
    ensures OnlyAt(lines[p := x], key, p)
  {
    hide Assigns;
  }

  lemma MergesErases(text: string, key: string, p: nat, v: string, w: string)
    requires OnlyAt(Lines(text), key, p) && ValidKey(key) && SingleLine(v) && SingleLine(w) && Plain(v)
    requires !Kept(Lines(text)[p]) && !Splits(Lines(text)[p])
    ensures Replace(Written(text, p, v), key, w) == Success(Written(text, p, w)) <==> Erasable(Lines(text), p)
  {
    var lines, one := Lines(text), Written(text, p, v);
    var line' := Rewrite(lines[p], Quote(v));
    LineInPlace(text, p);
    MergesLines(text, p, v);
    if p + 1 == |lines| {
      MergedLast(lines[p], v);
      RewrittenMatches(lines[p], v);
      hide Lines, Rewrite, Quote, Match, ChompNewline, Chomp, Concat, ValidKey, SingleLine, Replace, NewBodyOf, Written;
      OnlyReplaced(lines, key, p, line');
      WriteWriteOne(text, key, p, v, w, line');
    } else {
      MergesTwice(text, p, v, w);
      hide Lines, Rewrite, Quote, Match, ChompNewline, Chomp, Concat, ValidKey;
      hide SingleLine, Replace, Kept, Splits, Written;
      hide IsSuffix, Dropped;
      var merged := line' + lines[p + 1];
      DroppedParts(lines, p, merged);
      OnlyInDropped(lines, key, p);
      OnlyReplaced(Dropped(lines, p + 1), key, p, merged);
      ReplaceIs(one, key, w, p);
    }
  }

  lemma WriteErases(text: string, key: string, p: nat, v: string, w: string)
    requires OnlyAt(Lines(text), key, p) && ValidKey(key) && SingleLine(v) && SingleLine(w)
    ensures Replace(Written(text, p, v), key, w) == Success(Written(text, p, w))
            <==> Plain(v) && Erasable(Lines(text), p)
  {
    hide Lines, Rewrite, Quote, Match, ChompNewline, Chomp, Concat, ValidKey;
    hide SingleLine, Replace, NewBodyOf, Plain, Written;
    var lines := Lines(text);
    if Splits(lines[p]) {
      SplitsTwice(text, key, p, v, w);
    } else if !Plain(v) {
      ExoticTwice(text, key, p, v, w);
    } else if Kept(lines[p]) {
      WrittenLines(text, key, p, v);
      WriteWriteOne(text, key, p, v, w, Rewrite(lines[p], Quote(v)));
    } else {
      MergesErases(text, key, p, v, w);
    }
  }

  /** Every line that assigns the key is erasable. */
  predicate ErasableKey(lines: seq<string>, key: string) {
    forall p | 0 <= p < |lines| && Assigns(lines[p], key) :: Erasable(lines, p)
  }

  /**
   The last write wins, byte for byte -- exactly if the first value is free of the breaks that
   the editor does not know, and the line that assigns the key, if any, keeps its break, or has
   a value and nothing but a blank or a comment behind it. With `w` equal to `v`: editing is
   idempotent.
   */
  lemma {:induction false} LastWriteWins(text: string, key: string, v: string, w: string)
    requires Count(Lines(text), key) <= 1 && ValidKey(key) && SingleLine(v) && SingleLine(w)
    ensures Replace(text, key, v).Success?
    ensures Replace(Replace(text, key, v).value, key, w) == Replace(text, key, w)
            <==> Plain(v) && ErasableKey(Lines(text), key)
  {
    var base, p := EditIsWrite(text, key);
    WriteErases(base, key, p, v, w);
    CountZero(Lines(text), key);
    hide Replace, Written, Count, ValidKey, Lines, Match, ChompNewline, Erasable, Plain, SingleLine, Kept;
    if Count(Lines(text), key) == 0 {
      KeptErasable(Lines(base), p);
    }
  }

  lemma KeptErasable(lines: seq<string>, p: nat)
    requires p < |lines| && Match(ChompNewline(lines[p])).Some? && Kept(lines[p])
    ensures Erasable(lines, p)
  {
  }

  // ---------------------------------------------------------------------------------------
  // A text on which an edit is lost
  // ---------------------------------------------------------------------------------------

  /** An assignment of nothing, ended by a vertical tab. */
  function TabbedLine(): string {
    ['A', '=', 0x0B as char]
  }

  lemma TabbedMatches()
    ensures Match(TabbedLine()) == Some(Assignment("A", 3)) && ChompNewline(TabbedLine()) == TabbedLine()
    ensures Chomp(TabbedLine()) == "A=" && RawOf(TabbedLine()) == "" && Lines(TabbedLine()) == [TabbedLine()]
  {
    var line := TabbedLine();
    assert line[0..1] == "A" && SkipSpace(line, 3) == 3;
    ExoticEnd("A=", 0x0B as char);
    assert line == "A=" + [0x0B as char];
  }

  lemma EmptyAssigned(values: map<string, string>, line: string, key: string)
    requires Reads(line, key, "")
    ensures ParseLines([line], 1, values) == Success(values[key := ""])
  {
    hide Match, Chomp, Decode;
    assert [line][1..] == [];
  }

  /** Every edit of a single such line is lost. */
  lemma SplitLosesEdit(text: string, key: string, v: string)
    requires Lines(text) == [text] && Assigns(text, key) && Splits(text)
    requires ValidKey(key) && SingleLine(v) && Plain(v)
    ensures Parse(text) == Success(map[key := ""]) && Replace(text, key, v) == Success(text + Quote(v))
    ensures Parse(text + Quote(v)) == Success(map[key := ""])
  {
    SplitsReads(text);
    SplitsShape(text, v);
    assert OnlyAt([text], key, 0) && Match(text).value.key == key;
    QuoteLine(v);
    QuotedNext(v, "x");
    SplitsLines(text, 0, v);
    hide Match, Chomp, ChompNewline, Quote, Lines, Rewrite, Replace, Splits, Reads;
    hide ValidKey, SingleLine, Plain, Ignored, BreakFree;
    hide OnlyAt, Assigns, ParseLines;
    ReplaceIs(text, key, v, 0);
    EmptyAssigned(map[], text, key);
    IgnoredLast([text], Quote(v));
    ConcatOnly(text, text + Quote(v));
  }

  /** After this line the editor takes the tab for white space following the `=` and writes the
      value behind it, where the parser, taking it for the end of the line, does not look. */
  lemma ExoticTextLosesEdit(v: string)
    requires SingleLine(v) && Plain(v)
    ensures
      var text := TabbedLine();
      && ValidKey("A") && Count(Lines(text), "A") == 1
      && Replace(text, "A", v) == Success(text + Quote(v))
      && Parse(text) == Parse(text + Quote(v)) == Success(map["A" := ""])
  {
    TabbedMatches();
    hide *;
    ExoticLoses(TabbedLine(), v);
  }

  lemma ExoticLoses(text: string, v: string)
    requires Match(text) == Some(Assignment("A", 3)) && ChompNewline(text) == text && Chomp(text) != text
    requires RawOf(text) == "" && Lines(text) == [text] && SingleLine(v) && Plain(v)
    ensures ValidKey("A") && Count(Lines(text), "A") == 1
    ensures Replace(text, "A", v) == Success(text + Quote(v))
    ensures Parse(text) == Parse(text + Quote(v)) == Success(map["A" := ""])
  {
    assert ValidKey("A") && CommentSuffix("") == "";
    hide Match, Chomp, ChompNewline, Quote, Lines, Rewrite, Replace, Reads, ValidKey, SingleLine, Plain, CommentSuffix;
    hide RawOf, ParseLines;
    OnlyAtCount([text], "A", 0);
    SplitLosesEdit(text, "A", v);
  }

  // ---------------------------------------------------------------------------------------
  // Line endings
  // ---------------------------------------------------------------------------------------

  predicate EndsWith(line: string, nl: string) {
    |nl| <= |line| && line[|line| - |nl|..] == nl
  }

  /** Every line ends in `nl`, which is CRLF, or a line feed in a text without carriage returns. */
  predicate EndsAll(text: string, nl: string) {
    && (nl == "\r\n" || (nl == "\n" && '\r' !in text))
    && forall i | 0 <= i < |Lines(text)| :: EndsWith(Lines(text)[i], nl)
  }

  lemma NewlineOf(text: string, nl: string)
    requires text != "" && EndsAll(text, nl)
    ensures Newline(text) == nl && Completed(text) == text
  {
    hide Lines, Concat;
    LastLine(text);
    var last := Lines(text)[|Lines(text)| - 1];
    var n := |text| - |last|;
    assert text[n..] == last;
    if nl == "\r\n" {
      assert last[|last| - 2..][0] == text[|text| - 2] && last[|last| - 2..][1] == text[|text| - 1];
    } else {
      assert last[|last| - 1..][0] == text[|text| - 1];
    }
  }

  lemma EndsKept(line: string, nl: string)
    requires EndsWith(line, nl) && (nl == "\r\n" || (nl == "\n" && '\r' !in line))
    ensures Chomp(line) == ChompNewline(line) && line[|ChompNewline(line)|..] == nl
  {
    if nl == "\r\n" {
      assert line[|line| - 2..][0] == '\r' && line[|line| - 2..][1] == '\n';
    } else {
      assert line[|line| - 1..][0] == '\n';
    }
  }

  lemma EndsJoined(a: string, nl: string)
    ensures EndsWith(a + nl, nl)
  {
  }

  lemma LineOfText(text: string, p: nat, c: char)
    requires p < |Lines(text)| && c !in text
    ensures c !in Lines(text)[p]
  {
    hide Lines;
    var lines := Lines(text);
    ConcatLines(text);
    ConcatUpdate(lines, p, lines[p]);
    assert lines[p := lines[p]] == lines;
    var before, rest := Concat(lines[..p]), Concat(lines[p + 1..]);
    hide Concat;
    assert forall i | 0 <= i < |lines[p]| :: lines[p][i] == (before + (lines[p] + rest))[|before| + i];
  }

  lemma RewrittenEnds(line: string, v: string, nl: string)
    requires Match(ChompNewline(line)).Some? && line[|ChompNewline(line)|..] == nl
    ensures EndsWith(Rewrite(line, Quote(v)), nl)
  {
    RewriteIs(line, v);
    hide Rewrite, Quote, Match, ChompNewline, NewBodyOf;
    EndsJoined(NewBodyOf(ChompNewline(line), v), nl);
  }

  /** A text whose lines all end alike, in CRLF or in a line feed, keeps that under every edit with
      a value free of the breaks that the editor does not know. */
  lemma LineEndingsStay(text: string, key: string, v: string, nl: string)
    requires text != "" && EndsAll(text, nl) && Plain(v) && Replace(text, key, v).Success?
    ensures
      var after := Lines(Replace(text, key, v).value);
      forall i | 0 <= i < |after| :: EndsWith(after[i], nl)
  {
    NewlineOf(text, nl);
    hide Lines, Rewrite, Quote, Match, ChompNewline, Chomp, Kept, Written, Plain, Completed, Count, Newline, EndsWith;
    if Count(Lines(text), key) == 0 {
      AppendKeepsLines(text, key, v);
      EndsJoined(key + "=" + Quote(v), nl);
    } else {
      var p := CountOne(Lines(text), key);
      var line := Lines(text)[p];
      if nl == "\n" {
        LineOfText(text, p, '\r');
      }
      EndsKept(line, nl);
      KeptIf(line);
      ReplaceIs(text, key, v, p);
      WrittenLines(text, key, p, v);
      RewrittenEnds(line, v, nl);
    }
  }

  lemma KeptIf(line: string)
    requires Match(ChompNewline(line)).Some? && Chomp(line) == ChompNewline(line)
    ensures Kept(line)
  {
  }
}

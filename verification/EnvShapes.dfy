/** Which texts are assignments, character by character, and what one such line does: to the
    parser, and under an edit. */
module EnvShapes {
  import opened Common
  import opened EnvText
  import opened EnvLines
  import opened EnvQuoting
  import opened EnvAssignments
  import opened EnvWriting

  // ---------------------------------------------------------------------------------------
  // The shape of an assignment
  // ---------------------------------------------------------------------------------------

  predicate Space(c: char) {
    c as int in {
      0x09, 0x0A, 0x0B, 0x0C, 0x0D, 0x1C, 0x1D, 0x1E, 0x1F, 0x20, 0x85, 0xA0, 0x1680,
      0x2000, 0x2001, 0x2002, 0x2003, 0x2004, 0x2005, 0x2006, 0x2007, 0x2008, 0x2009, 0x200A,
      0x2028, 0x2029, 0x202F, 0x205F, 0x3000
    }
  }

  ghost predicate Blank(s: string) {
    forall i | 0 <= i < |s| :: Space(s[i])
  }

  predicate Letter(c: char) {
    'A' <= c <= 'Z' || 'a' <= c <= 'z' || c == '_'
  }

  /** A letter or an underscore, and then letters, underscores and digits. */
  ghost predicate Name(key: string) {
    && key != "" && Letter(key[0])
    && forall i | 0 <= i < |key| :: Letter(key[i]) || '0' <= key[i] <= '9'
  }

  /** White space, perhaps `export` and white space, a key, white space, `=`, white space, and
      whatever is left. */
  datatype Shape = Shape(lead: string, exported: Option<string>, key: string, gap: string, after: string, raw: string)

  ghost predicate Proper(sh: Shape) {
    && Blank(sh.lead) && Blank(sh.gap) && Blank(sh.after) && Name(sh.key)
    && (sh.exported.Some? ==> sh.exported.value != "" && Blank(sh.exported.value))
    && (sh.raw != "" ==> !Space(sh.raw[0]))
  }

  function Front(sh: Shape): string {
    sh.lead + if sh.exported.Some? then "export" + sh.exported.value else ""
  }

  function Prefix(sh: Shape): string {
    Front(sh) + (sh.key + (sh.gap + ("=" + sh.after)))
  }

  function TextOf(sh: Shape): string {
    Prefix(sh) + sh.raw
  }

  lemma SpacesAre(c: char)
    ensures IsSpace(c) <==> Space(c)
    ensures Letter(c) <==> IsWordStart(c)
    ensures Space(c) ==> !IsWordChar(c) && c != '='
  {
  }

  /** White space at position `i`, and none behind it. */
  lemma BlankAt(s: string, i: nat, w: string)
    requires i + |w| <= |s| && s[i..i + |w|] == w && Blank(w)
    requires i + |w| < |s| ==> !Space(s[i + |w|])
    ensures SkipSpace(s, i) == i + |w|
  {
    forall k | i <= k < i + |w| ensures IsSpace(s[k]) {
      assert s[k] == w[k - i];
      SpacesAre(s[k]);
    }
    if i + |w| < |s| {
      SpacesAre(s[i + |w|]);
    }
    SkipSpaceIs(s, i, i + |w|);
  }

  lemma {:induction false} WordCharsAt(s: string, i: nat, j: nat)
    requires i <= j <= |s| && (forall k | i <= k < j :: IsWordChar(s[k])) && (j < |s| ==> !IsWordChar(s[j]))
    ensures SkipWordChars(s, i) == j
    decreases j - i
  {
    if i < j {
      WordCharsAt(s, i + 1, j);
    }
  }

  /** A name at position `i`, and nothing behind it that could belong to it. */
  lemma NameAt(s: string, i: nat, key: string)
    requires i + |key| <= |s| && s[i..i + |key|] == key && Name(key)
    requires i + |key| < |s| ==> !IsWordChar(s[i + |key|])
    ensures SkipWord(s, i) == i + |key|
  {
    assert s[i] == key[0];
    forall k | i <= k < i + |key| ensures IsWordChar(s[k]) {
      assert s[k] == key[k - i];
    }
    WordCharsAt(s, i + 1, i + |key|);
  }

  lemma Piece(s: string, i: nat, a: string, b: string)
    requires i <= |s| && s[i..] == a + b
    ensures i + |a| <= |s| && s[i..i + |a|] == a && s[i + |a|..] == b
    ensures b != "" ==> s[i + |a|] == b[0]
  {
    assert s[i..i + |a|] == s[i..][..|a|] && s[i + |a|..] == s[i..][|a|..];
  }

  lemma NameStarts(key: string, rest: string)
    requires Name(key)
    ensures key + rest != "" && (key + rest)[0] == key[0] && !Space((key + rest)[0]) && key[0] != '='
  {
    SpacesAre(key[0]);
  }

  lemma GapIsNoName(gap: string, rest: string)
    requires Blank(gap)
    ensures !IsWordChar((gap + ("=" + rest))[0])
  {
    if gap != "" {
      SpacesAre(gap[0]);
    }
  }

  /** What stands behind the key. */
  lemma SignAt(s: string, j: nat, gap: string, after: string, raw: string)
    requires j <= |s| && s[j..] == gap + ("=" + (after + raw)) && Blank(gap) && Blank(after)
    requires raw != "" ==> !Space(raw[0])
    ensures
      var e := SkipSpace(s, j);
      e == j + |gap| && e < |s| && s[e] == '=' && SkipSpace(s, e + 1) == |s| - |raw| && !IsWordChar(s[j])
  {
    GapIsNoName(gap, after + raw);
    assert !Space('=');
    hide IsSpace, IsWordChar, SkipSpace, Blank, Space;
    Piece(s, j, gap, "=" + (after + raw));
    BlankAt(s, j, gap);
    assert s[j] == s[j..][0];
    var e := j + |gap|;
    hide *;
    Piece(s, e, "=", after + raw);
    Piece(s, e + 1, after, raw);
    BlankAt(s, e + 1, after);
  }

  lemma KeyAtIs(s: string, i: nat, key: string, gap: string, after: string, raw: string)
    requires i <= |s| && s[i..] == key + (gap + ("=" + (after + raw))) && Name(key) && Blank(gap) && Blank(after)
    requires raw != "" ==> !Space(raw[0])
    ensures KeyAt(s, i) == Some(Assignment(key, |s| - |raw|))
  {
    hide IsSpace, IsWordChar, IsWordStart, SkipSpace, SkipWord, Blank, Name;
    Piece(s, i, key, gap + ("=" + (after + raw)));
    var j := i + |key|;
    SignAt(s, j, gap, after, raw);
    NameAt(s, i, key);
    NotEmpty(key);
  }

  lemma NotEmpty(key: string)
    requires Name(key)
    ensures key != ""
  {
  }

  lemma ExportIsName()
    ensures Name("export")
  {
  }

  lemma LeadAt(s: string, lead: string, rest: string)
    requires s == lead + rest && Blank(lead) && rest != "" && !Space(rest[0])
    ensures SkipSpace(s, 0) == |lead| && s[|lead|..] == rest
  {
    hide Blank, SkipSpace;
    assert s[0..|lead|] == lead;
    BlankAt(s, 0, lead);
  }

  /** The assignment itself, without what stands before its key. */
  function Tail(sh: Shape): string {
    sh.key + (sh.gap + ("=" + (sh.after + sh.raw)))
  }

  /** What stands before the assignment itself. */
  lemma TextIs(sh: Shape)
    ensures sh.exported.None? ==> TextOf(sh) == sh.lead + Tail(sh)
    ensures sh.exported.Some? ==> TextOf(sh) == sh.lead + ("export" + (sh.exported.value + Tail(sh)))
  {
  }

  lemma FrontIs(sh: Shape)
    requires Proper(sh)
    ensures Blank(sh.lead) && (sh.exported.Some? ==> sh.exported.value != "" && Blank(sh.exported.value))
  {
  }

  lemma TailStarts(sh: Shape)
    requires Proper(sh)
    ensures Tail(sh) != "" && !Space(Tail(sh)[0]) && Tail(sh)[0] != '='
  {
    NameStarts(sh.key, sh.gap + ("=" + (sh.after + sh.raw)));
  }

  lemma TailAt(s: string, i: nat, sh: Shape)
    requires Proper(sh) && i <= |s| && s[i..] == Tail(sh)
    ensures KeyAt(s, i) == Some(Assignment(sh.key, |s| - |sh.raw|))
  {
    hide KeyAt, Blank, Name;
    KeyAtIs(s, i, sh.key, sh.gap, sh.after, sh.raw);
  }

  lemma MatchPlain(sh: Shape)
    requires Proper(sh) && sh.exported.None?
    ensures Match(TextOf(sh)) == Some(Assignment(sh.key, |TextOf(sh)| - |sh.raw|))
  {
    hide KeyAt, SkipWord, SkipSpace, IsSpace, TextOf, Tail, Proper, Blank, Space;
    TextIs(sh);
    TailStarts(sh);
    FrontIs(sh);
    LeadAt(TextOf(sh), sh.lead, Tail(sh));
    TailAt(TextOf(sh), |sh.lead|, sh);
  }

  /** The word `export` is not a key if another word follows it. */
  lemma ExportAt(s: string, i: nat, space: string, tail: string)
    requires i <= |s| && s[i..] == "export" + (space + tail) && space != "" && Blank(space)
    requires tail != "" && !Space(tail[0]) && tail[0] != '='
    ensures KeyAt(s, i).None? && SkipWord(s, i) == i + 6 && s[i..i + 6] == "export"
    ensures SkipSpace(s, i + 6) == i + 6 + |space| && s[i + 6 + |space|..] == tail
  {
    hide SkipWord, SkipSpace, IsSpace, IsWordChar, Name;
    Piece(s, i, "export", space + tail);
    Piece(s, i + 6, space, tail);
    assert s[i + 6] == space[0];
    SpacesAre(space[0]);
    ExportIsName();
    NameAt(s, i, "export");
    BlankAt(s, i + 6, space);
  }

  lemma ExportStarts(rest: string)
    ensures ("export" + rest) != "" && !Space(("export" + rest)[0])
  {
    assert ("export" + rest)[0] == 'e';
  }

  lemma MatchAfterExport(s: string, lead: string, space: string, tail: string)
    requires s == lead + ("export" + (space + tail)) && Blank(lead) && space != "" && Blank(space)
    requires tail != "" && !Space(tail[0]) && tail[0] != '='
    ensures
      var k := |lead| + 6 + |space|;
      k <= |s| && s[k..] == tail && Match(s) == KeyAt(s, k)
  {
    ExportStarts(space + tail);
    hide KeyAt, SkipWord, SkipSpace, Blank, Space;
    LeadAt(s, lead, "export" + (space + tail));
    ExportAt(s, |lead|, space, tail);
  }

  lemma MatchExported(sh: Shape)
    requires Proper(sh) && sh.exported.Some?
    ensures Match(TextOf(sh)) == Some(Assignment(sh.key, |TextOf(sh)| - |sh.raw|))
  {
    hide *;
    TextIs(sh);
    TailStarts(sh);
    FrontIs(sh);
    MatchAfterExport(TextOf(sh), sh.lead, sh.exported.value, Tail(sh));
    TailAt(TextOf(sh), |sh.lead| + 6 + |sh.exported.value|, sh);
  }

  // ---------------------------------------------------------------------------------------
  // Nothing else is an assignment
  // ---------------------------------------------------------------------------------------

  lemma {:induction false} WordCharsAre(s: string, i: nat)
    requires i <= |s|
    ensures forall k | i <= k < SkipWordChars(s, i) :: IsWordChar(s[k])
    decreases |s| - i
  {
    if i < |s| && IsWordChar(s[i]) {
      WordCharsAre(s, i + 1);
    }
  }

  lemma SkippedWord(s: string, i: nat)
    requires i <= |s| && i < SkipWord(s, i)
    ensures Name(s[i..SkipWord(s, i)])
  {
    WordCharsAre(s, i + 1);
    var key := s[i..SkipWord(s, i)];
    forall k | 0 <= k < |key| ensures IsWordChar(key[k]) && key[k] == s[i + k] {
    }
  }

  lemma SkippedSpace(s: string, i: nat)
    requires i <= |s|
    ensures Blank(s[i..SkipSpace(s, i)])
    ensures SkipSpace(s, i) < |s| ==> !Space(s[SkipSpace(s, i)])
  {
    SkipSpaceStops(s, i);
    var j := SkipSpace(s, i);
    forall k | 0 <= k < j - i ensures Space(s[i..j][k]) {
      SpacesAre(s[i + k]);
    }
    if j < |s| {
      SpacesAre(s[j]);
    }
  }

  lemma Cut(s: string, i: nat, j: nat, k: nat)
    requires i <= j <= k <= |s|
    ensures s[i..] == s[i..j] + s[j..] && s[j..] == s[j..k] + s[k..]
  {
  }

  lemma CutAtSign(s: string, i: nat, j: nat, e: nat, p: nat)
    requires i <= j <= e < p <= |s| && s[e] == '='
    ensures s[i..] == s[i..j] + (s[j..e] + ("=" + (s[e + 1..p] + s[p..])))
  {
    Cut(s, i, j, e);
    Cut(s, e, e + 1, p);
    assert s[e..e + 1] == "=";
  }

  lemma KeyAtShape(s: string, i: nat) returns (gap: string, after: string, raw: string)
    requires i <= |s| && KeyAt(s, i).Some?
    ensures Name(KeyAt(s, i).value.key) && Blank(gap) && Blank(after) && (raw != "" ==> !Space(raw[0]))
    ensures s[i..] == KeyAt(s, i).value.key + (gap + ("=" + (after + raw)))
  {
    var j := SkipWord(s, i);
    var e := SkipSpace(s, j);
    var p := SkipSpace(s, e + 1);
    SkippedWord(s, i);
    SkippedSpace(s, j);
    SkippedSpace(s, e + 1);
    CutAtSign(s, i, j, e, p);
    hide SkipWord, SkipSpace, IsSpace, Name, Blank;
    gap, after, raw := s[j..e], s[e + 1..p], s[p..];
  }

  lemma MatchHasShape(s: string) returns (sh: Shape)
    requires Match(s).Some?
    ensures Proper(sh) && TextOf(sh) == s
  {
    var i := SkipSpace(s, 0);
    if KeyAt(s, i).Some? {
      sh := PlainShape(s, i);
    } else {
      sh := ExportedShape(s, i);
    }
  }

  lemma PlainShape(s: string, i: nat) returns (sh: Shape)
    requires i == SkipSpace(s, 0) && KeyAt(s, i).Some?
    ensures Proper(sh) && TextOf(sh) == s
  {
    SkippedSpace(s, 0);
    hide KeyAt, SkipSpace, Name, Blank;
    var gap, after, raw := KeyAtShape(s, i);
    sh := Shape(s[0..i], None, KeyAt(s, i).value.key, gap, after, raw);
    Cut(s, 0, i, i);
    TextIs(sh);
  }

  lemma ExportedShape(s: string, i: nat) returns (sh: Shape)
    requires i == SkipSpace(s, 0) && KeyAt(s, i).None? && Match(s).Some?
    ensures Proper(sh) && TextOf(sh) == s
  {
    var j := SkipWord(s, i);
    var k := SkipSpace(s, j);
    assert s[i..j] == "export" && j < k && KeyAt(s, k).Some?;
    SkippedSpace(s, 0);
    SkippedSpace(s, j);
    hide KeyAt, SkipWord, SkipSpace, Name, Blank, Match;
    var gap, after, raw := KeyAtShape(s, k);
    sh := Shape(s[0..i], Some(s[j..k]), KeyAt(s, k).value.key, gap, after, raw);
    Cut(s, 0, i, j);
    Cut(s, j, k, k);
    TextIs(sh);
  }

  /**
   A text is an assignment exactly if it has that shape; the key and all before the raw value are
   then those of the shape. In `export =1` the word `export` is the key.
   */
  lemma MatchIff(s: string)
    ensures Match(s).Some? <==> exists sh :: Proper(sh) && TextOf(sh) == s
    ensures forall sh | Proper(sh) && TextOf(sh) == s ::
              Match(s) == Some(Assignment(sh.key, |Prefix(sh)|)) && PrefixOf(s) == Prefix(sh) && RawOf(s) == sh.raw
  {
    hide Match, Proper;
    forall sh | Proper(sh) && TextOf(sh) == s
      ensures Match(s) == Some(Assignment(sh.key, |Prefix(sh)|)) && PrefixOf(s) == Prefix(sh) && RawOf(s) == sh.raw
    {
      if sh.exported.None? {
        MatchPlain(sh);
      } else {
        MatchExported(sh);
      }
      assert (Prefix(sh) + sh.raw)[..|Prefix(sh)|] == Prefix(sh);
      assert (Prefix(sh) + sh.raw)[|Prefix(sh)|..] == sh.raw;
    }
    if Match(s).Some? {
      var _ := MatchHasShape(s);
    }
  }

  /** The keys that can be set are exactly the names. */
  lemma ValidKeyIff(key: string)
    ensures ValidKey(key) <==> Name(key)
  {
    assert key[0..|key|] == key;
    if Name(key) {
      NameAt(key, 0, key);
    } else if ValidKey(key) {
      SkippedWord(key, 0);
    }
  }

  // ---------------------------------------------------------------------------------------
  // One line, parsed and edited
  // ---------------------------------------------------------------------------------------

  lemma LineOf(body: string)
    requires BreakFree(body) && body != ""
    ensures Lines(body + "\n") == [body + "\n"] && Chomp(body + "\n") == ChompNewline(body + "\n") == body
    ensures (body + "\n")[|body|..] == "\n"
  {
    hide IsBreak, Lines, Chomp, ChompNewline;
    NewlineBreaks();
    OneLine(body, "\n");
    ChompIs(body, "\n");
  }

  lemma NewlineBreaks()
    ensures IsBrk("\n") && !IsExotic('\n')
  {
  }

  lemma ParseOne(line: string)
    requires Lines(line) == [line]
    ensures Parse(line) == ParseLine(line, 1, map[])
  {
    hide Lines, ParseLine;
    var r := ParseLine(line, 1, map[]);
    assert [line][1..] == [];
    assert r.Success? ==> ParseLines([], 2, r.value) == r;
  }

  /** A file of one such line gives its key the decoded raw value, or is refused if that cannot be
      decoded. */
  lemma ParseOneLine(sh: Shape)
    requires Proper(sh) && BreakFree(TextOf(sh))
    ensures
      var r := Decode(sh.raw);
      Parse(TextOf(sh) + "\n") == if r.Success? then Success(map[sh.key := r.value]) else Failure(1)
  {
    MatchIff(TextOf(sh));
    LineOf(TextOf(sh));
    hide Match, Decode, Lines, Chomp, ChompNewline, Proper, TextOf, Prefix, Parse, BreakFree;
    ParseOne(TextOf(sh) + "\n");
    assert forall k: string, v: string :: map[][k := v] == map[k := v];
  }

  /** A file of one line of no such shape assigns nothing. */
  lemma ParseOtherLine(body: string)
    requires BreakFree(body) && body != "" && !exists sh :: Proper(sh) && TextOf(sh) == body
    ensures Parse(body + "\n") == Success(map[])
  {
    MatchIff(body);
    LineOf(body);
    hide Match, Decode, Lines, Chomp, ChompNewline, Proper, TextOf, Parse, BreakFree;
    ParseOne(body + "\n");
  }

  /** Setting the key of such a line replaces its raw value, up to a trailing comment. */
  lemma ReplaceOneLine(sh: Shape, v: string)
    requires Proper(sh) && BreakFree(TextOf(sh)) && SingleLine(v)
    ensures Replace(TextOf(sh) + "\n", sh.key, v) == Success(Prefix(sh) + (Quote(v) + CommentSuffix(sh.raw)) + "\n")
  {
    var line := TextOf(sh) + "\n";
    MatchIff(TextOf(sh));
    ValidKeyIff(sh.key);
    LineOf(TextOf(sh));
    hide Match, Decode, Lines, Chomp, ChompNewline, Quote, CommentSuffix, Name, Blank, Rewrite;
    hide SingleLine, Replace, ValidKey;
    assert OnlyAt([line], sh.key, 0);
    ReplaceIs(line, sh.key, v, 0);
    RewriteIs(line, v);
    ConcatOnly(line, Rewrite(line, Quote(v)));
  }

  // ---------------------------------------------------------------------------------------
  // What the editor refuses
  // ---------------------------------------------------------------------------------------

  lemma {:induction false} CountTwo(lines: seq<string>, key: string)
    ensures Count(lines, key) > 1 <==>
              exists i, j :: 0 <= i < j < |lines| && Assigns(lines[i], key) && Assigns(lines[j], key)
  {
    hide Assigns;
    if lines != [] {
      var rest := lines[1..];
      CountTwo(rest, key);
      CountZero(rest, key);
      assert forall i | 0 <= i < |rest| :: rest[i] == lines[i + 1];
      if Count(lines, key) > 1 {
        if Assigns(lines[0], key) {
          var j :| 0 <= j < |rest| && Assigns(rest[j], key);
          assert Assigns(lines[j + 1], key);
        } else {
          var i, j :| 0 <= i < j < |rest| && Assigns(rest[i], key) && Assigns(rest[j], key);
          assert Assigns(lines[i + 1], key) && Assigns(lines[j + 1], key);
        }
      }
      if i, j :| 0 <= i < j < |lines| && Assigns(lines[i], key) && Assigns(lines[j], key) {
        assert Assigns(rest[j - 1], key);
        assert i > 0 ==> Assigns(rest[i - 1], key);
      }
    }
  }

  /** An edit is refused exactly for a key that is no name, else for a value with a line feed, a
      carriage return or a null character, else for a key that two lines assign. */
  lemma ReplaceFailsIff(text: string, key: string, value: string)
    ensures
      var r, lines := Replace(text, key, value), Lines(text);
      var multiline := exists i :: 0 <= i < |value| && value[i] in "\n\r\0";
      var twice := exists i, j :: 0 <= i < j < |lines| && Assigns(lines[i], key) && Assigns(lines[j], key);
      && (r == Failure(InvalidKey) <==> !Name(key))
      && (r == Failure(MultilineValue) <==> Name(key) && multiline)
      && (r == Failure(DuplicateKey) <==> Name(key) && !multiline && twice)
  {
    ValidKeyIff(key);
    CountTwo(Lines(text), key);
    SingleLineIff(value);
    hide ValidKey, Name, Count, Lines, Assigns, SingleLine, EditAll, Completed, Newline, Quote;
  }

  lemma SingleLineIff(value: string)
    ensures SingleLine(value) <==> !exists i :: 0 <= i < |value| && value[i] in "\n\r\0"
  {
    if i :| 0 <= i < |value| && value[i] in "\n\r\0" {
      assert value[i] in value;
    }
  }

  // ---------------------------------------------------------------------------------------
  // Where a text is cut into lines
  // ---------------------------------------------------------------------------------------

  predicate Break(c: char) {
    c as int in {0x0A, 0x0B, 0x0C, 0x0D, 0x1C, 0x1D, 0x1E, 0x85, 0x2028, 0x2029}
  }

  lemma BreaksAre(c: char)
    ensures IsBreak(c) <==> Break(c)
  {
  }

  /** A line ends with the first break, which is one character or CRLF; the last line may have none. */
  lemma LinesAreCut(u: string, b: string, rest: string)
    requires (forall i | 0 <= i < |u| :: !Break(u[i])) && u + b != ""
    requires (|b| == 1 && Break(b[0])) || b == "\r\n" || (b == "" && rest == "")
    requires b == "\r" && rest != "" ==> rest[0] != '\n'
    ensures Lines(u + (b + rest)) == [u + b] + Lines(rest) && Chomp(u + b) == u
  {
    assert BreakFree(u) by {
      forall i | 0 <= i < |u| ensures !IsBreak(u[i]) {
        BreaksAre(u[i]);
      }
    }
    if |b| == 1 {
      BreaksAre(b[0]);
    }
    assert IsBrk(b) && '\n' as int == 0x0A && IsBreak('\n');
    ChompIs(u, b);
    OneLine(u, b);
    hide IsBreak, Break, Lines, Chomp;
    assert Closed(u + b, rest);
    Regroup(u, b, rest);
    LinesAppend(u + b, rest);
  }
}

/** How splitting a text into lines behaves when part of the text is replaced. */
module EnvLines {
  import opened EnvText

  lemma {:induction false} ConcatAppend(a: seq<string>, b: seq<string>)
    ensures Concat(a + b) == Concat(a) + Concat(b)
  {
    if a == [] {
      assert a + b == b;
    } else {
      assert (a + b)[1..] == a[1..] + b;
      ConcatAppend(a[1..], b);
    }
  }

  /** Splitting loses nothing. */
  lemma {:induction false} ConcatLines(s: string)
    ensures Concat(Lines(s)) == s
  {
    if s != "" {
      ConcatLines(s[LineLength(s)..]);
      assert Lines(s)[1..] == Lines(s[LineLength(s)..]);
    }
  }

  /** A break-free beginning only lengthens the first line. */
  lemma {:induction false} BreakFreePrefix(u: string, rest: string)
    requires BreakFree(u) && u + rest != ""
    ensures LineLength(u + rest) == |u| + if rest == "" then 0 else LineLength(rest)
  {
    if u == "" {
      assert u + rest == rest;
    } else if u + rest != [u[0]] {
      assert (u + rest)[1..] == u[1..] + rest;
      BreakFreePrefix(u[1..], rest);
    }
  }

  /** Within a first line the only break before the last character is the `\r` of a final `\r\n`;
      and if more text follows, the line ends in a break. */
  lemma {:induction false} LineShape(s: string)
    requires s != ""
    ensures forall i | 0 <= i < LineLength(s) - 1 ::
      IsBreak(s[i]) ==> i == LineLength(s) - 2 && s[i] == '\r' && s[i + 1] == '\n'
    ensures LineLength(s) < |s| ==> IsBreak(s[LineLength(s) - 1])
  {
    if !IsBreak(s[0]) && |s| > 1 {
      LineShape(s[1..]);
      assert forall i | 1 <= i < |s| :: s[i] == s[1..][i - 1];
    }
  }

  lemma ChompedLine(s: string)
    requires s != ""
    ensures BreakFree(Chomp(s[..LineLength(s)]))
  {
    LineShape(s);
    var line := s[..LineLength(s)];
  }

  /** Where the first line ends is decided by the line and one character of look-ahead. */
  lemma {:induction false} LookAhead(line: string, x: string, y: string)
    requires line != "" && x != "" && y != "" && x[0] == y[0]
    requires LineLength(line + x) == |line|
    ensures LineLength(line + y) == |line|
  {
    if !IsBreak(line[0]) && |line| > 1 {
      assert (line + x)[1..] == line[1..] + x && (line + y)[1..] == line[1..] + y;
      LookAhead(line[1..], x, y);
    }
  }

  lemma LinesSplit(line: string, rest: string)
    requires line != "" && LineLength(line + rest) == |line|
    ensures Lines(line + rest) == [line] + Lines(rest)
  {
    assert (line + rest)[..|line|] == line && (line + rest)[|line|..] == rest;
  }

  lemma StartsAlike(lines: seq<string>, p: nat, x: string)
    requires forall i | 0 <= i < |lines| :: lines[i] != ""
    requires p < |lines| && x != "" && x[0] == lines[p][0]
    ensures Concat(lines[..p]) + x != "" && (Concat(lines[..p]) + x)[0] == lines[0][0]
  {
    if p > 0 { assert lines[..p][0] == lines[0]; }
  }

  /** Replacing the text from line `p` on by a text that starts alike keeps the lines before. */
  lemma {:induction false} LinesBefore(s: string, p: nat, x: string)
    requires p < |Lines(s)| && x != "" && x[0] == Lines(s)[p][0]
    ensures Lines(Concat(Lines(s)[..p]) + x) == Lines(s)[..p] + Lines(x)
  {
    hide LineLength;
    if p == 0 {
      assert Concat(Lines(s)[..0]) + x == x;
    } else {
      var n := LineLength(s);
      var line, rest, more := s[..n], s[n..], Lines(s[n..]);
      var after := Concat(more[..p - 1]) + x;
      assert Lines(line + after) == [line] + Lines(after) by {
        hide Lines;
        StartsAlike(more, p - 1, x);
        assert s == line + rest && rest[0] == more[0][0];
        LookAhead(line, rest, after);
        LinesSplit(line, after);
      }
      LinesBefore(rest, p - 1, x);
      PrefixConcat(line, more, p, x);
      assert Lines(s) == [line] + more;
    }
  }

  lemma PrefixConcat(line: string, more: seq<string>, p: nat, x: string)
    requires 0 < p <= |more| + 1
    ensures ([line] + more)[..p] == [line] + more[..p - 1]
    ensures Concat(([line] + more)[..p]) + x == line + (Concat(more[..p - 1]) + x)
  {
    assert ([line] + more)[..p][1..] == more[..p - 1];
  }

  /** The lines from `p` on are the lines of the text from there on. */
  lemma {:induction false} LinesFrom(s: string, p: nat)
    requires p <= |Lines(s)|
    ensures Lines(Concat(Lines(s)[p..])) == Lines(s)[p..]
  {
    if p == 0 {
      ConcatLines(s);
      assert Lines(s)[0..] == Lines(s);
    } else {
      LinesFrom(s[LineLength(s)..], p - 1);
      assert Lines(s)[p..] == Lines(s[LineLength(s)..])[p - 1..];
    }
  }

  /** What is appended does not run into the last line: that line ends in a break, and not in the
      middle of a `\r\n`. */
  predicate Closed(s: string, x: string) {
    s == "" || x == "" || (IsBreak(s[|s| - 1]) && (s[|s| - 1] == '\r' ==> x[0] != '\n'))
  }

  lemma {:induction false} FirstLineKept(s: string, x: string)
    requires s != "" && x != "" && Closed(s, x)
    ensures LineLength(s + x) == LineLength(s)
  {
    if !IsBreak(s[0]) {
      assert (s + x)[1..] == s[1..] + x;
      FirstLineKept(s[1..], x);
    }
  }

  lemma DropClosed(s: string, n: nat, x: string)
    requires Closed(s, x) && n <= |s|
    ensures Closed(s[n..], x)
  {
  }

  /** Appending to a text that ends in a break appends lines. */
  lemma {:induction false} LinesAppend(s: string, x: string)
    requires Closed(s, x)
    ensures Lines(s + x) == Lines(s) + Lines(x)
  {
    if s == "" {
      assert s + x == x;
    } else if x == "" {
      assert s + x == s;
    } else {
      hide Lines, LineLength, Closed;
      var n := LineLength(s);
      var line, rest := s[..n], s[n..];
      FirstLineKept(s, x);
      DropClosed(s, n, x);
      assert s == line + rest && s + x == line + (rest + x);
      LinesSplit(line, rest);
      LinesSplit(line, rest + x);
      LinesAppend(rest, x);
      Regroup([line], Lines(rest), Lines(x));
    }
  }

  lemma Regroup<T>(a: seq<T>, b: seq<T>, c: seq<T>)
    ensures a + (b + c) == (a + b) + c
  {
  }

  // ---------------------------------------------------------------------------------------
  // A line and its break
  // ---------------------------------------------------------------------------------------

  /** A break, or none. */
  predicate IsBrk(b: string) {
    b == "" || (|b| == 1 && IsBreak(b[0])) || b == ['\r', '\n']
  }

  function BreakOf(line: string): string {
    line[|Chomp(line)|..]
  }

  lemma PrefixAndRest(line: string, body: string)
    requires body <= line
    ensures line == body + line[|body|..]
  {
  }

  lemma BreakOfIsBrk(line: string)
    ensures IsBrk(BreakOf(line))
  {
  }

  lemma LineIs(line: string)
    ensures line == Chomp(line) + BreakOf(line) && IsBrk(BreakOf(line))
    ensures line == ChompNewline(line) + line[|ChompNewline(line)|..]
  {
    BreakOfIsBrk(line);
    hide Chomp, ChompNewline, IsBrk;
    PrefixAndRest(line, Chomp(line));
    PrefixAndRest(line, ChompNewline(line));
  }

  /** The editor misses a break exactly if it is a single exotic one; it then keeps it in the body. */
  lemma MissedBreak(line: string)
    ensures Chomp(line) != ChompNewline(line) <==> |BreakOf(line)| == 1 && IsExotic(BreakOf(line)[0])
    ensures Chomp(line) != ChompNewline(line) ==> ChompNewline(line) == line
    ensures Chomp(line) == ChompNewline(line) ==> BreakOf(line) == line[|ChompNewline(line)|..]
  {
  }

  lemma ChompIs(u: string, b: string)
    requires BreakFree(u) && IsBrk(b)
    ensures Chomp(u + b) == u && BreakOf(u + b) == b
    ensures ChompNewline(u + b) == if |b| == 1 && IsExotic(b[0]) then u + b else u
  {
    var line := u + b;
    assert forall i | 0 <= i < |u| :: line[i] == u[i];
  }

  lemma OneLine(u: string, b: string)
    requires BreakFree(u) && IsBrk(b) && u + b != ""
    ensures LineLength(u + b) == |u + b| && Lines(u + b) == [u + b]
  {
    BreakFreePrefix(u, b);
    assert b != "" ==> LineLength(b) == |b|;
    hide LineLength, IsBreak;
    assert (u + b) + "" == u + b;
    LinesSplit(u + b, "");
  }

  /** A line that is followed by more ends in a break, and not in the middle of one. */
  lemma {:induction false} LineCloses(line: string, rest: string)
    requires line != "" && LineLength(line + rest) == |line|
    ensures Closed(line, rest)
  {
    if rest != "" {
      if !IsBreak(line[0]) && |line| > 1 {
        assert (line + rest)[1..] == line[1..] + rest;
        LineCloses(line[1..], rest);
      }
    }
  }

  /** Line `p` of a text, in its place. */
  lemma LineInPlace(text: string, p: nat)
    requires p < |Lines(text)|
    ensures
      var line, rest := Lines(text)[p], Concat(Lines(text)[p + 1..]);
      line != "" && LineLength(line + rest) == |line| && BreakFree(Chomp(line)) && Closed(line, rest)
  {
    hide LineLength;
    var lines := Lines(text);
    var line, rest := lines[p], Concat(lines[p + 1..]);
    LinesFrom(text, p);
    assert lines[p..][0] == line && lines[p..][1..] == lines[p + 1..];
    ChompedLine(line + rest);
    assert (line + rest)[..|line|] == line;
    LineCloses(line, rest);
  }

  lemma ConcatUpdate(lines: seq<string>, p: nat, line: string)
    requires p < |lines|
    ensures lines[p := line] == lines[..p] + ([line] + lines[p + 1..])
    ensures Concat(lines[p := line]) == Concat(lines[..p]) + (line + Concat(lines[p + 1..]))
  {
    ConcatAppend(lines[..p], [line] + lines[p + 1..]);
    assert ([line] + lines[p + 1..])[1..] == lines[p + 1..];
  }

  /** Putting a text in the place of line `p` puts its lines there, if it ends as the line did. */
  lemma LinesSplice(text: string, p: nat, x: string)
    requires p < |Lines(text)| && x != "" && x[0] == Lines(text)[p][0]
    requires Closed(x, Concat(Lines(text)[p + 1..]))
    ensures Lines(Concat(Lines(text)[p := x])) == Lines(text)[..p] + (Lines(x) + Lines(text)[p + 1..])
  {
    hide Lines, Concat, Closed;
    var lines := Lines(text);
    ConcatUpdate(lines, p, x);
    LinesBefore(text, p, x + Concat(lines[p + 1..]));
    LinesAppend(x, Concat(lines[p + 1..]));
    LinesFrom(text, p + 1);
  }

  lemma PlainParts(a: string, b: string)
    ensures Plain(a + b) <==> Plain(a) && Plain(b)
  {
    assert forall i | 0 <= i < |b| :: b[i] == (a + b)[|a| + i];
    assert forall i | 0 <= i < |a| :: a[i] == (a + b)[i];
  }

  lemma LastLine(text: string)
    requires text != ""
    ensures
      var lines, p := Lines(text), |Lines(text)| - 1;
      && p >= 0 && text == Concat(lines[..p]) + lines[p] && lines[p] != ""
      && text[|text| - 1] == lines[p][|lines[p]| - 1] && Concat(lines[p + 1..]) == ""
  {
    hide LineLength;
    var lines, p := Lines(text), |Lines(text)| - 1;
    ConcatUpdate(lines, p, lines[p]);
    ConcatLines(text);
    assert lines[p := lines[p]] == lines && lines[p] + Concat(lines[p + 1..]) == lines[p];
  }

  lemma LastLineEnds(text: string)
    requires text != ""
    ensures
      var lines, p := Lines(text), |Lines(text)| - 1;
      && p >= 0 && text == Concat(lines[..p]) + lines[p]
      && (EndsInNewline(text) <==> EndsInNewline(lines[p]))
  {
    hide LineLength, Lines, Concat;
    LastLine(text);
  }
}

/** What the parser makes of a list of lines when lines are added, dropped, or changed. */
module EnvParsing {
  import opened Common
  import opened EnvText
  import opened EnvLines
  import opened EnvAssignments

  lemma {:induction false} ParseAppend(a: seq<string>, b: seq<string>, n: nat, values: map<string, string>)
    ensures
      var r := ParseLines(a, n, values);
      ParseLines(a + b, n, values) == if r.Success? then ParseLines(b, n + |a|, r.value) else r
  {
    hide ParseLine;
    if a == [] {
      assert a + b == b;
    } else {
      assert (a + b)[1..] == a[1..] + b;
      var r := ParseLine(a[0], n, values);
      if r.Success? {
        ParseAppend(a[1..], b, n + 1, r.value);
      }
    }
  }

  function Put(r: Result<map<string, string>, nat>, key: string, v: string): Result<map<string, string>, nat> {
    if r.Success? then Success(r.value[key := v]) else r
  }

  lemma ParseLineFrame(line: string, n: nat, values: map<string, string>, key: string, v: string)
    requires !Assigns(line, key)
    ensures ParseLine(line, n, values[key := v]) == Put(ParseLine(line, n, values), key, v)
  {
    SameKey(line);
    hide Match, Decode, Chomp, ChompNewline;
    var a := Match(Chomp(line));
    if a.Some? {
      var x := Decode(Chomp(line)[a.value.prefix..]);
      if x.Success? {
        assert values[key := v][a.value.key := x.value] == values[a.value.key := x.value][key := v];
      }
    }
  }

  /** Lines that do not assign a key carry its value through. */
  lemma {:induction false} ParseFrame(lines: seq<string>, n: nat, values: map<string, string>, key: string, v: string)
    requires Nowhere(lines, key)
    ensures ParseLines(lines, n, values[key := v]) == Put(ParseLines(lines, n, values), key, v)
  {
    hide ParseLine, Assigns;
    if lines != [] {
      var tail := lines[1..];
      assert forall i | 0 <= i < |tail| :: tail[i] == lines[i + 1];
      ParseLineFrame(lines[0], n, values, key, v);
      var r := ParseLine(lines[0], n, values);
      if r.Success? {
        ParseFrame(tail, n + 1, r.value, key, v);
      }
    }
  }

  /** The line reads as an assignment of `v` to `key`. */
  predicate Reads(line: string, key: string, v: string) {
    var a := Match(Chomp(line));
    a.Some? && a.value.key == key && Decode(Chomp(line)[a.value.prefix..]) == Success(v)
  }

  /** The parser passes over the line. */
  predicate Ignored(line: string) {
    Match(Chomp(line)).None?
  }

  lemma {:induction false} ParseCut(lines: seq<string>, p: nat, line: string)
    requires p < |lines| && ParseLines(lines[..p], 1, map[]).Success?
    ensures
      var before := ParseLines(lines[..p], 1, map[]).value;
      var at := ParseLine(line, p + 1, before);
      ParseLines(lines[p := line], 1, map[])
        == if at.Success? then ParseLines(lines[p + 1..], p + 2, at.value) else at
  {
    hide ParseLine;
    var rest := [line] + lines[p + 1..];
    assert lines[p := line] == lines[..p] + rest;
    ParseAppend(lines[..p], rest, 1, map[]);
    assert rest[0] == line && rest[1..] == lines[p + 1..];
  }

  lemma ParsesBefore(lines: seq<string>, p: nat)
    requires p <= |lines| && ParseLines(lines, 1, map[]).Success?
    ensures ParseLines(lines[..p], 1, map[]).Success?
  {
    assert lines == lines[..p] + lines[p..];
    ParseAppend(lines[..p], lines[p..], 1, map[]);
  }

  lemma ParseOfAssigned(line: string, n: nat, values: map<string, string>, key: string, v: string)
    requires Assigns(line, key) && ParseLine(line, n, values).Success?
    ensures ParseLine(line, n, values).value[key := v] == values[key := v]
  {
    SameKey(line);
  }

  lemma {:induction false} ParseReplaced(lines: seq<string>, p: nat, line: string, before: map<string, string>,
                                         key: string, v: string)
    requires p < |lines| && Reads(line, key, v) && ParseLines(lines[..p], 1, map[]) == Success(before)
    ensures ParseLines(lines[p := line], 1, map[]) == ParseLines(lines[p + 1..], p + 2, before[key := v])
  {
    ParseCut(lines, p, line);
  }

  lemma {:induction false} ParseOriginal(lines: seq<string>, p: nat, before: map<string, string>)
    returns (at: map<string, string>)
    requires p < |lines| && ParseLines(lines, 1, map[]).Success? && ParseLines(lines[..p], 1, map[]) == Success(before)
    ensures ParseLine(lines[p], p + 1, before) == Success(at)
    ensures ParseLines(lines, 1, map[]) == ParseLines(lines[p + 1..], p + 2, at)
  {
    ParseCut(lines, p, lines[p]);
    assert lines[p := lines[p]] == lines;
    at := ParseLine(lines[p], p + 1, before).value;
  }

  /** Changing the only line that assigns `key` changes the value of `key` and nothing else. */
  lemma {:induction false} ParseUpdate(lines: seq<string>, p: nat, line: string, key: string, v: string)
    requires OnlyAt(lines, key, p) && Reads(line, key, v) && ParseLines(lines, 1, map[]).Success?
    ensures ParseLines(lines[p := line], 1, map[]) == Put(ParseLines(lines, 1, map[]), key, v)
  {
    hide ParseLine, Reads, Assigns, ParseLines;
    ParsesBefore(lines, p);
    var before := ParseLines(lines[..p], 1, map[]).value;
    var at := ParseOriginal(lines, p, before);
    ParseReplaced(lines, p, line, before, key, v);
    ParseOfAssigned(lines[p], p + 1, before, key, v);
    var after := lines[p + 1..];
    assert Nowhere(after, key) by {
      assert forall i | 0 <= i < |after| :: after[i] == lines[p + 1 + i];
    }
    ParseFrame(after, p + 2, at, key, v);
  }

  lemma {:induction false} ParseChomped(a: seq<string>, b: seq<string>, n: nat, values: map<string, string>)
    requires |a| == |b| && forall i | 0 <= i < |a| :: Chomp(a[i]) == Chomp(b[i])
    ensures ParseLines(a, n, values) == ParseLines(b, n, values)
  {
    hide Chomp;
    if a != [] {
      var r := ParseLine(a[0], n, values);
      assert ParseLine(b[0], n, values) == r;
      if r.Success? {
        ParseChomped(a[1..], b[1..], n + 1, r.value);
      }
    }
  }

  // ---------------------------------------------------------------------------------------
  // Dropping a line
  // ---------------------------------------------------------------------------------------

  function Dropped(lines: seq<string>, q: nat): seq<string>
    requires q < |lines|
  {
    lines[..q] + lines[q + 1..]
  }

  /** Neither the values so far nor the numbers decide whether lines can be parsed; and the
      numbers do not matter where they can. */
  lemma {:induction false} ParsesAnyway(lines: seq<string>, n: nat, m: nat, values: map<string, string>,
                                        other: map<string, string>)
    requires ParseLines(lines, n, values).Success?
    ensures ParseLines(lines, m, other).Success?
    ensures ParseLines(lines, m, values) == ParseLines(lines, n, values)
    decreases |lines|
  {
    hide Match, Decode, Chomp;
    if lines != [] {
      var r, s := ParseLine(lines[0], n, values), ParseLine(lines[0], m, other);
      assert ParseLine(lines[0], m, values) == r && s.Success?;
      ParsesAnyway(lines[1..], n + 1, m + 1, r.value, s.value);
    }
  }

  lemma {:induction false} ParseDropped(lines: seq<string>, q: nat)
    requires q < |lines| && ParseLines(lines, 1, map[]).Success?
    ensures ParseLines(Dropped(lines, q), 1, map[]).Success?
    ensures Ignored(lines[q]) ==> ParseLines(Dropped(lines, q), 1, map[]) == ParseLines(lines, 1, map[])
  {
    hide ParseLines, ParseLine, Ignored;
    ParsesBefore(lines, q);
    var before := ParseLines(lines[..q], 1, map[]).value;
    var at := ParseOriginal(lines, q, before);
    ParsesAnyway(lines[q + 1..], q + 2, q + 1, at, before);
    ParseAppend(lines[..q], lines[q + 1..], 1, map[]);
    if Ignored(lines[q]) {
      IgnoredPasses(lines[q], q + 1, before);
    }
  }

  lemma IgnoredPasses(line: string, n: nat, values: map<string, string>)
    requires Ignored(line)
    ensures ParseLine(line, n, values) == Success(values)
  {
  }

  // ---------------------------------------------------------------------------------------
  // What values can be read
  // ---------------------------------------------------------------------------------------

  lemma {:induction false} QuotedPlain(s: string, i: nat, quote: char)
    requires i <= |s| && BreakFree(s) && Quoted(s, i, quote).Some?
    ensures Plain(Quoted(s, i, quote).value.0)
    decreases |s| - i
  {
    if s[i] == '\\' && i + 1 < |s| {
      QuotedPlain(s, i + 2, quote);
    } else if s[i] != quote {
      QuotedPlain(s, i + 1, quote);
    }
  }

  lemma {:induction false} StripRightPlain(s: string)
    requires BreakFree(s)
    ensures Plain(StripRight(s))
    decreases |s|
  {
    if s != "" && IsSpace(s[|s| - 1]) {
      StripRightPlain(s[..|s| - 1]);
    }
  }

  lemma DecodePlain(raw: string)
    requires BreakFree(raw) && Decode(raw).Success?
    ensures Plain(Decode(raw).value)
  {
    var value := raw[SkipSpace(raw, 0)..];
    hide IsBreak, Quoted, StripRight, SkipSpace, UnquotedEnd;
    if value != "" {
      if value[0] == '"' || value[0] == '\'' {
        QuotedPlain(value, 1, value[0]);
      } else {
        StripRightPlain(value[..UnquotedEnd(value, 0)]);
      }
    }
  }

  ghost predicate AllPlain(values: map<string, string>) {
    forall k | k in values :: Plain(values[k])
  }

  lemma ParseLinePlain(line: string, n: nat, values: map<string, string>)
    requires BreakFree(Chomp(line)) && AllPlain(values) && ParseLine(line, n, values).Success?
    ensures AllPlain(ParseLine(line, n, values).value)
  {
    hide Match, Chomp, Decode, IsBreak;
    var body := Chomp(line);
    if Match(body).Some? {
      DecodePlain(body[Match(body).value.prefix..]);
    }
  }

  lemma {:induction false} ParseLinesPlain(lines: seq<string>, n: nat, values: map<string, string>)
    requires (forall i | 0 <= i < |lines| :: BreakFree(Chomp(lines[i]))) && AllPlain(values)
    requires ParseLines(lines, n, values).Success?
    ensures AllPlain(ParseLines(lines, n, values).value)
    decreases |lines|
  {
    hide ParseLine, AllPlain, BreakFree, Chomp;
    if lines != [] {
      ParseLinePlain(lines[0], n, values);
      ParseLinesPlain(lines[1..], n + 1, ParseLine(lines[0], n, values).value);
    }
  }

  /** No value that is ever read holds a break that the editor does not know. */
  lemma ParsePlain(text: string)
    requires Parse(text).Success?
    ensures AllPlain(Parse(text).value)
  {
    forall i | 0 <= i < |Lines(text)| ensures BreakFree(Chomp(Lines(text)[i])) {
      LineInPlace(text, i);
    }
    ParseLinesPlain(Lines(text), 1, map[]);
  }
}

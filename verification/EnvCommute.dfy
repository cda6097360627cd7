/** When edits of two keys commute, byte for byte. */
module EnvCommute {
  import opened Common
  import opened EnvText
  import opened EnvLines
  import opened EnvQuoting
  import opened EnvAssignments
  import opened EnvParsing
  import opened EnvWriting
  import opened EnvCutting
  import opened EnvLaws

  // ---------------------------------------------------------------------------------------
  // The second write
  // ---------------------------------------------------------------------------------------

  lemma OwnConcat(lines: seq<string>, p: nat)
    requires p < |lines|
    ensures Concat(lines) == Concat(lines[..p]) + (lines[p] + Concat(lines[p + 1..]))
  {
    ConcatUpdate(lines, p, lines[p]);
    assert lines[p := lines[p]] == lines;
  }

  /** Writing to a line after the first write is writing to both lines: the lines from there on
      are the old ones ... */
  lemma WriteAfter(text: string, lines: seq<string>, q: nat, at: nat, x: string)
    requires text == Concat(lines) && q < |lines| && at < |Lines(text)|
    requires Lines(text)[at..] == lines[q..]
    ensures Concat(Lines(text)[at := x]) == Concat(lines[q := x])
  {
    hide Lines, Concat;
    var all := Lines(text);
    assert all[at] == all[at..][0] == lines[q] && all[at + 1..] == all[at..][1..] == lines[q + 1..];
    ConcatLines(text);
    OwnConcat(all, at);
    OwnConcat(lines, q);
    SameEnd(Concat(all[..at]), Concat(lines[..q]), lines[q] + Concat(lines[q + 1..]));
    ConcatUpdate(all, at, x);
    ConcatUpdate(lines, q, x);
  }

  /** ... or the lines up to there are. */
  lemma WriteBefore(text: string, lines: seq<string>, p: nat, x: string)
    requires text == Concat(lines) && p < |lines| && p < |Lines(text)|
    requires Lines(text)[..p + 1] == lines[..p + 1]
    ensures Concat(Lines(text)[p := x]) == Concat(lines[p := x])
  {
    hide Lines, Concat;
    var all := Lines(text);
    assert all[p] == all[..p + 1][p] == lines[p] && all[..p] == all[..p + 1][..p] == lines[..p];
    ConcatLines(text);
    OwnConcat(all, p);
    OwnConcat(lines, p);
    SameStart(Concat(all[..p]) + all[p], Concat(all[p + 1..]), Concat(lines[p + 1..]));
    Regroup(Concat(all[..p]), all[p], Concat(all[p + 1..]));
    Regroup(Concat(lines[..p]), lines[p], Concat(lines[p + 1..]));
    ConcatUpdate(all, p, x);
    ConcatUpdate(lines, p, x);
  }

  lemma SameStart(a: string, x: string, y: string)
    ensures a + x == a + y ==> x == y
  {
    assert (a + x)[|a|..] == x && (a + y)[|a|..] == y;
  }

  /** Both values, each in its line. */
  function WrittenBoth(text: string, p: nat, v: string, q: nat, w: string): string
    requires p < |Lines(text)| && Match(ChompNewline(Lines(text)[p])).Some?
    requires q < |Lines(text)| && Match(ChompNewline(Lines(text)[q])).Some?
  {
    Concat(Lines(text)[p := Rewrite(Lines(text)[p], Quote(v))][q := Rewrite(Lines(text)[q], Quote(w))])
  }

  lemma SecondAfter(text: string, p: nat, v: string, q: nat, w: string, at: nat)
    requires p < q < |Lines(text)| && Match(ChompNewline(Lines(text)[p])).Some?
    requires Match(ChompNewline(Lines(text)[q])).Some?
    requires at < |Lines(Written(text, p, v))| && Lines(Written(text, p, v))[at..] == Lines(text)[q..]
    ensures Lines(Written(text, p, v))[at] == Lines(text)[q]
    ensures Written(Written(text, p, v), at, w) == WrittenBoth(text, p, v, q, w)
  {
    hide Lines, Rewrite, Quote, Match, ChompNewline, Concat;
    var lines, one := Lines(text), Lines(Written(text, p, v));
    var lines' := lines[p := Rewrite(lines[p], Quote(v))];
    assert lines'[q..] == lines[q..] && one[at] == one[at..][0] == lines[q..][0];
    WriteAfter(Written(text, p, v), lines', q, at, Rewrite(lines[q], Quote(w)));
  }

  lemma SecondBefore(text: string, q: nat, w: string, p: nat, v: string)
    requires p < q < |Lines(text)| && Match(ChompNewline(Lines(text)[p])).Some?
    requires Match(ChompNewline(Lines(text)[q])).Some?
    ensures p < |Lines(Written(text, q, w))| && Lines(Written(text, q, w))[..p + 1] == Lines(text)[..p + 1]
    ensures Lines(Written(text, q, w))[p] == Lines(text)[p]
    ensures Written(Written(text, q, w), p, v) == WrittenBoth(text, p, v, q, w)
  {
    WrittenStarts(text, q, w);
    hide Lines, Rewrite, Quote, Match, ChompNewline, Concat;
    var lines, two := Lines(text), Lines(Written(text, q, w));
    var line, line' := Rewrite(lines[p], Quote(v)), Rewrite(lines[q], Quote(w));
    PrefixKept(lines[..q], two, p);
    BothUpdates(lines, p, line, q, line');
    WriteBefore(Written(text, q, w), lines[q := line'], p, line);
  }

  lemma BothUpdates(lines: seq<string>, p: nat, x: string, q: nat, y: string)
    requires p < q < |lines|
    ensures lines[..q][..p + 1] == lines[..p + 1] && lines[q := y][..p + 1] == lines[..p + 1]
    ensures lines[..q][p] == lines[p] && lines[q := y][p := x] == lines[p := x][q := y]
  {
  }

  lemma PrefixKept(a: seq<string>, b: seq<string>, p: nat)
    requires p < |a| && a <= b
    ensures p < |b| && b[..p + 1] == a[..p + 1] && b[p] == a[p]
  {
  }

  // ---------------------------------------------------------------------------------------
  // Values without a break the editor does not know
  // ---------------------------------------------------------------------------------------

  /** The line of a key and the next line, glued by a write, assign that key and no other. */
  lemma MergedAssigns(text: string, p: nat, v: string, key: string)
    requires p + 1 < |Lines(text)| && Assigns(Lines(text)[p], key) && !Kept(Lines(text)[p]) && !Splits(Lines(text)[p])
    ensures
      var merged := Rewrite(Lines(text)[p], Quote(v)) + Lines(text)[p + 1];
      forall k :: Assigns(merged, k) <==> k == key
  {
    LineInPlace(text, p);
    MergesShape(Lines(text)[p], v);
    hide Lines, Rewrite, Quote, Match, ChompNewline, Chomp, Kept, Splits, LineLength;
    MergedMatches(Lines(text)[p], v, Lines(text)[p + 1]);
  }

  lemma HiddenAssigns(v: string, next: string)
    requires SingleLine(v) && Plain(v) && next != ""
    ensures forall k :: !Assigns(Quote(v) + next, k) && !Assigns(Quote(v), k)
  {
    QuoteLine(v);
    QuotedNext(v, next);
    SameKey(Quote(v) + next);
    SameKey(Quote(v));
  }

  lemma RewrittenAssigns(line: string, v: string)
    requires Match(ChompNewline(line)).Some?
    ensures forall k :: Assigns(Rewrite(line, Quote(v)), k) <==> Assigns(line, k)
  {
    RewrittenMatches(line, v);
    hide Match, ChompNewline, Rewrite, Quote;
  }

  /** A line that does not assign the key, put in the place of another one or at the end. */
  lemma OtherReplaced(lines: seq<string>, r: nat, x: string, key: string, q: nat)
    requires OnlyAt(lines, key, q) && !Assigns(x, key)
    ensures OnlyAt(lines + [x], key, q)
    ensures r < |lines| && r != q ==> OnlyAt(lines[r := x], key, q) && (r < q ==> lines[r := x][q..] == lines[q..])
    ensures r < |lines| && r == q ==> Nowhere(lines[r := x], key)
  {
    hide Assigns;
  }

  /** Such a line in the place of two. */
  lemma OtherDropped(lines: seq<string>, r: nat, x: string, key: string, q: nat)
    requires OnlyAt(lines, key, q) && !Assigns(x, key) && r + 1 < |lines| && r != q
    ensures
      var after := Dropped(lines, r + 1)[r := x];
      if r + 1 == q then Nowhere(after, key)
      else if q < r then OnlyAt(after, key, q)
      else OnlyAt(after, key, q - 1) && after[q - 1..] == lines[q..]
  {
    hide Assigns;
  }

  /** The lines after such a write: one line is replaced, added, or put in the place of two. */
  function After(lines: seq<string>, p: nat, x: string): seq<string>
    requires p < |lines| && Match(ChompNewline(lines[p])).Some?
  {
    if Kept(lines[p]) then lines[p := x]
    else if Splits(lines[p]) then if p + 1 < |lines| then lines[p + 1 := x] else lines + [x]
    else if p + 1 < |lines| then Dropped(lines, p + 1)[p := x]
    else lines[p := x]
  }

  ghost predicate AssignsNoOther(x: string, key: string) {
    forall k | k != key :: !Assigns(x, k)
  }

  lemma RewrittenNoOther(line: string, key: string, v: string)
    requires Assigns(line, key)
    ensures AssignsNoOther(Rewrite(line, Quote(v)), key)
  {
    RewrittenAssigns(line, v);
    hide Rewrite, Match, ChompNewline, Quote;
  }

  lemma MergedNoOther(text: string, p: nat, v: string, key: string)
    requires p + 1 < |Lines(text)| && Assigns(Lines(text)[p], key) && !Kept(Lines(text)[p]) && !Splits(Lines(text)[p])
    ensures AssignsNoOther(Rewrite(Lines(text)[p], Quote(v)) + Lines(text)[p + 1], key)
  {
    MergedAssigns(text, p, v, key);
    hide Rewrite, Match, ChompNewline, Quote, Lines, Kept, Splits, Assigns;
  }

  lemma HiddenNoOther(v: string, next: string, key: string)
    requires SingleLine(v) && Plain(v) && next != ""
    ensures AssignsNoOther(Quote(v) + next, key) && AssignsNoOther(Quote(v), key)
  {
    HiddenAssigns(v, next);
    hide Assigns, Quote;
  }

  lemma PlainWrite(text: string, key: string, p: nat, v: string) returns (x: string)
    requires OnlyAt(Lines(text), key, p) && SingleLine(v) && Plain(v)
    ensures Lines(Written(text, p, v)) == After(Lines(text), p, x) && AssignsNoOther(x, key)
  {
    var lines := Lines(text);
    x := Rewrite(lines[p], Quote(v));
    RewrittenNoOther(lines[p], key, v);
    hide Lines, Rewrite, Quote, Match, ChompNewline, Kept, Splits, Written, Plain, SingleLine, Dropped, AssignsNoOther;
    if Kept(lines[p]) {
      WrittenLines(text, key, p, v);
    } else if Splits(lines[p]) {
      SplitsLines(text, p, v);
      HiddenNoOther(v, if p + 1 < |lines| then lines[p + 1] else "x", key);
      x := if p + 1 < |lines| then Quote(v) + lines[p + 1] else Quote(v);
    } else {
      MergesLines(text, p, v);
      if p + 1 < |lines| {
        MergedNoOther(text, p, v, key);
        x := x + lines[p + 1];
      }
    }
  }

  /** A write of such a value to a later line leaves a key where it is. */
  lemma LaterWrite(text: string, key: string, p: nat, other: string, q: nat, w: string)
    requires OnlyAt(Lines(text), key, p) && OnlyAt(Lines(text), other, q) && p < q && SingleLine(w) && Plain(w)
    requires key != other
    ensures OnlyAt(Lines(Written(text, q, w)), key, p)
  {
    hide Lines, Match, ChompNewline, Kept, Splits, Written, Plain, SingleLine, Dropped;
    var lines := Lines(text);
    var x := PlainWrite(text, other, q, w);
    assert !Assigns(x, key);
    hide Assigns;
    OtherReplaced(lines, q, x, key, p);
    OtherReplaced(lines, q + 1, x, key, p);
    if q + 1 < |lines| {
      OtherDropped(lines, q, x, key, p);
    }
  }

  /** A write of such a value to an earlier line moves a key at most by one line, unless the
      earlier line takes the key's own line with it. */
  lemma EarlierWrite(text: string, key: string, p: nat, v: string, other: string, q: nat) returns (at: nat)
    requires OnlyAt(Lines(text), key, p) && OnlyAt(Lines(text), other, q) && p < q && SingleLine(v) && Plain(v)
    requires key != other
    ensures
      var one := Lines(Written(text, p, v));
      if Kept(Lines(text)[p]) || p + 1 < q then OnlyAt(one, other, at) && one[at..] == Lines(text)[q..]
      else Nowhere(one, other)
  {
    hide Lines, Match, ChompNewline, Kept, Splits, Written, Plain, SingleLine, Dropped;
    var lines := Lines(text);
    var x := PlainWrite(text, key, p, v);
    assert !Assigns(x, other);
    OtherReplaced(lines, p, x, other, q);
    OtherReplaced(lines, p + 1, x, other, q);
    OtherDropped(lines, p, x, other, q);
    hide *;
    at := if Kept(lines[p]) || Splits(lines[p]) then q else q - 1;
    AfterIs(lines, p, x);
  }

  lemma AfterIs(lines: seq<string>, p: nat, x: string)
    requires p + 1 < |lines| && Match(ChompNewline(lines[p])).Some?
    ensures After(lines, p, x) == if Kept(lines[p]) then lines[p := x] else if Splits(lines[p]) then lines[p + 1 := x]
                                  else Dropped(lines, p + 1)[p := x]
  {
  }

  /** A text in which the other key was lost gets it back at the end, and is longer. */
  lemma LostAndAppended(text: string, p: nat, v: string, other: string, q: nat, w: string)
    requires p < q < |Lines(text)| && Match(ChompNewline(Lines(text)[p])).Some? && Assigns(Lines(text)[q], other)
    requires Nowhere(Lines(Written(text, p, v)), other) && ValidKey(other) && SingleLine(w)
    ensures Replace(Written(text, p, v), other, w).Success?
    ensures Replace(Written(text, p, v), other, w) != Success(WrittenBoth(text, p, v, q, w))
  {
    hide Lines, Rewrite, Quote, Match, ChompNewline, Concat, Completed, Newline;
    var lines, one := Lines(text), Written(text, p, v);
    var lines' := lines[p := Rewrite(lines[p], Quote(v))];
    CountZero(Lines(one), other);
    OwnConcat(lines', q);
    ConcatUpdate(lines', q, Rewrite(lines[q], Quote(w)));
    RewriteLength(lines[q], w);
    TailShort(lines[q]);
    CompletedLonger(one);
    assert Replace(one, other, w) == Success(Completed(one) + (other + "=" + Quote(w) + Newline(one)));
  }

  lemma CompletedLonger(text: string)
    ensures |Completed(text)| >= |text|
  {
  }

  lemma TailShort(line: string)
    requires Match(ChompNewline(line)).Some?
    ensures Match(ChompNewline(line)).value.prefix + |TailOf(line)| <= |line|
  {
    var j := CommentSuffixIsSuffix(RawOf(ChompNewline(line)));
    hide Match, ChompNewline, CommentSuffix;
  }

  lemma CommuteUp(text: string, key: string, p: nat, v: string, other: string, q: nat, w: string)
    requires OnlyAt(Lines(text), key, p) && OnlyAt(Lines(text), other, q) && p < q && key != other
    requires SingleLine(v) && SingleLine(w) && Plain(v) && Plain(w) && ValidKey(key) && ValidKey(other)
    ensures Replace(Written(text, p, v), other, w) == Replace(Written(text, q, w), key, v)
            <==> Kept(Lines(text)[p]) || p + 1 < q
  {
    var at := EarlierWrite(text, key, p, v, other, q);
    LaterWrite(text, key, p, other, q, w);
    hide Lines, Rewrite, Quote, Match, ChompNewline, Concat, Written, WrittenBoth;
    hide ValidKey, SingleLine, Replace, Kept, Plain;
    SecondBefore(text, q, w, p, v);
    ReplaceIs(Written(text, q, w), key, v, p);
    if Kept(Lines(text)[p]) || p + 1 < q {
      SecondAfter(text, p, v, q, w, at);
      ReplaceIs(Written(text, p, v), other, w, at);
    } else {
      LostAndAppended(text, p, v, other, q, w);
    }
  }

  /** An edit of `key` takes the line of `other` with it: the break before that line is lost. */
  predicate TakesAlong(lines: seq<string>, key: string, other: string) {
    exists p | 0 <= p < |lines| - 1 ::
      Assigns(lines[p], key) && !Kept(lines[p]) && Assigns(lines[p + 1], other)
  }

  lemma TakesAlongAt(lines: seq<string>, key: string, p: nat, other: string, q: nat)
    requires OnlyAt(lines, key, p) && OnlyAt(lines, other, q) && key != other
    ensures TakesAlong(lines, key, other) <==> q == p + 1 && !Kept(lines[p])
    ensures p != q
  {
    hide Match, ChompNewline, Kept;
  }

  /**
   Edits of two keys that are each assigned once, with values free of the breaks that the editor
   does not know, commute byte for byte -- exactly if neither key's line is directly before the
   other's and ends in a break that an edit loses.
   */
  lemma {:induction false} EditsCommute(text: string, key: string, v: string, other: string, w: string)
    requires SingleLine(v) && SingleLine(w) && Plain(v) && Plain(w)
    requires ValidKey(key) && ValidKey(other) && key != other
    requires Count(Lines(text), key) == 1 && Count(Lines(text), other) == 1
    ensures Replace(text, key, v).Success? && Replace(text, other, w).Success?
    ensures Replace(Replace(text, key, v).value, other, w) == Replace(Replace(text, other, w).value, key, v)
            <==> !TakesAlong(Lines(text), key, other) && !TakesAlong(Lines(text), other, key)
  {
    hide Replace, Written, Count, ValidKey, Lines, SingleLine, Plain, TakesAlong, Match, ChompNewline, Kept;
    var p := CountOne(Lines(text), key);
    var q := CountOne(Lines(text), other);
    ReplaceIs(text, key, v, p);
    ReplaceIs(text, other, w, q);
    TakesAlongAt(Lines(text), key, p, other, q);
    TakesAlongAt(Lines(text), other, q, key, p);
    if p < q {
      CommuteUp(text, key, p, v, other, q, w);
    } else {
      CommuteUp(text, other, q, w, key, p, v);
    }
  }

  // ---------------------------------------------------------------------------------------
  // Any values
  // ---------------------------------------------------------------------------------------

  lemma {:induction false} CountAppend(a: seq<string>, b: seq<string>, key: string)
    ensures Count(a + b, key) == Count(a, key) + Count(b, key)
  {
    hide Assigns;
    if a == [] {
      assert a + b == b;
    } else {
      assert (a + b)[1..] == a[1..] + b;
      CountAppend(a[1..], b, key);
    }
  }

  lemma CountAround(lines: seq<string>, p: nat, x: seq<string>, key: string)
    requires p < |lines| && !Assigns(lines[p], key)
    ensures Count(lines[..p] + (x + lines[p + 1..]), key) == Count(x, key) + Count(lines, key)
  {
    hide Assigns, Count;
    CountAppend(lines[..p], x + lines[p + 1..], key);
    CountAppend(x, lines[p + 1..], key);
    assert lines == lines[..p] + ([lines[p]] + lines[p + 1..]);
    CountAppend(lines[..p], [lines[p]] + lines[p + 1..], key);
    CountAppend([lines[p]], lines[p + 1..], key);
    CountZero([lines[p]], key);
  }

  /** The lines that writing `v` to a line makes of it: more than one if the value holds a break. */
  function Becomes(line: string, v: string): seq<string>
    requires Match(ChompNewline(line)).Some?
  {
    Lines(Rewrite(line, Quote(v)))
  }

  lemma PlaceAfter(lines: seq<string>, p: nat, x: seq<string>, key: string, q: nat)
    requires OnlyAt(lines, key, q) && p < |lines| && p != q && Nowhere(x, key)
    ensures
      var after, at := lines[..p] + (x + lines[p + 1..]), if p < q then q + |x| - 1 else q;
      && at >= 0 && OnlyAt(after, key, at)
      && (if p < q then after[at..] == lines[q..] else after[..q + 1] == lines[..q + 1])
  {
    hide Assigns;
    var after, at := lines[..p] + (x + lines[p + 1..]), if p < q then q + |x| - 1 else q;
    forall i | 0 <= i < |after| ensures Assigns(after[i], key) ==> i == at {
      if p <= i < p + |x| {
        assert after[i] == x[i - p];
      }
    }
  }

  /** The second edit writes to its own line, or finds its key assigned by a part of the first value. */
  lemma SecondEdit(text: string, key: string, p: nat, v: string, other: string, q: nat, w: string)
    requires OnlyAt(Lines(text), key, p) && OnlyAt(Lines(text), other, q) && key != other
    requires Kept(Lines(text)[p]) && SingleLine(w) && ValidKey(other)
    ensures
      Replace(Written(text, p, v), other, w)
        == if Count(Becomes(Lines(text)[p], v), other) == 0 then Success(WrittenBoth(text, p, v, q, w))
           else Failure(DuplicateKey)
  {
    var lines, one := Lines(text), Written(text, p, v);
    var x := Becomes(lines[p], v);
    assert p != q && !Assigns(lines[p], other);
    WrittenSplit(text, p, v);
    OnlyAtCount(lines, other, q);
    CountAround(lines, p, x, other);
    CountZero(x, other);
    if Count(x, other) == 0 {
      hide Lines, Rewrite, Quote, Match, ChompNewline, Concat, Written, WrittenBoth;
      hide ValidKey, SingleLine, Replace, Kept, Becomes;
      PlaceAfter(lines, p, x, other, q);
      var at := if p < q then q + |x| - 1 else q;
      ReplaceIs(one, other, w, at);
      if p < q {
        SecondAfter(text, p, v, q, w, at);
      } else {
        SecondBefore(text, p, v, q, w);
        BothWays(text, p, v, q, w);
      }
    }
  }

  lemma BothWays(text: string, p: nat, v: string, q: nat, w: string)
    requires p < |Lines(text)| && Match(ChompNewline(Lines(text)[p])).Some? && p != q
    requires q < |Lines(text)| && Match(ChompNewline(Lines(text)[q])).Some?
    ensures WrittenBoth(text, p, v, q, w) == WrittenBoth(text, q, w, p, v)
  {
    hide Lines, Rewrite, Quote, Match, ChompNewline, Concat;
    var lines, x, y := Lines(text), Rewrite(Lines(text)[p], Quote(v)), Rewrite(Lines(text)[q], Quote(w));
    assert lines[p := x][q := y] == lines[q := y][p := x];
  }

  /**
   With any values, for lines whose breaks are kept: the edits commute exactly if each value
   brings a line that assigns the other key (then both orders fail), or neither does.
   */
  lemma {:induction false} AnyEditsCommute(text: string, key: string, v: string, other: string, w: string)
    returns (p: nat, q: nat)
    requires SingleLine(v) && SingleLine(w) && ValidKey(key) && ValidKey(other) && key != other
    requires Count(Lines(text), key) == 1 && Count(Lines(text), other) == 1
    requires KeepsBreak(text, key) && KeepsBreak(text, other)
    ensures OnlyAt(Lines(text), key, p) && OnlyAt(Lines(text), other, q)
    ensures Replace(text, key, v).Success? && Replace(text, other, w).Success?
    ensures
      Replace(Replace(text, key, v).value, other, w) == Replace(Replace(text, other, w).value, key, v)
      <==> (Count(Becomes(Lines(text)[p], v), other) == 0 <==> Count(Becomes(Lines(text)[q], w), key) == 0)
  {
    hide Replace, Written, WrittenBoth, Count, ValidKey, Lines, SingleLine, Match, ChompNewline, Kept, Becomes;
    p := CountOne(Lines(text), key);
    q := CountOne(Lines(text), other);
    ReplaceIs(text, key, v, p);
    ReplaceIs(text, other, w, q);
    assert p != q;
    SecondEdit(text, key, p, v, other, q, w);
    SecondEdit(text, other, q, w, key, p, v);
    BothWays(text, p, v, q, w);
  }
}

/** The dotenv reader and editor as the loops they are, each proved to compute the function of
    the same purpose in `EnvText`. */
module EnvFile {
  import opened Common
  import opened EnvText
  import opened EnvLines

  lemma PrependTwice(a: string, b: string, r: Option<(string, nat)>)
    ensures Prepend(a, Prepend(b, r)) == Prepend(a + b, r)
  {
    if r.Some? { assert a + (b + r.value.0) == a + b + r.value.0; }
  }

  lemma PrependNothing(r: Option<(string, nat)>)
    ensures Prepend("", r) == r
  {
    if r.Some? { assert "" + r.value.0 == r.value.0; }
  }

  method DecodeValue(raw: string) returns (r: Result<string, DecodeError>)
    ensures r == Decode(raw)
  {
    var value := raw[SkipSpace(raw, 0)..];
    if value == "" {
      return Success("");
    }
    var quote := value[0];
    if quote == '"' || quote == '\'' {
      var decoded, index := "", 1;
      PrependNothing(Quoted(value, 1, quote));
      while index < |value|
        invariant 1 <= index <= |value|
        invariant Quoted(value, 1, quote) == Prepend(decoded, Quoted(value, index, quote))
      {
        var c := value[index];
        if c == '\\' && index + 1 < |value| {
          var pair := EscapedPair(quote, value[index + 1]);
          PrependTwice(decoded, pair, Quoted(value, index + 2, quote));
          decoded, index := decoded + pair, index + 2;
        } else if c == quote {
          assert decoded + "" == decoded;
          var trailer := SkipSpace(value, index + 1);
          if trailer < |value| && value[trailer] != '#' {
            return Failure(TrailingText);
          }
          return Success(decoded);
        } else {
          PrependTwice(decoded, [c], Quoted(value, index + 1, quote));
          decoded, index := decoded + [c], index + 1;
        }
      }
      return Failure(Unterminated);
    }
    var index := 0;
    while index < |value| && !(value[index] == '#' && index > 0 && IsSpace(value[index - 1]))
      invariant 0 <= index <= |value|
      invariant UnquotedEnd(value, 0) == UnquotedEnd(value, index)
    {
      index := index + 1;
    }
    return Success(StripRight(value[..index]));
  }

  method ParseEnvText(text: string) returns (r: Result<map<string, string>, nat>)
    ensures r == Parse(text)
  {
    var values: map<string, string>, lines := map[], Lines(text);
    for i := 0 to |lines|
      invariant Parse(text) == ParseLines(lines[i..], i + 1, values)
    {
      var line := lines[i];
      assert lines[i..][0] == line && lines[i..][1..] == lines[i + 1..];
      var body := Chomp(line);
      var assignment := Match(body);
      if assignment.Some? {
        var v := DecodeValue(body[assignment.value.prefix..]);
        if v.Failure? {
          return Failure(i + 1);
        }
        values := values[assignment.value.key := v.value];
      }
    }
    return Success(values);
  }

  method FindCommentSuffix(raw: string) returns (suffix: string)
    ensures suffix == CommentSuffix(raw)
  {
    var quote: Option<char>, escaped := None, false;
    for index := 0 to |raw|
      invariant CommentAt(raw, 0, None, false) == CommentAt(raw, index, quote, escaped)
    {
      var c := raw[index];
      if escaped {
        escaped := false;
      } else if c == '\\' {
        escaped := true;
      } else if quote.Some? {
        if c == quote.value {
          quote := None;
        }
      } else if c == '"' || c == '\'' {
        quote := Some(c);
      } else if c == '#' && index > 0 && IsSpace(raw[index - 1]) {
        var start := index - 1;
        while start > 0 && IsSpace(raw[start - 1])
          invariant 0 <= start < index
          invariant SpaceStart(raw, index) == SpaceStart(raw, start)
        {
          start := start - 1;
        }
        return raw[start..];
      }
    }
    return "";
  }

  lemma ConcatNothing()
    ensures Concat([]) == ""
  {
  }

  lemma CompletedConcat(text: string)
    requires text != "" && !EndsInNewline(text)
    ensures
      var lines, p := Lines(text), |Lines(text)| - 1;
      p >= 0 && Concat(lines[p := lines[p] + Newline(text)]) == Completed(text)
  {
    hide EndsInNewline, Newline, Lines, Concat;
    var lines, p := Lines(text), |Lines(text)| - 1;
    LastLineEnds(text);
    assert lines[p + 1..] == [] && Concat([]) == "" by { ConcatNothing(); }
    ConcatUpdate(lines, p, lines[p] + Newline(text));
    assert lines[p] + Newline(text) + Concat(lines[p + 1..]) == lines[p] + Newline(text);
  }

  /** The lines of a text with its last line completed, and one more line. */
  lemma CompletedPlus(text: string, lines: seq<string>, line: string)
    requires lines == if text == "" || EndsInNewline(text) then Lines(text)
                      else Lines(text)[|Lines(text)| - 1 := Lines(text)[|Lines(text)| - 1] + Newline(text)]
    ensures Concat(lines + [line]) == Completed(text) + line
  {
    assert Concat(lines + [line]) == Concat(lines) + line by {
      ConcatAppend(lines, [line]);
      assert Concat([line]) == line;
    }
    hide Newline, Lines, Concat;
    if text == "" || EndsInNewline(text) {
      ConcatLines(text);
    } else {
      CompletedConcat(text);
    }
  }

  lemma EditStep(lines: seq<string>, i: nat, key: string, encoded: string)
    requires i < |lines|
    ensures Count(lines[i..], key) == (if Assigns(lines[i], key) then 1 else 0) + Count(lines[i + 1..], key)
    ensures EditAll(lines[i..], key, encoded)
         == [Edited(lines[i], key, encoded)] + EditAll(lines[i + 1..], key, encoded)
  {
    hide Assigns, Edited;
    assert lines[i..][0] == lines[i] && lines[i..][1..] == lines[i + 1..];
  }

  lemma NothingToEdit(lines: seq<string>, key: string, encoded: string)
    ensures Count(lines[|lines|..], key) == 0 && EditAll(lines[|lines|..], key, encoded) == [] && lines[0..] == lines
  {
  }

  /** The loop over the lines: how many assign the key, and the lines after the edit; it gives
      up at the second one. */
  method EditLines(lines: seq<string>, key: string, encoded: string) returns (r: Option<(nat, seq<string>)>)
    ensures r == if Count(lines, key) > 1 then None else Some((Count(lines, key), EditAll(lines, key, encoded)))
  {
    hide Match, Rewrite, ChompNewline, Count, EditAll;
    NothingToEdit(lines, key, encoded);
    var matches, updated := 0, [];
    for i := 0 to |lines|
      invariant matches <= 1 && matches + Count(lines[i..], key) == Count(lines, key)
      invariant updated + EditAll(lines[i..], key, encoded) == EditAll(lines, key, encoded)
    {
      var line := lines[i];
      EditStep(lines, i, key, encoded);
      var line' := line;
      if Assigns(line, key) {
        matches := matches + 1;
        if matches > 1 {
          return None;
        }
        line' := RewriteLine(line, encoded);
      }
      Regroup(updated, [line'], EditAll(lines[i + 1..], key, encoded));
      updated := updated + [line'];
    }
    assert updated + [] == updated;
    return Some((matches, updated));
  }

  /** Adding a line at the end, after completing the last one. */
  method AppendLine(text: string, line: string) returns (text': string)
    ensures text' == Completed(text) + line
  {
    var updated := Lines(text);
    if text != "" {
      LastLineEnds(text);
      if !EndsInNewline(updated[|updated| - 1]) {
        updated := updated[|updated| - 1 := updated[|updated| - 1] + Newline(text)];
      }
    }
    CompletedPlus(text, updated, line);
    return Concat(updated + [line]);
  }

  method ReplaceEnvValue(text: string, key: string, value: string) returns (r: Result<string, EditError>)
    ensures r == Replace(text, key, value)
  {
    if !ValidKey(key) {
      return Failure(InvalidKey);
    }
    if !SingleLine(value) {
      return Failure(MultilineValue);
    }
    hide Newline, Lines, Quote, Count, EditAll, Completed, Concat;
    var encoded := Quote(value);
    var edit := EditLines(Lines(text), key, encoded);
    if edit.None? {
      return Failure(DuplicateKey);
    }
    var (matches, updated) := edit.value;
    if matches == 0 {
      var text' := AppendLine(text, key + "=" + encoded + Newline(text));
      return Success(text');
    }
    return Success(Concat(updated));
  }

  method RewriteLine(line: string, encoded: string) returns (line': string)
    requires Match(ChompNewline(line)).Some?
    ensures line' == Rewrite(line, encoded)
  {
    var body := ChompNewline(line);
    var prefix := Match(body).value.prefix;
    var suffix := FindCommentSuffix(body[prefix..]);
    return body[..prefix] + encoded + suffix + line[|body|..];
  }
}

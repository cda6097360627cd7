/**
 Dotenv text: splitting into lines, recognising assignments, decoding a value, quoting one,
 finding a trailing comment, parsing a text, and setting one key in it.
 */
module EnvText {
  import opened Common

  // ---------------------------------------------------------------------------------------
  // Characters
  // ---------------------------------------------------------------------------------------

  /** The characters on which a text is split into lines. */
  predicate IsBreak(c: char) {
    0x0A <= c as int <= 0x0D || 0x1C <= c as int <= 0x1E || c as int in {0x85, 0x2028, 0x2029}
  }

  /** White space, to the pattern language and to stripping alike. Every break is white space. */
  predicate IsSpace(c: char) {
    IsBreak(c) || c as int in {0x09, 0x1F, 0x20, 0xA0, 0x1680, 0x202F, 0x205F, 0x3000} || 0x2000 <= c as int <= 0x200A
  }

  /** The breaks that the editor does not treat as line endings. */
  predicate IsExotic(c: char) {
    IsBreak(c) && c != '\n' && c != '\r'
  }

  ghost predicate Plain(s: string) {
    forall i | 0 <= i < |s| :: !IsExotic(s[i])
  }

  ghost predicate BreakFree(s: string) {
    forall i | 0 <= i < |s| :: !IsBreak(s[i])
  }

  predicate IsWordStart(c: char) {
    'A' <= c <= 'Z' || 'a' <= c <= 'z' || c == '_'
  }

  predicate IsWordChar(c: char) {
    IsWordStart(c) || '0' <= c <= '9'
  }

  /** The first position from `i` on that does not hold white space. */
  function SkipSpace(s: string, i: nat): (j: nat)
    requires i <= |s|
    ensures i <= j <= |s|
    decreases |s| - i
  {
    if i < |s| && IsSpace(s[i]) then SkipSpace(s, i + 1) else i
  }

  function SkipWordChars(s: string, i: nat): (j: nat)
    requires i <= |s|
    ensures i <= j <= |s|
    decreases |s| - i
  {
    if i < |s| && IsWordChar(s[i]) then SkipWordChars(s, i + 1) else i
  }

  function SkipWord(s: string, i: nat): (j: nat)
    requires i <= |s|
    ensures i <= j <= |s|
  {
    if i < |s| && IsWordStart(s[i]) then SkipWordChars(s, i + 1) else i
  }

  // ---------------------------------------------------------------------------------------
  // Lines
  // ---------------------------------------------------------------------------------------

  /** The length of the first line of a text, its ending included. */
  function LineLength(s: string): (n: nat)
    requires s != ""
    ensures 1 <= n <= |s|
  {
    if IsBreak(s[0]) then
      if s[0] == '\r' && 1 < |s| && s[1] == '\n' then 2 else 1
    else if |s| == 1 then 1
    else 1 + LineLength(s[1..])
  }

  /** The lines of a text with their endings. */
  function Lines(s: string): (lines: seq<string>)
    ensures forall i | 0 <= i < |lines| :: lines[i] != ""
  {
    if s == "" then [] else [s[..LineLength(s)]] + Lines(s[LineLength(s)..])
  }

  function Concat(lines: seq<string>): string {
    if lines == [] then "" else lines[0] + Concat(lines[1..])
  }

  predicate EndsInNewline(s: string) {
    s != "" && (s[|s| - 1] == '\n' || s[|s| - 1] == '\r')
  }

  predicate EndsInCrLf(s: string) {
    |s| >= 2 && s[|s| - 2] == '\r' && s[|s| - 1] == '\n'
  }

  /** A line without its ending, whatever break that is: what the parser sees. */
  function Chomp(line: string): (body: string)
    ensures body <= line
  {
    if EndsInCrLf(line) then line[..|line| - 2]
    else if |line| >= 1 && IsBreak(line[|line| - 1]) then line[..|line| - 1]
    else line
  }

  /** A line without a final newline: what the editor sees. */
  function ChompNewline(line: string): (body: string)
    ensures body <= line
  {
    if EndsInCrLf(line) then line[..|line| - 2]
    else if EndsInNewline(line) then line[..|line| - 1]
    else line
  }

  // ---------------------------------------------------------------------------------------
  // Assignments
  // ---------------------------------------------------------------------------------------

  /** A recognised assignment: its key, and the length of everything before the raw value. */
  datatype Assignment = Assignment(key: string, prefix: nat)

  /** A key at position `i`, white space, `=`, and white space. */
  function KeyAt(s: string, i: nat): (a: Option<Assignment>)
    requires i <= |s|
    ensures a.Some? ==> i < a.value.prefix <= |s|
  {
    var j := SkipWord(s, i);
    var e := SkipSpace(s, j);
    if i < j && e < |s| && s[e] == '=' then Some(Assignment(s[i..j], SkipSpace(s, e + 1))) else None
  }

  /** An assignment, with white space or `export` and white space before the key. In `export =1`
      the word `export` is itself the key. */
  function Match(s: string): (a: Option<Assignment>)
    ensures a.Some? ==> 0 < a.value.prefix <= |s|
  {
    var i := SkipSpace(s, 0);
    var j := SkipWord(s, i);
    var k := SkipSpace(s, j);
    if KeyAt(s, i).Some? then KeyAt(s, i)
    else if s[i..j] == "export" && j < k then KeyAt(s, k)
    else None
  }

  predicate ValidKey(key: string) {
    key != "" && SkipWord(key, 0) == |key|
  }

  // ---------------------------------------------------------------------------------------
  // Decoding a raw value
  // ---------------------------------------------------------------------------------------

  datatype DecodeError = Unterminated | TrailingText

  function Unescape(quote: char, c: char): Option<char> {
    if quote == '\'' then if c == '\'' || c == '\\' then Some(c) else None
    else if c == '"' || c == '\\' || c == '$' then Some(c)
    else if c == 'n' then Some('\n')
    else if c == 'r' then Some('\r')
    else if c == 't' then Some('\t')
    else None
  }

  /** What an escaped pair stands for inside quotes; an unknown escape stands for itself. */
  function EscapedPair(quote: char, c: char): string {
    if Unescape(quote, c).Some? then [Unescape(quote, c).value] else ['\\', c]
  }

  /** The decoded text from position `i` up to the closing quote, and the position after it. */
  function Quoted(s: string, i: nat, quote: char): (r: Option<(string, nat)>)
    requires i <= |s|
    ensures r.Some? ==> i < r.value.1 <= |s|
    decreases |s| - i
  {
    if i == |s| then None
    else if s[i] == '\\' && i + 1 < |s| then Prepend(EscapedPair(quote, s[i + 1]), Quoted(s, i + 2, quote))
    else if s[i] == quote then Some(("", i + 1))
    else Prepend([s[i]], Quoted(s, i + 1, quote))
  }

  function Prepend(s: string, r: Option<(string, nat)>): Option<(string, nat)> {
    if r.None? then None else Some((s + r.value.0, r.value.1))
  }

  /** Where an unquoted value ends: at the first `#` after white space, or at the end. */
  function UnquotedEnd(s: string, i: nat): (j: nat)
    requires i <= |s|
    ensures i <= j <= |s|
    decreases |s| - i
  {
    if i < |s| && !(s[i] == '#' && i > 0 && IsSpace(s[i - 1])) then UnquotedEnd(s, i + 1) else i
  }

  function StripRight(s: string): string {
    if s != "" && IsSpace(s[|s| - 1]) then StripRight(s[..|s| - 1]) else s
  }

  function Decode(raw: string): Result<string, DecodeError> {
    var value := raw[SkipSpace(raw, 0)..];
    if value == "" then Success("")
    else if value[0] == '"' || value[0] == '\'' then
      var r := Quoted(value, 1, value[0]);
      if r.None? then Failure(Unterminated)
      else
        var t := SkipSpace(value, r.value.1);
        if t < |value| && value[t] != '#' then Failure(TrailingText) else Success(r.value.0)
    else Success(StripRight(value[..UnquotedEnd(value, 0)]))
  }

  // ---------------------------------------------------------------------------------------
  // Parsing
  // ---------------------------------------------------------------------------------------

  /** The values after line number `n`, or the number of a line that cannot be decoded. */
  function ParseLine(line: string, n: nat, values: map<string, string>): Result<map<string, string>, nat> {
    var body := Chomp(line);
    var a := Match(body);
    if a.None? then Success(values)
    else
      var v := Decode(body[a.value.prefix..]);
      if v.Success? then Success(values[a.value.key := v.value]) else Failure(n)
  }

  function ParseLines(lines: seq<string>, n: nat, values: map<string, string>): Result<map<string, string>, nat> {
    if lines == [] then Success(values)
    else
      var r := ParseLine(lines[0], n, values);
      if r.Success? then ParseLines(lines[1..], n + 1, r.value) else r
  }

  function Parse(text: string): Result<map<string, string>, nat> {
    ParseLines(Lines(text), 1, map[])
  }

  // ---------------------------------------------------------------------------------------
  // Editing
  // ---------------------------------------------------------------------------------------

  datatype EditError = InvalidKey | MultilineValue | DuplicateKey

  predicate SingleLine(value: string) {
    '\n' !in value && '\r' !in value && '\0' !in value
  }

  function ReplaceChar(s: string, c: char, sub: string): string {
    if s == "" then "" else (if s[0] == c then sub else [s[0]]) + ReplaceChar(s[1..], c, sub)
  }

  function Escape(value: string): string {
    ReplaceChar(ReplaceChar(value, '\\', "\\\\"), '\'', "\\'")
  }

  function Quote(value: string): string {
    "'" + Escape(value) + "'"
  }

  /** The position of the `#` of a trailing comment, scanning on from `i` inside `quote` (if
      any), the character at `i` being escaped or not. */
  function CommentAt(raw: string, i: nat, quote: Option<char>, escaped: bool): (r: Option<nat>)
    requires i <= |raw|
    ensures r.Some? ==> i <= r.value < |raw| && r.value > 0 && raw[r.value] == '#' && IsSpace(raw[r.value - 1])
    decreases |raw| - i
  {
    if i == |raw| then None
    else if escaped then CommentAt(raw, i + 1, quote, false)
    else if raw[i] == '\\' then CommentAt(raw, i + 1, quote, true)
    else if quote.Some? then CommentAt(raw, i + 1, if raw[i] == quote.value then None else quote, false)
    else if raw[i] == '"' || raw[i] == '\'' then CommentAt(raw, i + 1, Some(raw[i]), false)
    else if raw[i] == '#' && i > 0 && IsSpace(raw[i - 1]) then Some(i)
    else CommentAt(raw, i + 1, quote, false)
  }

  /** The start of the white space that ends at position `i`. */
  function SpaceStart(s: string, i: nat): (j: nat)
    requires i <= |s|
    ensures j <= i
  {
    if i > 0 && IsSpace(s[i - 1]) then SpaceStart(s, i - 1) else i
  }

  /** The trailing comment of a raw value with the white space before it, or nothing. */
  function CommentSuffix(raw: string): string {
    var at := CommentAt(raw, 0, None, false);
    if at.None? then "" else raw[SpaceStart(raw, at.value)..]
  }

  predicate Assigns(line: string, key: string) {
    var a := Match(ChompNewline(line));
    a.Some? && a.value.key == key
  }

  function Count(lines: seq<string>, key: string): nat {
    if lines == [] then 0 else (if Assigns(lines[0], key) then 1 else 0) + Count(lines[1..], key)
  }

  /** An assignment with its raw value replaced; prefix, comment and ending stay. */
  function Rewrite(line: string, encoded: string): string
    requires Match(ChompNewline(line)).Some?
  {
    var body := ChompNewline(line);
    var prefix := Match(body).value.prefix;
    body[..prefix] + encoded + CommentSuffix(body[prefix..]) + line[|body|..]
  }

  function Edited(line: string, key: string, encoded: string): string {
    if Assigns(line, key) then Rewrite(line, encoded) else line
  }

  function EditAll(lines: seq<string>, key: string, encoded: string): (edited: seq<string>)
    ensures |edited| == |lines|
    ensures forall i | 0 <= i < |lines| :: edited[i] == Edited(lines[i], key, encoded)
  {
    if lines == [] then [] else [Edited(lines[0], key, encoded)] + EditAll(lines[1..], key, encoded)
  }

  function Newline(text: string): string {
    if ContainsCrLf(text) then "\r\n" else "\n"
  }

  predicate ContainsCrLf(text: string) {
    exists i | 0 <= i < |text| - 1 :: text[i] == '\r' && text[i + 1] == '\n'
  }

  /** A text that ends where a new line can be appended. */
  function Completed(text: string): string {
    if text == "" || EndsInNewline(text) then text else text + Newline(text)
  }

  function Replace(text: string, key: string, value: string): Result<string, EditError> {
    if !ValidKey(key) then Failure(InvalidKey)
    else if !SingleLine(value) then Failure(MultilineValue)
    else if Count(Lines(text), key) > 1 then Failure(DuplicateKey)
    else if Count(Lines(text), key) == 1 then Success(Concat(EditAll(Lines(text), key, Quote(value))))
    else Success(Completed(text) + (key + "=" + Quote(value) + Newline(text)))
  }
}

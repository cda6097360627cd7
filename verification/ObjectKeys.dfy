/** Names of recovery objects: how a key is built from its components, and how the prefix of a
    configuration is brought into its one form. */
module ObjectKeys {
  import opened Common

  predicate IsAlphanumeric(c: char) {
    'A' <= c <= 'Z' || 'a' <= c <= 'z' || '0' <= c <= '9'
  }

  predicate SafeComponent(s: string) {
    && s != "" && IsAlphanumeric(s[0])
    && forall i | 0 <= i < |s| :: IsAlphanumeric(s[i]) || s[i] == '.' || s[i] == '_' || s[i] == '-'
  }

  predicate AllSafe(parts: seq<string>) {
    forall i | 0 <= i < |parts| :: SafeComponent(parts[i])
  }

  function Join(parts: seq<string>): string {
    if parts == [] then ""
    else if |parts| == 1 then parts[0]
    else parts[0] + "/" + Join(parts[1..])
  }

  /** The text up to the first slash. */
  function Head(s: string): (h: string)
    ensures h <= s
  {
    if s == "" || s[0] == '/' then "" else [s[0]] + Head(s[1..])
  }

  function Split(s: string): seq<string> {
    var h := Head(s);
    if |h| == |s| then [h] else [h] + Split(s[|h| + 1..])
  }

  lemma {:induction false} HeadOf(a: string, b: string)
    requires '/' !in a && (b == "" || b[0] == '/')
    ensures Head(a + b) == a
  {
    if a == "" {
      assert a + b == b;
    } else {
      assert (a + b)[1..] == a[1..] + b;
      HeadOf(a[1..], b);
    }
  }

  lemma SplitAtSlash(a: string, rest: string)
    requires '/' !in a
    ensures Split(a + ("/" + rest)) == [a] + Split(rest)
  {
    var s := a + ("/" + rest);
    HeadOf(a, "/" + rest);
    assert s[|a| + 1..] == rest;
  }

  lemma SplitWhole(a: string)
    requires '/' !in a
    ensures Split(a) == [a]
  {
    HeadOf(a, "");
    assert a + "" == a;
  }

  /** Splitting undoes joining for components without a slash. */
  lemma {:induction false} SplitJoin(parts: seq<string>)
    requires parts != [] && forall i | 0 <= i < |parts| :: '/' !in parts[i]
    ensures Split(Join(parts)) == parts
  {
    hide Split, Head;
    if |parts| == 1 {
      SplitWhole(parts[0]);
    } else {
      SplitJoin(parts[1..]);
      SplitAtSlash(parts[0], Join(parts[1..]));
      assert Join(parts) == parts[0] + ("/" + Join(parts[1..]));
      assert parts == [parts[0]] + parts[1..];
    }
  }

  function SafeKey(prefix: string, components: seq<string>): Option<string> {
    if components == [] || !AllSafe(components) then None else Some(prefix + Join(components))
  }

  /** Under one prefix, different component lists name different objects. */
  lemma SafeKeyInjective(prefix: string, a: seq<string>, b: seq<string>)
    requires SafeKey(prefix, a).Some? && SafeKey(prefix, a) == SafeKey(prefix, b)
    ensures a == b
  {
    assert Join(a) == SafeKey(prefix, a).value[|prefix|..] == Join(b);
    SplitJoin(a);
    SplitJoin(b);
  }

  // ---------------------------------------------------------------------------------------
  // Prefixes
  // ---------------------------------------------------------------------------------------

  /** `s` without the slashes at its ends. */
  function TrimSlashes(s: string): string {
    if s != "" && s[0] == '/' then TrimSlashes(s[1..])
    else if s != "" && s[|s| - 1] == '/' then TrimSlashes(s[..|s| - 1])
    else s
  }

  /** The prefix in its one form, from a value already free of white space at its ends. */
  function NormalizePrefix(value: string): Option<string> {
    var parts := Split(TrimSlashes(value));
    if AllSafe(parts) then Some(Join(parts) + "/") else None
  }

  lemma {:induction false} JoinEnds(parts: seq<string>)
    requires parts != [] && AllSafe(parts)
    ensures
      var s := Join(parts);
      s != "" && s[0] != '/' && s[|s| - 1] != '/'
  {
    if |parts| > 1 {
      JoinEnds(parts[1..]);
    }
  }

  lemma {:induction false} SplitNonempty(s: string)
    ensures Split(s) != []
  {
  }

  /** Every accepted value gives components and one slash; giving the result again, with or
      without its slash, gives it back. */
  lemma NormalizePrefixIsCanonical(value: string)
    requires NormalizePrefix(value).Some?
    ensures
      var prefix := NormalizePrefix(value).value;
      && NormalizePrefix(prefix) == Some(prefix)
      && NormalizePrefix(prefix[..|prefix| - 1]) == Some(prefix)
      && |prefix| >= 2 && prefix[|prefix| - 1] == '/' && prefix[|prefix| - 2] != '/' && prefix[0] != '/'
  {
    var parts := Split(TrimSlashes(value));
    SplitNonempty(TrimSlashes(value));
    JoinEnds(parts);
    SplitJoin(parts);
    var s := Join(parts);
    assert (s + "/")[..|s + "/"| - 1] == s;
    assert TrimSlashes(s) == s && TrimSlashes(s + "/") == s;
  }

  function Slashes(n: nat): (s: string)
    ensures |s| == n && forall i | 0 <= i < n :: s[i] == '/'
  {
    seq(n, _ => '/')
  }

  lemma {:induction false} TrimBefore(a: nat, s: string)
    ensures TrimSlashes(Slashes(a) + s) == TrimSlashes(s)
  {
    if a == 0 {
      assert Slashes(0) + s == s;
    } else {
      assert (Slashes(a) + s)[1..] == Slashes(a - 1) + s;
      TrimBefore(a - 1, s);
    }
  }

  lemma {:induction false} TrimAfter(s: string, b: nat)
    requires s != "" && s[0] != '/' && s[|s| - 1] != '/'
    ensures TrimSlashes(s + Slashes(b)) == s
  {
    if b == 0 {
      assert s + Slashes(0) == s;
    } else {
      assert (s + Slashes(b))[..|s| + b - 1] == s + Slashes(b - 1);
      TrimAfter(s, b - 1);
    }
  }

  lemma {:induction false} JoinSplit(s: string)
    ensures Join(Split(s)) == s
  {
    var h := Head(s);
    if |h| < |s| {
      HeadStops(s);
      JoinSplit(s[|h| + 1..]);
      SplitNonempty(s[|h| + 1..]);
      assert Split(s)[1..] == Split(s[|h| + 1..]);
      assert s == h + "/" + s[|h| + 1..];
    }
  }

  lemma {:induction false} HeadStops(s: string)
    ensures |Head(s)| < |s| ==> s[|Head(s)|] == '/'
  {
    if s != "" && s[0] != '/' {
      HeadStops(s[1..]);
    }
  }

  lemma {:induction false} Trimmed(s: string) returns (a: nat, b: nat)
    ensures s == Slashes(a) + (TrimSlashes(s) + Slashes(b))
  {
    a, b := 0, 0;
    if s != "" && s[0] == '/' {
      a, b := Trimmed(s[1..]);
      a := a + 1;
      assert Slashes(a) == ['/'] + Slashes(a - 1) && s == ['/'] + s[1..];
    } else if s != "" && s[|s| - 1] == '/' {
      a, b := Trimmed(s[..|s| - 1]);
      b := b + 1;
      assert Slashes(b) == Slashes(b - 1) + ['/'] && s == s[..|s| - 1] + ['/'];
    }
  }

  /** Exactly the safe components joined by slashes are accepted, with slashes at the ends or
      without; and they come out with one slash at the end. */
  lemma NormalizePrefixIff(value: string) returns (parts: seq<string>, a: nat, b: nat)
    ensures NormalizePrefix(value).Some? ==>
              && parts != [] && AllSafe(parts) && value == Slashes(a) + (Join(parts) + Slashes(b))
    ensures forall ps, m: nat, n: nat | ps != [] && AllSafe(ps) && value == Slashes(m) + (Join(ps) + Slashes(n)) ::
              NormalizePrefix(value) == Some(Join(ps) + "/")
  {
    a, b := Trimmed(value);
    parts := Split(TrimSlashes(value));
    JoinSplit(TrimSlashes(value));
    SplitNonempty(TrimSlashes(value));
    hide Split, Join, TrimSlashes, SafeComponent;
    forall ps, m: nat, n: nat | ps != [] && AllSafe(ps) && value == Slashes(m) + (Join(ps) + Slashes(n))
      ensures NormalizePrefix(value) == Some(Join(ps) + "/")
    {
      JoinEnds(ps);
      TrimBefore(m, Join(ps) + Slashes(n));
      TrimAfter(Join(ps), n);
      SafeHasNoSlash(ps);
      SplitJoin(ps);
    }
  }

  lemma SafeHasNoSlash(parts: seq<string>)
    requires AllSafe(parts)
    ensures forall i | 0 <= i < |parts| :: '/' !in parts[i]
  {
    forall i | 0 <= i < |parts| ensures '/' !in parts[i] {
      assert SafeComponent(parts[i]);
    }
  }
}

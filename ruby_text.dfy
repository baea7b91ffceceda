/**
 * The pieces of Ruby's core library that the documentation code leans on:
 * character classes of its regular expressions, ASCII `downcase`, `split`,
 * `lines`, `to_i`, and Ruby's notion of truthiness for frontmatter values.
 * Strings are sequences of characters; only ASCII case mapping is modelled.
 */
module RubyText {
  import opened Wrappers

  /** `\s` in a Ruby regular expression: space, tab, newline, vertical tab, form feed, carriage return. */
  predicate IsSpace(c: char) {
    c == ' ' || c == '\t' || c == '\n' || c == '\U{B}' || c == '\U{C}' || c == '\r'
  }

  /** `\d` / `[0-9]`. */
  predicate IsDigit(c: char) { '0' <= c <= '9' }

  predicate IsLower(c: char) { 'a' <= c <= 'z' }

  predicate IsUpper(c: char) { 'A' <= c <= 'Z' }

  /** `String#downcase`, restricted to the ASCII letters. */
  function DowncaseChar(c: char): (r: char)
    ensures !IsUpper(r)
    ensures IsUpper(c) ==> IsLower(r)
    ensures !IsUpper(c) ==> r == c
  {
    if IsUpper(c) then (c as int - 'A' as int + 'a' as int) as char else c
  }

  function Downcase(s: string): (r: string)
    ensures |r| == |s|
    ensures forall i :: 0 <= i < |s| ==> r[i] == DowncaseChar(s[i])
  {
    if s == [] then [] else [DowncaseChar(s[0])] + Downcase(s[1..])
  }

  predicate StartsWith(s: string, prefix: string) {
    |prefix| <= |s| && s[..|prefix|] == prefix
  }

  predicate EndsWith(s: string, suffix: string) {
    |suffix| <= |s| && s[|s| - |suffix|..] == suffix
  }

  predicate Contains(s: string, c: char) {
    exists i :: 0 <= i < |s| && s[i] == c
  }

  /** `s` holds `pattern` at offset `k`. */
  predicate OccursAt(s: string, pattern: string, k: int) {
    0 <= k && k + |pattern| <= |s| && s[k..k + |pattern|] == pattern
  }

  /** An occurrence in a prefix is an occurrence in the whole text. */
  lemma OccursInPrefix(s: string, t: string, pattern: string)
    requires StartsWith(s, t)
    ensures forall k :: OccursAt(t, pattern, k) ==> OccursAt(s, pattern, k)
  {
    forall k | OccursAt(t, pattern, k) ensures OccursAt(s, pattern, k) {
      assert t == s[..|t|];
      assert t[k..k + |pattern|] == s[k..k + |pattern|];
    }
  }

  /** Offset `k` is the start of a line: Ruby's `^`. */
  predicate LineStart(s: string, k: int) {
    0 <= k <= |s| && (k == 0 || s[k - 1] == '\n')
  }

  /** Offset `k` is the end of a line: Ruby's `$`. */
  predicate LineEnd(s: string, k: int) {
    0 <= k <= |s| && (k == |s| || s[k] == '\n')
  }

  /** The regex search for `pattern` anchored with `^` (`atStart`) or `$`, from offset `k` on. */
  predicate MatchFrom(text: string, pattern: string, atStart: bool, k: nat)
    requires k <= |text|
    decreases |text| - k
  {
    || (OccursAt(text, pattern, k) && (if atStart then LineStart(text, k) else LineEnd(text, k + |pattern|)))
    || (k < |text| && MatchFrom(text, pattern, atStart, k + 1))
  }

  /** The search finds a match exactly when there is one. */
  lemma {:induction false} MatchFromIff(text: string, pattern: string, atStart: bool, k: nat)
    requires k <= |text|
    ensures MatchFrom(text, pattern, atStart, k) <==> exists j :: (k <= j <= |text| && OccursAt(text, pattern, j) &&
      (if atStart then LineStart(text, j) else LineEnd(text, j + |pattern|)))
    decreases |text| - k
  {
    if k < |text| {
      MatchFromIff(text, pattern, atStart, k + 1);
    }
  }

  /** `text =~ /^pattern/`: the pattern occurs at the start of some line. */
  predicate AtSomeLineStart(text: string, pattern: string) {
    MatchFrom(text, pattern, true, 0)
  }

  /** Every piece between the occurrences of `sep`, empty ones included (JavaScript's `split`). */
  function SplitAll(s: string, sep: char): (parts: seq<string>)
    ensures |parts| >= 1
    ensures forall p :: p in parts ==> sep !in p
  {
    if s == [] then [""]
    else
      var rest := SplitAll(s[1..], sep);
      if s[0] == sep then [""] + rest else [[s[0]] + rest[0]] + rest[1..]
  }

  /** `Array#join(sep)`. */
  function Join(parts: seq<string>, sep: char): string {
    if |parts| == 0 then ""
    else if |parts| == 1 then parts[0]
    else parts[0] + [sep] + Join(parts[1..], sep)
  }

  lemma {:induction false} JoinSplitAll(s: string, sep: char)
    ensures Join(SplitAll(s, sep), sep) == s
  {
    if s != [] {
      var rest := SplitAll(s[1..], sep);
      JoinSplitAll(s[1..], sep);
      if s[0] == sep {
        assert SplitAll(s, sep) == [""] + rest;
      } else {
        var parts := SplitAll(s, sep);
        assert parts == [[s[0]] + rest[0]] + rest[1..];
        if |rest| == 1 {
          assert Join(rest, sep) == rest[0];
        } else {
          assert Join(rest, sep) == rest[0] + [sep] + Join(rest[1..], sep);
          assert parts[1..] == rest[1..];
        }
      }
    }
  }

  /** A text without the separator is a single piece. */
  lemma {:induction false} SplitAllWithoutSep(s: string, sep: char)
    requires sep !in s
    ensures SplitAll(s, sep) == [s]
  {
    if s != [] {
      assert sep !in s[1..] by {
        assert forall c :: c in s[1..] ==> c in s;
      }
      SplitAllWithoutSep(s[1..], sep);
      assert [s[0]] + s[1..] == s;
    }
  }

  /** Drops the empty strings at the end of a list of pieces. */
  function DropTrailingEmpty(parts: seq<string>): (r: seq<string>)
    ensures |r| <= |parts| && r == parts[..|r|]
    ensures r == [] || r[|r| - 1] != ""
    ensures forall i :: |r| <= i < |parts| ==> parts[i] == ""
  {
    if parts == [] then []
    else if parts[|parts| - 1] == "" then DropTrailingEmpty(parts[..|parts| - 1])
    else parts
  }

  /** Ruby's `String#split(sep)` for a one-character separator other than a space:
      every piece, with the trailing empty pieces removed (so `"".split(sep)` is `[]`). */
  function RubySplit(s: string, sep: char): seq<string> {
    DropTrailingEmpty(SplitAll(s, sep))
  }

  /** When `s` does not end in `sep`, nothing is dropped and the pieces join back to `s`. */
  lemma {:induction false} RubySplitJoin(s: string, sep: char)
    requires s != [] && s[|s| - 1] != sep
    ensures RubySplit(s, sep) == SplitAll(s, sep)
    ensures Join(RubySplit(s, sep), sep) == s
  {
    LastPieceNonEmpty(s, sep);
    JoinSplitAll(s, sep);
  }

  lemma {:induction false} LastPieceNonEmpty(s: string, sep: char)
    requires s != [] && s[|s| - 1] != sep
    ensures var parts := SplitAll(s, sep); parts[|parts| - 1] != ""
  {
    var rest := SplitAll(s[1..], sep);
    if |s| > 1 {
      LastPieceNonEmpty(s[1..], sep);
    }
  }

  /** Ruby's `String#split(sep, 2)`: the text before the first `sep` and everything after it. */
  function SplitFirst(s: string, sep: char): (r: seq<string>)
    ensures s == [] <==> r == []
    ensures |r| <= 2
    ensures |r| == 1 ==> r[0] == s && sep !in s
    ensures |r| == 2 ==> s == r[0] + [sep] + r[1] && sep !in r[0]
  {
    if s == [] then []
    else if s[0] == sep then ["", s[1..]]
    else
      var rest := SplitFirst(s[1..], sep);
      if rest == [] then [s]
      else if |rest| == 1 then [s]
      else [[s[0]] + rest[0], rest[1]]
  }

  /** `String#lines`: the pieces that end just after each newline, and the unterminated tail. */
  function Lines(s: string): (r: seq<string>)
    ensures s == [] <==> r == []
  {
    if s == [] then []
    else
      var rest := Lines(s[1..]);
      if s[0] == '\n' || rest == [] then [[s[0]]] + rest
      else [[s[0]] + rest[0]] + rest[1..]
  }

  /** String concatenation regroups freely. */
  lemma Regroup(x: string, y: string, z: string)
    ensures (x + y) + z == x + (y + z)
  {
  }

  function Concat(parts: seq<string>): string {
    if parts == [] then "" else parts[0] + Concat(parts[1..])
  }

  lemma {:induction false} LinesConcat(s: string)
    ensures Concat(Lines(s)) == s
    ensures forall i :: 0 <= i < |Lines(s)| ==> Lines(s)[i] != ""
  {
    if s != [] {
      LinesConcat(s[1..]);
      var rest := Lines(s[1..]);
      if !(s[0] == '\n' || rest == []) {
        assert Concat(rest) == rest[0] + Concat(rest[1..]);
      }
    }
  }

  /** Characters of the decimal number at the head of `s` (after its first digit, a single `_` may
      sit between two digits), as `String#to_i` reads it. */
  function DigitRun(s: string): (ds: string)
    ensures forall i :: 0 <= i < |ds| ==> IsDigit(ds[i])
    ensures |ds| <= |s|
  {
    if s != [] && IsDigit(s[0]) then [s[0]] + DigitTail(s[1..]) else ""
  }

  function DigitTail(s: string): (ds: string)
    ensures forall i :: 0 <= i < |ds| ==> IsDigit(ds[i])
    ensures |ds| <= |s|
  {
    if s != [] && IsDigit(s[0]) then [s[0]] + DigitTail(s[1..])
    else if |s| >= 2 && s[0] == '_' && IsDigit(s[1]) then [s[1]] + DigitTail(s[2..])
    else ""
  }

  /** The value of a string of decimal digits. */
  function DecimalValue(ds: string): (n: nat)
    requires forall i :: 0 <= i < |ds| ==> IsDigit(ds[i])
  {
    if ds == [] then 0
    else
      assert IsDigit(ds[|ds| - 1]);
      DecimalValue(ds[..|ds| - 1]) * 10 + (ds[|ds| - 1] as int - '0' as int)
  }

  function SkipSpaces(s: string): (t: string)
    ensures |t| <= |s| && t == s[|s| - |t|..]
    ensures t == [] || !IsSpace(t[0])
  {
    if s != [] && IsSpace(s[0]) then SkipSpaces(s[1..]) else s
  }

  /** Text that does not start with whitespace is left as it is. */
  lemma SkipSpacesNone(s: string)
    requires s == [] || !IsSpace(s[0])
    ensures SkipSpaces(s) == s
  {
  }

  /** Leading whitespace is skipped up to the first other character. */
  lemma {:induction false} SkipSpacesPad(pad: string, t: string)
    requires forall i :: 0 <= i < |pad| ==> IsSpace(pad[i])
    requires t == [] || !IsSpace(t[0])
    ensures SkipSpaces(pad + t) == t
  {
    if pad == [] {
      assert pad + t == t;
    } else {
      assert (pad + t)[1..] == pad[1..] + t;
      SkipSpacesPad(pad[1..], t);
    }
  }

  /** Once past the leading whitespace, what follows is kept as it is. */
  lemma {:induction false} SkipSpacesAppend(a: string, x: string)
    requires SkipSpaces(a) != []
    ensures SkipSpaces(a + x) == SkipSpaces(a) + x
  {
    assert (a + x)[0] == a[0];
    if IsSpace(a[0]) {
      assert (a + x)[1..] == a[1..] + x;
      assert SkipSpaces(a) == SkipSpaces(a[1..]);
      SkipSpacesAppend(a[1..], x);
    } else {
      SkipSpacesNone(a);
      SkipSpacesNone(a + x);
    }
  }

  /** `String#to_i`: leading whitespace, an optional sign, then the digits of the number at the head
      of the string; 0 when there is none. */
  function ToI(s: string): int {
    var t := SkipSpaces(s);
    if t != [] && t[0] == '-' then 0 - DecimalValue(DigitRun(t[1..])) as int
    else if t != [] && t[0] == '+' then DecimalValue(DigitRun(t[1..]))
    else DecimalValue(DigitRun(t))
  }

  /** On a string made of digits alone, `to_i` is the decimal value of the digits. */
  lemma ToIOfDigits(ds: string)
    requires ds != [] && forall i :: 0 <= i < |ds| ==> IsDigit(ds[i])
    ensures ToI(ds) == DecimalValue(ds)
  {
    assert ds + "" == ds;
    ToIOfDigitHead(ds);
    DigitRunStops(ds, "");
  }

  /** `to_i` stops at the first character that cannot continue the number. */
  lemma ToIStopsAtNonDigit(ds: string, rest: string)
    requires ds != [] && forall i :: 0 <= i < |ds| ==> IsDigit(ds[i])
    requires rest == [] || (!IsDigit(rest[0]) && rest[0] != '_')
    ensures ToI(ds + rest) == DecimalValue(ds)
  {
    assert (ds + rest)[0] == ds[0];
    ToIOfDigitHead(ds + rest);
    DigitRunStops(ds, rest);
  }

  /** On a string that starts with a digit, `to_i` reads the digit run at its head. */
  lemma ToIOfDigitHead(s: string)
    requires s != [] && IsDigit(s[0])
    ensures ToI(s) == DecimalValue(DigitRun(s))
  {
    assert SkipSpaces(s) == s;
  }

  /** The digit run at the head of `ds + rest` is `ds` when `rest` cannot continue it. */
  lemma DigitRunStops(ds: string, rest: string)
    requires ds != [] && forall i :: 0 <= i < |ds| ==> IsDigit(ds[i])
    requires rest == [] || (!IsDigit(rest[0]) && rest[0] != '_')
    ensures DigitRun(ds + rest) == ds
  {
    var s := ds + rest;
    DigitTailStops(ds[1..], rest);
    assert s[1..] == ds[1..] + rest;
    assert [ds[0]] + ds[1..] == ds;
  }

  lemma {:induction false} DigitTailStops(ds: string, rest: string)
    requires forall i :: 0 <= i < |ds| ==> IsDigit(ds[i])
    requires rest == [] || (!IsDigit(rest[0]) && rest[0] != '_')
    ensures DigitTail(ds + rest) == ds
  {
    if ds != [] {
      DigitTailStops(ds[1..], rest);
      assert (ds + rest)[1..] == ds[1..] + rest;
      assert [ds[0]] + ds[1..] == ds;
    } else {
      assert ds + rest == rest;
    }
  }

  /** `String#tr(from, to)` with one character on each side. */
  function ReplaceChar(s: string, from: char, to: char): (r: string)
    ensures |r| == |s|
    ensures forall i :: 0 <= i < |s| ==> r[i] == (if s[i] == from then to else s[i])
  {
    if s == [] then [] else [if s[0] == from then to else s[0]] + ReplaceChar(s[1..], from, to)
  }

  /** `tr` works character by character, hence piece by piece. */
  lemma {:induction false} ReplaceCharAppend(a: string, b: string, from: char, to: char)
    ensures ReplaceChar(a + b, from, to) == ReplaceChar(a, from, to) + ReplaceChar(b, from, to)
    decreases |a|
  {
    if a == [] {
      assert a + b == b;
    } else {
      assert (a + b)[0] == a[0];
      assert (a + b)[1..] == a[1..] + b;
      ReplaceCharAppend(a[1..], b, from, to);
    }
  }

  /** The first offset at or after `from` where `pattern` occurs. */
  function IndexOf(s: string, pattern: string, from: nat): (r: Option<nat>)
    requires from <= |s|
    ensures r.Some? ==> from <= r.value && OccursAt(s, pattern, r.value)
    ensures r.Some? ==> forall k :: from <= k < r.value ==> !OccursAt(s, pattern, k)
    ensures r.None? ==> forall k :: from <= k ==> !OccursAt(s, pattern, k)
    decreases |s| - from
  {
    if OccursAt(s, pattern, from) then Some(from)
    else if from == |s| then None
    else IndexOf(s, pattern, from + 1)
  }

  /** `File.basename(path)`: the text after the last `/`. */
  function BaseName(path: string): (r: string)
    ensures '/' !in r
    ensures EndsWith(path, r)
    ensures |r| < |path| ==> path[|path| - |r| - 1] == '/'
  {
    if path == [] then []
    else if path[|path| - 1] == '/' then []
    else BaseName(path[..|path| - 1]) + [path[|path| - 1]]
  }

  lemma {:induction false} BaseNameOfJoin(dir: string, name: string)
    requires '/' !in name
    ensures BaseName(dir + "/" + name) == name
  {
    if name != [] {
      var p := dir + "/" + name;
      assert p[..|p| - 1] == dir + "/" + name[..|name| - 1];
      BaseNameOfJoin(dir, name[..|name| - 1]);
      assert name == name[..|name| - 1] + [name[|name| - 1]];
    }
  }

  /** A value read from YAML frontmatter or held in a Ruby hash. A float is an exact real:
      `NaN` and the infinities are not represented. */
  datatype Value = Nil | Bool(b: bool) | Num(n: int) | Float(f: real) | Str(s: string)

  /** Ruby treats only `nil` and `false` as false. */
  predicate Truthy(v: Value) {
    !(v.Nil? || v == Bool(false))
  }

  /** `hash[key]`: `nil` for a missing key. */
  function Lookup(m: map<string, Value>, key: string): Value {
    if key in m then m[key] else Nil
  }
}

/**
 * lib/quickjump.rb: the "quick jump" side navigation. `process` walks the page's h2/h3/h4
 * headings in document order, nests each one under the nearest preceding heading of a
 * shallower level (an explicit stack, `last_chain`, holds the headings that can still take
 * children), and chains ids from parent to child. `build_tree` then drops each heading's own
 * `id` attribute, appends an anchor token carrying the chained id, and emits a nested
 * `<li>`/`<ul class="nav">` list into the navigation container.
 *
 * The page is given as an array of heading elements in document order (Nokogiri's CSS
 * selection and `sort` are not modelled); the navigation container is modelled by the HTML
 * that is appended to it. A heading's tag name is compared as a string in the source; for
 * `h2`..`h4` that is the comparison of the levels, which is what is modelled.
 */
module QuickJump {
  import opened Wrappers
  import opened RubyText

  /** `[a-z0-9_-]` with the `i` flag: what survives the final `gsub` of `dasherize`. */
  predicate IsIdChar(c: char) {
    IsLower(c) || IsUpper(c) || IsDigit(c) || c == '_' || c == '-'
  }

  /** `gsub(/\s+/, '-')`: every maximal run of whitespace becomes one `-`. */
  function CollapseSpaces(s: string): (r: string)
    ensures |r| <= |s|
  {
    if s == [] then ""
    else if IsSpace(s[0]) then "-" + CollapseSpaces(SkipSpaces(s))
    else [s[0]] + CollapseSpaces(s[1..])
  }

  /** `r` holds no whitespace and nothing but `-` and characters of `s`. */
  predicate Alphabet(r: string, s: string) {
    forall i :: 0 <= i < |r| ==> !IsSpace(r[i]) && (r[i] == '-' || r[i] in s)
  }

  /** No whitespace is left, and nothing but `-` is brought in. */
  lemma {:induction false} CollapseSpacesAlphabet(s: string)
    ensures Alphabet(CollapseSpaces(s), s)
  {
    if s != [] {
      if IsSpace(s[0]) {
        var t := SkipSpaces(s);
        CollapseSpacesAlphabet(t);
        AlphabetCons('-', CollapseSpaces(t), t, s);
      } else {
        CollapseSpacesAlphabet(s[1..]);
        AlphabetCons(s[0], CollapseSpaces(s[1..]), s[1..], s);
      }
    }
  }

  /** One more allowed character in front keeps the result within the alphabet of a longer text. */
  lemma AlphabetCons(c: char, rt: string, t: string, s: string)
    requires Alphabet(rt, t)
    requires !IsSpace(c) && (c == '-' || c in s)
    requires |t| <= |s| && t == s[|s| - |t|..]
    ensures Alphabet([c] + rt, s)
  {
    var r := [c] + rt;
    forall i | 1 <= i < |r| ensures !IsSpace(r[i]) && (r[i] == '-' || r[i] in s) {
      var d := rt[i - 1];
      assert r[i] == d;
      if d != '-' {
        var k :| 0 <= k < |t| && t[k] == d;
        assert t[k] == s[|s| - |t| + k];
      }
    }
  }

  /** Text without whitespace is kept as it is. */
  lemma {:induction false} CollapseSpacesNoSpace(s: string)
    requires forall i :: 0 <= i < |s| ==> !IsSpace(s[i])
    ensures CollapseSpaces(s) == s
  {
    if s != [] {
      assert !IsSpace(s[0]);
      CollapseSpacesNoSpace(s[1..]);
    }
  }

  /** `gsub(/[^a-z0-9_-]/i, '')`. */
  function KeepIdChars(s: string): (r: string)
    ensures forall i :: 0 <= i < |r| ==> IsIdChar(r[i])
    ensures forall i :: 0 <= i < |r| ==> r[i] in s
    ensures (forall i :: 0 <= i < |s| ==> IsIdChar(s[i])) ==> r == s
  {
    if s == [] then ""
    else
      var rest := KeepIdChars(s[1..]);
      assert forall i :: 0 <= i < |s| - 1 ==> s[1..][i] == s[i + 1];
      if IsIdChar(s[0]) then [s[0]] + rest else rest
  }

  /** `dasherize(txt)`: `txt.downcase.gsub(/\s+/, '-').gsub(/[^a-z0-9_-]/i, '')`. */
  function Dasherize(txt: string): (r: string)
    ensures forall i :: 0 <= i < |r| ==> IsLower(r[i]) || IsDigit(r[i]) || r[i] == '_' || r[i] == '-'
  {
    var d := Downcase(txt);
    var c := CollapseSpaces(d);
    CollapseSpacesAlphabet(d);
    var r := KeepIdChars(c);
    assert forall i :: 0 <= i < |r| ==> !IsUpper(r[i]) by {
      forall i | 0 <= i < |r| ensures !IsUpper(r[i]) {
        assert r[i] in c;
        if r[i] != '-' {
          assert r[i] in d;
        }
      }
    }
    r
  }

  /** `dasherize` leaves its own output unchanged. */
  lemma DasherizeIdempotent(txt: string)
    ensures Dasherize(Dasherize(txt)) == Dasherize(txt)
  {
    var r := Dasherize(txt);
    assert Downcase(r) == r;
    CollapseSpacesNoSpace(r);
  }

  /** Text whose every character is whitespace is skipped down to nothing, and conversely. */
  lemma {:induction false} SkipSpacesEmpty(a: string)
    requires SkipSpaces(a) == []
    ensures forall i :: 0 <= i < |a| ==> IsSpace(a[i])
  {
    if a != [] {
      SkipSpacesEmpty(a[1..]);
      assert forall i :: 1 <= i < |a| ==> a[i] == a[1..][i - 1];
    }
  }

  /** `gsub(/\s+/, '-')` works piece by piece as long as the cut does not split a run of
      whitespace. */
  lemma {:induction false} CollapseSpacesAppend(a: string, b: string)
    requires a == [] || b == [] || !IsSpace(a[|a| - 1]) || !IsSpace(b[0])
    ensures CollapseSpaces(a + b) == CollapseSpaces(a) + CollapseSpaces(b)
    decreases |a|
  {
    if a == [] {
      assert a + b == b;
    } else if !IsSpace(a[0]) {
      CollapseSpacesAppend(a[1..], b);
      CollapseWordStep(a, b);
    } else if SkipSpaces(a) != [] {
      var t := SkipSpaces(a);
      assert t[|t| - 1] == a[|a| - 1];
      CollapseSpacesAppend(t, b);
      CollapseRunStep(a, b);
    } else {
      CollapseRunLast(a, b);
    }
  }

  /** The step of `CollapseSpacesAppend` past a character that is not whitespace. */
  lemma CollapseWordStep(a: string, b: string)
    requires a != [] && !IsSpace(a[0])
    requires CollapseSpaces(a[1..] + b) == CollapseSpaces(a[1..]) + CollapseSpaces(b)
    ensures CollapseSpaces(a + b) == CollapseSpaces(a) + CollapseSpaces(b)
  {
    assert (a + b)[1..] == a[1..] + b;
    assert (a + b)[0] == a[0];
    Associative([a[0]], CollapseSpaces(a[1..]), CollapseSpaces(b));
  }

  /** The step of `CollapseSpacesAppend` past a run of whitespace that the first piece ends
      after. */
  lemma CollapseRunStep(a: string, b: string)
    requires a != [] && IsSpace(a[0]) && SkipSpaces(a) != []
    requires CollapseSpaces(SkipSpaces(a) + b) == CollapseSpaces(SkipSpaces(a)) + CollapseSpaces(b)
    ensures CollapseSpaces(a + b) == CollapseSpaces(a) + CollapseSpaces(b)
  {
    var t := SkipSpaces(a);
    SkipSpacesAppend(a, b);
    assert (a + b)[0] == a[0];
    Associative("-", CollapseSpaces(t), CollapseSpaces(b));
  }

  /** The first piece is all whitespace, so the second piece starts with none. */
  lemma CollapseRunLast(a: string, b: string)
    requires a != [] && IsSpace(a[0]) && SkipSpaces(a) == []
    requires b == [] || !IsSpace(a[|a| - 1]) || !IsSpace(b[0])
    ensures CollapseSpaces(a + b) == CollapseSpaces(a) + CollapseSpaces(b)
  {
    SkipSpacesEmpty(a);
    assert b == [] || !IsSpace(b[0]);
    SkipSpacesPad(a, b);
    SkipSpacesNone(b);
    assert (a + b)[0] == a[0];
    assert CollapseSpaces(a) == "-";
  }

  lemma Associative<T>(x: seq<T>, y: seq<T>, z: seq<T>)
    ensures x + (y + z) == (x + y) + z
  {
  }

  /** A run of whitespace, however long, becomes a single `-`. */
  lemma CollapseSpacesRun(w: string)
    requires w != [] && forall i :: 0 <= i < |w| ==> IsSpace(w[i])
    ensures CollapseSpaces(w) == "-"
  {
    SkipSpacesPad(w, []);
    assert w + [] == w;
  }

  /** A maximal run of whitespace between two pieces becomes one `-` between their images. */
  lemma CollapseSpacesAround(a: string, w: string, b: string)
    requires a == [] || !IsSpace(a[|a| - 1])
    requires w != [] && forall i :: 0 <= i < |w| ==> IsSpace(w[i])
    requires b == [] || !IsSpace(b[0])
    ensures CollapseSpaces(a + w + b) == CollapseSpaces(a) + "-" + CollapseSpaces(b)
  {
    var wb := w + b;
    assert wb[0] == w[0];
    Associative(a, w, b);
    CollapseSpacesAppend(a, wb);
    assert w[|w| - 1] == w[|w| - 1];
    CollapseSpacesAppend(w, b);
    CollapseSpacesRun(w);
    Associative(CollapseSpaces(a), "-", CollapseSpaces(b));
  }

  /** `gsub(/[^a-z0-9_-]/i, '')` works piece by piece. */
  lemma {:induction false} KeepIdCharsAppend(a: string, b: string)
    ensures KeepIdChars(a + b) == KeepIdChars(a) + KeepIdChars(b)
    decreases |a|
  {
    if a == [] {
      assert a + b == b;
    } else {
      assert (a + b)[1..] == a[1..] + b;
      KeepIdCharsAppend(a[1..], b);
    }
  }

  /** One character is kept exactly when it is an id character. */
  lemma KeepIdCharsOne(c: char)
    ensures KeepIdChars([c]) == if IsIdChar(c) then [c] else []
  {
  }

  /** Text of id characters separated by single spaces: the spaces are exactly what becomes `-`. */
  predicate SingleSpaced(t: string) {
    (forall i :: 0 <= i < |t| ==> IsIdChar(t[i]) || t[i] == ' ')
    && forall i :: 0 <= i < |t| - 1 ==> !(t[i] == ' ' && t[i + 1] == ' ')
  }

  /** Without runs of whitespace longer than one character, `gsub(/\s+/, '-')` is `tr(' ', '-')`
      on text whose only whitespace is the space. */
  lemma {:induction false} CollapseSingleSpaces(s: string)
    requires SingleSpaced(s)
    ensures |CollapseSpaces(s)| == |s|
    ensures forall i :: 0 <= i < |s| ==> CollapseSpaces(s)[i] == if s[i] == ' ' then '-' else s[i]
  {
    if s != [] {
      var tail := s[1..];
      assert SingleSpaced(tail) by {
        assert forall i :: 0 <= i < |tail| ==> tail[i] == s[i + 1];
      }
      CollapseSingleSpaces(tail);
      var head := if s[0] == ' ' then '-' else s[0];
      CollapseHead(s, s[0], tail);
      ConsPointwise(head, CollapseSpaces(tail), s);
    }
  }

  /** The first step of `CollapseSpaces` on single-spaced text. */
  lemma CollapseHead(s: string, c: char, tail: string)
    requires s == [c] + tail && (IsIdChar(c) || c == ' ')
    requires tail != [] ==> (IsIdChar(tail[0]) || tail[0] == ' ') && !(c == ' ' && tail[0] == ' ')
    ensures CollapseSpaces(s) == [if c == ' ' then '-' else c] + CollapseSpaces(tail)
  {
    assert s[0] == c && s[1..] == tail;
    if IsSpace(c) {
      assert tail == [] || !IsSpace(tail[0]);
      SkipSpacesNone(tail);
      assert SkipSpaces(s) == tail;
    }
  }

  /** Helper: a character in front of a tail that follows `s[1..]` with spaces turned into `-`. */
  lemma ConsPointwise(head: char, rest: string, s: string)
    requires s != [] && head == (if s[0] == ' ' then '-' else s[0])
    requires |rest| == |s| - 1
    requires forall i :: 0 <= i < |s| - 1 ==> rest[i] == if s[i + 1] == ' ' then '-' else s[i + 1]
    ensures |[head] + rest| == |s|
    ensures forall i :: 0 <= i < |s| ==> ([head] + rest)[i] == if s[i] == ' ' then '-' else s[i]
  {
    var r := [head] + rest;
    forall i | 0 <= i < |s| ensures r[i] == if s[i] == ' ' then '-' else s[i] {
      if i > 0 {
        assert r[i] == rest[i - 1];
      }
    }
  }

  /** On text of id characters separated by single spaces, `dasherize` is lower-casing with every
      space turned into `-`, character for character. */
  lemma DasherizeSingleSpaced(t: string)
    requires SingleSpaced(t)
    ensures |Dasherize(t)| == |t|
    ensures forall i :: 0 <= i < |t| ==> Dasherize(t)[i] == if t[i] == ' ' then '-' else DowncaseChar(t[i])
  {
    var d := Downcase(t);
    assert SingleSpaced(d);
    CollapseSingleSpaces(d);
    var c := CollapseSpaces(d);
    CollapseSpacesAlphabet(d);
    assert forall i :: 0 <= i < |c| ==> IsIdChar(c[i]);
  }

  /** A heading element of the page: its level (2 for `h2` …), its text, its `id` attribute and the
      nodes appended to it, in order. */
  datatype Element = Element(level: int, text: string, idAttr: Option<string>, appended: seq<string>)

  /** Where the nearest preceding heading of a shallower level is searched: offsets `0..j`. */
  function ParentSearch(hs: seq<Element>, i: nat, j: int): (r: Option<nat>)
    requires i < |hs| && -1 <= j < i
    ensures r.Some? ==> r.value <= j && hs[r.value].level < hs[i].level
    ensures r.Some? ==> forall k :: r.value < k <= j ==> hs[k].level >= hs[i].level
    ensures r.None? ==> forall k :: 0 <= k <= j ==> hs[k].level >= hs[i].level
    decreases j + 1
  {
    if j < 0 then None
    else if hs[j].level < hs[i].level then Some(j)
    else ParentSearch(hs, i, j - 1)
  }

  /** The heading a heading is nested under: the nearest preceding one of a strictly shallower
      level, or none, which makes it a top-level entry. */
  function ParentOf(hs: seq<Element>, i: nat): (r: Option<nat>)
    requires i < |hs|
    ensures r.Some? ==> r.value < i && hs[r.value].level < hs[i].level
    ensures r.Some? ==> forall k :: r.value < k < i ==> hs[k].level >= hs[i].level
    ensures r.None? ==> forall k :: 0 <= k < i ==> hs[k].level >= hs[i].level
  {
    ParentSearch(hs, i, i - 1)
  }

  /** The shallowest level has no parent: in particular every `h2` is a top-level entry. */
  lemma ShallowestIsTopLevel(hs: seq<Element>, i: nat)
    requires i < |hs|
    requires forall k :: 0 <= k < |hs| ==> hs[i].level <= hs[k].level
    ensures ParentOf(hs, i) == None
  {
  }

  /** The chained id of a heading: its dasherized text, behind its parent's id and a `-`. */
  function Id(hs: seq<Element>, i: nat): (r: string)
    requires i < |hs|
    ensures |r| >= |Dasherize(hs[i].text)|
    ensures ParentOf(hs, i).Some? ==> |r| > |Id(hs, ParentOf(hs, i).value)|
    decreases i
  {
    match ParentOf(hs, i)
    case None => Dasherize(hs[i].text)
    case Some(p) => Id(hs, p) + "-" + Dasherize(hs[i].text)
  }

  /** `a` is an ancestor of `i`: reached from `i` by following parents. */
  ghost predicate IsAncestor(hs: seq<Element>, a: nat, i: nat)
    requires i < |hs|
    decreases i
  {
    match ParentOf(hs, i)
    case None => false
    case Some(p) => p == a || IsAncestor(hs, a, p)
  }

  /** Every ancestor precedes the heading, has a shallower level, and its id followed by `-` begins
      the heading's id. */
  lemma {:induction false} AncestorIdIsPrefix(hs: seq<Element>, a: nat, i: nat)
    requires i < |hs| && IsAncestor(hs, a, i)
    ensures a < i && hs[a].level < hs[i].level
    ensures StartsWith(Id(hs, i), Id(hs, a) + "-")
    decreases i
  {
    var p := ParentOf(hs, i).value;
    var own := Dasherize(hs[i].text);
    assert Id(hs, i) == Id(hs, p) + "-" + own;
    if p != a {
      AncestorIdIsPrefix(hs, a, p);
      var pre := Id(hs, a) + "-";
      assert Id(hs, p)[..|pre|] == pre;
      assert Id(hs, i)[..|pre|] == Id(hs, p)[..|pre|];
    } else {
      assert Id(hs, i)[..|Id(hs, a) + "-"|] == Id(hs, a) + "-";
    }
  }

  /** Appending the same tail to two different strings keeps them different. */
  lemma AppendKeepsApart(a: string, b: string, tail: string)
    requires a != b
    ensures a + tail != b + tail
  {
    if |a| == |b| {
      assert (a + tail)[..|a|] == a && (b + tail)[..|b|] == b;
    }
  }

  /** Headings with the same dasherized text under parents with different ids get different ids. */
  lemma DifferentParentsDifferentIds(hs: seq<Element>, i: nat, k: nat, p: nat, q: nat)
    requires i < |hs| && k < |hs|
    requires ParentOf(hs, i) == Some(p) && ParentOf(hs, k) == Some(q)
    requires Dasherize(hs[i].text) == Dasherize(hs[k].text)
    requires Id(hs, p) != Id(hs, q)
    ensures Id(hs, i) != Id(hs, k)
  {
    var own := Dasherize(hs[i].text);
    var a, b := Id(hs, p), Id(hs, q);
    assert Id(hs, i) == a + "-" + own;
    assert Id(hs, k) == b + "-" + own;
    Regroup(a, "-", own);
    Regroup(b, "-", own);
    AppendKeepsApart(a, b, "-" + own);
  }

  /** Siblings are not told apart: two headings with the same parent and the same dasherized text
      get the same id. */
  lemma SiblingsShareIds(hs: seq<Element>, i: nat, k: nat)
    requires i < |hs| && k < |hs|
    requires ParentOf(hs, i) == ParentOf(hs, k)
    requires Dasherize(hs[i].text) == Dasherize(hs[k].text)
    ensures Id(hs, i) == Id(hs, k)
  {
  }

  /** The children of `par` (the top-level entries when `par` is `None`) among the first `m`
      headings, in document order. */
  function KidsBelow(hs: seq<Element>, par: Option<nat>, m: nat): (r: seq<nat>)
    requires m <= |hs|
    ensures forall s :: 0 <= s < |r| ==> r[s] < m
  {
    if m == 0 then []
    else KidsBelow(hs, par, m - 1) + (if ParentOf(hs, m - 1) == par then [m - 1] else [])
  }

  predicate Increasing(r: seq<nat>) {
    forall s, u :: 0 <= s < u < |r| ==> r[s] < r[u]
  }

  /** Appending an element above every present one keeps a sequence increasing. */
  lemma IncreasingSnoc(prev: seq<nat>, x: nat)
    requires Increasing(prev) && forall s :: 0 <= s < |prev| ==> prev[s] < x
    ensures Increasing(prev + [x])
  {
    var r := prev + [x];
    forall s, u | 0 <= s < u < |r| ensures r[s] < r[u] {
      assert r[s] == prev[s];
      if u < |prev| {
        assert r[u] == prev[u];
      }
    }
  }

  /** A heading's list holds exactly its children. */
  lemma {:induction false} KidsBelowHas(hs: seq<Element>, par: Option<nat>, m: nat)
    requires m <= |hs|
    ensures forall c: nat :: c in KidsBelow(hs, par, m) <==> c < m && ParentOf(hs, c) == par
  {
    if m > 0 {
      KidsBelowHas(hs, par, m - 1);
    }
  }

  /** A heading's list is in document order, each child once. */
  lemma {:induction false} KidsBelowIncreasing(hs: seq<Element>, par: Option<nat>, m: nat)
    requires m <= |hs|
    ensures Increasing(KidsBelow(hs, par, m))
  {
    if m > 0 {
      KidsBelowIncreasing(hs, par, m - 1);
      if ParentOf(hs, m - 1) == par {
        IncreasingSnoc(KidsBelow(hs, par, m - 1), m - 1);
      }
    }
  }

  /** A heading's list holds exactly its children, each once, in document order. */
  lemma KidsBelowMembers(hs: seq<Element>, par: Option<nat>, m: nat)
    requires m <= |hs|
    ensures forall c: nat :: c in KidsBelow(hs, par, m) <==> c < m && ParentOf(hs, c) == par
    ensures Increasing(KidsBelow(hs, par, m))
  {
    KidsBelowHas(hs, par, m);
    KidsBelowIncreasing(hs, par, m);
  }

  /** No heading is a child of a later one. */
  lemma {:induction false} NoEarlyKids(hs: seq<Element>, p: nat, m: nat)
    requires p < |hs| && m <= p + 1
    ensures KidsBelow(hs, Some(p), m) == []
  {
    if m > 0 {
      NoEarlyKids(hs, p, m - 1);
    }
  }

  /** Heading `c` can still take children once the first `i` headings are placed: every heading
      between them is deeper. */
  ghost predicate Open(hs: seq<Element>, i: nat, c: nat) {
    c < i <= |hs| && forall k :: c < k < i ==> hs[k].level > hs[c].level
  }

  /** What `last_chain` holds after the first `i` headings: the open headings, bottom to top in
      document order, with strictly increasing levels. */
  ghost predicate ChainInv(hs: seq<Element>, i: nat, chain: seq<nat>) {
    && i <= |hs|
    && (forall t :: 0 <= t < |chain| ==> chain[t] < i)
    && (forall a, b :: 0 <= a < b < |chain| ==> chain[a] < chain[b] && hs[chain[a]].level < hs[chain[b]].level)
    && (forall c :: 0 <= c < i ==> (c in chain <==> Open(hs, i, c)))
  }

  /** The entries that survive the popping are all shallower than heading `i`. */
  lemma ChainBelow(hs: seq<Element>, i: nat, chain: seq<nat>, k: nat)
    requires i < |hs| && ChainInv(hs, i, chain) && k <= |chain|
    requires k > 0 ==> hs[chain[k - 1]].level < hs[i].level
    ensures forall t :: 0 <= t < k ==> hs[chain[t]].level < hs[i].level
  {
    forall t | 0 <= t < k ensures hs[chain[t]].level < hs[i].level {
      if t < k - 1 {
        assert hs[chain[t]].level < hs[chain[k - 1]].level;
      }
    }
  }

  /** After the popping, the top of the chain is heading `i`'s parent. */
  lemma PopFindsParent(hs: seq<Element>, i: nat, chain: seq<nat>, k: nat)
    requires i < |hs| && ChainInv(hs, i, chain) && k <= |chain|
    requires forall t :: k <= t < |chain| ==> hs[chain[t]].level >= hs[i].level
    requires k > 0 ==> hs[chain[k - 1]].level < hs[i].level
    ensures ParentOf(hs, i) == if k == 0 then None else Some(chain[k - 1])
  {
    ChainBelow(hs, i, chain, k);
    match ParentOf(hs, i)
    case None =>
    case Some(j) =>
      assert Open(hs, i, j);
      assert j in chain;
      var t :| 0 <= t < |chain| && chain[t] == j;
      assert t < k;
  }

  /** Pushing heading `i` on what survives the popping gives the chain after `i + 1` headings. */
  lemma PushKeepsChain(hs: seq<Element>, i: nat, chain: seq<nat>, k: nat)
    requires i < |hs| && ChainInv(hs, i, chain) && k <= |chain|
    requires forall t :: k <= t < |chain| ==> hs[chain[t]].level >= hs[i].level
    requires k > 0 ==> hs[chain[k - 1]].level < hs[i].level
    ensures ChainInv(hs, i + 1, chain[..k] + [i])
  {
    ChainBelow(hs, i, chain, k);
    var lv := hs[i].level;
    var chain' := chain[..k] + [i];
    forall c | 0 <= c < i + 1 ensures c in chain' <==> Open(hs, i + 1, c) {
      if c < i {
        if c in chain' {
          var t :| 0 <= t < k && chain[t] == c;
          assert Open(hs, i, c);
        }
        if Open(hs, i + 1, c) {
          assert Open(hs, i, c);
          var t :| 0 <= t < |chain| && chain[t] == c;
          assert hs[c].level < lv;
          assert t < k;
          assert chain'[t] == c;
        }
      }
    }
  }

  /** Popping every open heading whose level is not shallower than heading `i`'s leaves that
      heading's parent on top, and pushing heading `i` restores the invariant. */
  lemma PopLeavesParent(hs: seq<Element>, i: nat, chain: seq<nat>, k: nat)
    requires i < |hs| && ChainInv(hs, i, chain) && k <= |chain|
    requires forall t :: k <= t < |chain| ==> hs[chain[t]].level >= hs[i].level
    requires k > 0 ==> hs[chain[k - 1]].level < hs[i].level
    ensures ParentOf(hs, i) == if k == 0 then None else Some(chain[k - 1])
    ensures ChainInv(hs, i + 1, chain[..k] + [i])
  {
    PopFindsParent(hs, i, chain, k);
    PushKeepsChain(hs, i, chain, k);
  }

  /** The nodes built by `process`, one per heading (the hashes `{el:, id:, children:}`), and the
      top-level list `nested`. Children and roots are heading positions. */
  datatype Nesting = Nesting(ids: seq<string>, children: seq<seq<nat>>, nested: seq<nat>)

  /** The children lists and the top-level list that the placement rule prescribes. */
  ghost predicate Placed(hs: seq<Element>, t: Nesting) {
    && |t.children| == |hs|
    && (forall p :: 0 <= p < |hs| ==> t.children[p] == KidsBelow(hs, Some(p), |hs|))
    && t.nested == KidsBelow(hs, None, |hs|)
  }

  /** The nesting that the placement rule prescribes for the headings `hs`. */
  ghost predicate Prescribed(hs: seq<Element>, t: Nesting) {
    && |t.ids| == |hs|
    && (forall i :: 0 <= i < |hs| ==> t.ids[i] == Id(hs, i))
    && Placed(hs, t)
  }

  /** The inner loop of `process`: how many entries of `last_chain` survive the popping for
      heading `i`. */
  method Pop(hs: seq<Element>, i: nat, chain: seq<nat>) returns (k: nat)
    requires i < |hs| && forall t :: 0 <= t < |chain| ==> chain[t] < |hs|
    ensures k <= |chain|
    ensures forall t :: k <= t < |chain| ==> hs[chain[t]].level >= hs[i].level
    ensures k > 0 ==> hs[chain[k - 1]].level < hs[i].level
  {
    k := |chain|;
    while k > 0 && hs[i].level <= hs[chain[k - 1]].level
      invariant k <= |chain|
      invariant forall t :: k <= t < |chain| ==> hs[chain[t]].level >= hs[i].level
    {
      k := k - 1;
    }
  }

  /** Placing heading `i` under `parent` extends that parent's list of children and no other. */
  lemma KidsStep(hs: seq<Element>, i: nat, parent: Option<nat>, children: seq<seq<nat>>, nested: seq<nat>,
                 children': seq<seq<nat>>, nested': seq<nat>)
    requires i < |hs| && |children| == i && parent == ParentOf(hs, i)
    requires forall p :: 0 <= p < i ==> children[p] == KidsBelow(hs, Some(p), i)
    requires nested == KidsBelow(hs, None, i)
    requires children' == (if parent.Some? then children[parent.value := children[parent.value] + [i]] else children) + [[]]
    requires nested' == if parent.None? then nested + [i] else nested
    ensures |children'| == i + 1
    ensures forall p :: 0 <= p < i + 1 ==> children'[p] == KidsBelow(hs, Some(p), i + 1)
    ensures nested' == KidsBelow(hs, None, i + 1)
  {
    forall p | 0 <= p < i + 1 ensures children'[p] == KidsBelow(hs, Some(p), i + 1) {
      if p == i {
        NoEarlyKids(hs, i, i + 1);
      } else {
        assert KidsBelow(hs, Some(p), i + 1) == KidsBelow(hs, Some(p), i) + (if parent == Some(p) then [i] else []);
      }
    }
  }

  /** The chained id of heading `i`, from its parent's id. */
  lemma IdFromParent(hs: seq<Element>, i: nat)
    requires i < |hs|
    ensures ParentOf(hs, i).None? ==> Id(hs, i) == Dasherize(hs[i].text)
    ensures ParentOf(hs, i).Some? ==> Id(hs, i) == Id(hs, ParentOf(hs, i).value) + "-" + Dasherize(hs[i].text)
  {
  }

  /** Every id ends in its heading's own dasherized text. */
  lemma IdEndsWithText(hs: seq<Element>, i: nat)
    requires i < |hs|
    ensures EndsWith(Id(hs, i), Dasherize(hs[i].text))
  {
    var own := Dasherize(hs[i].text);
    if ParentOf(hs, i).Some? {
      var pre := Id(hs, ParentOf(hs, i).value) + "-";
      assert Id(hs, i) == pre + own;
      assert (pre + own)[|pre|..] == own;
    }
  }

  /** Giving heading `i` its chained id keeps every id as the placement rule prescribes. */
  lemma IdsStep(hs: seq<Element>, i: nat, ids: seq<string>, parent: Option<nat>, ids': seq<string>)
    requires i < |hs| && |ids| == i && parent == ParentOf(hs, i)
    requires forall k :: 0 <= k < i ==> ids[k] == Id(hs, k)
    requires ids' == ids + [if parent.Some? then ids[parent.value] + "-" + Dasherize(hs[i].text) else Dasherize(hs[i].text)]
    ensures forall k :: 0 <= k < i + 1 ==> ids'[k] == Id(hs, k)
  {
    assert ids'[i] == Id(hs, i) by {
      IdFromParent(hs, i);
    }
    forall k | 0 <= k < i ensures ids'[k] == Id(hs, k) {
      assert ids'[k] == ids[k];
    }
  }

  /** What the nesting loop has built after the first `i` headings: their ids and children lists
      and the top-level entries among them, as the placement rule prescribes. */
  ghost predicate Built(hs: seq<Element>, i: nat, ids: seq<string>, children: seq<seq<nat>>, nested: seq<nat>) {
    && i <= |hs| && |ids| == i && |children| == i
    && (forall k :: 0 <= k < i ==> ids[k] == Id(hs, k))
    && (forall p :: 0 <= p < i ==> children[p] == KidsBelow(hs, Some(p), i))
    && nested == KidsBelow(hs, None, i)
  }

  /** One turn of the nesting loop: heading `i` gets its chained id and is placed under `parent`. */
  lemma NestStep(hs: seq<Element>, i: nat, parent: Option<nat>, ids: seq<string>, children: seq<seq<nat>>, nested: seq<nat>,
                 ids': seq<string>, children': seq<seq<nat>>, nested': seq<nat>)
    requires i < |hs| && Built(hs, i, ids, children, nested) && parent == ParentOf(hs, i)
    requires ids' == ids + [if parent.Some? then ids[parent.value] + "-" + Dasherize(hs[i].text) else Dasherize(hs[i].text)]
    requires children' == (if parent.Some? then children[parent.value := children[parent.value] + [i]] else children) + [[]]
    requires nested' == if parent.None? then nested + [i] else nested
    ensures Built(hs, i + 1, ids', children', nested')
  {
    IdsStep(hs, i, ids, parent, ids');
    KidsStep(hs, i, parent, children, nested, children', nested');
  }

  /** The nesting loop of `process`: `last_chain` is popped while the heading is not deeper than its
      top, the surviving top becomes the parent, and the heading is pushed. */
  method Nest(hs: seq<Element>) returns (t: Nesting)
    ensures Prescribed(hs, t)
  {
    var ids: seq<string> := [];
    var children: seq<seq<nat>> := [];
    var nested: seq<nat> := [];
    var chain: seq<nat> := [];
    for i := 0 to |hs|
      invariant Built(hs, i, ids, children, nested)
      invariant ChainInv(hs, i, chain)
    {
      var own := Dasherize(hs[i].text);
      var k := Pop(hs, i, chain);
      PopLeavesParent(hs, i, chain, k);
      var parent := if k > 0 then Some(chain[k - 1]) else None;
      var ids' := ids + [if parent.Some? then ids[parent.value] + "-" + own else own];
      var children' := (if parent.Some? then children[parent.value := children[parent.value] + [i]] else children) + [[]];
      var nested' := if parent.None? then nested + [i] else nested;
      NestStep(hs, i, parent, ids, children, nested, ids', children', nested');
      ids, children, nested := ids', children', nested';
      chain := chain[..k] + [i];
    }
    t := Nesting(ids, children, nested);
  }

  /** Where the subtree of heading `j` ends: the first later heading that is not deeper, or the end
      of the page. */
  function End(hs: seq<Element>, j: nat): (e: nat)
    requires j < |hs|
    ensures j < e <= |hs|
    ensures forall k :: j < k < e ==> hs[k].level > hs[j].level
    ensures e < |hs| ==> hs[e].level <= hs[j].level
  {
    EndFrom(hs, j, j + 1)
  }

  function EndFrom(hs: seq<Element>, j: nat, k: nat): (e: nat)
    requires j < k <= |hs|
    requires forall m :: j < m < k ==> hs[m].level > hs[j].level
    ensures k <= e <= |hs|
    ensures forall m :: j < m < e ==> hs[m].level > hs[j].level
    ensures e < |hs| ==> hs[e].level <= hs[j].level
    decreases |hs| - k
  {
    if k == |hs| || hs[k].level <= hs[j].level then k else EndFrom(hs, j, k + 1)
  }

  /** The first position where a child of `par` can stand, and the end of `par`'s subtree. */
  function Lo(par: Option<nat>): nat {
    if par.Some? then par.value + 1 else 0
  }

  function Hi(hs: seq<Element>, par: Option<nat>): (r: nat)
    requires par.Some? ==> par.value < |hs|
    ensures Lo(par) <= r <= |hs|
  {
    if par.Some? then End(hs, par.value) else |hs|
  }

  /** Positions `a`, `a + 1`, …, `b - 1`. */
  function Range(a: nat, b: nat): (r: seq<nat>)
    requires a <= b
    ensures |r| == b - a && forall s :: 0 <= s < |r| ==> r[s] == a + s
  {
    seq(b - a, s requires 0 <= s < b - a => a + s)
  }

  lemma RangeConcat(a: nat, b: nat, c: nat)
    requires a <= b <= c
    ensures Range(a, b) + Range(b, c) == Range(a, c)
  {
  }

  /** A run of positions is its first one followed by the rest. */
  lemma RangeCons(a: nat, b: nat)
    requires a < b
    ensures [a] + Range(a + 1, b) == Range(a, b)
  {
  }

  /** The placement rule, read backwards: a heading whose nearest shallower predecessor is `j`
      has parent `j`. */
  lemma ParentUnique(hs: seq<Element>, i: nat, j: nat)
    requires j < i < |hs| && hs[j].level < hs[i].level
    requires forall k :: j < k < i ==> hs[k].level >= hs[i].level
    ensures ParentOf(hs, i) == Some(j)
  {
  }

  /** A child of `j` lies inside `j`'s subtree. */
  lemma KidInside(hs: seq<Element>, c: nat, j: nat)
    requires c < |hs| && ParentOf(hs, c) == Some(j)
    ensures j < c < End(hs, j)
  {
  }

  /** Every heading inside the subtree of `c` has its parent inside that subtree too. */
  lemma InsideHasInnerParent(hs: seq<Element>, c: nat)
    requires c < |hs|
    ensures forall k :: c < k < End(hs, c) ==> ParentOf(hs, k).Some? && ParentOf(hs, k).value >= c
  {
    forall k | c < k < End(hs, c) ensures ParentOf(hs, k).Some? && ParentOf(hs, k).value >= c {
      assert hs[c].level < hs[k].level;
    }
  }

  /** The subtree of a child of `par` ends within `par`'s, and where it ends before `par`'s does,
      the next child of `par` begins. */
  lemma NextKid(hs: seq<Element>, c: nat, par: Option<nat>)
    requires c < |hs| && ParentOf(hs, c) == par
    ensures Lo(par) <= c < Hi(hs, par)
    ensures End(hs, c) <= Hi(hs, par)
    ensures End(hs, c) < Hi(hs, par) ==> ParentOf(hs, End(hs, c)) == par
  {
    var e := End(hs, c);
    match par
    case None =>
      if e < |hs| {
        assert forall k :: 0 <= k < e ==> hs[k].level >= hs[e].level by {
          forall k | 0 <= k < e ensures hs[k].level >= hs[e].level {
            if c < k {
              assert hs[k].level > hs[c].level;
            }
          }
        }
      }
    case Some(j) =>
      KidInside(hs, c, j);
      var ej := End(hs, j);
      if ej < |hs| {
        assert hs[ej].level < hs[c].level;
      }
      if e < ej {
        assert hs[e].level > hs[j].level;
        forall k | j < k < e ensures hs[k].level >= hs[e].level {
          if c < k {
            assert hs[k].level > hs[c].level;
          }
        }
        ParentUnique(hs, e, j);
      }
  }

  /** The first position after `par` holds its first child, unless `par`'s subtree is empty. */
  lemma FirstKid(hs: seq<Element>, par: Option<nat>)
    requires par.Some? ==> par.value < |hs|
    ensures Lo(par) <= Hi(hs, par)
    ensures Lo(par) < Hi(hs, par) ==> ParentOf(hs, Lo(par)) == par
  {
    if par.Some? && Lo(par) < Hi(hs, par) {
      ParentUnique(hs, Lo(par), par.value);
    }
  }

  /** After a child of `par`, the next child starts where the first one's subtree ends. */
  lemma NextKidIsEnd(hs: seq<Element>, par: Option<nat>, c: nat, c': nat)
    requires c < c' < |hs| && ParentOf(hs, c) == par && ParentOf(hs, c') == par
    requires forall k :: c < k < c' ==> k < |hs| && ParentOf(hs, k) != par
    ensures c' == End(hs, c)
  {
    NextKid(hs, c, par);
    InsideHasInnerParent(hs, c);
    NextKid(hs, c', par);
  }

  lemma KidsInSubtree(hs: seq<Element>, par: Option<nat>)
    requires par.Some? ==> par.value < |hs|
    ensures forall s :: 0 <= s < |KidsBelow(hs, par, |hs|)| ==> Lo(par) <= KidsBelow(hs, par, |hs|)[s] < Hi(hs, par)
  {
    var kids := KidsBelow(hs, par, |hs|);
    KidsBelowMembers(hs, par, |hs|);
    forall s | 0 <= s < |kids| ensures Lo(par) <= kids[s] < Hi(hs, par) {
      assert kids[s] in kids;
      NextKid(hs, kids[s], par);
    }
  }

  lemma KidsEnds(hs: seq<Element>, par: Option<nat>)
    requires par.Some? ==> par.value < |hs|
    ensures var kids := KidsBelow(hs, par, |hs|);
      && (kids == [] ==> Lo(par) == Hi(hs, par))
      && (kids != [] ==> kids[0] == Lo(par) && End(hs, kids[|kids| - 1]) == Hi(hs, par))
  {
    var kids := KidsBelow(hs, par, |hs|);
    if kids != [] {
      FirstKidIsLo(hs, par);
      LastKidEnds(hs, par);
    } else {
      KidsBelowMembers(hs, par, |hs|);
      FirstKid(hs, par);
    }
  }

  lemma FirstKidIsLo(hs: seq<Element>, par: Option<nat>)
    requires par.Some? ==> par.value < |hs|
    requires KidsBelow(hs, par, |hs|) != []
    ensures KidsBelow(hs, par, |hs|)[0] == Lo(par)
  {
    var kids := KidsBelow(hs, par, |hs|);
    KidsBelowMembers(hs, par, |hs|);
    KidsInSubtree(hs, par);
    FirstKid(hs, par);
    assert Lo(par) <= kids[0] < Hi(hs, par) <= |hs|;
    assert Lo(par) in kids;
  }

  lemma LastKidEnds(hs: seq<Element>, par: Option<nat>)
    requires par.Some? ==> par.value < |hs|
    requires KidsBelow(hs, par, |hs|) != []
    ensures End(hs, KidsBelow(hs, par, |hs|)[|KidsBelow(hs, par, |hs|)| - 1]) == Hi(hs, par)
  {
    var kids := KidsBelow(hs, par, |hs|);
    var last := kids[|kids| - 1];
    KidsBelowHas(hs, par, |hs|);
    assert last in kids;
    NextKid(hs, last, par);
    KidsBelowIncreasing(hs, par, |hs|);
    AboveLast(kids, End(hs, last));
  }

  /** Nothing above the last element of an increasing sequence is in it. */
  lemma AboveLast(kids: seq<nat>, x: nat)
    requires Increasing(kids) && kids != [] && x > kids[|kids| - 1]
    ensures x !in kids
  {
    forall u | 0 <= u < |kids| ensures kids[u] < x {
      if u < |kids| - 1 {
        assert kids[u] < kids[|kids| - 1];
      }
    }
  }

  lemma KidsConsecutive(hs: seq<Element>, par: Option<nat>)
    requires par.Some? ==> par.value < |hs|
    ensures var kids := KidsBelow(hs, par, |hs|);
      forall s :: 0 <= s < |kids| - 1 ==> kids[s + 1] == End(hs, kids[s])
  {
    var kids := KidsBelow(hs, par, |hs|);
    KidsBelowMembers(hs, par, |hs|);
    forall s | 0 <= s < |kids| - 1 ensures kids[s + 1] == End(hs, kids[s]) {
      var c, c' := kids[s], kids[s + 1];
      assert c in kids && c' in kids;
      assert forall u :: 0 <= u < |kids| ==> kids[u] <= c || c' <= kids[u];
      NextKidIsEnd(hs, par, c, c');
    }
  }

  /** The children of `par` tile its subtree: the first starts right after `par`, each one's
      subtree ends where the next one starts, and the last one's ends where `par`'s does. */
  lemma KidsTile(hs: seq<Element>, par: Option<nat>)
    requires par.Some? ==> par.value < |hs|
    ensures var kids := KidsBelow(hs, par, |hs|);
      && (forall s :: 0 <= s < |kids| ==> Lo(par) <= kids[s] < Hi(hs, par))
      && (kids == [] ==> Lo(par) == Hi(hs, par))
      && (kids != [] ==> kids[0] == Lo(par) && End(hs, kids[|kids| - 1]) == Hi(hs, par))
      && (forall s :: 0 <= s < |kids| - 1 ==> kids[s + 1] == End(hs, kids[s]))
  {
    KidsInSubtree(hs, par);
    KidsEnds(hs, par);
    KidsConsecutive(hs, par);
  }

  /** The nodes that `process` builds satisfy the shape `build_tree` relies on: a child stands after
      its parent. */
  ghost predicate WellFormed(t: Nesting, n: nat) {
    && |t.ids| == n && |t.children| == n
    && (forall c, s :: 0 <= c < n && 0 <= s < |t.children[c]| ==> c < t.children[c][s] < n)
    && (forall s :: 0 <= s < |t.nested| ==> t.nested[s] < n)
  }

  lemma PrescribedIsWellFormed(hs: seq<Element>, t: Nesting)
    requires Prescribed(hs, t)
    ensures WellFormed(t, |hs|)
  {
    forall c, s | 0 <= c < |hs| && 0 <= s < |t.children[c]| ensures c < t.children[c][s] < |hs| {
      KidsBelowMembers(hs, Some(c), |hs|);
      assert t.children[c][s] in KidsBelow(hs, Some(c), |hs|);
    }
  }

  /** The headings of the subtree of `c`, in the order `build_tree` visits them. */
  ghost function Subtree(t: Nesting, n: nat, c: nat): (r: seq<nat>)
    requires WellFormed(t, n) && c < n
    ensures forall s :: 0 <= s < |r| ==> c <= r[s] < n
    decreases n - c, 0
  {
    [c] + Preorder(t, n, t.children[c], c + 1)
  }

  /** The headings of the subtrees of `cs`, in the order `build_tree` visits them. */
  ghost function Preorder(t: Nesting, n: nat, cs: seq<nat>, lo: nat): (r: seq<nat>)
    requires WellFormed(t, n) && lo <= n
    requires forall s :: 0 <= s < |cs| ==> lo <= cs[s] < n
    ensures forall s :: 0 <= s < |r| ==> lo <= r[s] < n
    decreases n - lo, |cs| + 1
  {
    if cs == [] then [] else Preorder(t, n, cs[..|cs| - 1], lo) + Subtree(t, n, cs[|cs| - 1])
  }

  /** `kids` are positions between `lo` and `hi` whose subtrees, one after another, cover exactly
      the positions from `lo` to `hi`. */
  ghost predicate Tiles(hs: seq<Element>, kids: seq<nat>, lo: nat, hi: nat) {
    && lo <= hi <= |hs|
    && (forall s :: 0 <= s < |kids| ==> lo <= kids[s] < hi)
    && (kids == [] ==> lo == hi)
    && (kids != [] ==> kids[0] == lo && End(hs, kids[|kids| - 1]) == hi)
    && (forall s :: 0 <= s < |kids| - 1 ==> kids[s + 1] == End(hs, kids[s]))
  }

  /** The children that `process` gives a heading tile that heading's subtree. */
  lemma ChildrenTile(hs: seq<Element>, t: Nesting, j: nat)
    requires Placed(hs, t) && j < |hs|
    ensures Tiles(hs, t.children[j], j + 1, End(hs, j))
  {
    KidsTile(hs, Some(j));
  }

  /** The top-level list that `process` builds tiles the whole document. */
  lemma NestedTiles(hs: seq<Element>, t: Nesting)
    requires Placed(hs, t)
    ensures Tiles(hs, t.nested, 0, |hs|)
  {
    KidsTile(hs, None);
  }

  /** The subtree of heading `j` is the run of headings from `j` to the end of its subtree. */
  lemma {:induction false} SubtreeIsRange(hs: seq<Element>, t: Nesting, j: nat)
    requires Placed(hs, t) && WellFormed(t, |hs|) && j < |hs|
    ensures Subtree(t, |hs|, j) == Range(j, End(hs, j))
    decreases |hs| - j + 1, 0
  {
    var kids, e := t.children[j], End(hs, j);
    ChildrenTile(hs, t, j);
    assert Subtree(t, |hs|, j) == [j] + Preorder(t, |hs|, kids, j + 1);
    RangeCons(j, e);
    if kids == [] {
      assert e == j + 1;
      assert Range(j + 1, e) == [];
    } else {
      PrefixIsRange(hs, t, kids, j + 1, e, |kids|);
      assert kids[..|kids|] == kids;
    }
  }

  /** The first `m` of a tiling run of children, walked in preorder, cover the headings from the
      first child to the end of the `m`-th child's subtree. */
  lemma {:induction false} PrefixIsRange(hs: seq<Element>, t: Nesting, kids: seq<nat>, lo: nat, hi: nat, m: nat)
    requires Placed(hs, t) && WellFormed(t, |hs|) && Tiles(hs, kids, lo, hi) && 0 < m <= |kids|
    ensures Preorder(t, |hs|, kids[..m], lo) == Range(lo, End(hs, kids[m - 1]))
    decreases |hs| - lo + 1, m
  {
    var c := kids[m - 1];
    SubtreeIsRange(hs, t, c);
    assert kids[..m][..m - 1] == kids[..m - 1];
    if m == 1 {
      assert Preorder(t, |hs|, kids[..m], lo) == Subtree(t, |hs|, c);
    } else {
      PrefixIsRange(hs, t, kids, lo, hi, m - 1);
      RangeConcat(lo, c, End(hs, c));
    }
  }

  /** `process` places every heading exactly once: walking the nested list in preorder gives back
      the headings in document order. */
  lemma PreorderIsDocumentOrder(hs: seq<Element>, t: Nesting)
    requires Prescribed(hs, t)
    ensures WellFormed(t, |hs|)
    ensures Preorder(t, |hs|, t.nested, 0) == Range(0, |hs|)
  {
    PrescribedIsWellFormed(hs, t);
    NestedTiles(hs, t);
    if t.nested != [] {
      PrefixIsRange(hs, t, t.nested, 0, |hs|, |t.nested|);
      assert t.nested[..|t.nested|] == t.nested;
    }
  }

  /** The nesting `process` builds for the headings `hs`, as a value. */
  ghost function NestingOf(hs: seq<Element>): (t: Nesting)
    ensures Prescribed(hs, t) && WellFormed(t, |hs|)
    ensures Preorder(t, |hs|, t.nested, 0) == Range(0, |hs|)
  {
    var t := Nesting(seq(|hs|, i requires 0 <= i < |hs| => Id(hs, i)),
                     seq(|hs|, p requires 0 <= p < |hs| => KidsBelow(hs, Some(p), |hs|)),
                     KidsBelow(hs, None, |hs|));
    PreorderIsDocumentOrder(hs, t);
    t
  }

  /** The placement rule leaves no choice: every nesting it prescribes is `NestingOf(hs)`. */
  lemma PrescribedIsNestingOf(hs: seq<Element>, t: Nesting)
    requires Prescribed(hs, t)
    ensures t == NestingOf(hs)
  {
    var u := NestingOf(hs);
    assert t.ids == u.ids;
    assert t.children == u.children;
  }

  /** The anchor token `build_tree` appends to a heading. */
  function Token(id: string): string {
    "<div id=\"" + id + "\" class=\"dw-nav-token\"></div>"
  }

  /** What `build_tree` does to one heading: its `id` attribute is removed and the token carrying
      its chained id is appended. */
  function Mark(e: Element, id: string): (r: Element)
    ensures r.level == e.level && r.text == e.text && r.idAttr == None
    ensures r.appended == e.appended + [Token(id)]
  {
    e.(idAttr := None, appended := e.appended + [Token(id)])
  }

  function Texts(hs: seq<Element>): (r: seq<string>)
    ensures |r| == |hs| && forall k :: 0 <= k < |hs| ==> r[k] == hs[k].text
  {
    seq(|hs|, k requires 0 <= k < |hs| => hs[k].text)
  }

  /** The headings after marking the positions of `order`, one after another, each with its id. */
  function MarkAll(hs: seq<Element>, ids: seq<string>, order: seq<nat>): (r: seq<Element>)
    requires |ids| == |hs| && forall s :: 0 <= s < |order| ==> order[s] < |hs|
    ensures |r| == |hs| && Texts(r) == Texts(hs)
    ensures forall k :: 0 <= k < |hs| ==> r[k].level == hs[k].level
  {
    if order == [] then hs
    else
      var prev := MarkAll(hs, ids, order[..|order| - 1]);
      var c := order[|order| - 1];
      var r := prev[c := Mark(prev[c], ids[c])];
      assert Texts(r) == Texts(prev);
      r
  }

  /** Marking one run of positions and then another is marking their concatenation. */
  lemma {:induction false} MarkAllAppend(hs: seq<Element>, ids: seq<string>, a: seq<nat>, b: seq<nat>)
    requires |ids| == |hs|
    requires forall s :: 0 <= s < |a| ==> a[s] < |hs|
    requires forall s :: 0 <= s < |b| ==> b[s] < |hs|
    ensures MarkAll(hs, ids, a + b) == MarkAll(MarkAll(hs, ids, a), ids, b)
    decreases |b|
  {
    if b == [] {
      assert a + b == a;
    } else {
      var b0 := b[..|b| - 1];
      MarkAllAppend(hs, ids, a, b0);
      assert (a + b)[..|a + b| - 1] == a + b0;
    }
  }

  /** Marking the run of positions `a..b` marks each of them exactly once and nothing else. */
  lemma {:induction false} MarkRange(hs: seq<Element>, ids: seq<string>, a: nat, b: nat)
    requires |ids| == |hs| && a <= b <= |hs|
    ensures forall k :: 0 <= k < |hs| ==>
      MarkAll(hs, ids, Range(a, b))[k] == if a <= k < b then Mark(hs[k], ids[k]) else hs[k]
    decreases b
  {
    if a < b {
      MarkRange(hs, ids, a, b - 1);
      assert Range(a, b)[..b - a - 1] == Range(a, b - 1);
    }
  }

  /** One entry of the navigation list: `li(text, url)` with the nested list `inner` added inside it. */
  function ListItem(text: string, url: string, inner: string): string {
    "<li><a href=\"" + url + "\">" + text + "</a>" + inner + "</li>"
  }

  /** `li(text, url)`: an entry without a nested list. */
  function Li(text: string, url: string): (r: string)
    ensures r == ListItem(text, url, "")
  {
    "<li><a href=\"" + url + "\">" + text + "</a></li>"
  }

  /** The entry `build_tree` emits for heading `c`: a link to its token, and a nested
      `<ul class="nav">` with its children's entries when it has children. */
  function Item(texts: seq<string>, t: Nesting, n: nat, c: nat): string
    requires WellFormed(t, n) && |texts| == n && c < n
    decreases n - c, 0
  {
    var kids := t.children[c];
    var inner := if kids == [] then "" else "<ul class=\"nav\">" + NavItems(texts, t, n, kids, c + 1) + "</ul>";
    ListItem(texts[c], "#" + t.ids[c], inner)
  }

  /** The entries `build_tree` emits for the list `cs`, in order. */
  function NavItems(texts: seq<string>, t: Nesting, n: nat, cs: seq<nat>, lo: nat): string
    requires WellFormed(t, n) && |texts| == n && lo <= n
    requires forall s :: 0 <= s < |cs| ==> lo <= cs[s] < n
    decreases n - lo, |cs| + 1
  {
    if cs == [] then "" else NavItems(texts, t, n, cs[..|cs| - 1], lo) + Item(texts, t, n, cs[|cs| - 1])
  }

  /** The list is empty exactly when there are no entries: every entry is a non-empty `<li>`. */
  lemma NavItemsEmpty(texts: seq<string>, t: Nesting, n: nat, cs: seq<nat>, lo: nat)
    requires WellFormed(t, n) && |texts| == n && lo <= n
    requires forall s :: 0 <= s < |cs| ==> lo <= cs[s] < n
    ensures NavItems(texts, t, n, cs, lo) == "" <==> cs == []
  {
    if cs != [] {
      var last := Item(texts, t, n, cs[|cs| - 1]);
      assert StartsWith(last, "<li");
    }
  }

  /** Walking one more entry of a list covers that entry's subtree after the earlier ones. */
  lemma PreorderStep(t: Nesting, n: nat, cs: seq<nat>, lo: nat, i: nat)
    requires WellFormed(t, n) && lo <= n && i < |cs|
    requires forall s :: 0 <= s < |cs| ==> lo <= cs[s] < n
    ensures Preorder(t, n, cs[..i + 1], lo) == Preorder(t, n, cs[..i], lo) + Subtree(t, n, cs[i])
  {
    assert cs[..i + 1][..i] == cs[..i];
  }

  /** Marking a heading and then its children's subtrees marks the heading's whole subtree. */
  lemma MarkStep(hs: seq<Element>, t: Nesting, n: nat, c: nat, mid: seq<Element>, after: seq<Element>)
    requires WellFormed(t, n) && |hs| == n && c < n
    requires mid == hs[c := Mark(hs[c], t.ids[c])]
    requires after == MarkAll(mid, t.ids, Preorder(t, n, t.children[c], c + 1))
    ensures after == MarkAll(hs, t.ids, Subtree(t, n, c))
  {
    var kids := Preorder(t, n, t.children[c], c + 1);
    assert [c][..0] == [];
    assert mid == MarkAll(hs, t.ids, [c]);
    MarkAllAppend(hs, t.ids, [c], kids);
  }

  /** Emitting one more entry of a list appends that entry's item. */
  lemma NavStep(texts: seq<string>, t: Nesting, n: nat, cs: seq<nat>, lo: nat, i: nat, html: string, item: string)
    requires WellFormed(t, n) && |texts| == n && lo <= n && i < |cs|
    requires forall s :: 0 <= s < |cs| ==> lo <= cs[s] < n
    requires html == NavItems(texts, t, n, cs[..i], lo)
    requires item == Item(texts, t, n, cs[i])
    ensures html + item == NavItems(texts, t, n, cs[..i + 1], lo)
  {
    assert cs[..i + 1][..i] == cs[..i];
  }

  /** One round of the loop of `build_tree`: heading `c` is marked, its entry is emitted (when
      there is a `dest`), and its children are walked into a nested list inside that entry. */
  method BuildEntry(els: array<Element>, t: Nesting, c: nat, dest: bool) returns (item: string)
    requires WellFormed(t, els.Length) && c < els.Length
    modifies els
    ensures els[..] == MarkAll(old(els[..]), t.ids, Subtree(t, els.Length, c))
    ensures item == if dest then Item(Texts(old(els[..])), t, els.Length, c) else ""
    decreases els.Length - c, 0
  {
    ghost var hs := els[..];
    var n := els.Length;
    els[c] := Mark(els[c], t.ids[c]);
    ghost var mid := els[..];
    assert mid == hs[c := Mark(hs[c], t.ids[c])];
    assert Texts(mid) == Texts(hs);
    var text := els[c].text;
    var inner := "";
    ghost var sub := Preorder(t, n, t.children[c], c + 1);
    if t.children[c] != [] {
      inner := BuildTree(els, t, t.children[c], c + 1, dest);
      if dest {
        inner := "<ul class=\"nav\">" + inner + "</ul>";
      }
    } else {
      assert sub == [];
      assert els[..] == MarkAll(mid, t.ids, sub);
    }
    MarkStep(hs, t, n, c, mid, els[..]);
    if dest {
      item := ListItem(text, "#" + t.ids[c], inner);
    } else {
      item := "";
    }
  }

  /** `build_tree(elements, dest)`: marks every heading of the subtrees of `elements`, in preorder,
      and returns the entries added to the navigation list (nothing when there is no `dest`). */
  method BuildTree(els: array<Element>, t: Nesting, elements: seq<nat>, lo: nat, dest: bool) returns (html: string)
    requires WellFormed(t, els.Length) && lo <= els.Length
    requires forall s :: 0 <= s < |elements| ==> lo <= elements[s] < els.Length
    modifies els
    ensures els[..] == MarkAll(old(els[..]), t.ids, Preorder(t, els.Length, elements, lo))
    ensures html == if dest then NavItems(Texts(old(els[..])), t, els.Length, elements, lo) else ""
    decreases els.Length - lo, 1
  {
    ghost var hs := els[..];
    var n := els.Length;
    html := "";
    for i := 0 to |elements|
      invariant els[..] == MarkAll(hs, t.ids, Preorder(t, n, elements[..i], lo))
      invariant html == if dest then NavItems(Texts(hs), t, n, elements[..i], lo) else ""
    {
      var c := elements[i];
      PreorderStep(t, n, elements, lo, i);
      ghost var before := els[..];
      assert Texts(before) == Texts(hs);
      var item := BuildEntry(els, t, c, dest);
      MarkAllAppend(hs, t.ids, Preorder(t, n, elements[..i], lo), Subtree(t, n, c));
      if dest {
        NavStep(Texts(hs), t, n, elements, lo, i, html, item);
        html := html + item;
      }
    }
    assert elements[..|elements|] == elements;
  }

  /** `process(page, target, dest)`: every heading loses its `id` attribute and gains the token of
      its chained id, and the navigation list receives one entry per top-level heading, each
      holding its children's entries. */
  method Process(els: array<Element>, dest: bool) returns (nav: string)
    modifies els
    ensures forall k :: 0 <= k < els.Length ==> els[k] == Mark(old(els[k]), Id(old(els[..]), k))
    ensures nav == if dest then NavItems(Texts(old(els[..])), NestingOf(old(els[..])), els.Length,
                                         NestingOf(old(els[..])).nested, 0) else ""
  {
    ghost var hs := els[..];
    var t := Nest(els[..]);
    PrescribedIsNestingOf(hs, t);
    nav := BuildTree(els, t, t.nested, 0, dest);
    MarkRange(hs, t.ids, 0, |hs|);
  }
}

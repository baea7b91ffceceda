/**
 * The frontmatter pattern shared by all three generations of the chapter code
 * (lib/skylight/docs/chapter.rb, lib/docs.rb, lib/skylight/docs.rb):
 *
 *   \A(---\s*\n.*?\n?)^((---|\.\.\.)\s*$\n?)   with the `m` flag (`.` also matches a newline)
 *
 * The regular-expression engine is replaced by a deterministic search that picks the match
 * the backtracking engine picks:
 *   - the opening `---` must start the text; its greedy `\s*\n` ends at the LAST newline of the
 *     whitespace run that follows it;
 *   - the lazy `.*?\n?^` then stops at the FIRST later line start that holds `---` or `...`
 *     followed by whitespace reaching the end of a line;
 *   - the greedy `\s*$` takes the LAST end of line inside that whitespace, and `\n?` then eats the
 *     newline that ends it.
 * Backtracking to an earlier newline of the opening run can never help: every offset inside that
 * run is whitespace, and a closing delimiter starts with `-` or `.`.
 */
module Frontmatter {
  import opened Wrappers
  import opened RubyText

  ghost predicate AllSpace(s: string, i: int, j: int)
    requires 0 <= i <= j <= |s|
  {
    forall t :: i <= t < j ==> IsSpace(s[t])
  }

  /** A closing delimiter, `---` or `...`, starts at offset `k`. */
  predicate Delimiter(s: string, k: int) {
    OccursAt(s, "---", k) || OccursAt(s, "...", k)
  }

  /** `---\s*\n` at the head of `s`, ending with the newline at offset `q`. */
  ghost predicate OpensAt(s: string, q: int) {
    StartsWith(s, "---") && 3 <= q < |s| && AllSpace(s, 3, q) && s[q] == '\n'
  }

  /** `^(---|\.\.\.)\s*$` with the delimiter at offset `k` and the end of line at offset `f`. */
  ghost predicate ClosesAt(s: string, k: int, f: int) {
    LineStart(s, k) && Delimiter(s, k) && k + 3 <= f <= |s| && AllSpace(s, k + 3, f) && LineEnd(s, f)
  }

  /** Offsets that make the whole pattern match. */
  ghost predicate Shape(s: string, q: int, k: int, f: int) {
    OpensAt(s, q) && q < k && ClosesAt(s, k, f)
  }

  /** The end of the match once the closing line ends at `f`: `\n?` eats the newline there. */
  function MatchEnd(s: string, f: nat): nat
    requires f <= |s|
  {
    if f < |s| then f + 1 else f
  }

  /** First offset at or after `i` that is not whitespace (or the end of the text). */
  function SpaceRunEnd(s: string, i: nat): (j: nat)
    requires i <= |s|
    ensures i <= j <= |s| && AllSpace(s, i, j)
    ensures j == |s| || !IsSpace(s[j])
    decreases |s| - i
  {
    if i < |s| && IsSpace(s[i]) then SpaceRunEnd(s, i + 1) else i
  }

  /** The last newline in `s[lo..hi]`. */
  function LastNewline(s: string, lo: nat, hi: nat): (r: Option<nat>)
    requires lo <= hi <= |s|
    ensures r.Some? ==> lo <= r.value < hi && s[r.value] == '\n'
    ensures r.Some? ==> forall t :: r.value < t < hi ==> s[t] != '\n'
    ensures r.None? ==> forall t :: lo <= t < hi ==> s[t] != '\n'
    decreases hi
  {
    if hi == lo then None
    else if s[hi - 1] == '\n' then Some(hi - 1)
    else LastNewline(s, lo, hi - 1)
  }

  /** The newline that ends `---\s*\n`, as the greedy `\s*` leaves it. */
  function OpeningNewline(s: string): (r: Option<nat>)
    ensures r.Some? ==> OpensAt(s, r.value)
    ensures r.Some? ==> forall q :: OpensAt(s, q) ==> q <= r.value
    ensures r.None? ==> forall q :: !OpensAt(s, q)
  {
    if StartsWith(s, "---") then
      var w := SpaceRunEnd(s, 3);
      var r := LastNewline(s, 3, w);
      assert forall q :: OpensAt(s, q) ==> q < w by {
        forall q | OpensAt(s, q) ensures q < w {
          assert forall t :: 3 <= t <= q ==> IsSpace(s[t]);
        }
      }
      r
    else None
  }

  /** The end of line that the greedy `\s*$` after a delimiter at `k` settles on. */
  function ClosingLineEnd(s: string, k: nat): (r: Option<nat>)
    requires LineStart(s, k) && Delimiter(s, k)
    ensures r.Some? ==> ClosesAt(s, k, r.value)
    ensures r.Some? ==> forall f :: ClosesAt(s, k, f) ==> f <= r.value
    ensures r.None? ==> forall f :: !ClosesAt(s, k, f)
  {
    var w := SpaceRunEnd(s, k + 3);
    assert forall f :: ClosesAt(s, k, f) ==> f <= w by {
      forall f | ClosesAt(s, k, f) ensures f <= w {
        assert forall t :: k + 3 <= t < f ==> IsSpace(s[t]);
      }
    }
    if w == |s| then Some(w)
    else
      var r := LastNewline(s, k + 3, w);
      assert forall f :: ClosesAt(s, k, f) ==> f < w by {
        forall f | ClosesAt(s, k, f) ensures f < w {
          assert !IsSpace(s[w]);
        }
      }
      r
  }

  /** Some closing line starts at `k`. */
  predicate ClosingLineAt(s: string, k: nat) {
    LineStart(s, k) && Delimiter(s, k) && ClosingLineEnd(s, k).Some?
  }

  /** The first closing line at or after offset `e`, as the lazy `.*?` finds it. */
  function FirstClosing(s: string, e: nat): (r: Option<nat>)
    requires e <= |s|
    ensures r.Some? ==> e <= r.value && ClosingLineAt(s, r.value)
    ensures r.Some? ==> forall k :: e <= k < r.value ==> !ClosingLineAt(s, k)
    ensures r.None? ==> forall k :: e <= k <= |s| ==> !ClosingLineAt(s, k)
    decreases |s| - e
  {
    if ClosingLineAt(s, e) then Some(e)
    else if e == |s| then None
    else FirstClosing(s, e + 1)
  }

  /** The end offset of the frontmatter match, or `None` when the pattern does not match. */
  function Match(s: string): (r: Option<nat>)
    ensures r.Some? ==> r.value <= |s|
  {
    match OpeningNewline(s)
    case None => None
    case Some(q) =>
      match FirstClosing(s, q + 1)
      case None => None
      case Some(k) => Some(MatchEnd(s, ClosingLineEnd(s, k).value))
  }

  /** `match.to_s`: the matched frontmatter block, or nothing. */
  function MatchedText(s: string): string {
    match Match(s)
    case None => ""
    case Some(m) => s[..m]
  }

  /** `match ? match.post_match : content`: the text after the frontmatter block, or all of it. */
  function Strip(s: string): (r: string)
    ensures |r| <= |s| && r == s[|s| - |r|..]
    ensures s == MatchedText(s) + r
  {
    match Match(s)
    case None => s
    case Some(m) => s[m..]
  }

  /** The pattern matches exactly when an opening `---` line is followed by a closing line. */
  lemma MatchIffShape(s: string)
    ensures Match(s).Some? <==> exists q, k, f :: Shape(s, q, k, f)
  {
    if Match(s).Some? {
      MatchHasShape(s);
    }
    if q, k, f :| Shape(s, q, k, f) {
      ShapeMatches(s, q, k, f);
    }
  }

  /** A match is an opening line, a closing line and its end. */
  lemma MatchHasShape(s: string)
    requires Match(s).Some?
    ensures exists q, k, f :: Shape(s, q, k, f)
  {
    var q := OpeningNewline(s).value;
    var k := FirstClosing(s, q + 1).value;
    var f := ClosingLineEnd(s, k).value;
    assert Shape(s, q, k, f);
  }

  /** An opening line followed by a closing line makes the pattern match. */
  lemma ShapeMatches(s: string, q: nat, k: nat, f: nat)
    requires Shape(s, q, k, f)
    ensures Match(s).Some?
  {
    var q' := OpeningNewline(s).value;
    assert q' < k by {
      assert !IsSpace(s[k]);
      assert forall t :: 3 <= t <= q' ==> IsSpace(s[t]);
    }
    assert ClosingLineAt(s, k);
    assert FirstClosing(s, q' + 1).Some?;
  }

  /** When it matches, the match is the one the backtracking engine picks: the last newline of the
      opening run, the first closing line after it, and the last end of line on that closing line. */
  lemma MatchIsFirstClosing(s: string, m: nat)
    requires Match(s) == Some(m)
    ensures exists q, k, f ::
      && Shape(s, q, k, f)
      && m == MatchEnd(s, f)
      && (forall q' :: OpensAt(s, q') ==> q' <= q)
      && (forall k', f' :: q < k' < k ==> !ClosesAt(s, k', f'))
      && (forall f' :: ClosesAt(s, k, f') ==> f' <= f)
  {
    var q := OpeningNewline(s).value;
    var k := FirstClosing(s, q + 1).value;
    var f := ClosingLineEnd(s, k).value;
    forall k', f' | q < k' < k ensures !ClosesAt(s, k', f') {
      assert !ClosingLineAt(s, k');
    }
    assert Shape(s, q, k, f);
  }
}

/**
 * lib/skylight/docs/version.rb: the gem version and the revision token used in cache keys.
 * `REVISION` is the hexadecimal suffix of the name of the directory the gem is installed in
 * (`root_dir =~ /-([0-9a-f]{6,})$/`), or `VERSION` when the name has none. The directory name
 * is a parameter here; the warning printed in the fallback case is not modelled.
 */
module DocsVersion {
  import opened Wrappers
  import opened RubyText

  const VERSION: string := "0.1.0"

  /** `[0-9a-f]`: lower-case hexadecimal digits only. */
  predicate IsHex(c: char) {
    IsDigit(c) || 'a' <= c <= 'f'
  }

  /** First offset at or after `i` that is not a hexadecimal digit. */
  function HexRunEnd(s: string, i: nat): (j: nat)
    requires i <= |s|
    ensures i <= j <= |s|
    ensures forall t :: i <= t < j ==> IsHex(s[t])
    ensures j == |s| || !IsHex(s[j])
    decreases |s| - i
  {
    if i < |s| && IsHex(s[i]) then HexRunEnd(s, i + 1) else i
  }

  /** `-([0-9a-f]{6,})$` matches with its `-` at offset `k`. The greedy repetition takes the whole
      run of hexadecimal digits; a shorter run would end before another hexadecimal digit, where
      `$` cannot hold. */
  predicate RevisionAt(s: string, k: nat) {
    k < |s| && s[k] == '-' && HexRunEnd(s, k + 1) - (k + 1) >= 6 && LineEnd(s, HexRunEnd(s, k + 1))
  }

  /** The leftmost match at or after offset `i`. */
  function FirstRevisionAt(s: string, i: nat): (r: Option<nat>)
    requires i <= |s|
    ensures r.Some? ==> i <= r.value && RevisionAt(s, r.value)
    ensures r.Some? ==> forall k :: i <= k < r.value ==> !RevisionAt(s, k)
    ensures r.None? ==> forall k :: i <= k ==> !RevisionAt(s, k)
    decreases |s| - i
  {
    if i == |s| then None
    else if RevisionAt(s, i) then Some(i)
    else FirstRevisionAt(s, i + 1)
  }

  /** `REVISION` for a root directory named `rootDir`. */
  function Revision(rootDir: string): (r: string)
    ensures r == VERSION || (|r| >= 6 && forall t :: 0 <= t < |r| ==> IsHex(r[t]))
  {
    match FirstRevisionAt(rootDir, 0)
    case Some(k) =>
      var r := rootDir[k + 1..HexRunEnd(rootDir, k + 1)];
      assert forall t :: 0 <= t < |r| ==> r[t] == rootDir[k + 1 + t];
      r
    case None => VERSION
  }

  /** The name ends with `-` followed by `n` (at least six) lower-case hexadecimal digits. */
  ghost predicate HasRevisionSuffix(s: string, n: nat) {
    6 <= n < |s| && s[|s| - n - 1] == '-' && forall t :: |s| - n <= t < |s| ==> IsHex(s[t])
  }

  /** For a directory name on one line, `REVISION` is the hexadecimal suffix after the last `-` when
      it has at least six lower-case digits, and `VERSION` otherwise. */
  lemma RevisionOfName(s: string)
    requires '\n' !in s
    ensures forall n :: HasRevisionSuffix(s, n) ==> Revision(s) == s[|s| - n..]
    ensures (forall n :: !HasRevisionSuffix(s, n)) ==> Revision(s) == VERSION
  {
    forall k: nat | RevisionAt(s, k)
      ensures HexRunEnd(s, k + 1) == |s| && HasRevisionSuffix(s, |s| - k - 1)
    {
      assert forall t :: 0 <= t < |s| ==> s[t] != '\n';
    }
    forall n | HasRevisionSuffix(s, n) ensures Revision(s) == s[|s| - n..] {
      var k := |s| - n - 1;
      assert HexRunEnd(s, k + 1) == |s|;
      assert RevisionAt(s, k);
      var r := FirstRevisionAt(s, 0);
      assert r.value == k by {
        assert HasRevisionSuffix(s, |s| - r.value - 1);
      }
    }
  }

  /** For a name `name-tail` on one line whose last `-` is the one before `tail`, `REVISION` is
      `tail` exactly when it is six or more lower-case hexadecimal digits. */
  lemma RevisionAfterLastDash(name: string, tail: string)
    requires '\n' !in name && '\n' !in tail && '-' !in tail
    ensures (|tail| >= 6 && forall t :: 0 <= t < |tail| ==> IsHex(tail[t])) ==> Revision(name + "-" + tail) == tail
    ensures !(|tail| >= 6 && forall t :: 0 <= t < |tail| ==> IsHex(tail[t])) ==> Revision(name + "-" + tail) == VERSION
  {
    var s := name + "-" + tail;
    assert '\n' !in s by {
      forall i | 0 <= i < |s| ensures s[i] != '\n' {
        if i < |name| {
          assert s[i] == name[i];
        } else if i > |name| {
          assert s[i] == tail[i - |name| - 1];
        }
      }
    }
    RevisionOfName(s);
    if |tail| >= 6 && forall t :: 0 <= t < |tail| ==> IsHex(tail[t]) {
      assert HasRevisionSuffix(s, |tail|) by {
        forall t | |s| - |tail| <= t < |s| ensures IsHex(s[t]) {
          assert s[t] == tail[t - |name| - 1];
        }
      }
      assert s[|s| - |tail|..] == tail;
    } else {
      forall n: nat | HasRevisionSuffix(s, n) ensures false {
      }
    }
  }

  /** Upper-case hexadecimal digits do not qualify: `docs-0A1B2C3` gives `VERSION`. */
  lemma RevisionUpperCase(name: string, tail: string, k: nat)
    requires '\n' !in name && '\n' !in tail && '-' !in tail
    requires k < |tail| && 'A' <= tail[k] <= 'F'
    ensures Revision(name + "-" + tail) == VERSION
  {
    RevisionAfterLastDash(name, tail);
  }

  /** Fewer than six hexadecimal digits do not qualify: `docs-0a1b2` gives `VERSION`. */
  lemma RevisionTooShort(name: string, tail: string)
    requires '\n' !in name && '\n' !in tail && '-' !in tail
    requires |tail| < 6
    ensures Revision(name + "-" + tail) == VERSION
  {
    RevisionAfterLastDash(name, tail);
  }
}

/**
 * lib/link_check.rb: the build-time link checker. `Checker.new(root)` indexes every built
 * `.html` page by its path relative to the build directory; `run` walks every `<a>` of every page,
 * skips external links, reports empty fragments, resolves the path part to a built page
 * (`…/index.html` for directories), checks that the fragment names an element there, and aborts
 * the build when anything was reported.
 *
 * A built page is given as what Nokogiri would find in it: the `href` of each of its links in
 * document order (`None` for a link without one), the `id`s of its elements and the `name`s of its
 * anchors. The warnings printed with `puts` are returned as a list of reports; `abort` and the
 * exception raised on a link without `href` are outcomes.
 */
module LinkCheck {
  import opened Wrappers
  import opened RubyText

  datatype Page = Page(links: seq<Option<string>>, ids: set<string>, names: set<string>)

  datatype Problem = EmptyFragment | BrokenLink | BrokenFragment

  /** One `[WARN]` line: what is wrong, on which page, in which `href`. */
  datatype Report = Report(problem: Problem, key: string, href: string)

  /** How `run` ends: normally, through `abort`, or with the `NoMethodError` raised by
      `href.split` on a link without `href`. */
  datatype Outcome = Passed | Aborted | Raised

  /** `href =~ /^https?:\/\//` or `href =~ /^mailto:/`. */
  predicate IsExternal(href: string) {
    AtSomeLineStart(href, "http://") || AtSomeLineStart(href, "https://") || AtSomeLineStart(href, "mailto:")
  }

  /** `path, fragment = href.split('#')`, then `path ||= ""` and `fragment ||= ""`: the text
      before the first `#` and the text between the first and the second. */
  function PathAndFragment(href: string): (r: (string, string))
    ensures '#' !in r.0 && '#' !in r.1
    ensures StartsWith(href, r.0)
    ensures '#' in href ==> StartsWith(href, r.0 + "#" + r.1)
  {
    var all := SplitAll(href, '#');
    assert all[0] in all;
    assert |all| >= 2 ==> all[1] in all;
    JoinSplitAll(href, '#');
    PiecesAreJoined(all, '#');
    (all[0], if |all| >= 2 then all[1] else "")
  }

  /** The joined text starts with the first piece, and with the first two and the separator
      between them when there are two; a text holding the separator has two. */
  lemma PiecesAreJoined(parts: seq<string>, sep: char)
    requires |parts| >= 1 && sep !in parts[0]
    ensures StartsWith(Join(parts, sep), parts[0])
    ensures |parts| >= 2 ==> StartsWith(Join(parts, sep), parts[0] + [sep] + parts[1])
    ensures |parts| == 1 ==> sep !in Join(parts, sep)
  {
    if |parts| >= 2 {
      var tail := Join(parts[1..], sep);
      assert StartsWith(tail, parts[1]) by {
        if |parts| > 2 {
          assert tail == parts[1] + [sep] + Join(parts[2..], sep);
        }
      }
      assert Join(parts, sep) == (parts[0] + [sep]) + tail;
      assert (parts[0] + [sep] + tail)[..|parts[0]| + 1 + |parts[1]|] == parts[0] + [sep] + parts[1];
    }
  }

  /** Ruby's `split` drops trailing empty pieces, and `[0]` or `[1]` of a shorter array is `nil`;
      neither changes the two strings. */
  lemma PathAndFragmentIsRubySplit(href: string)
    ensures var parts := RubySplit(href, '#');
      PathAndFragment(href) == (if |parts| >= 1 then parts[0] else "", if |parts| >= 2 then parts[1] else "")
  {
  }

  /** An `href` without `#` is all path. */
  lemma PathAndFragmentPlain(href: string)
    requires '#' !in href
    ensures PathAndFragment(href) == (href, "")
  {
    SplitAllWithoutSep(href, '#');
  }

  /** The `/` at offset `k` of `s` that `%r[/$]` (`atEnd`) or `%r[^/]` matches. */
  predicate Selected(s: string, atEnd: bool, k: int) {
    0 <= k < |s| && s[k] == '/' && (if atEnd then LineEnd(s, k + 1) else LineStart(s, k))
  }

  /** `s[from..]` without its selected slashes: one `gsub!(…, '')` pass, which finds every match
      in the original string. */
  function DropSlashes(s: string, atEnd: bool, from: nat): (r: string)
    requires from <= |s|
    ensures |r| <= |s| - from
    decreases |s| - from
  {
    if from == |s| then ""
    else (if Selected(s, atEnd, from) then "" else [s[from]]) + DropSlashes(s, atEnd, from + 1)
  }

  /** `path.gsub!(%r[/$], '')`: every `/` that ends a line goes. */
  function DropTrailingSlashes(path: string): string {
    DropSlashes(path, true, 0)
  }

  /** `path.gsub!(%r[^/], '')`: every `/` that starts a line goes. */
  function DropLeadingSlashes(path: string): string {
    DropSlashes(path, false, 0)
  }

  /** `path =~ /\.html$/`. */
  predicate HasHtmlLine(path: string) {
    MatchFrom(path, ".html", false, 0)
  }

  /** The three steps that turn the path part of a link into a key of the page index. */
  function Normalize(path: string): (r: string)
    ensures |r| <= |path| + |"/index.html"|
    ensures '\n' !in path ==> '\n' !in r
  {
    var p := DropTrailingSlashes(path);
    var q := if HasHtmlLine(p) then p else p + "/index.html";
    assert '\n' !in path ==> '\n' !in q by {
      if '\n' !in path {
        DropKeepsOneLine(path, true, 0);
      }
    }
    assert '\n' !in q ==> '\n' !in DropLeadingSlashes(q) by {
      if '\n' !in q {
        DropKeepsOneLine(q, false, 0);
      }
    }
    DropLeadingSlashes(q)
  }

  /** Where nothing is selected, nothing is deleted. */
  lemma {:induction false} DropNone(s: string, atEnd: bool, from: nat, to: nat)
    requires from <= to <= |s|
    requires forall k :: from <= k < to ==> !Selected(s, atEnd, k)
    ensures DropSlashes(s, atEnd, from) == s[from..to] + DropSlashes(s, atEnd, to)
    decreases |s| - from
  {
    if from < to {
      assert DropSlashes(s, atEnd, from) == [s[from]] + DropSlashes(s, atEnd, from + 1) by {
        assert !Selected(s, atEnd, from);
      }
      DropNone(s, atEnd, from + 1, to);
      assert s[from..to] == [s[from]] + s[from + 1..to];
      Regroup([s[from]], s[from + 1..to], DropSlashes(s, atEnd, to));
    }
  }

  /** Deleting characters adds no line break. */
  lemma {:induction false} DropKeepsOneLine(s: string, atEnd: bool, from: nat)
    requires from <= |s| && '\n' !in s
    ensures '\n' !in DropSlashes(s, atEnd, from)
    decreases |s| - from
  {
    if from < |s| {
      DropKeepsOneLine(s, atEnd, from + 1);
    }
  }

  /** In a one-line text only a `/` at offset 0 starts a line, so a suffix without `/` stays. */
  lemma KeepsSuffix(q: string, suffix: string)
    requires '\n' !in q && EndsWith(q, suffix) && '/' !in suffix
    ensures EndsWith(DropLeadingSlashes(q), suffix)
  {
    if q != [] {
      OneLine(q);
      DropNone(q, false, 1, |q|);
      if !Selected(q, false, 0) {
        assert [q[0]] + q[1..] == q;
      }
    }
  }

  /** In a one-line path `/\.html$/` matches only at the very end. */
  lemma HtmlLineAtEnd(p: string)
    requires '\n' !in p && HasHtmlLine(p)
    ensures EndsWith(p, ".html")
  {
    MatchFromIff(p, ".html", false, 0);
    var k :| 0 <= k <= |p| && OccursAt(p, ".html", k) && LineEnd(p, k + 5);
    assert forall i :: 0 <= i < |p| ==> p[i] != '\n';
    assert k + 5 == |p|;
  }

  /** On a one-line path the result always names an `.html` file. */
  lemma NormalizeEndsInHtml(path: string)
    requires '\n' !in path
    ensures EndsWith(Normalize(path), ".html")
  {
    var p := DropTrailingSlashes(path);
    DropKeepsOneLine(path, true, 0);
    var q := if HasHtmlLine(p) then p else p + "/index.html";
    if HasHtmlLine(p) {
      HtmlLineAtEnd(p);
    } else {
      assert q[|q| - 5..] == ".html";
      assert '\n' !in q;
    }
    KeepsSuffix(q, ".html");
  }

  /** A directory link `/dir/` names `dir/index.html`. */
  lemma NormalizeDirectory(dir: string)
    requires '\n' !in dir && '/' !in dir && '.' !in dir
    ensures Normalize("/" + dir + "/") == dir + "/index.html"
  {
    var p := "/" + dir;
    DirectoryLosesTrailingSlash(dir);
    assert '.' !in p by {
      assert p == ['/'] + dir;
    }
    NoDotNoHtml(p);
    var q := p + "/index.html";
    assert '\n' !in q by {
      assert q == ['/'] + dir + "/index.html";
    }
    LeadingSlashGoes(q);
    assert q[1..] == dir + "/index.html";
  }

  /** `%r[/$]` removes the final `/` of `/dir/` and nothing else. */
  lemma DirectoryLosesTrailingSlash(dir: string)
    requires '\n' !in dir && '/' !in dir
    ensures DropTrailingSlashes("/" + dir + "/") == "/" + dir
  {
    var d := "/" + dir + "/";
    forall k | 0 <= k < |d| - 1 ensures !Selected(d, true, k) {
      if k > 0 {
        assert d[k] == dir[k - 1];
      } else {
        assert d[1] == '/' || d[1] in dir;
      }
    }
    DropNone(d, true, 0, |d| - 1);
    assert Selected(d, true, |d| - 1);
    assert d[..|d| - 1] == "/" + dir;
  }

  /** `%r[^/]` removes the leading `/` of a one-line text. */
  lemma LeadingSlashGoes(q: string)
    requires '\n' !in q && q != [] && q[0] == '/'
    ensures DropLeadingSlashes(q) == q[1..]
  {
    OneLine(q);
    DropNone(q, false, 1, |q|);
  }

  /** A path without a `.` is no `.html` path. */
  lemma NoDotNoHtml(p: string)
    requires '.' !in p
    ensures !HasHtmlLine(p)
  {
    MatchFromIff(p, ".html", false, 0);
    forall j | 0 <= j <= |p| ensures !OccursAt(p, ".html", j) {
      if j + 5 <= |p| {
        assert p[j] in p;
        assert p[j..j + 5][0] == p[j];
      }
    }
  }

  /** A page link `/name.html` loses its leading `/` only. */
  lemma NormalizePage(name: string)
    requires '\n' !in name && '/' !in name
    ensures Normalize("/" + name + ".html") == name + ".html"
  {
    var h := "/" + name + ".html";
    PageKeepsTrailing(name);
    assert HasHtmlLine(h) by {
      assert OccursAt(h, ".html", |h| - 5);
      MatchFromIff(h, ".html", false, 0);
    }
    assert '\n' !in h by {
      assert h == ['/'] + name + ".html";
    }
    LeadingSlashGoes(h);
    assert h[1..] == name + ".html";
  }

  /** `%r[/$]` finds nothing in `/name.html`. */
  lemma PageKeepsTrailing(name: string)
    requires '\n' !in name && '/' !in name
    ensures DropTrailingSlashes("/" + name + ".html") == "/" + name + ".html"
  {
    var h := "/" + name + ".html";
    forall k | 0 <= k < |h| ensures !Selected(h, true, k) {
      if k == 0 {
        assert h[1] == '.' || h[1] in name;
      } else if k <= |name| {
        assert h[k] == name[k - 1];
      }
    }
    DropNone(h, true, 0, |h|);
    assert h[0..|h|] == h;
  }

  /** In a one-line text only offset 0 starts a line. */
  lemma OneLine(q: string)
    requires '\n' !in q
    ensures forall k :: 0 < k < |q| ==> !Selected(q, false, k)
  {
    forall k | 0 < k < |q| ensures !Selected(q, false, k) {
      assert q[k - 1] in q;
    }
  }

  /** On a one-line path `%r[/$]` removes one final `/`, if there is one, and nothing else. */
  lemma TrailingOneLine(p: string)
    requires '\n' !in p
    ensures DropTrailingSlashes(p) == (if p != [] && p[|p| - 1] == '/' then p[..|p| - 1] else p)
  {
    if p != [] {
      var n := |p| - 1;
      forall k | 0 <= k < n ensures !Selected(p, true, k) {
        assert p[k + 1] in p;
      }
      DropNone(p, true, 0, n);
      assert DropSlashes(p, true, n) == (if p[n] == '/' then "" else [p[n]]);
      if p[n] != '/' {
        assert p[..n] + [p[n]] == p;
      }
    }
  }

  /** On a one-line path `/\.html$/` matches exactly when the path ends in `.html`. */
  lemma HtmlIff(p: string)
    requires '\n' !in p
    ensures HasHtmlLine(p) <==> EndsWith(p, ".html")
  {
    if HasHtmlLine(p) {
      HtmlLineAtEnd(p);
    } else if EndsWith(p, ".html") {
      assert OccursAt(p, ".html", |p| - 5);
      MatchFromIff(p, ".html", false, 0);
    }
  }

  /** The value of the normalisation of a one-line path: without its final `/`, then with
      `/index.html` unless it names an `.html` file, then without its leading `/`. */
  lemma NormalizeOneLine(path: string)
    requires '\n' !in path
    ensures var p := if path != [] && path[|path| - 1] == '/' then path[..|path| - 1] else path;
      var q := if EndsWith(p, ".html") then p else p + "/index.html";
      q != [] && Normalize(path) == (if q[0] == '/' then q[1..] else q)
  {
    TrailingOneLine(path);
    var p := DropTrailingSlashes(path);
    DropKeepsOneLine(path, true, 0);
    HtmlIff(p);
    var q := if EndsWith(p, ".html") then p else p + "/index.html";
    assert '\n' !in q by {
      if !EndsWith(p, ".html") {
        assert forall i :: 0 <= i < |q| ==> q[i] == (if i < |p| then p[i] else "/index.html"[i - |p|]);
      }
    }
    assert q != [] by {
      if EndsWith(p, ".html") {
        assert |q| >= 5;
      } else {
        assert |q| >= 11;
      }
    }
    if q[0] == '/' {
      LeadingSlashGoes(q);
    } else {
      OneLine(q);
      DropNone(q, false, 0, |q|);
      assert q[0..|q|] == q;
    }
  }

  /** A directory link `/dir/` at any depth, `/docs/agent/` say, names `dir/index.html`. */
  lemma NormalizeDirectoryPath(dir: string)
    requires '\n' !in dir && !EndsWith(dir, ".html")
    ensures Normalize("/" + dir + "/") == dir + "/index.html"
  {
    var p := "/" + dir;
    var path := p + "/";
    assert '\n' !in path by {
      assert path == ['/'] + dir + ['/'];
    }
    TrailingOneLine(path);
    assert path[..|path| - 1] == p;
    assert '\n' !in p by {
      assert p == ['/'] + dir;
    }
    assert !EndsWith(p, ".html") by {
      if |dir| >= 5 {
        assert p[|p| - 5..] == dir[|dir| - 5..];
      } else if |p| >= 5 {
        assert p[|p| - 5] == '/';
      }
    }
    HtmlIff(p);
    var q := p + "/index.html";
    assert '\n' !in q by {
      assert q == ['/'] + dir + "/index.html";
    }
    LeadingSlashGoes(q);
    assert q[1..] == dir + "/index.html";
  }



  /** The page a link's path part leads to: the current page for an empty path, otherwise the
      indexed page under the normalised path, if there is one. */
  function Destination(files: map<string, Page>, page: Page, path: string): Option<Page> {
    if path == "" then Some(page)
    else if Normalize(path) in files then Some(files[Normalize(path)])
    else None
  }

  /** What `run` reports for one `href` found on the page `key`. */
  function LinkProblems(files: map<string, Page>, key: string, page: Page, href: string): (r: seq<Report>)
    ensures |r| <= 2
    ensures forall rep :: rep in r ==> rep.key == key && rep.href == href
  {
    if IsExternal(href) then []
    else
      var (path, fragment) := PathAndFragment(href);
      var empty := if '#' in href && fragment == "" then [Report(EmptyFragment, key, href)] else [];
      match Destination(files, page, path)
      case None => empty + [Report(BrokenLink, key, href)]
      case Some(dest) =>
        if fragment != "" && fragment !in dest.ids && fragment !in dest.names then
          empty + [Report(BrokenFragment, key, href)]
        else empty
  }

  /** Each kind of report is made exactly when its condition holds, the empty-fragment warning
      first; a link without a report is external or leads to an existing page and element. */
  lemma LinkProblemsCases(files: map<string, Page>, key: string, page: Page, href: string)
    ensures var r := LinkProblems(files, key, page, href);
      var (path, fragment) := PathAndFragment(href);
      var dest := Destination(files, page, path);
      && (forall rep :: rep in r ==> rep.key == key && rep.href == href)
      && (Report(EmptyFragment, key, href) in r <==> !IsExternal(href) && '#' in href && fragment == "")
      && (Report(EmptyFragment, key, href) in r ==> r[0] == Report(EmptyFragment, key, href))
      && (Report(BrokenLink, key, href) in r <==> !IsExternal(href) && dest.None?)
      && (Report(BrokenFragment, key, href) in r <==>
            !IsExternal(href) && dest.Some? && fragment != "" && fragment !in dest.value.ids && fragment !in dest.value.names)
      && (r == [] <==> (IsExternal(href) || (
                          && !('#' in href && fragment == "")
                          && dest.Some?
                          && (fragment != "" ==> fragment in dest.value.ids || fragment in dest.value.names))))
  {
  }

  /** The reports for the links of the page `key`, and whether a link without `href` raised. */
  function PageProblems(files: map<string, Page>, key: string, page: Page, links: seq<Option<string>>): (r: (seq<Report>, bool))
    ensures forall rep :: rep in r.0 ==> rep.key == key
  {
    if links == [] then ([], false)
    else
      var (reports, raised) := PageProblems(files, key, page, links[..|links| - 1]);
      if raised then (reports, true)
      else match links[|links| - 1]
        case None => (reports, true)
        case Some(href) => (reports + LinkProblems(files, key, page, href), false)
  }

  /** The reports for the pages `keys`, in order, and whether some link raised. */
  function RunProblems(files: map<string, Page>, keys: seq<string>): (r: (seq<Report>, bool))
    requires forall i :: 0 <= i < |keys| ==> keys[i] in files
    ensures forall rep :: rep in r.0 ==> rep.key in keys
  {
    if keys == [] then ([], false)
    else
      var (reports, raised) := RunProblems(files, keys[..|keys| - 1]);
      if raised then (reports, true)
      else
        var key := keys[|keys| - 1];
        var (more, raisedHere) := PageProblems(files, key, files[key], files[key].links);
        (reports + more, raisedHere)
  }

  /** A page raises exactly when one of its links has no `href`. */
  lemma {:induction false} PageRaises(files: map<string, Page>, key: string, page: Page, links: seq<Option<string>>)
    ensures PageProblems(files, key, page, links).1 <==> None in links
  {
    if links != [] {
      var init := links[..|links| - 1];
      PageRaises(files, key, page, init);
      assert links == init + [links[|links| - 1]];
    }
  }

  /** The run raises exactly when one of the pages has a link without `href`. */
  lemma {:induction false} RunRaises(files: map<string, Page>, keys: seq<string>)
    requires forall i :: 0 <= i < |keys| ==> keys[i] in files
    ensures RunProblems(files, keys).1 <==> exists i :: 0 <= i < |keys| && None in files[keys[i]].links
  {
    if keys != [] {
      var init := keys[..|keys| - 1];
      var key := keys[|keys| - 1];
      RunRaises(files, init);
      PageRaises(files, key, files[key], files[key].links);
      assert forall i :: 0 <= i < |init| ==> init[i] == keys[i];
    }
  }

  /** Pages whose links are all external produce no reports. */
  lemma {:induction false} ExternalOnlyPagePasses(files: map<string, Page>, key: string, page: Page, links: seq<Option<string>>)
    requires forall i :: 0 <= i < |links| ==> links[i].Some? && IsExternal(links[i].value)
    ensures PageProblems(files, key, page, links) == ([], false)
  {
    if links != [] {
      var init := links[..|links| - 1];
      assert forall i :: 0 <= i < |init| ==> init[i] == links[i];
      ExternalOnlyPagePasses(files, key, page, init);
      var href := links[|links| - 1].value;
      assert LinkProblems(files, key, page, href) == [];
      assert [] + LinkProblems(files, key, page, href) == [];
    }
  }

  /** `String#sub(pattern, "")`: the first occurrence of `pattern` goes. */
  function SubFirst(s: string, pattern: string): (r: string)
    ensures StartsWith(s, pattern) ==> r == s[|pattern|..]
  {
    match IndexOf(s, pattern, 0)
    case None => s
    case Some(k) => s[..k] + s[k + |pattern|..]
  }

  /** `file.sub("#{root}/", '')`: the key a built page is indexed under. */
  function Relative(root: string, path: string): (r: string)
    ensures StartsWith(path, root + "/") ==> path == root + "/" + r
  {
    var prefix := root + "/";
    var r := SubFirst(path, prefix);
    PrefixAndRest(path, prefix);
    r
  }

  lemma PrefixAndRest(s: string, prefix: string)
    ensures StartsWith(s, prefix) ==> s == prefix + s[|prefix|..]
  {
    if StartsWith(s, prefix) {
      assert s == s[..|prefix|] + s[|prefix|..];
    }
  }

  /** `order` lists each key of `files` exactly once. */
  predicate ListsOnce(files: map<string, Page>, order: seq<string>) {
    && (forall i :: 0 <= i < |order| ==> order[i] in files)
    && (forall k :: k in files ==> k in order)
    && (forall i, j :: 0 <= i < j < |order| ==> order[i] != order[j])
  }

  /** `@files` after the glob's paths `listing` were stored, with its keys in insertion order
      (a Ruby hash keeps the position of a key that is stored again). */
  function Index(root: string, listing: seq<(string, Page)>): (r: (map<string, Page>, seq<string>))
    ensures |r.1| <= |listing|
    ensures forall i :: 0 <= i < |r.1| ==> r.1[i] in r.0
  {
    if listing == [] then (map[], [])
    else
      var (files, order) := Index(root, listing[..|listing| - 1]);
      var (path, page) := listing[|listing| - 1];
      var key := Relative(root, path);
      (files[key := page], if key in files then order else order + [key])
  }

  /** The key order lists each key of the index once. */
  lemma {:induction false} IndexListsOnce(root: string, listing: seq<(string, Page)>)
    ensures ListsOnce(Index(root, listing).0, Index(root, listing).1)
  {
    if listing != [] {
      var init := listing[..|listing| - 1];
      IndexListsOnce(root, init);
      var (files, order) := Index(root, init);
      var key := Relative(root, listing[|listing| - 1].0);
      if key !in files {
        assert forall i :: 0 <= i < |order| ==> order[i] != key;
      }
    }
  }

  /** The index has one key per relative path of the listing. */
  lemma {:induction false} IndexKeys(root: string, listing: seq<(string, Page)>)
    ensures forall k :: k in Index(root, listing).0 <==> exists i :: 0 <= i < |listing| && Relative(root, listing[i].0) == k
  {
    if listing != [] {
      var init := listing[..|listing| - 1];
      IndexKeys(root, init);
      assert forall i :: 0 <= i < |init| ==> init[i] == listing[i];
    }
  }

  /** Each key holds the last page stored under it. */
  lemma {:induction false} IndexLastWins(root: string, listing: seq<(string, Page)>, i: nat)
    requires i < |listing|
    requires forall j :: i < j < |listing| ==> Relative(root, listing[j].0) != Relative(root, listing[i].0)
    ensures Relative(root, listing[i].0) in Index(root, listing).0
    ensures Index(root, listing).0[Relative(root, listing[i].0)] == listing[i].1
  {
    var init := listing[..|listing| - 1];
    if i < |listing| - 1 {
      assert init[i] == listing[i];
      assert forall j :: i < j < |init| ==> init[j] == listing[j];
      IndexLastWins(root, init, i);
    }
  }

  /** A raise ends the outer loop: later pages add nothing. */
  lemma {:induction false} RunRaisedStays(files: map<string, Page>, keys: seq<string>, i: nat)
    requires i <= |keys| && forall t :: 0 <= t < |keys| ==> keys[t] in files
    requires RunProblems(files, keys[..i]).1
    ensures RunProblems(files, keys) == RunProblems(files, keys[..i])
    decreases |keys| - i
  {
    if i < |keys| {
      assert keys[..i + 1][..i] == keys[..i];
      RunRaisedStays(files, keys, i + 1);
    } else {
      assert keys[..i] == keys;
    }
  }

  /** A raise ends the inner loop: later links add nothing. */
  lemma {:induction false} PageRaisedStays(files: map<string, Page>, key: string, page: Page, links: seq<Option<string>>, i: nat)
    requires i <= |links|
    requires PageProblems(files, key, page, links[..i]).1
    ensures PageProblems(files, key, page, links) == PageProblems(files, key, page, links[..i])
    decreases |links| - i
  {
    if i < |links| {
      assert links[..i + 1][..i] == links[..i];
      PageRaisedStays(files, key, page, links, i + 1);
    } else {
      assert links[..i] == links;
    }
  }

  /** One page more of the outer loop of `run`. */
  lemma RunStep(files: map<string, Page>, keys: seq<string>, i: nat)
    requires i < |keys| && forall t :: 0 <= t < |keys| ==> keys[t] in files
    requires !RunProblems(files, keys[..i]).1
    ensures var page := PageProblems(files, keys[i], files[keys[i]], files[keys[i]].links);
      RunProblems(files, keys[..i + 1]) == (RunProblems(files, keys[..i]).0 + page.0, page.1)
  {
    assert keys[..i + 1][..i] == keys[..i];
  }

  /** One link more of the inner loop of `run`. */
  lemma PageStep(files: map<string, Page>, key: string, page: Page, i: nat)
    requires i < |page.links|
    requires !PageProblems(files, key, page, page.links[..i]).1
    ensures var before := PageProblems(files, key, page, page.links[..i]).0;
      PageProblems(files, key, page, page.links[..i + 1]) ==
        match page.links[i]
        case None => (before, true)
        case Some(href) => (before + LinkProblems(files, key, page, href), false)
  {
    assert page.links[..i + 1][..i] == page.links[..i];
  }

  class Checker {
    /** The keys of `@files` in insertion order, and `@files` itself. */
    var order: seq<string>
    var files: map<string, Page>

    ghost predicate Valid()
      reads this
    {
      ListsOnce(files, order)
    }

    /** `Checker.new(root)`: every built page under its path relative to `root`; the paths come
        from the glob in listing order. */
    constructor (root: string, listing: seq<(string, Page)>)
      ensures Valid()
      ensures (files, order) == Index(root, listing)
    {
      order := [];
      files := map[];
      new;
      for i := 0 to |listing|
        invariant (files, order) == Index(root, listing[..i])
      {
        assert listing[..i + 1][..i] == listing[..i];
        var relative := Relative(root, listing[i].0);
        if relative !in files {
          order := order + [relative];
        }
        files := files[relative := listing[i].1];
      }
      assert listing[..|listing|] == listing;
      IndexListsOnce(root, listing);
    }

    /** `run`: the warnings, in the order they are printed, and how the run ends. */
    method Run() returns (reports: seq<Report>, outcome: Outcome)
      requires Valid()
      ensures (reports, outcome == Raised) == RunProblems(files, order)
      ensures outcome == Passed <==> outcome != Raised && reports == []
      ensures outcome == Aborted <==> outcome != Raised && reports != []
    {
      var success := true;
      reports := [];
      for i := 0 to |order|
        invariant (reports, false) == RunProblems(files, order[..i])
        invariant success <==> reports == []
      {
        var key := order[i];
        var page := files[key];
        RunStep(files, order, i);
        var more, raised := CheckPage(key, page);
        reports := reports + more;
        if raised {
          RunRaisedStays(files, order, i + 1);
          return reports, Raised;
        }
        if more != [] {
          success := false;
        }
      }
      assert order[..|order|] == order;
      if !success {
        return reports, Aborted;
      }
      outcome := Passed;
    }

    /** The inner loop of `run`, over the links of the page `key`. */
    method CheckPage(key: string, page: Page) returns (reports: seq<Report>, raised: bool)
      ensures (reports, raised) == PageProblems(files, key, page, page.links)
    {
      reports := [];
      for i := 0 to |page.links|
        invariant (reports, false) == PageProblems(files, key, page, page.links[..i])
      {
        PageStep(files, key, page, i);
        match page.links[i]
        case None =>
          PageRaisedStays(files, key, page, page.links, i + 1);
          return reports, true;
        case Some(href) =>
          var more := CheckLink(key, page, href);
          reports := reports + more;
      }
      assert page.links[..|page.links|] == page.links;
      raised := false;
    }

    /** One round of the inner loop: the checks on one `href`. */
    method CheckLink(key: string, page: Page, href: string) returns (reports: seq<Report>)
      ensures reports == LinkProblems(files, key, page, href)
    {
      reports := [];
      if IsExternal(href) {
        return;
      }
      var (path, fragment) := PathAndFragment(href);
      if '#' in href && fragment == "" {
        reports := reports + [Report(EmptyFragment, key, href)];
      }
      var dest: Page;
      if path == "" {
        dest := page;
      } else {
        var normalized := Normalize(path);
        if normalized !in files {
          reports := reports + [Report(BrokenLink, key, href)];
          return;
        }
        dest := files[normalized];
      }
      if fragment != "" && fragment !in dest.ids && fragment !in dest.names {
        reports := reports + [Report(BrokenFragment, key, href)];
      }
    }
  }
}

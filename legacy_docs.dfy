/**
 * lib/docs.rb: the first generation of the documentation pipeline. `FormatHelpers` turns file
 * names and heading texts into routes and anchors; `Docs` strips frontmatter, reads a flat
 * `Key: value` map out of it line by line, lists the pages to show on the index, and strings a
 * page's headings together into a table of contents.
 *
 * The Markdown folder is given as a list of pages (base name without `.md`, and text); the
 * page body that Nokogiri yields for the table of contents is given as a list of nodes.
 */
module LegacyDocs {
  import opened Wrappers
  import opened RubyText
  import opened Sorting
  import Frontmatter

  // ---------------------------------------------------------------- FormatHelpers

  /** `[?!.;:]`: the characters `anchorify` deletes. */
  predicate IsAnchorPunct(c: char) {
    c == '?' || c == '!' || c == '.' || c == ';' || c == ':'
  }

  /** `gsub(/[?!.;:]/, '')`. */
  function DropAnchorPunct(s: string): (r: string)
    ensures forall i :: 0 <= i < |r| ==> !IsAnchorPunct(r[i]) && r[i] in s
    ensures (forall i :: 0 <= i < |s| ==> !IsAnchorPunct(s[i])) ==> r == s
  {
    if s == [] then ""
    else
      var rest := DropAnchorPunct(s[1..]);
      assert forall i :: 0 <= i < |s| - 1 ==> s[1..][i] == s[i + 1];
      if IsAnchorPunct(s[0]) then rest else [s[0]] + rest
  }

  /** `anchorify(text)`: `#`, then the text lower-cased, its spaces turned into `-` and the
      characters `?!.;:` deleted. */
  function Anchorify(text: string): (r: string)
    ensures |r| >= 1 && r[0] == '#'
    ensures forall i :: 1 <= i < |r| ==> r[i] != ' ' && !IsAnchorPunct(r[i]) && !IsUpper(r[i])
    ensures |r| <= |text| + 1
  {
    var lowered := Downcase(text);
    var dashed := ReplaceChar(lowered, ' ', '-');
    var kept := DropAnchorPunct(dashed);
    assert forall i :: 0 <= i < |kept| ==> !IsUpper(kept[i]) by {
      forall i | 0 <= i < |kept| ensures !IsUpper(kept[i]) {
        assert kept[i] in dashed;
      }
    }
    assert |kept| <= |dashed| by {
      DropAnchorPunctShorter(dashed);
    }
    "#" + kept
  }

  lemma {:induction false} DropAnchorPunctShorter(s: string)
    ensures |DropAnchorPunct(s)| <= |s|
  {
    if s != [] {
      DropAnchorPunctShorter(s[1..]);
    }
  }

  /** `gsub(/[?!.;:]/, '')` works piece by piece. */
  lemma {:induction false} DropAnchorPunctAppend(a: string, b: string)
    ensures DropAnchorPunct(a + b) == DropAnchorPunct(a) + DropAnchorPunct(b)
    decreases |a|
  {
    if a == [] {
      assert a + b == b;
    } else {
      assert (a + b)[1..] == a[1..] + b;
      DropAnchorPunctAppend(a[1..], b);
    }
  }

  /** One character is deleted exactly when it is one of `?!.;:`. */
  lemma DropAnchorPunctOne(c: char)
    ensures DropAnchorPunct([c]) == if IsAnchorPunct(c) then [] else [c]
  {
  }

  /** On text without `?!.;:`, the anchor is `#` and then the text character for character,
      lower-cased, with every space turned into `-`. */
  lemma AnchorifyPointwise(text: string)
    requires forall i :: 0 <= i < |text| ==> !IsAnchorPunct(text[i])
    ensures |Anchorify(text)| == |text| + 1
    ensures forall i :: 0 <= i < |text| ==>
      Anchorify(text)[i + 1] == if text[i] == ' ' then '-' else DowncaseChar(text[i])
  {
    var dashed := ReplaceChar(Downcase(text), ' ', '-');
    assert forall i :: 0 <= i < |dashed| ==> !IsAnchorPunct(dashed[i]);
    assert DropAnchorPunct(dashed) == dashed;
  }

  /** The anchor of two pieces of text is the anchor of the first followed by the second's
      without its `#`. */
  lemma AnchorifyAppend(a: string, b: string)
    ensures Anchorify(a + b) == Anchorify(a) + Anchorify(b)[1..]
  {
    var da, db := ReplaceChar(Downcase(a), ' ', '-'), ReplaceChar(Downcase(b), ' ', '-');
    DashedAppend(a, b);
    DropAnchorPunctAppend(da, db);
    var ka, kb := DropAnchorPunct(da), DropAnchorPunct(db);
    assert Anchorify(a + b) == "#" + (ka + kb);
    assert Anchorify(b)[1..] == kb;
  }

  /** Lower-casing and `tr(' ', '-')` work character by character, hence piece by piece. */
  lemma DashedAppend(a: string, b: string)
    ensures ReplaceChar(Downcase(a + b), ' ', '-')
      == ReplaceChar(Downcase(a), ' ', '-') + ReplaceChar(Downcase(b), ' ', '-')
  {
    var ab := a + b;
    var da, db, dab := Downcase(a), Downcase(b), Downcase(ab);
    var l, r := ReplaceChar(dab, ' ', '-'), ReplaceChar(da, ' ', '-') + ReplaceChar(db, ' ', '-');
    assert dab == da + db by {
      forall i | 0 <= i < |ab| ensures dab[i] == (da + db)[i] {
        if i < |a| {
          assert ab[i] == a[i];
        } else {
          assert ab[i] == b[i - |a|];
        }
      }
    }
    ReplaceCharAppend(da, db, ' ', '-');
  }

  /** A text that is already lower-case, without spaces and without `?!.;:` is its own anchor. */
  lemma AnchorifyPlain(text: string)
    requires forall i :: 0 <= i < |text| ==> text[i] != ' ' && !IsAnchorPunct(text[i]) && !IsUpper(text[i])
    ensures Anchorify(text) == "#" + text
  {
    assert Downcase(text) == text;
    assert ReplaceChar(text, ' ', '-') == text;
  }

  /** Anchoring an anchor's text again changes nothing. */
  lemma AnchorifyIdempotent(text: string)
    ensures Anchorify(Anchorify(text)[1..]) == Anchorify(text)
  {
    AnchorifyPlain(Anchorify(text)[1..]);
  }

  /** `dashify(filename)`: `tr('_', '-')`. */
  function Dashify(filename: string): (r: string)
    ensures |r| == |filename| && '_' !in r
    ensures forall i :: 0 <= i < |r| ==> r[i] == (if filename[i] == '_' then '-' else filename[i])
  {
    ReplaceChar(filename, '_', '-')
  }

  /** `undashify(filename)`: `tr('-', '_')`. */
  function Undashify(filename: string): (r: string)
    ensures |r| == |filename| && '-' !in r
    ensures forall i :: 0 <= i < |r| ==> r[i] == (if filename[i] == '-' then '_' else filename[i])
  {
    ReplaceChar(filename, '-', '_')
  }

  /** `undashify` undoes `dashify` on names that hold no `-` of their own. */
  lemma UndashifyDashify(filename: string)
    requires '-' !in filename
    ensures Undashify(Dashify(filename)) == filename
  {
  }

  /** `dashify` undoes `undashify` on names that hold no `_` of their own. */
  lemma DashifyUndashify(filename: string)
    requires '_' !in filename
    ensures Dashify(Undashify(filename)) == filename
  {
  }

  const ROUTE_PREFIX: string := "/support/"

  /** `filename_as_route(filename)`: `/support/` and the dashified name, so no `_` remains. */
  function FilenameAsRoute(filename: string): (r: string)
    ensures StartsWith(r, ROUTE_PREFIX) && r[|ROUTE_PREFIX|..] == Dashify(filename)
    ensures '_' !in r
  {
    ROUTE_PREFIX + Dashify(filename)
  }

  // ---------------------------------------------------------------- frontmatter

  /** `get_frontmatter(path)`: where the frontmatter match of the file's text ends, if it matches. */
  function GetFrontmatter(fileText: string): (r: Option<nat>)
    ensures r.Some? <==> exists q, k, f :: Frontmatter.Shape(fileText, q, k, f)
    ensures r.Some? ==> r.value <= |fileText|
  {
    Frontmatter.MatchIffShape(fileText);
    Frontmatter.Match(fileText)
  }

  /** `get_content(path)`: the `post_match` of the frontmatter, or the whole text. */
  function GetContent(fileText: string): (r: string)
    ensures fileText == Frontmatter.MatchedText(fileText) + r
    ensures GetFrontmatter(fileText).None? ==> r == fileText
  {
    Frontmatter.Strip(fileText)
  }

  // ---------------------------------------------------------------- get_metadata

  /** One frontmatter line: `parts = line.split(':')`, the key is `parts.shift` (`nil` when there
      are no pieces) and the value is `parts.join(':')`. */
  function LineEntry(line: string): (r: (Option<string>, string))
    ensures r.0.Some? ==> ':' !in r.0.value
  {
    var parts := RubySplit(line, ':');
    assert forall p :: p in parts ==> p in SplitAll(line, ':');
    if parts == [] then (None, "") else (Some(parts[0]), Join(parts[1..], ':'))
  }

  /** A line that does not end in `:` (every line but the last ends in a newline) is its key,
      then `:` and its value when it holds a `:`, and its own key with an empty value otherwise. */
  lemma LineEntryRoundTrip(line: string)
    requires line != [] && line[|line| - 1] != ':'
    ensures LineEntry(line).0.Some?
    ensures ':' in line ==> line == LineEntry(line).0.value + ":" + LineEntry(line).1
    ensures ':' !in line ==> LineEntry(line) == (Some(line), "")
  {
    var parts := RubySplit(line, ':');
    RubySplitJoin(line, ':');
    if ':' in line {
      assert Join(parts, ':') == parts[0] + [':'] + Join(parts[1..], ':');
    } else {
      SplitAllWithoutSep(line, ':');
    }
  }

  /** `content_hash` after the loop over `lines`: each line sets its key, later lines winning. */
  function MetadataFrom(lines: seq<string>): (r: map<Option<string>, string>)
    ensures forall k :: k in r ==> exists i :: 0 <= i < |lines| && LineEntry(lines[i]).0 == k
  {
    if lines == [] then map[]
    else
      var init := lines[..|lines| - 1];
      var e := LineEntry(lines[|lines| - 1]);
      assert forall i :: 0 <= i < |init| ==> init[i] == lines[i];
      MetadataFrom(init)[e.0 := e.1]
  }

  /** The keys of the map are the keys of the lines. */
  lemma {:induction false} MetadataKeys(lines: seq<string>)
    ensures forall k :: k in MetadataFrom(lines) <==> exists i :: 0 <= i < |lines| && LineEntry(lines[i]).0 == k
  {
    if lines != [] {
      var init := lines[..|lines| - 1];
      MetadataKeys(init);
      assert forall i :: 0 <= i < |init| ==> init[i] == lines[i];
    }
  }

  /** A key's value comes from the last line that has that key. */
  lemma {:induction false} LastLineWins(lines: seq<string>, i: nat)
    requires i < |lines|
    requires forall j :: i < j < |lines| ==> LineEntry(lines[j]).0 != LineEntry(lines[i]).0
    ensures LineEntry(lines[i]).0 in MetadataFrom(lines)
    ensures MetadataFrom(lines)[LineEntry(lines[i]).0] == LineEntry(lines[i]).1
  {
    var init := lines[..|lines| - 1];
    if i < |lines| - 1 {
      assert init[i] == lines[i];
      LastLineWins(init, i);
    }
  }

  /** `get_metadata(filename)` on the file's text, as a value: empty without frontmatter;
      otherwise the entries of the lines of the matched block, and `Path` set to the route. */
  function Metadata(filename: string, fileText: string): (r: map<Option<string>, string>)
    ensures GetFrontmatter(fileText).None? <==> r == map[]
    ensures GetFrontmatter(fileText).Some? ==> Some("Path") in r
    ensures GetFrontmatter(fileText).Some? ==> r[Some("Path")] == FilenameAsRoute(filename)
  {
    if GetFrontmatter(fileText).None? then map[]
    else
      var fromLines := MetadataFrom(Lines(Frontmatter.MatchedText(fileText)));
      var r := fromLines[Some("Path") := FilenameAsRoute(filename)];
      assert Some("Path") in r;
      r
  }

  /** `get_metadata(filename)`: fills `content_hash` line by line. */
  method GetMetadata(filename: string, fileText: string) returns (contentHash: map<Option<string>, string>)
    ensures contentHash == Metadata(filename, fileText)
  {
    contentHash := map[];
    if GetFrontmatter(fileText).Some? {
      contentHash := FillFromLines(Lines(Frontmatter.MatchedText(fileText)));
      contentHash := contentHash[Some("Path") := FilenameAsRoute(filename)];
    }
  }

  /** The loop of `get_metadata` over the lines of the frontmatter. */
  method FillFromLines(lines: seq<string>) returns (contentHash: map<Option<string>, string>)
    ensures contentHash == MetadataFrom(lines)
  {
    contentHash := map[];
    for i := 0 to |lines|
      invariant contentHash == MetadataFrom(lines[..i])
    {
      var e := LineEntry(lines[i]);
      assert lines[..i + 1][..i] == lines[..i];
      contentHash := contentHash[e.0 := e.1];
    }
    assert lines[..|lines|] == lines;
  }

  // ---------------------------------------------------------------- get_metadata_array

  /** The digits of the number `String#to_f` reads at the head of `u` (after the sign): digits, a
      single `_` between two digits, and one `.` followed by a digit. */
  function Mantissa(u: string, seenDot: bool, afterDigit: bool): (r: string)
    ensures forall i :: 0 <= i < |r| ==> IsDigit(r[i])
  {
    if u == [] then ""
    else if IsDigit(u[0]) then [u[0]] + Mantissa(u[1..], seenDot, true)
    else if u[0] == '_' && afterDigit && |u| >= 2 && IsDigit(u[1]) then Mantissa(u[1..], seenDot, false)
    else if u[0] == '.' && !seenDot && |u| >= 2 && IsDigit(u[1]) then Mantissa(u[1..], true, false)
    else ""
  }

  /** The sign and the digits of the number `String#to_f` reads at the head of `s`, after
      leading whitespace. */
  function NumberHead(s: string): (r: (bool, string))
    ensures forall i :: 0 <= i < |r.1| ==> IsDigit(r.1[i])
  {
    var t := SkipSpaces(s);
    if t != [] && t[0] == '-' then (true, Mantissa(t[1..], false, false))
    else if t != [] && t[0] == '+' then (false, Mantissa(t[1..], false, false))
    else (false, Mantissa(t, false, false))
  }

  /** `s.to_f > 0`: no minus sign, and a non-zero digit in the number at the head of the text. */
  predicate ToFPositive(s: string) {
    var (negative, digits) := NumberHead(s);
    !negative && exists i :: 0 <= i < |digits| && digits[i] != '0'
  }

  /** A number that starts with a non-zero digit after the whitespace is positive (`" 3\n"`). */
  lemma ToFLeadingDigit(pad: string, d: char, rest: string)
    requires forall i :: 0 <= i < |pad| ==> IsSpace(pad[i])
    requires '1' <= d <= '9'
    ensures ToFPositive(pad + ([d] + rest))
  {
    var t := [d] + rest;
    SkipSpacesPad(pad, t);
    assert t[1..] == rest;
    assert NumberHead(pad + t).1[0] == d;
  }

  /** A number with a minus sign is never positive (`"-2"`). */
  lemma ToFMinus(pad: string, rest: string)
    requires forall i :: 0 <= i < |pad| ==> IsSpace(pad[i])
    ensures !ToFPositive(pad + ("-" + rest))
  {
    SkipSpacesPad(pad, "-" + rest);
  }

  /** A lone `0` before anything that cannot continue a number is zero (`" 0\n"`). */
  lemma ToFZeroHead(pad: string, tail: string)
    requires forall i :: 0 <= i < |pad| ==> IsSpace(pad[i])
    requires tail == [] || (!IsDigit(tail[0]) && tail[0] != '_' && tail[0] != '.')
    ensures !ToFPositive(pad + ("0" + tail))
  {
    var t := "0" + tail;
    SkipSpacesPad(pad, t);
    assert t[0] == '0' && t[1..] == tail;
    assert Mantissa(tail, false, true) == "";
    assert Mantissa(t, false, false) == "0";
    assert NumberHead(pad + t) == (false, "0");
  }

  /** `metadata['Order'].to_f > 0`; a missing `Order` is `nil`, and `nil.to_f` is 0. */
  predicate PositiveOrder(m: map<Option<string>, string>) {
    Some("Order") in m && ToFPositive(m[Some("Order")])
  }

  /** `hash["Order"]`, the sort key; the pages that reach the sort all have one. */
  function OrderKey(m: map<Option<string>, string>): string {
    if Some("Order") in m then m[Some("Order")] else ""
  }

  /** A page of the Markdown folder: its base name without `.md` and its text. */
  datatype Page = Page(name: string, text: string)

  /** `data_array` after the loop: the metadata of the pages with a positive `Order`, in listing order. */
  function Kept(pages: seq<Page>): (r: seq<map<Option<string>, string>>)
    ensures |r| <= |pages|
    ensures forall m :: m in r ==> PositiveOrder(m)
  {
    if pages == [] then []
    else
      var p := pages[|pages| - 1];
      var m := Metadata(p.name, p.text);
      Kept(pages[..|pages| - 1]) + if PositiveOrder(m) then [m] else []
  }

  /** Exactly the pages whose `Order` reads as a positive number are kept. */
  lemma {:induction false} KeptMembers(pages: seq<Page>)
    ensures forall m :: m in Kept(pages) <==>
      (PositiveOrder(m) && exists p :: p in pages && m == Metadata(p.name, p.text))
  {
    if pages != [] {
      var init := pages[..|pages| - 1];
      KeptMembers(init);
      assert pages == init + [pages[|pages| - 1]];
    }
  }

  /** `get_metadata_array`: the kept pages' metadata, sorted by the `Order` text (as strings,
      so `"10"` comes before `"9"`). */
  method GetMetadataArray(pages: seq<Page>) returns (r: seq<map<Option<string>, string>>)
    ensures multiset(r) == multiset(Kept(pages))
    ensures SortedBy(r, OrderKey, LexLe)
  {
    var dataArray := [];
    for i := 0 to |pages|
      invariant dataArray == Kept(pages[..i])
    {
      var metadata := GetMetadata(pages[i].name, pages[i].text);
      assert pages[..i + 1][..i] == pages[..i];
      if PositiveOrder(metadata) {
        dataArray := dataArray + [metadata];
      }
    }
    assert pages[..|pages|] == pages;
    LexLeTotalPreorder();
    r := SortBy(dataArray, OrderKey, LexLe);
  }

  /** The sort compares the `Order` texts, not their numbers: the first differing character
      decides, so `"10"` sorts before `"9"` and `"100"` before `"2"`. */
  lemma OrderComparesText(a: string, b: string)
    requires a != [] && b != [] && a[0] < b[0]
    ensures LexLe(a, b) && !LexLe(b, a)
  {
  }

  // ---------------------------------------------------------------- create_toc_string

  /** A node of the page body: its tag name (`text` for a text node) and its text. */
  datatype Node = Node(name: string, text: string)

  /** `name.match(/h\d/)`: `h` followed by a digit somewhere in the name. */
  predicate IsHeadingName(name: string) {
    exists i :: 0 <= i < |name| - 1 && name[i] == 'h' && IsDigit(name[i + 1])
  }

  /** The link to a heading: the page's route and the heading's anchor. */
  function TocLink(filename: string, text: string): string {
    "<a href='" + FilenameAsRoute(filename) + Anchorify(text) + "'>" + text + "</a>"
  }

  /** What one node adds to the table of contents: nothing exactly for the `h2` title and for
      what is not a heading. */
  function TocEntry(node: Node, filename: string): (r: string)
    ensures r == "" <==> !AddsEntry(node)
  {
    var link := TocLink(filename, node.text);
    var n := node.name;
    assert n == "h3" || n == "h5" ==> n[0] == 'h' && IsDigit(n[1]);
    if node.name == "h2" then ""
    else if node.name == "h3" then "<li class='" + node.name + "-indent'>" + link + "</li>"
    else if node.name == "h5" then "<li class='" + node.name + "-indent'>* " + link + "</li>"
    else if IsHeadingName(node.name) then "<li class='" + node.name + "-indent'>- " + link + "</li>"
    else ""
  }

  /** A string built as `head`, `mid`, `tail` starts with `head` and ends with `tail`. */
  lemma Framed(head: string, mid: string, tail: string)
    ensures StartsWith(head + mid + tail, head) && EndsWith(head + mid + tail, tail)
  {
    var e := head + mid + tail;
    assert e[..|head|] == head;
    assert e[|e| - |tail|..] == tail;
  }

  /** The entry of a heading other than `h2`: its `<li>`, the marker for its level, and the link. */
  lemma TocEntryParts(node: Node, filename: string)
    requires node.name != "h2" && IsHeadingName(node.name)
    ensures var n := node.name;
      TocEntry(node, filename)
        == "<li class='" + n + "-indent'>" + (if n == "h3" then "" else if n == "h5" then "* " else "- ")
          + (TocLink(filename, node.text) + "</li>")
  {
  }

  /** A node that adds something adds one `<li>` whose class is named after the tag and which
      ends with the link to the heading. */
  lemma TocEntryShape(node: Node, filename: string)
    ensures TocEntry(node, filename) != "" ==>
      && StartsWith(TocEntry(node, filename), "<li class='" + node.name + "-indent'>")
      && EndsWith(TocEntry(node, filename), TocLink(filename, node.text) + "</li>")
  {
    var n := node.name;
    if n != "h2" && IsHeadingName(n) {
      var head := "<li class='" + n + "-indent'>";
      var mark := if n == "h3" then "" else if n == "h5" then "* " else "- ";
      TocEntryParts(node, filename);
      Framed(head, mark, TocLink(filename, node.text) + "</li>");
    }
  }

  /** `chapter_titles` after the loop over `body`. */
  function TocEntries(body: seq<Node>, filename: string): string
  {
    if body == [] then ""
    else TocEntries(body[..|body| - 1], filename) + TocEntry(body[|body| - 1], filename)
  }

  /** A node that adds an entry: a heading other than the `h2` title. */
  predicate AddsEntry(node: Node) {
    node.name != "h2" && IsHeadingName(node.name)
  }

  /** The table of contents is empty exactly when no node is a heading other than `h2`. */
  lemma {:induction false} TocEntriesEmpty(body: seq<Node>, filename: string)
    ensures TocEntries(body, filename) == "" <==> forall i :: 0 <= i < |body| ==> !AddsEntry(body[i])
  {
    if body != [] {
      var init, last := body[..|body| - 1], body[|body| - 1];
      TocEntriesEmpty(init, filename);
      var t, e := TocEntries(init, filename), TocEntry(last, filename);
      assert TocEntries(body, filename) == t + e;
      assert t + e == "" <==> t == "" && e == "" by {
        assert |t + e| == |t| + |e|;
      }
      assert forall i :: 0 <= i < |init| ==> init[i] == body[i];
    }
  }

  /** One more node adds its own entry at the end. */
  lemma TocEntriesSnoc(body: seq<Node>, node: Node, filename: string)
    ensures TocEntries(body + [node], filename) == TocEntries(body, filename) + TocEntry(node, filename)
  {
    assert (body + [node])[..|body|] == body;
  }

  /** The table of contents of two runs of nodes is the one of the first, then the one of the second. */
  lemma {:induction false} TocEntriesAppend(a: seq<Node>, b: seq<Node>, filename: string)
    ensures TocEntries(a + b, filename) == TocEntries(a, filename) + TocEntries(b, filename)
    decreases |b|
  {
    if b == [] {
      assert a + b == a;
    } else {
      var init, last := b[..|b| - 1], b[|b| - 1];
      assert b == init + [last];
      assert a + b == (a + init) + [last];
      TocEntriesAppend(a, init, filename);
      TocEntriesSnoc(a + init, last, filename);
      TocEntriesSnoc(init, last, filename);
      Regroup(TocEntries(a, filename), TocEntries(init, filename), TocEntry(last, filename));
    }
  }

  /** The entries of the first `i + 1` nodes: those of the first `i`, then node `i`'s. */
  lemma TocEntriesStep(body: seq<Node>, i: nat, filename: string)
    requires i < |body|
    ensures TocEntries(body[..i + 1], filename) == TocEntries(body[..i], filename) + TocEntry(body[i], filename)
  {
    assert body[..i + 1] == body[..i] + [body[i]];
    TocEntriesSnoc(body[..i], body[i], filename);
  }

  const TOC_OPEN: string := "<div class='chapter-wrapper'>"
  const TOC_CLOSE: string := "</div>"

  /** `create_toc_string(body, filename)`: every node's entry, in order, inside the wrapper `div`. */
  method CreateTocString(body: seq<Node>, filename: string) returns (r: string)
    ensures r == TOC_OPEN + TocEntries(body, filename) + TOC_CLOSE
  {
    var chapterTitles := "";
    for i := 0 to |body|
      invariant chapterTitles == TocEntries(body[..i], filename)
    {
      TocEntriesStep(body, i, filename);
      chapterTitles := chapterTitles + TocEntry(body[i], filename);
    }
    assert body[..|body|] == body;
    r := TOC_OPEN + chapterTitles + TOC_CLOSE;
  }
}

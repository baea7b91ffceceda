/**
 * lib/skylight/docs/chapter.rb: one documentation chapter, backed by a file named like
 * `_01-markdown-styleguide.md`. Its identity (`order`, `id`) comes from the file name; its
 * title, description and visibility come from the YAML frontmatter; its table of contents is
 * rendered once and memoised.
 *
 * What lies outside the model is passed in: the file's text (`File.read`), the result of
 * `YAML.load` on it (`None` for `nil`/`false`), the Markdown renderer (Kramdown) as a function
 * from Markdown to HTML, the revision token and the `SKYLIGHT_AGENT_EDGE_VERSION` variable.
 */
module ChapterFile {
  import opened Wrappers
  import opened RubyText
  import Frontmatter

  /** The name-derived part of a chapter, computed by `initialize`. */
  datatype Identity = Identity(basename: string, partialPath: string, order: int, id: Option<string>)

  /** `File.basename(name, ".md")`: the extension is removed unless nothing would be left. */
  function WithoutExtension(name: string): (r: string)
    ensures EndsWith(name, ".md") && |name| > 3 ==> name == r + ".md"
    ensures !(EndsWith(name, ".md") && |name| > 3) ==> r == name
  {
    if EndsWith(name, ".md") && |name| > 3 then name[..|name| - 3] else name
  }

  /** `.remove(/\A_/)`: one leading underscore goes. */
  function WithoutLeadingUnderscore(s: string): (r: string)
    ensures s != [] && s[0] == '_' ==> s == "_" + r
    ensures !(s != [] && s[0] == '_') ==> r == s
  {
    if s != [] && s[0] == '_' then s[1..] else s
  }

  /** `initialize(full_path)`: `order, @id = partial_path.split('-', 2)` and `@order = order.to_i`.
      With no `-` the id is `nil`; on an empty partial path both parts are `nil` and `nil.to_i` is 0. */
  function IdentityOf(fullPath: string): (r: Identity)
    ensures r.basename == BaseName(fullPath)
    ensures r.partialPath == WithoutLeadingUnderscore(WithoutExtension(r.basename))
    ensures r.id.Some? <==> Contains(r.partialPath, '-')
  {
    var basename := BaseName(fullPath);
    var partial := WithoutLeadingUnderscore(WithoutExtension(basename));
    var parts := SplitFirst(partial, '-');
    var order := if parts == [] then 0 else ToI(parts[0]);
    var id := if |parts| == 2 then Some(parts[1]) else None;
    assert |parts| == 2 ==> partial[|parts[0]|] == '-';
    Identity(basename, partial, order, id)
  }

  /** For `<dir>/_<digits>-<slug>.md` the partial path is `<digits>-<slug>`, the order is the
      decimal value of the digits and the id is the slug, dashes and all. */
  lemma {:induction false} IdentityOfChapterFile(dir: string, digits: string, slug: string)
    requires digits != [] && forall i :: 0 <= i < |digits| ==> IsDigit(digits[i])
    requires '/' !in slug
    ensures var r := IdentityOf(dir + "/_" + digits + "-" + slug + ".md");
      && r.basename == "_" + digits + "-" + slug + ".md"
      && r.partialPath == digits + "-" + slug
      && r.order == DecimalValue(digits)
      && r.id == Some(slug)
  {
    var name := "_" + digits + "-" + slug + ".md";
    ChapterNameHasNoSlash(digits, slug);
    assert dir + "/_" + digits + "-" + slug + ".md" == dir + "/" + name;
    BaseNameOfJoin(dir, name);
    PartialOfName(digits, slug);
    PartialPathSplits(digits, slug);
    ToIOfDigits(digits);
  }

  lemma PartialOfName(digits: string, slug: string)
    ensures WithoutLeadingUnderscore(WithoutExtension("_" + digits + "-" + slug + ".md")) == digits + "-" + slug
  {
    var partial := digits + "-" + slug;
    var name := "_" + digits + "-" + slug + ".md";
    assert name == ("_" + partial) + ".md";
    assert WithoutExtension(name) == "_" + partial;
    assert WithoutLeadingUnderscore("_" + partial) == partial;
  }

  lemma ChapterNameHasNoSlash(digits: string, slug: string)
    requires forall i :: 0 <= i < |digits| ==> IsDigit(digits[i])
    requires '/' !in slug
    ensures '/' !in "_" + digits + "-" + slug + ".md"
  {
    var name := "_" + digits + "-" + slug + ".md";
    forall i | 0 <= i < |name| ensures name[i] != '/' {
      if 1 <= i <= |digits| {
        assert name[i] == digits[i - 1];
      } else if |digits| + 2 <= i < |digits| + 2 + |slug| {
        assert name[i] == slug[i - |digits| - 2];
      }
    }
  }

  lemma PartialPathSplits(digits: string, slug: string)
    requires forall i :: 0 <= i < |digits| ==> IsDigit(digits[i])
    ensures SplitFirst(digits + "-" + slug, '-') == [digits, slug]
  {
    var partial := digits + "-" + slug;
    assert partial[|digits|] == '-';
    assert forall i :: 0 <= i < |digits| ==> partial[i] != '-' by {
      forall i | 0 <= i < |digits| ensures partial[i] != '-' {
        assert partial[i] == digits[i];
      }
    }
    SplitFirstAtFirst(partial, '-', |digits|);
    assert partial[..|digits|] == digits && partial[|digits| + 1..] == slug;
  }

  /** `split(sep, 2)` cuts at the first separator. */
  lemma {:induction false} SplitFirstAtFirst(s: string, sep: char, k: nat)
    requires k < |s| && s[k] == sep && forall i :: 0 <= i < k ==> s[i] != sep
    ensures SplitFirst(s, sep) == [s[..k], s[k + 1..]]
  {
    if k > 0 {
      SplitFirstAtFirst(s[1..], sep, k - 1);
      assert [s[0]] + s[1..][..k - 1] == s[..k];
    }
  }

  /** The literal that separates the generated table of contents from the chapter body. */
  const SPLIT_MARKER: string := "<p>split_toc</p>"

  /** The Markdown handed to the renderer: a Kramdown TOC request, the split token, then the body. */
  const TOC_PREAMBLE: string := "* TOC \n {:toc .support-menu-detail-list #support-menu-detail} \n \n split_toc \n \n"

  /** `full_html.split("<p>split_toc</p>", 2)` and its first part: `nil` for empty HTML (Ruby's
      `"".split` is `[]`), the part before the first marker otherwise. */
  function TocOf(html: string): (r: Option<string>)
    ensures html == [] <==> r.None?
    ensures r.Some? ==> StartsWith(html, r.value)
  {
    if html == [] then None
    else match IndexOf(html, SPLIT_MARKER, 0)
      case Some(k) => Some(html[..k])
      case None => Some(html)
  }

  /** The table of contents holds no marker; when the HTML has one, the HTML is the table of
      contents, the marker and the rest; otherwise it is all table of contents. */
  lemma TocSplit(html: string)
    requires html != []
    ensures var t := TocOf(html).value;
      && (forall k :: !OccursAt(t, SPLIT_MARKER, k))
      && ((exists k :: OccursAt(html, SPLIT_MARKER, k)) ==> StartsWith(html, t + SPLIT_MARKER))
      && ((forall k :: !OccursAt(html, SPLIT_MARKER, k)) ==> t == html)
  {
    var t := TocOf(html).value;
    OccursInPrefix(html, t, SPLIT_MARKER);
    var r := IndexOf(html, SPLIT_MARKER, 0);
    if r.Some? {
      assert html[..r.value + |SPLIT_MARKER|] == t + SPLIT_MARKER;
    }
  }

  /** `show_in_index?`: `true` unless the chapter is secret; for a secret chapter, whether the
      user's features include `show_for` when both are present, and `nil` otherwise. */
  function ShowInIndex(frontmatter: map<string, Value>, features: Option<seq<Value>>): (r: Value)
    ensures !Truthy(Lookup(frontmatter, "keep_secret")) ==> r == Bool(true)
    ensures Truthy(r) <==>
      || !Truthy(Lookup(frontmatter, "keep_secret"))
      || (Truthy(Lookup(frontmatter, "show_for")) && features.Some? && Lookup(frontmatter, "show_for") in features.value)
  {
    if !Truthy(Lookup(frontmatter, "keep_secret")) then Bool(true)
    else if Truthy(Lookup(frontmatter, "show_for")) && features.Some? then
      Bool(Lookup(frontmatter, "show_for") in features.value)
    else Nil
  }

  class Chapter {
    const fullPath: string
    const basename: string
    const partialPath: string
    const id: Option<string>
    const order: int
    /** `File.read(full_path)`. */
    const fileContent: string
    /** `YAML.load(file_content)`; `None` stands for `nil` or `false`. */
    const yaml: Option<map<string, Value>>
    /** `@toc`, set by the first call of `toc` that yields a string. */
    var tocMemo: Option<string>

    constructor (fullPath: string, fileContent: string, yaml: Option<map<string, Value>>)
      ensures this.fullPath == fullPath && this.fileContent == fileContent && this.yaml == yaml
      ensures Identity(basename, partialPath, order, id) == IdentityOf(fullPath)
      ensures tocMemo == None
    {
      var ident := IdentityOf(fullPath);
      this.fullPath := fullPath;
      this.basename := ident.basename;
      this.partialPath := ident.partialPath;
      this.order := ident.order;
      this.id := ident.id;
      this.fileContent := fileContent;
      this.yaml := yaml;
      this.tocMemo := None;
    }

    /** `self <=> other`: the integer comparison of the orders. */
    function Compare(other: Chapter): (r: int)
      ensures r == -1 <==> order < other.order
      ensures r == 0 <==> order == other.order
      ensures r == 1 <==> order > other.order
    {
      if order < other.order then -1 else if order == other.order then 0 else 1
    }

    /** `cache_key`: `[basename, REVISION, ENV["SKYLIGHT_AGENT_EDGE_VERSION"]]`. `revision` is the
        constant `REVISION`, which `DocsVersion.Revision` computes from the name of the directory
        the gem is installed in; the environment variable is `agentEdgeVersion`. */
    function CacheKey(revision: string, agentEdgeVersion: Option<string>): (r: seq<Value>)
      ensures |r| == 3 && r[0] == Str(basename) && r[1] == Str(revision)
      ensures r[2] == (if agentEdgeVersion.Some? then Str(agentEdgeVersion.value) else Nil)
    {
      [Str(basename), Str(revision), if agentEdgeVersion.Some? then Str(agentEdgeVersion.value) else Nil]
    }

    /** `file_without_frontmatter`: the text after the frontmatter block, or the whole file. */
    function FileWithoutFrontmatter(): (r: string)
      ensures fileContent == Frontmatter.MatchedText(fileContent) + r
      ensures Frontmatter.Match(fileContent).None? ==> r == fileContent
    {
      Frontmatter.Strip(fileContent)
    }

    /** `frontmatter`: the YAML mapping, or the error raised when `YAML.load` yields nothing. */
    function FrontmatterMap(): (r: Result<map<string, Value>, string>)
      ensures r.Success? <==> yaml.Some?
      ensures r.Failure? ==> r.error == "No frontmatter found for " + basename
      ensures r.Success? ==> r.value == yaml.value
    {
      match yaml
      case None => Failure("No frontmatter found for " + basename)
      case Some(m) => Success(m)
    }

    /** `frontmatter_attr(key)`: a truthy value, or "Set frontmatter for `key` in basename". */
    function FrontmatterAttr(key: string): (r: Result<Value, string>)
      ensures r.Success? <==> yaml.Some? && Truthy(Lookup(yaml.value, key))
      ensures r.Success? ==> r.value == Lookup(yaml.value, key)
      ensures r.Failure? ==> r.error == (if yaml.None? then "No frontmatter found for " + basename
        else "Set frontmatter for `" + key + "` in " + basename)
    {
      var fm :- FrontmatterMap();
      var v := Lookup(fm, key);
      if Truthy(v) then Success(v) else Failure("Set frontmatter for `" + key + "` in " + basename)
    }

    /** `title`: the frontmatter's `title`, which must be set. */
    function Title(): (r: Result<Value, string>)
      ensures r.Success? <==> yaml.Some? && Truthy(Lookup(yaml.value, "title"))
      ensures r.Success? ==> r.value == Lookup(yaml.value, "title")
      ensures r.Failure? ==> r.error == (if yaml.None? then "No frontmatter found for " + basename
        else "Set frontmatter for `title` in " + basename)
    {
      FrontmatterAttr("title")
    }

    /** `description`: the frontmatter's `description`, which must be set. */
    function Description(): (r: Result<Value, string>)
      ensures r.Success? <==> yaml.Some? && Truthy(Lookup(yaml.value, "description"))
      ensures r.Success? ==> r.value == Lookup(yaml.value, "description")
      ensures r.Failure? ==> r.error == (if yaml.None? then "No frontmatter found for " + basename
        else "Set frontmatter for `description` in " + basename)
    {
      FrontmatterAttr("description")
    }

    /** `keep_secret?`: the raw frontmatter value, `nil` when absent. */
    function KeepSecret(): (r: Result<Value, string>)
      ensures r.Success? <==> yaml.Some?
      ensures r.Success? ==> r.value == Lookup(yaml.value, "keep_secret")
    {
      var fm :- FrontmatterMap();
      Success(Lookup(fm, "keep_secret"))
    }

    /** `show_in_index?(context)`, with the context given as the user's feature list. */
    function ShowInIndexFor(features: Option<seq<Value>>): (r: Result<Value, string>)
      ensures r.Success? <==> yaml.Some?
      ensures r.Success? ==> r.value == ShowInIndex(yaml.value, features)
    {
      var fm :- FrontmatterMap();
      Success(ShowInIndex(fm, features))
    }

    /** The Markdown the renderer is given. */
    function TocSource(): (r: string)
      ensures r == TOC_PREAMBLE + FileWithoutFrontmatter()
    {
      TOC_PREAMBLE + FileWithoutFrontmatter()
    }

    /** `toc`: rendered and split on the first call that yields a string, then served from `@toc`. */
    method Toc(render: string -> string) returns (t: Option<string>)
      modifies this`tocMemo
      ensures old(tocMemo).Some? ==> t == old(tocMemo)
      ensures old(tocMemo).None? ==> t == TocOf(render(TocSource()))
      ensures tocMemo == t
    {
      if tocMemo.None? {
        tocMemo := TocOf(render(TocSource()));
      }
      t := tocMemo;
    }
  }

  /** Once `toc` has produced a table of contents, later calls return it whatever the renderer. */
  method TocIsMemoised(c: Chapter, render: string -> string, render2: string -> string)
    returns (first: Option<string>, second: Option<string>)
    requires c.tocMemo.Some? || TocOf(render(c.TocSource())).Some?
    modifies c
    ensures old(c.tocMemo).None? ==> first == TocOf(render(c.TocSource()))
    ensures old(c.tocMemo).Some? ==> first == old(c.tocMemo)
    ensures first.Some? && second == first
  {
    first := c.Toc(render);
    second := c.Toc(render2);
  }

  /** `||=` does not remember `nil`: when the first rendering yields no table of contents, the
      next call renders again. */
  method TocRetriedAfterNil(c: Chapter, render: string -> string, render2: string -> string)
    returns (first: Option<string>, second: Option<string>)
    requires c.tocMemo.None? && TocOf(render(c.TocSource())).None?
    modifies c
    ensures first == None && second == TocOf(render2(c.TocSource()))
  {
    first := c.Toc(render);
    second := c.Toc(render2);
  }
}

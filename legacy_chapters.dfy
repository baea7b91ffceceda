/**
 * lib/skylight/docs.rb: the second generation of the chapter class. A chapter is named by its
 * file name without `.md`, must exist in the Markdown folder, and must carry the frontmatter keys
 * `title`, `description`, `order` and `updated`, which become its attributes. The class variable
 * `@@chapters` holds the chapters of the last call of `all`, and `find` looks chapters up there.
 *
 * The folder is a map from file names (relative to it) to their text; the recursive `.md` glob is
 * the list of paths it yields; `YAML.load` is a function from a file's text to its mapping
 * (`None` for `nil`); the Markdown renderer is a function from Markdown to HTML.
 */
module LegacyChapters {
  import opened Wrappers
  import opened RubyText
  import opened Sorting
  import Frontmatter
  import ChapterFile

  /** The keys `set_frontmatter` requires, in the order it checks them. */
  const VALID_KEYS: seq<string> := ["title", "description", "order", "updated"]

  /** What Ruby raises when `frontmatter[key]` is called on `nil`. */
  const NIL_ERROR: string := "undefined method `[]' for nil:NilClass"

  /** The first of `keys` whose frontmatter value is missing or falsy. */
  function FirstMissing(frontmatter: map<string, Value>, keys: seq<string>): (r: Option<nat>)
    ensures r.Some? ==> r.value < |keys| && !Truthy(Lookup(frontmatter, keys[r.value]))
    ensures r.Some? ==> forall j :: 0 <= j < r.value ==> Truthy(Lookup(frontmatter, keys[j]))
    ensures r.None? <==> forall j :: 0 <= j < |keys| ==> Truthy(Lookup(frontmatter, keys[j]))
  {
    if keys == [] then None
    else if !Truthy(Lookup(frontmatter, keys[0])) then Some(0)
    else
      match FirstMissing(frontmatter, keys[1..])
      case None => None
      case Some(j) => Some(j + 1)
  }

  /** What `set_frontmatter` leaves behind: the four attributes, or the error it raises at the first
      missing or falsy key. */
  function FrontmatterAttrs(yaml: Option<map<string, Value>>): (r: Result<map<string, Value>, string>)
    ensures yaml.None? ==> r == Failure(NIL_ERROR)
  {
    match yaml
    case None => Failure(NIL_ERROR)
    case Some(fm) =>
      match FirstMissing(fm, VALID_KEYS)
      case Some(i) => Failure("Set frontmatter for `" + VALID_KEYS[i] + "`")
      case None => Success(map k | k in VALID_KEYS :: Lookup(fm, k))
  }

  /** The keys are checked in the order `title`, `description`, `order`, `updated`: the error names
      the first one that is missing or falsy, and when none is, each becomes an attribute. */
  lemma FrontmatterAttrsChecksInOrder(fm: map<string, Value>)
    ensures FrontmatterAttrs(Some(fm)).Success? <==> forall k :: k in VALID_KEYS ==> Truthy(Lookup(fm, k))
    ensures FrontmatterAttrs(Some(fm)).Failure? ==> exists i :: (0 <= i < |VALID_KEYS|
      && FrontmatterAttrs(Some(fm)).error == "Set frontmatter for `" + VALID_KEYS[i] + "`"
      && !Truthy(Lookup(fm, VALID_KEYS[i]))
      && forall j :: 0 <= j < i ==> Truthy(Lookup(fm, VALID_KEYS[j])))
    ensures FrontmatterAttrs(Some(fm)).Success? ==>
      && FrontmatterAttrs(Some(fm)).value.Keys == (set k | k in VALID_KEYS)
      && forall k :: k in VALID_KEYS ==> FrontmatterAttrs(Some(fm)).value[k] == Lookup(fm, k)
  {
    assert forall k :: k in VALID_KEYS ==> exists j :: 0 <= j < |VALID_KEYS| && VALID_KEYS[j] == k;
  }

  /** `set_frontmatter`: checks the keys in order, setting each attribute in turn. */
  method SetFrontmatter(yaml: Option<map<string, Value>>) returns (r: Result<map<string, Value>, string>)
    ensures r == FrontmatterAttrs(yaml)
  {
    if yaml.None? {
      return Failure(NIL_ERROR);
    }
    var frontmatter := yaml.value;
    var attrs: map<string, Value> := map[];
    for i := 0 to |VALID_KEYS|
      invariant forall j :: 0 <= j < i ==> Truthy(Lookup(frontmatter, VALID_KEYS[j]))
      invariant attrs == map k | k in VALID_KEYS[..i] :: Lookup(frontmatter, k)
    {
      var key := VALID_KEYS[i];
      var value := Lookup(frontmatter, key);
      if !Truthy(value) {
        assert FirstMissing(frontmatter, VALID_KEYS) == Some(i) by {
          FirstMissingIsFirst(frontmatter, VALID_KEYS, i);
        }
        return Failure("Set frontmatter for `" + key + "`");
      }
      assert VALID_KEYS[..i + 1] == VALID_KEYS[..i] + [key];
      attrs := attrs[key := value];
    }
    assert VALID_KEYS[..|VALID_KEYS|] == VALID_KEYS;
    r := Success(attrs);
  }

  /** The first missing key is the one before which every key is present. */
  lemma {:induction false} FirstMissingIsFirst(frontmatter: map<string, Value>, keys: seq<string>, i: nat)
    requires i < |keys| && !Truthy(Lookup(frontmatter, keys[i]))
    requires forall j :: 0 <= j < i ==> Truthy(Lookup(frontmatter, keys[j]))
    ensures FirstMissing(frontmatter, keys) == Some(i)
  {
    if i > 0 {
      FirstMissingIsFirst(frontmatter, keys[1..], i - 1);
    }
  }

  /** What `initialize` fixes about a chapter: its name, its text, its `uri` and its attributes. */
  datatype Record = Record(filename: string, file: string, uri: string, attrs: map<string, Value>)

  /** `Chapter.new(filename)`: the file must exist, and `set_frontmatter` must succeed; a missing
      file is reported first, and the chapter's `uri` is `/support/` and its name. */
  function Initialize(filename: string, folder: map<string, string>,
                      yamlOf: string -> Option<map<string, Value>>): (r: Result<Record, string>)
    ensures r.Success? ==> r.value.filename == filename && r.value.uri == "/support/" + filename
  {
    var path := filename + ".md";
    if path !in folder then Failure("File Not Found: " + filename)
    else
      var file := folder[path];
      var attrs :- FrontmatterAttrs(yamlOf(file));
      Success(Record(filename, file, "/support/" + filename, attrs))
  }

  /** A chapter can be built exactly when its file exists and its frontmatter carries the four keys;
      a missing file is reported first. */
  lemma InitializeChecks(filename: string, folder: map<string, string>,
                         yamlOf: string -> Option<map<string, Value>>)
    ensures var r := Initialize(filename, folder, yamlOf);
      && (filename + ".md" !in folder ==> r == Failure("File Not Found: " + filename))
      && (r.Success? <==> filename + ".md" in folder && FrontmatterAttrs(yamlOf(folder[filename + ".md"])).Success?)
      && (r.Failure? && filename + ".md" in folder ==> FrontmatterAttrs(yamlOf(folder[filename + ".md"])) == Failure(r.error))
      && (r.Success? ==> r.value.file == folder[filename + ".md"] && FrontmatterAttrs(yamlOf(r.value.file)) == Success(r.value.attrs))
  {
  }

  /** `File.basename(path, '.md')`. */
  function NameOf(path: string): (r: string)
    ensures '/' !in r
  {
    ChapterFile.WithoutExtension(BaseName(path))
  }

  /** The name is the last segment of the path, with its `.md` removed when it has one. */
  lemma NameOfPath(path: string)
    ensures EndsWith(path, NameOf(path)) || EndsWith(path, NameOf(path) + ".md")
  {
  }

  /** `Dir[pattern].map { |path| Chapter.new(File.basename(path, '.md')) }`: the records in listing
      order, or the error of the first path whose chapter cannot be built. */
  function BuildAll(listing: seq<string>, folder: map<string, string>,
                    yamlOf: string -> Option<map<string, Value>>): (r: Result<seq<Record>, string>)
    ensures r.Success? ==> |r.value| == |listing|
  {
    if listing == [] then Success([])
    else
      var init :- BuildAll(listing[..|listing| - 1], folder, yamlOf);
      var rec :- Initialize(NameOf(listing[|listing| - 1]), folder, yamlOf);
      Success(init + [rec])
  }

  /** Building one more chapter appends its record. */
  lemma BuildAllStep(listing: seq<string>, folder: map<string, string>,
                     yamlOf: string -> Option<map<string, Value>>, i: nat, recs: seq<Record>, rec: Record)
    requires i < |listing|
    requires BuildAll(listing[..i], folder, yamlOf) == Success(recs)
    requires Initialize(NameOf(listing[i]), folder, yamlOf) == Success(rec)
    ensures BuildAll(listing[..i + 1], folder, yamlOf) == Success(recs + [rec])
  {
    assert listing[..i + 1][..i] == listing[..i];
  }

  /** The error of `BuildAll` is the one of the first path that fails. */
  lemma {:induction false} BuildAllFailsAtFirst(listing: seq<string>, folder: map<string, string>,
                                                yamlOf: string -> Option<map<string, Value>>, i: nat)
    requires i < |listing|
    requires BuildAll(listing[..i], folder, yamlOf).Success?
    requires Initialize(NameOf(listing[i]), folder, yamlOf).Failure?
    ensures BuildAll(listing, folder, yamlOf) == Failure(Initialize(NameOf(listing[i]), folder, yamlOf).error)
    decreases |listing|
  {
    var init := listing[..|listing| - 1];
    if i < |listing| - 1 {
      assert init[..i] == listing[..i];
      BuildAllFailsAtFirst(init, folder, yamlOf, i);
    } else {
      assert init == listing[..i];
    }
  }

  /** `Chapter`: the record fixed at construction, and `@content`. */
  class LegacyChapter {
    const record: Record
    /** `@content`, set by the first call of `content`. */
    var contentMemo: Option<string>

    constructor (record: Record)
      ensures this.record == record && contentMemo == None
    {
      this.record := record;
      contentMemo := None;
    }

    /** `chapter.order`. */
    function Order(): Value {
      Lookup(record.attrs, "order")
    }

    /** `clean_markdown`: the text after the frontmatter block, or the whole file. */
    function CleanMarkdown(): (r: string)
      ensures record.file == Frontmatter.MatchedText(record.file) + r
      ensures Frontmatter.Match(record.file).None? ==> r == record.file
    {
      Frontmatter.Strip(record.file)
    }

    /** `content`: rendered on the first call, then served from `@content` (a string is always
        truthy, so `||=` renders at most once). */
    method Content(render: string -> string) returns (html: string)
      modifies this`contentMemo
      ensures old(contentMemo).Some? ==> html == old(contentMemo).value
      ensures old(contentMemo).None? ==> html == render(CleanMarkdown())
      ensures contentMemo == Some(html)
    {
      if contentMemo.None? {
        contentMemo := Some(render(CleanMarkdown()));
      }
      html := contentMemo.value;
    }
  }

  /** Whatever the renderer does on later calls, `content` returns what the first call rendered. */
  method ContentIsMemoised(c: LegacyChapter, render: string -> string, render2: string -> string)
    returns (first: string, second: string)
    requires c.contentMemo == None
    modifies c
    ensures first == render(c.CleanMarkdown()) && second == first
  {
    first := c.Content(render);
    second := c.Content(render2);
  }

  function Records(cs: seq<LegacyChapter>): (r: seq<Record>)
    ensures |r| == |cs| && forall i :: 0 <= i < |cs| ==> r[i] == cs[i].record
  {
    seq(|cs|, i requires 0 <= i < |cs| => cs[i].record)
  }

  /** An `Integer` or a `Float`: the orders `<=>` compares by numeric value. */
  predicate IsNumeric(v: Value) {
    v.Num? || v.Float?
  }

  /** The numeric value of an `Integer` or `Float` order. */
  function NumKey(v: Value): real {
    if v.Num? then v.n as real else if v.Float? then v.f else 0.0
  }

  /** Whether `a <=> b` answers at all: numbers with numbers, strings with strings, and `nil`,
      `true` and `false` each only with itself. */
  predicate Comparable(a: Value, b: Value) {
    (IsNumeric(a) && IsNumeric(b)) || (a.Str? && b.Str?) || (a == b && (a.Nil? || a.Bool?))
  }

  /** `(a <=> b) <= 0`, for orders that compare. */
  predicate OrderLe(a: Value, b: Value) {
    Comparable(a, b)
    && (IsNumeric(a) ==> NumKey(a) <= NumKey(b))
    && (a.Str? ==> LexLe(a.s, b.s))
  }

  function NumOrder(c: LegacyChapter): real {
    NumKey(c.Order())
  }

  function StrOrder(c: LegacyChapter): string {
    if c.Order().Str? then c.Order().s else ""
  }

  predicate RealLe(a: real, b: real) {
    a <= b
  }

  /** Some two chapters have orders that `<=>` cannot compare. */
  predicate Clash(cs: seq<LegacyChapter>) {
    exists c, d :: c in cs && d in cs && !Comparable(c.Order(), d.Order())
  }

  /** `chapters.sort_by { |chapter| chapter.order }`: numbers sort by value and strings by
      `<=>`; `nil`, `true` and `false` only compare equal to themselves. Ruby raises exactly when
      two orders cannot be compared: a sort that finishes has compared every two neighbours of
      its result, and once the orders fall into two or more kinds, two neighbours differ in
      kind. */
  function SortByOrder(cs: seq<LegacyChapter>): (r: Result<seq<LegacyChapter>, string>)
    ensures r.Failure? <==> Clash(cs)
    ensures r.Failure? ==> r.error == SORT_ERROR
    ensures r.Success? ==> multiset(r.value) == multiset(cs)
    ensures r.Success? ==> forall i, j :: 0 <= i < j < |r.value| ==> OrderLe(r.value[i].Order(), r.value[j].Order())
  {
    if forall c :: c in cs ==> IsNumeric(c.Order()) then
      assert TotalPreorder(RealLe);
      var sorted := SortBy(cs, NumOrder, RealLe);
      SortedNumbers(cs, sorted);
      Success(sorted)
    else if forall c :: c in cs ==> c.Order().Str? then
      LexLeTotalPreorder();
      var sorted := SortBy(cs, StrOrder, LexLe);
      SortedStrings(cs, sorted);
      Success(sorted)
    else if Clash(cs) then Failure(SORT_ERROR)
    else
      AllAlike(cs);
      Success(cs)
  }

  /** Orders that are all numbers, sorted by value, are in `<=>` order. */
  lemma SortedNumbers(cs: seq<LegacyChapter>, sorted: seq<LegacyChapter>)
    requires forall c :: c in cs ==> IsNumeric(c.Order())
    requires multiset(sorted) == multiset(cs) && SortedBy(sorted, NumOrder, RealLe)
    ensures !Clash(cs)
    ensures forall i, j :: 0 <= i < j < |sorted| ==> OrderLe(sorted[i].Order(), sorted[j].Order())
  {
    forall i, j | 0 <= i < j < |sorted| ensures OrderLe(sorted[i].Order(), sorted[j].Order()) {
      assert sorted[i] in multiset(cs) && sorted[j] in multiset(cs);
      assert RealLe(NumOrder(sorted[i]), NumOrder(sorted[j]));
    }
  }

  /** Orders that are all strings, sorted as text, are in `<=>` order. */
  lemma SortedStrings(cs: seq<LegacyChapter>, sorted: seq<LegacyChapter>)
    requires forall c :: c in cs ==> c.Order().Str?
    requires multiset(sorted) == multiset(cs) && SortedBy(sorted, StrOrder, LexLe)
    ensures !Clash(cs)
    ensures forall i, j :: 0 <= i < j < |sorted| ==> OrderLe(sorted[i].Order(), sorted[j].Order())
  {
    forall i, j | 0 <= i < j < |sorted| ensures OrderLe(sorted[i].Order(), sorted[j].Order()) {
      assert sorted[i] in multiset(cs) && sorted[j] in multiset(cs);
      assert LexLe(StrOrder(sorted[i]), StrOrder(sorted[j]));
    }
  }

  /** Orders that all compare with one another and are neither all numbers nor all strings are
      one and the same `nil`, `true` or `false`, so any arrangement is in `<=>` order. */
  lemma AllAlike(cs: seq<LegacyChapter>)
    requires !Clash(cs)
    requires !(forall c :: c in cs ==> IsNumeric(c.Order()))
    requires !(forall c :: c in cs ==> c.Order().Str?)
    ensures forall i, j :: 0 <= i < j < |cs| ==> OrderLe(cs[i].Order(), cs[j].Order())
  {
    var x :| x in cs && !IsNumeric(x.Order());
    var y :| y in cs && !y.Order().Str?;
    assert Comparable(x.Order(), y.Order());
    var v := x.Order();
    assert v.Nil? || v.Bool?;
    forall c | c in cs ensures c.Order() == v {
      assert Comparable(x.Order(), c.Order());
    }
    forall i, j | 0 <= i < j < |cs| ensures OrderLe(cs[i].Order(), cs[j].Order()) {
      assert cs[i] in cs && cs[j] in cs;
    }
  }

  const SORT_ERROR: string := "comparison of Chapter order values failed"

  /** The class variable `@@chapters`, with `all` and `find`. */
  class Library {
    var chapters: seq<LegacyChapter>

    /** `@@chapters = []`. */
    constructor ()
      ensures chapters == []
    {
      chapters := [];
    }

    /** `find(filename)`: the first chapter of `@@chapters` with that file name, or `nil`. */
    function Find(filename: string): (r: Option<LegacyChapter>)
      reads this
      ensures r.Some? <==> exists i :: 0 <= i < |chapters| && chapters[i].record.filename == filename
      ensures r.Some? ==> exists i :: (0 <= i < |chapters| && chapters[i] == r.value
        && r.value.record.filename == filename
        && forall j :: 0 <= j < i ==> chapters[j].record.filename != filename)
    {
      FindFrom(chapters, filename)
    }

    /** `all`: builds a chapter for every listed file; only when all of them can be built does
        `@@chapters` become that list, unsorted; the result is the list sorted by order, and the
        sort may still raise after `@@chapters` has been replaced. */
    method All(listing: seq<string>, folder: map<string, string>,
               yamlOf: string -> Option<map<string, Value>>) returns (r: Result<seq<LegacyChapter>, string>)
      modifies this
      ensures BuildAll(listing, folder, yamlOf).Failure? ==>
        r == Failure(BuildAll(listing, folder, yamlOf).error) && chapters == old(chapters)
      ensures BuildAll(listing, folder, yamlOf).Success? ==>
        && Records(chapters) == BuildAll(listing, folder, yamlOf).value
        && (forall c :: c in chapters ==> fresh(c) && c.contentMemo == None)
        && r == SortByOrder(chapters)
    {
      var built := NewChapters(listing, folder, yamlOf);
      if built.Failure? {
        return Failure(built.error);
      }
      chapters := built.value;
      r := SortByOrder(chapters);
    }
  }

  /** The `map` inside `all`: a new chapter for every listed path, in listing order, or the error
      raised for the first path whose chapter cannot be built. */
  method NewChapters(listing: seq<string>, folder: map<string, string>,
                     yamlOf: string -> Option<map<string, Value>>) returns (r: Result<seq<LegacyChapter>, string>)
    ensures r.Failure? <==> BuildAll(listing, folder, yamlOf).Failure?
    ensures r.Failure? ==> r.error == BuildAll(listing, folder, yamlOf).error
    ensures r.Success? ==> Records(r.value) == BuildAll(listing, folder, yamlOf).value
    ensures r.Success? ==> forall c :: c in r.value ==> fresh(c) && c.contentMemo == None
  {
    var built: seq<LegacyChapter> := [];
    for i := 0 to |listing|
      invariant BuildAll(listing[..i], folder, yamlOf) == Success(Records(built))
      invariant forall c :: c in built ==> fresh(c) && c.contentMemo == None
    {
      var rec := Initialize(NameOf(listing[i]), folder, yamlOf);
      if rec.Failure? {
        BuildAllFailsAtFirst(listing, folder, yamlOf, i);
        return Failure(rec.error);
      }
      var c := new LegacyChapter(rec.value);
      BuildAllStep(listing, folder, yamlOf, i, Records(built), rec.value);
      assert Records(built + [c]) == Records(built) + [c.record];
      built := built + [c];
    }
    assert listing[..|listing|] == listing;
    r := Success(built);
  }

  function FindFrom(cs: seq<LegacyChapter>, filename: string): (r: Option<LegacyChapter>)
    ensures r.Some? <==> exists i :: 0 <= i < |cs| && cs[i].record.filename == filename
    ensures r.Some? ==> exists i :: (0 <= i < |cs| && cs[i] == r.value
      && r.value.record.filename == filename
      && forall j :: 0 <= j < i ==> cs[j].record.filename != filename)
  {
    if cs == [] then None
    else if cs[0].record.filename == filename then Some(cs[0])
    else
      var r := FindFrom(cs[1..], filename);
      assert forall i :: 1 <= i < |cs| ==> cs[1..][i - 1] == cs[i];
      r
  }

  /** Before `all` has run, `find` finds nothing. */
  method FindBeforeAll(filename: string) returns (r: Option<LegacyChapter>)
    ensures r == None
  {
    var library := new Library();
    r := library.Find(filename);
  }
}

/**
 * lib/skylight/docs/chapters.rb: the collection of chapters of one documentation directory,
 * ordered by the number in their file names. The directory listing is a parameter: each entry
 * carries a file name, the file's text and what `YAML.load` makes of it.
 */
module ChapterList {
  import opened Wrappers
  import opened RubyText
  import opened Sorting
  import opened ChapterFile

  /** A file of the chapters directory. */
  datatype Entry = Entry(name: string, content: string, yaml: Option<map<string, Value>>)

  /** What a chapter was built from: its path, its text and its frontmatter. */
  datatype Origin = Origin(path: string, content: string, yaml: Option<map<string, Value>>)

  /** The glob `_[0-9]*.md`: an underscore, a digit, anything, then `.md`. */
  predicate IsChapterFile(name: string) {
    |name| >= 5 && name[0] == '_' && IsDigit(name[1]) && EndsWith(name, ".md")
  }

  /** The origins of the files that `Dir[dir.join("_[0-9]*.md")]` lists, in listing order. */
  function Wanted(dir: string, entries: seq<Entry>): (r: seq<Origin>)
    ensures |r| <= |entries|
  {
    if entries == [] then []
    else
      var e := entries[|entries| - 1];
      var rest := Wanted(dir, entries[..|entries| - 1]);
      if IsChapterFile(e.name) then rest + [Origin(dir + "/" + e.name, e.content, e.yaml)] else rest
  }

  /** A chapter is built for exactly the chapter files of the listing. */
  lemma {:induction false} WantedMembers(dir: string, entries: seq<Entry>)
    ensures forall o :: o in Wanted(dir, entries) <==>
      exists e :: e in entries && IsChapterFile(e.name) && o == Origin(dir + "/" + e.name, e.content, e.yaml)
  {
    if entries != [] {
      var e := entries[|entries| - 1];
      var init := entries[..|entries| - 1];
      WantedMembers(dir, init);
      assert entries == init + [e];
    }
  }

  function OriginOf(c: Chapter): Origin {
    Origin(c.fullPath, c.fileContent, c.yaml)
  }

  /** The origins of a run of chapters, in order. */
  function Origins(cs: seq<Chapter>): (r: seq<Origin>)
    ensures |r| == |cs|
  {
    if cs == [] then [] else [OriginOf(cs[0])] + Origins(cs[1..])
  }

  /** The origins of two runs one after the other. */
  lemma {:induction false} OriginsAppend(a: seq<Chapter>, b: seq<Chapter>)
    ensures Origins(a + b) == Origins(a) + Origins(b)
    decreases |a|
  {
    if a == [] {
      assert a + b == b;
    } else {
      assert (a + b)[1..] == a[1..] + b;
      OriginsAppend(a[1..], b);
    }
  }

  /** Taking out the element at `j` takes one copy of it out of the multiset. */
  lemma MultisetRemove<T>(ys: seq<T>, j: nat)
    requires j < |ys|
    ensures multiset(ys[..j] + ys[j + 1..]) == multiset(ys) - multiset{ys[j]}
  {
    assert ys == (ys[..j] + [ys[j]]) + ys[j + 1..];
  }

  /** The origins of a run that starts with `y`. */
  lemma OriginsCons(y: Chapter, b: seq<Chapter>)
    ensures Origins([y] + b) == [OriginOf(y)] + Origins(b)
  {
    assert ([y] + b)[1..] == b;
  }

  /** A sequence is what comes before `j`, the element at `j`, and what follows. */
  lemma SplitAround<T>(ys: seq<T>, j: nat)
    requires j < |ys|
    ensures ys == ys[..j] + ([ys[j]] + ys[j + 1..])
  {
  }

  /** Taking out the chapter at `j` takes one copy of its origin out of the origins. */
  lemma OriginsRemove(ys: seq<Chapter>, j: nat)
    requires j < |ys|
    ensures multiset(Origins(ys)) == multiset{OriginOf(ys[j])} + multiset(Origins(ys[..j] + ys[j + 1..]))
  {
    var a, y, b := ys[..j], ys[j], ys[j + 1..];
    SplitAround(ys, j);
    OriginsAppend(a, [y] + b);
    OriginsCons(y, b);
    OriginsAppend(a, b);
    var oa, ob := Origins(a), Origins(b);
    assert multiset(oa + ([OriginOf(y)] + ob)) == multiset{OriginOf(y)} + multiset(oa + ob);
  }

  /** Rearranging chapters rearranges their origins the same way. */
  lemma {:induction false} OriginsPermutation(xs: seq<Chapter>, ys: seq<Chapter>)
    requires multiset(xs) == multiset(ys)
    ensures multiset(Origins(xs)) == multiset(Origins(ys))
    decreases |xs|
  {
    if xs != [] {
      var x := xs[0];
      assert x in multiset(ys);
      var j :| 0 <= j < |ys| && ys[j] == x;
      var rest := ys[..j] + ys[j + 1..];
      assert xs == [x] + xs[1..];
      MultisetRemove(ys, j);
      OriginsPermutation(xs[1..], rest);
      OriginsRemove(ys, j);
    }
  }

  function OrderOf(c: Chapter): int {
    c.order
  }

  predicate IntLe(a: int, b: int) {
    a <= b
  }

  /** `Chapters`: the chapters, kept sorted by order. */
  datatype Chapters = Chapters(chapters: seq<Chapter>) {

    /** `all`. */
    function All(): (r: seq<Chapter>)
      ensures r == chapters
    {
      chapters
    }

    /** `find(id)`: the first chapter with that id, or `ChapterNotFoundError`. */
    function Find(id: string): (r: Result<Chapter, string>)
      ensures r.Success? <==> exists i :: 0 <= i < |chapters| && chapters[i].id == Some(id)
      ensures r.Success? ==> exists i :: (0 <= i < |chapters| && chapters[i] == r.value
        && r.value.id == Some(id) && forall j :: 0 <= j < i ==> chapters[j].id != Some(id))
      ensures r.Failure? ==> r.error == "`" + id + "` not found"
    {
      FindFrom(id, 0)
    }

    function FindFrom(id: string, i: nat): (r: Result<Chapter, string>)
      requires i <= |chapters|
      ensures r.Success? <==> exists k :: i <= k < |chapters| && chapters[k].id == Some(id)
      ensures r.Success? ==> exists k :: (i <= k < |chapters| && chapters[k] == r.value
        && r.value.id == Some(id) && forall j :: i <= j < k ==> chapters[j].id != Some(id))
      ensures r.Failure? ==> r.error == "`" + id + "` not found"
      decreases |chapters| - i
    {
      if i == |chapters| then Failure("`" + id + "` not found")
      else if chapters[i].id == Some(id) then Success(chapters[i])
      else FindFrom(id, i + 1)
    }

    /** `cache_key`: the chapters' cache keys, flattened in chapter order. */
    function CacheKey(revision: string, agentEdgeVersion: Option<string>): (r: seq<Value>)
      ensures |r| == 3 * |chapters|
      ensures forall i :: 0 <= i < |chapters| ==>
        r[3 * i..3 * i + 3] == chapters[i].CacheKey(revision, agentEdgeVersion)
      decreases |chapters|
    {
      if chapters == [] then []
      else
        var rest := Chapters(chapters[1..]).CacheKey(revision, agentEdgeVersion);
        var r := chapters[0].CacheKey(revision, agentEdgeVersion) + rest;
        assert forall i :: 1 <= i < |chapters| ==> r[3 * i..3 * i + 3] == rest[3 * (i - 1)..3 * (i - 1) + 3];
        r
    }
  }

  /** `Chapters.new(chapters)`: the same chapters, sorted by order. */
  function NewChapters(input: seq<Chapter>): (r: Chapters)
    ensures multiset(r.chapters) == multiset(input)
    ensures SortedBy(r.chapters, OrderOf, IntLe)
  {
    assert TotalPreorder(IntLe);
    Chapters(SortBy(input, OrderOf, IntLe))
  }

  /** A chapter id appears in the collection exactly when it appears among the input chapters,
      so sorting never hides a chapter from `find`. */
  lemma FindAfterSort(input: seq<Chapter>, id: string)
    ensures NewChapters(input).Find(id).Success? <==> exists c :: c in input && c.id == Some(id)
  {
    var cs := NewChapters(input).chapters;
    if c :| c in input && c.id == Some(id) {
      assert c in multiset(cs);
      var i :| 0 <= i < |cs| && cs[i] == c;
    }
    if i :| 0 <= i < |cs| && cs[i].id == Some(id) {
      assert cs[i] in multiset(input);
    }
  }

  /** The first chapter of a non-empty collection has the smallest order. */
  lemma FirstHasSmallestOrder(input: seq<Chapter>)
    requires input != []
    ensures forall c :: c in input ==> NewChapters(input).chapters[0].order <= c.order
  {
    var cs := NewChapters(input).chapters;
    forall c | c in input ensures cs[0].order <= c.order {
      assert c in multiset(cs);
      var i :| 0 <= i < |cs| && cs[i] == c;
      if i > 0 {
        assert IntLe(OrderOf(cs[0]), OrderOf(cs[i]));
      }
    }
  }

  /** The chapter's identity fields are the ones its path gives. */
  predicate Identified(c: Chapter) {
    Identity(c.basename, c.partialPath, c.order, c.id) == IdentityOf(c.fullPath)
  }

  /** One more listed file adds its origin when it is a chapter file. */
  lemma WantedStep(dir: string, entries: seq<Entry>, i: nat)
    requires i < |entries|
    ensures var e := entries[i];
      Wanted(dir, entries[..i + 1])
        == Wanted(dir, entries[..i]) + (if IsChapterFile(e.name) then [Origin(dir + "/" + e.name, e.content, e.yaml)] else [])
  {
    assert entries[..i + 1][..i] == entries[..i];
  }

  /** `Chapters.load(dir)`: a chapter for every chapter file of the directory, sorted by order. */
  method Load(dir: string, entries: seq<Entry>) returns (r: Chapters)
    ensures multiset(Origins(r.chapters)) == multiset(Wanted(dir, entries))
    ensures SortedBy(r.chapters, OrderOf, IntLe)
    ensures forall c :: c in r.chapters ==> Identified(c)
  {
    var cs: seq<Chapter> := [];
    for i := 0 to |entries|
      invariant Origins(cs) == Wanted(dir, entries[..i])
      invariant forall c :: c in cs ==> Identified(c)
    {
      var e := entries[i];
      WantedStep(dir, entries, i);
      if IsChapterFile(e.name) {
        var c := new Chapter(dir + "/" + e.name, e.content, e.yaml);
        OriginsAppend(cs, [c]);
        cs := cs + [c];
      }
    }
    assert entries[..|entries|] == entries;
    r := NewChapters(cs);
    OriginsPermutation(r.chapters, cs);
    SortingKeepsMembers(cs);
  }

  /** Sorting brings in no chapter that was not there. */
  lemma SortingKeepsMembers(cs: seq<Chapter>)
    ensures forall c :: c in NewChapters(cs).chapters ==> c in cs
  {
    forall c | c in NewChapters(cs).chapters ensures c in cs {
      assert c in multiset(NewChapters(cs).chapters);
    }
  }
}

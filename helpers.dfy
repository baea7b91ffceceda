/**
 * app/helpers/skylight/docs/application_helper.rb: view helpers of the documentation engine.
 * `link_to` gives in-page anchor links the `js-scroll-link` class before handing over to Rails'
 * own `link_to`; `note_header` and `img_width` produce fixed texts for the views.
 *
 * The `html_options` hash is a `HtmlOptions` object whose attributes `link_to` updates in place;
 * the helper's result is the `html_options` it forwards to Rails (`name` and `options` are
 * forwarded unchanged). Its keys are Ruby symbols (`:class`), written here as their names.
 */
module DocsHelper {
  import opened RubyText

  const SCROLL_CLASS := "js-scroll-link"

  /** The `options` argument: a URL string, or anything else (a hash, a record, `nil`). */
  datatype LinkOptions = Url(url: string) | NotAString

  /** `options.is_a?(String) && /^#/.match(options)`: some line of the URL starts with `#`. */
  predicate IsAnchor(options: LinkOptions) {
    options.Url? && AtSomeLineStart(options.url, "#")
  }

  /** A mutable `html_options` hash. */
  class HtmlOptions {
    var attrs: map<string, Value>

    constructor (attrs: map<string, Value>)
      ensures this.attrs == attrs
    {
      this.attrs := attrs;
    }
  }

  /** `html_options[:class] ||= "js-scroll-link"`. */
  function WithScrollClass(attrs: map<string, Value>): (r: map<string, Value>)
    ensures Truthy(Lookup(r, "class"))
    ensures Truthy(Lookup(attrs, "class")) ==> r == attrs
    ensures !Truthy(Lookup(attrs, "class")) ==> Lookup(r, "class") == Str(SCROLL_CLASS)
    ensures r.Keys == attrs.Keys + {"class"}
    ensures forall k :: k in attrs && k != "class" ==> r[k] == attrs[k]
  {
    if Truthy(Lookup(attrs, "class")) then attrs else attrs["class" := Str(SCROLL_CLASS)]
  }

  /** Defaulting the class twice is defaulting it once. */
  lemma WithScrollClassIdempotent(attrs: map<string, Value>)
    ensures WithScrollClass(WithScrollClass(attrs)) == WithScrollClass(attrs)
  {
  }

  /** `link_to(name, options, html_options)`: for an anchor, `html_options` becomes a hash (a new
      one when it was `nil`) whose class defaults to `js-scroll-link`; otherwise it is forwarded
      untouched. */
  method LinkTo(name: string, options: LinkOptions, htmlOptions: HtmlOptions?) returns (forwarded: HtmlOptions?)
    modifies htmlOptions
    ensures IsAnchor(options) ==> forwarded != null
    ensures IsAnchor(options) ==>
      forwarded.attrs == WithScrollClass(if htmlOptions == null then map[] else old(htmlOptions.attrs))
    ensures IsAnchor(options) && htmlOptions != null ==> forwarded == htmlOptions
    ensures IsAnchor(options) && htmlOptions == null ==> fresh(forwarded)
    ensures !IsAnchor(options) ==> forwarded == htmlOptions
    ensures !IsAnchor(options) && htmlOptions != null ==> htmlOptions.attrs == old(htmlOptions.attrs)
  {
    forwarded := htmlOptions;
    if IsAnchor(options) {
      if forwarded == null {
        forwarded := new HtmlOptions(map[]);
      }
      if !Truthy(Lookup(forwarded.attrs, "class")) {
        forwarded.attrs := forwarded.attrs["class" := Str(SCROLL_CLASS)];
      }
    }
  }

  /** A URL starting with `#` is an anchor, and so is one with `#` after a line break; a URL
      without `#` is not. */
  lemma AnchorExamples(rest: string)
    ensures IsAnchor(Url("#" + rest))
    ensures IsAnchor(Url("docs\n#" + rest))
    ensures '#' !in rest ==> !IsAnchor(Url(rest))
  {
    assert OccursAt("#" + rest, "#", 0);
    var t := "docs\n#" + rest;
    assert LineStart(t, 5) && OccursAt(t, "#", 5);
    MatchFromIff(t, "#", true, 0);
    MatchFromIff(rest, "#", true, 0);
    if '#' !in rest {
      forall j | 0 <= j <= |rest| ensures !OccursAt(rest, "#", j) {
        if j < |rest| {
          assert rest[j] in rest;
          assert rest[j..j + 1] == [rest[j]];
        }
      }
    }
  }

  /** `note_header(type)`. */
  function NoteHeader(noteType: Value): (r: string)
    ensures r in {"Pro Tip:", "IMPORTANT:", "Note:"}
  {
    if noteType == Str("pro_tip") then "Pro Tip:"
    else if noteType == Str("important") then "IMPORTANT:"
    else "Note:"
  }

  /** Each header names exactly one kind of note: the two string keys, and everything else. */
  lemma NoteHeaderCases(noteType: Value)
    ensures NoteHeader(noteType) == "Pro Tip:" <==> noteType == Str("pro_tip")
    ensures NoteHeader(noteType) == "IMPORTANT:" <==> noteType == Str("important")
    ensures NoteHeader(noteType) == "Note:" <==> noteType != Str("pro_tip") && noteType != Str("important")
  {
  }

  const WIDTH_PREFIX := "width: 100%; max-width: "
  const WIDTH_SUFFIX := "px;"

  /** `img_width(width)`: an inline style capping the image at `width` pixels. */
  function ImgWidth(width: string): (r: string)
    ensures StartsWith(r, WIDTH_PREFIX) && EndsWith(r, WIDTH_SUFFIX)
    ensures |r| == |WIDTH_PREFIX| + |width| + |WIDTH_SUFFIX|
  {
    WIDTH_PREFIX + width + WIDTH_SUFFIX
  }

  /** The width an `img_width` style names. */
  function WidthOf(style: string): string
    requires |style| >= |WIDTH_PREFIX| + |WIDTH_SUFFIX|
  {
    style[|WIDTH_PREFIX|..|style| - |WIDTH_SUFFIX|]
  }

  /** The width can be read back from the style, so distinct widths give distinct styles. */
  lemma ImgWidthRoundTrip(width: string)
    ensures WidthOf(ImgWidth(width)) == width
  {
    var r := ImgWidth(width);
    assert r[|WIDTH_PREFIX|..|r| - |WIDTH_SUFFIX|] == width;
  }
}

/**
 * The extraction profile of a search results page: which selector feeds which
 * field, how a matched element becomes a field value, one `.each` pass over a
 * selector's matches, and the array that all eight passes build together.
 */
module Profile {
  import opened Options
  import opened Js
  import opened Dom
  import opened Records

  const BookLinkSelector: string := ".itemListImage a"
  const ImageSelector: string := "img.itemImg"
  const TitleLinkSelector: string := "a.titleLink"
  const AuthorSelector: string := ".descMini .itemInfoElmBox .itemInfoElm .author"
  const UsersSelector: string := ".info-users .num"
  const RatingSelector: string := ".info-rating .num"
  const ReviewsSelector: string := ".info-reviews .num"
  const AmazonLinkSelector: string :=
    "#mainArea > div.search-result.autopagerize_page_element > div:nth-child(1) > div.itemListInfo > div.descMini > div > span:nth-child(3) > a"

  /** The literal written in place of a missing value. */
  const Sentinel: string := "None"

  /** The selector whose matches feed field f. */
  function SelectorOf(f: Field): string
  {
    match f
    case BookId => BookLinkSelector
    case ImageUrl => ImageSelector
    case Title => TitleLinkSelector
    case Author => AuthorSelector
    case InfoUsers => UsersSelector
    case InfoRating => RatingSelector
    case InfoReviews => ReviewsSelector
    case AmazonUrl => AmazonLinkSelector
  }

  /** The matches of field f's selector, in document order. */
  function Matches(doc: Document, f: Field): seq<Element>
  {
    Select(doc, SelectorOf(f))
  }

  /** The eight passes, in the order `search` runs them. */
  const Passes: seq<Field> := [BookId, ImageUrl, Title, Author, InfoUsers, InfoRating, InfoReviews, AmazonUrl]

  /** Every field has exactly one pass. */
  lemma PassesCoverFields(f: Field)
    ensures f in Passes
    ensures forall i, j :: 0 <= i < j < |Passes| ==> Passes[i] != Passes[j]
  {
  }

  /**
   * Element e makes the pass over f throw: the book-id pass calls `split` on
   * the `href` attribute, which is undefined when the attribute is missing.
   */
  predicate Throws(f: Field, e: Element)
  {
    f == BookId && "href" !in e.attrs
  }

  /**
   * The book id in an href: part 3 of `href.split("/")`, or the sentinel when
   * the href has fewer than four parts.
   */
  function BookIdCell(href: string): (id: string)
    ensures Count(href, '/') < 3 ==> id == Sentinel
    ensures Count(href, '/') >= 3 ==> '/' !in id && id == Split(href, '/')[3]
  {
    var parts := Split(href, '/');
    if |parts| > 3 then parts[3] else Sentinel
  }

  /** For an href `a/b/c/rest` the book id is the first part of `rest`. */
  lemma BookIdOfPath(a: string, b: string, c: string, rest: string)
    requires '/' !in a && '/' !in b && '/' !in c
    ensures BookIdCell(a + "/" + b + "/" + c + "/" + rest) == Split(rest, '/')[0]
  {
    SplitWithoutSeparator(a, '/');
    SplitWithoutSeparator(b, '/');
    SplitWithoutSeparator(c, '/');
    assert a + "/" + b + "/" + c + "/" + rest == a + ['/'] + (b + ['/'] + (c + ['/'] + rest));
    SplitAround(c, rest, '/');
    SplitAround(b, c + ['/'] + rest, '/');
    SplitAround(a, b + ['/'] + (c + ['/'] + rest), '/');
  }

  /** An attribute's value verbatim, or the sentinel when it is absent. */
  function AttrOrSentinel(e: Element, name: string): (v: string)
    ensures name in e.attrs ==> v == e.attrs[name]
    ensures name !in e.attrs ==> v == Sentinel
  {
    match Attr(e, name)
    case Some(s) => s
    case None => Sentinel
  }

  /**
   * The value the pass over f writes for element e. The title pass writes
   * the query string itself, not the element's text; element texts are
   * always strings, so their sentinel branches never apply.
   */
  function Cell(f: Field, e: Element, title: string): string
    requires !Throws(f, e)
  {
    match f
    case BookId => BookIdCell(e.attrs["href"])
    case ImageUrl => AttrOrSentinel(e, "src")
    case Title => title
    case Author => e.text
    case InfoUsers => e.text
    case InfoRating => e.text
    case InfoReviews => e.text
    case AmazonUrl => AttrOrSentinel(e, "href")
  }

  /** No element of f's selection makes its pass throw. */
  predicate NoThrow(doc: Document, f: Field)
  {
    forall j :: 0 <= j < |Matches(doc, f)| ==> !Throws(f, Matches(doc, f)[j])
  }

  /** Only the book-id pass can throw. */
  lemma OnlyBookIdThrows(doc: Document, f: Field)
    requires f != BookId
    ensures NoThrow(doc, f)
  {
  }

  /** The values a pass over f writes, one per matched element. */
  function Cells(f: Field, es: seq<Element>, title: string): (vs: seq<string>)
    requires forall j :: 0 <= j < |es| ==> !Throws(f, es[j])
    ensures |vs| == |es|
  {
    seq(|es|, j requires 0 <= j < |es| => Cell(f, es[j], title))
  }

  /** The largest match count among the selectors of fs. */
  function MaxMatches(doc: Document, fs: seq<Field>): (m: nat)
    ensures forall f :: f in fs ==> |Matches(doc, f)| <= m
    ensures fs == [] ==> m == 0
    ensures fs != [] ==> exists f :: f in fs && |Matches(doc, f)| == m
    decreases |fs|
  {
    if fs == [] then 0
    else
      var init := fs[..|fs| - 1];
      assert forall f :: f in fs ==> f in init || f == fs[|fs| - 1];
      Max(MaxMatches(doc, init), |Matches(doc, fs[|fs| - 1])|)
  }

  /** The passes over fs do not throw: only the book-id pass can, and there no href is missing. */
  predicate Viable(doc: Document, fs: seq<Field>)
  {
    BookId in fs ==> NoThrow(doc, BookId)
  }

  /** Record i of the merge over fields fs: field f is present for the i-th match of f's selector. */
  function RecordOf(doc: Document, title: string, fs: seq<Field>, i: nat): Record
    requires Viable(doc, fs)
  {
    map f | f in fs && i < |Matches(doc, f)| :: Cell(f, Matches(doc, f)[i], title)
  }

  /**
   * The reference definition of the merge, stated per index rather than pass
   * by pass: the array is as long as the longest selection, has no holes,
   * and record i holds field f exactly when f's selector has more than i
   * matches, with the value made from the i-th match.
   */
  function Merged(doc: Document, title: string, fs: seq<Field>): (r: seq<Slot>)
    requires Viable(doc, fs)
    ensures |r| == MaxMatches(doc, fs)
    ensures forall i :: 0 <= i < |r| ==> r[i].Some?
  {
    seq(MaxMatches(doc, fs), i requires 0 <= i < MaxMatches(doc, fs) => Some(RecordOf(doc, title, fs, i)))
  }

  /**
   * Record i of the merge holds field f exactly when f is among the passes
   * and f's selector has more than i matches; the value is made from the
   * i-th match.
   */
  lemma MergedRecord(doc: Document, title: string, fs: seq<Field>, i: nat, f: Field)
    requires Viable(doc, fs)
    requires i < |Merged(doc, title, fs)|
    ensures f in Merged(doc, title, fs)[i].value <==> f in fs && i < |Matches(doc, f)|
    ensures f in Merged(doc, title, fs)[i].value ==>
              && !Throws(f, Matches(doc, f)[i])
              && Merged(doc, title, fs)[i].value[f] == Cell(f, Matches(doc, f)[i], title)
  {
    assert Merged(doc, title, fs)[i].value == RecordOf(doc, title, fs, i);
  }

  /** Past the longest selection a record of the merge is empty, so `RecordAt` agrees with `RecordOf`. */
  lemma RecordAtMerged(doc: Document, title: string, fs: seq<Field>, i: nat)
    requires Viable(doc, fs)
    ensures RecordAt(Merged(doc, title, fs), i) == RecordOf(doc, title, fs, i)
  {
    if i >= MaxMatches(doc, fs) {
      assert forall f :: f !in RecordOf(doc, title, fs, i);
    }
  }

  /** Adding field f to the merge adds f to exactly the records that f's selector reaches. */
  lemma RecordOfExtend(doc: Document, title: string, fs: seq<Field>, f: Field, i: nat)
    requires Viable(doc, fs + [f])
    ensures Viable(doc, fs)
    ensures i < |Matches(doc, f)| ==>
              && !Throws(f, Matches(doc, f)[i])
              && RecordOf(doc, title, fs + [f], i) == RecordOf(doc, title, fs, i)[f := Cell(f, Matches(doc, f)[i], title)]
    ensures i >= |Matches(doc, f)| ==> RecordOf(doc, title, fs + [f], i) == RecordOf(doc, title, fs, i)
  {
    assert forall g :: g in fs + [f] <==> g in fs || g == f;
  }

  /** Running the pass over field f on the merge over fs gives the merge over fs + [f]. */
  lemma PassStep(doc: Document, title: string, fs: seq<Field>, f: Field)
    requires Viable(doc, fs + [f])
    ensures Viable(doc, fs) && NoThrow(doc, f)
    ensures PassResult(Merged(doc, title, fs), f, Cells(f, Matches(doc, f), title))
         == Merged(doc, title, fs + [f])
  {
    assert f in fs + [f];
    assert forall g :: g in fs ==> g in fs + [f];
    var before := Merged(doc, title, fs);
    var vs := Cells(f, Matches(doc, f), title);
    var lhs := PassResult(before, f, vs);
    var rhs := Merged(doc, title, fs + [f]);
    assert (fs + [f])[..|fs|] == fs;
    assert |lhs| == |rhs|;
    forall i | 0 <= i < |lhs|
      ensures lhs[i] == rhs[i]
    {
      RecordAtMerged(doc, title, fs, i);
      RecordOfExtend(doc, title, fs, f, i);
    }
  }

  /** The array built by running the passes of fs one after another, starting from `[]`. */
  function RunPasses(doc: Document, title: string, fs: seq<Field>): seq<Slot>
    requires Viable(doc, fs)
    decreases |fs|
  {
    if fs == [] then []
    else
      var f := fs[|fs| - 1];
      assert fs[..|fs| - 1] + [f] == fs;
      PassStep(doc, title, fs[..|fs| - 1], f);
      PassResult(RunPasses(doc, title, fs[..|fs| - 1]), f, Cells(f, Matches(doc, f), title))
  }

  /** Running the passes one after another builds exactly the reference merge. */
  lemma {:induction false} RunPassesIsMerged(doc: Document, title: string, fs: seq<Field>)
    requires Viable(doc, fs)
    ensures RunPasses(doc, title, fs) == Merged(doc, title, fs)
    decreases |fs|
  {
    if fs != [] {
      var f := fs[|fs| - 1];
      assert fs[..|fs| - 1] + [f] == fs;
      PassStep(doc, title, fs[..|fs| - 1], f);
      RunPassesIsMerged(doc, title, fs[..|fs| - 1]);
    }
  }

  /** Record i carries the query string as its title wherever the title-link selector reaches. */
  ghost predicate TitleValue(doc: Document, title: string, r: Record, i: nat)
  {
    i < |Matches(doc, Title)| ==> Title in r && r[Title] == title
  }

  /** Record i carries the book id of the i-th book link's href. */
  ghost predicate BookIdValue(doc: Document, r: Record, i: nat)
  {
    i < |Matches(doc, BookId)| ==>
      && "href" in Matches(doc, BookId)[i].attrs
      && BookId in r
      && r[BookId] == BookIdCell(Matches(doc, BookId)[i].attrs["href"])
  }

  /** Record i carries the image and Amazon URLs verbatim, or "None" where the attribute is missing. */
  ghost predicate UrlValues(doc: Document, r: Record, i: nat)
  {
    && (i < |Matches(doc, ImageUrl)| ==>
          ImageUrl in r && r[ImageUrl] == AttrOrSentinel(Matches(doc, ImageUrl)[i], "src"))
    && (i < |Matches(doc, AmazonUrl)| ==>
          AmazonUrl in r && r[AmazonUrl] == AttrOrSentinel(Matches(doc, AmazonUrl)[i], "href"))
  }

  /** Record i carries the texts of the author, users, rating and reviews elements verbatim. */
  ghost predicate TextValues(doc: Document, r: Record, i: nat)
  {
    && (i < |Matches(doc, Author)| ==> Author in r && r[Author] == Matches(doc, Author)[i].text)
    && (i < |Matches(doc, InfoUsers)| ==> InfoUsers in r && r[InfoUsers] == Matches(doc, InfoUsers)[i].text)
    && (i < |Matches(doc, InfoRating)| ==> InfoRating in r && r[InfoRating] == Matches(doc, InfoRating)[i].text)
    && (i < |Matches(doc, InfoReviews)| ==> InfoReviews in r && r[InfoReviews] == Matches(doc, InfoReviews)[i].text)
  }

  /**
   * What record i of a results array holds: the book id from the i-th book
   * link's href, the image and Amazon URLs verbatim or "None", the four text
   * fields verbatim, and the title always the query string, whatever the
   * title link says.
   */
  ghost predicate RecordValues(doc: Document, title: string, rs: seq<Slot>, i: nat)
  {
    && i < |rs| && rs[i].Some?
    && TitleValue(doc, title, rs[i].value, i)
    && BookIdValue(doc, rs[i].value, i)
    && UrlValues(doc, rs[i].value, i)
    && TextValues(doc, rs[i].value, i)
  }

  /** The title, book-id and URL fields of record i of a merge over all fields. */
  lemma LinkValuesOf(doc: Document, title: string, fs: seq<Field>, i: nat)
    requires forall f :: f in fs
    requires NoThrow(doc, BookId)
    ensures Viable(doc, fs)
    ensures TitleValue(doc, title, RecordOf(doc, title, fs, i), i)
    ensures BookIdValue(doc, RecordOf(doc, title, fs, i), i)
    ensures UrlValues(doc, RecordOf(doc, title, fs, i), i)
  {
    if i < |Matches(doc, BookId)| {
      assert !Throws(BookId, Matches(doc, BookId)[i]);
    }
  }

  /** The four text fields of record i of a merge over all fields. */
  lemma TextValuesOf(doc: Document, title: string, fs: seq<Field>, i: nat)
    requires forall f :: f in fs
    requires NoThrow(doc, BookId)
    ensures Viable(doc, fs)
    ensures TextValues(doc, RecordOf(doc, title, fs, i), i)
  {
  }

  /** Every record of the full merge holds the values described by `RecordValues`. */
  lemma MergedValues(doc: Document, title: string, i: nat)
    requires NoThrow(doc, BookId)
    requires i < MaxMatches(doc, Passes)
    ensures Viable(doc, Passes)
    ensures RecordValues(doc, title, Merged(doc, title, Passes), i)
  {
    forall f
      ensures f in Passes
    {
      PassesCoverFields(f);
    }
    LinkValuesOf(doc, title, Passes, i);
    TextValuesOf(doc, title, Passes, i);
    assert Merged(doc, title, Passes)[i].value == RecordOf(doc, title, Passes, i);
  }

  /**
   * One `.each` pass of field f over its selector's matches, writing index
   * by index on the results sequence. It returns None when an element makes
   * the pass throw, which abandons the whole array.
   */
  method RunPass(results: seq<Slot>, f: Field, es: seq<Element>, title: string) returns (out: Option<seq<Slot>>)
    ensures out.None? <==> exists j :: 0 <= j < |es| && Throws(f, es[j])
    ensures out.Some? ==> out.value == PassResult(results, f, Cells(f, es, title))
  {
    var acc := results;
    var i := 0;
    while i < |es|
      invariant 0 <= i <= |es|
      invariant forall j :: 0 <= j < i ==> !Throws(f, es[j])
      invariant acc == PassResult(results, f, Cells(f, es[..i], title))
    {
      if Throws(f, es[i]) {
        return None;
      }
      AssignExtendsPass(results, f, Cells(f, es[..i], title), Cell(f, es[i], title));
      assert Cells(f, es[..i], title) + [Cell(f, es[i], title)] == Cells(f, es[..i + 1], title);
      acc := Assign(acc, i, f, Cell(f, es[i], title));
      i := i + 1;
    }
    assert es[..i] == es;
    return Some(acc);
  }

  /** One more pass of the extraction loop: the merge over the first k passes grows to k + 1. */
  lemma ExtractStep(doc: Document, title: string, k: nat, results: seq<Slot>, next: seq<Slot>)
    requires k < |Passes|
    requires Viable(doc, Passes[..k]) && NoThrow(doc, Passes[k])
    requires results == Merged(doc, title, Passes[..k])
    requires next == PassResult(results, Passes[k], Cells(Passes[k], Matches(doc, Passes[k]), title))
    ensures Viable(doc, Passes[..k + 1])
    ensures next == Merged(doc, title, Passes[..k + 1])
  {
    assert Passes[..k + 1] == Passes[..k] + [Passes[k]];
    PassStep(doc, title, Passes[..k], Passes[k]);
  }

  /**
   * The eight `.each` passes in source order, each writing its field index
   * by index on the results sequence. None when the book-id pass throws.
   */
  method ExtractResults(doc: Document, title: string) returns (out: Option<seq<Slot>>)
    ensures out.None? <==> !NoThrow(doc, BookId)
    ensures out.Some? ==> Viable(doc, Passes) && out.value == Merged(doc, title, Passes)
  {
    var results: seq<Slot> := [];
    var k := 0;
    while k < |Passes|
      invariant 0 <= k <= |Passes|
      invariant Viable(doc, Passes[..k])
      invariant results == Merged(doc, title, Passes[..k])
      invariant k > 0 ==> NoThrow(doc, BookId)
    {
      var f := Passes[k];
      var next := RunPass(results, f, Matches(doc, f), title);
      if next.None? {
        assert f == BookId;
        return None;
      }
      ExtractStep(doc, title, k, results, next.value);
      results := next.value;
      k := k + 1;
    }
    assert Passes[..k] == Passes;
    return Some(results);
  }
}

/**
  The sidebar's view model: for every document of the catalog, the page groups of the current
  question's citations on that document, sorted by page range, with the selection flags that drive
  the highlighting and the connectors between adjacent selected groups; the header text of a page
  group; and which of the four answer-area contents is shown.

  Everything here is a pure function of the sidebar's inputs: the question's citations, the
  document catalog, the displayed document, the selected citation and the current page.
 */
module Sidebar {
  import opened Wrappers
  import opened Types
  import Text

  /** Page numbers are taken to be below this bound; it is also the weight of the first page in the sort key. */
  const MaxPageNumber: int := 1000
  /** The page recorded for a citation that could not be located. */
  const UnlocatedPage: int := MaxPageNumber

  /** A citation of the current question: its document, its bounds if it has any, its review state. */
  datatype Citation = Citation(documentId: int, bounds: Option<seq<Bound>>, review: Review)

  /** A document of the catalog. */
  datatype Doc = Doc(documentId: int, name: Option<string>, pdfUrl: string)

  /** One citation placed by its first and last page; `citationIndex` is its position among the question's citations. */
  datatype PageGroup = PageGroup(firstPage: int, lastPage: int, citationIndex: nat)

  /** A page group with its own selection flag. */
  datatype MarkedGroup = MarkedGroup(group: PageGroup, pageGroupSelected: bool)

  /** A page group as the sidebar renders it: its selection flag and those of its two neighbours. */
  datatype ViewGroup = ViewGroup(
    group: PageGroup,
    pageGroupSelected: bool,
    prevPageGroupSelected: bool,
    nextPageGroupSelected: bool)

  /** The sidebar entry of one catalog document. */
  datatype DocView = DocView(
    doc: Doc,
    docSelected: bool,
    pageGroups: seq<ViewGroup>,
    firstPageGroupSelected: bool,
    lastPageGroupSelected: bool,
    noCitations: bool)

  // ---------------------------------------------------------------------------------------------
  // Pages of one citation
  // ---------------------------------------------------------------------------------------------

  /** The default comparison of `Array.prototype.sort` on page numbers: by their decimal texts. */
  predicate PageTextLess(a: int, b: int) {
    Text.StrLess(Text.Decimal(a), Text.Decimal(b))
  }

  /** No later page's text precedes an earlier page's text. */
  predicate TextSorted(ps: seq<int>) {
    forall i, j :: 0 <= i < j < |ps| ==> !PageTextLess(ps[j], ps[i])
  }

  lemma PageTextLessTransitive(a: int, b: int, c: int)
    ensures PageTextLess(a, b) && PageTextLess(b, c) ==> PageTextLess(a, c)
  {
    if PageTextLess(a, b) && PageTextLess(b, c) {
      Text.StrLessTransitive(Text.Decimal(a), Text.Decimal(b), Text.Decimal(c));
    }
  }

  /** Putting a page whose text precedes the head's in front keeps a list text-sorted. */
  lemma PrependTextSorted(p: int, ps: seq<int>)
    requires TextSorted(ps) && ps != [] && PageTextLess(p, ps[0])
    ensures TextSorted([p] + ps)
  {
    forall j | 0 <= j < |ps| ensures !PageTextLess(ps[j], p) {
      PageTextLessTransitive(ps[j], p, ps[0]);
      if j == 0 {
        Text.StrLessIrreflexive(Text.Decimal(ps[0]));
      } else {
        assert !PageTextLess(ps[j], ps[0]);
      }
    }
    ConsTextSorted(p, ps);
  }

  /** A page whose text no page of a text-sorted list precedes can go in front of it. */
  lemma ConsTextSorted(p: int, ps: seq<int>)
    requires TextSorted(ps) && forall j :: 0 <= j < |ps| ==> !PageTextLess(ps[j], p)
    ensures TextSorted([p] + ps)
  {
    ConsSortedBy(PageTextLess, p, ps);
  }

  /** The same for any order `less`, which the proof treats as unknown. */
  lemma ConsSortedBy<T>(less: (T, T) -> bool, x: T, xs: seq<T>)
    requires forall i, j :: 0 <= i < j < |xs| ==> !less(xs[j], xs[i])
    requires forall j :: 0 <= j < |xs| ==> !less(xs[j], x)
    ensures forall i, j :: 0 <= i < j < |[x] + xs| ==> !less(([x] + xs)[j], ([x] + xs)[i])
  {
    var r := [x] + xs;
    forall i, j | 0 <= i < j < |r| ensures !less(r[j], r[i]) {
      if i > 0 {
        assert r[i] == xs[i - 1] && r[j] == xs[j - 1];
      } else {
        assert r[j] == xs[j - 1];
      }
    }
  }

  /** Keeping the head in front of a sorted rearrangement of the tail plus a page not preceding it keeps a list text-sorted. */
  lemma KeepHeadTextSorted(p: int, ps: seq<int>, rest: seq<int>)
    requires TextSorted(ps) && ps != [] && !PageTextLess(p, ps[0])
    requires TextSorted(rest) && multiset(rest) == multiset(ps[1..]) + multiset{p}
    ensures TextSorted([ps[0]] + rest)
  {
    forall j | 0 <= j < |rest| ensures !PageTextLess(rest[j], ps[0]) {
      assert rest[j] in multiset(rest);
      if rest[j] != p {
        assert rest[j] in multiset(ps[1..]);
        var m :| 0 <= m < |ps[1..]| && ps[1..][m] == rest[j];
        assert ps[m + 1] == rest[j];
      }
    }
    ConsTextSorted(ps[0], rest);
  }

  /** Inserts `p` into a text-sorted list, after every page whose text it does not precede. */
  function InsertByText(p: int, ps: seq<int>): (r: seq<int>)
    requires TextSorted(ps)
    ensures TextSorted(r)
    ensures multiset(r) == multiset(ps) + multiset{p}
  {
    if ps == [] then [p]
    else if PageTextLess(p, ps[0]) then
      PrependTextSorted(p, ps);
      [p] + ps
    else
      TailTextSorted(ps);
      var rest := InsertByText(p, ps[1..]);
      KeepHeadTextSorted(p, ps, rest);
      MultisetKeepHead(ps, rest, p);
      [ps[0]] + rest
  }

  /** Keeping the head in front of a rearrangement of the tail plus `x` is a rearrangement of the list plus `x`. */
  lemma MultisetKeepHead<T>(xs: seq<T>, rest: seq<T>, x: T)
    requires xs != [] && multiset(rest) == multiset(xs[1..]) + multiset{x}
    ensures multiset([xs[0]] + rest) == multiset(xs) + multiset{x}
  {
    assert xs == [xs[0]] + xs[1..];
  }

  lemma TailTextSorted(ps: seq<int>)
    requires ps != [] && TextSorted(ps)
    ensures TextSorted(ps[1..])
  {
    forall i, j | 0 <= i < j < |ps[1..]| ensures !PageTextLess(ps[1..][j], ps[1..][i]) {
      assert ps[1..][j] == ps[j + 1] && ps[1..][i] == ps[i + 1];
    }
  }

  /** `pageNumbers.sort()` with no comparator: a permutation ordered by the pages' decimal texts. */
  function SortByText(ps: seq<int>): (r: seq<int>)
    ensures TextSorted(r)
    ensures multiset(r) == multiset(ps)
  {
    if ps == [] then []
    else
      assert ps == ps[..|ps| - 1] + [ps[|ps| - 1]];
      InsertByText(ps[|ps| - 1], SortByText(ps[..|ps| - 1]))
  }

  /** The page numbers of a list of bounds, in order. */
  function BoundPages(bs: seq<Bound>): (r: seq<int>)
    ensures |r| == |bs| && forall k :: 0 <= k < |bs| ==> r[k] == bs[k].pageNumber
  {
    seq(|bs|, k requires 0 <= k < |bs| => bs[k].pageNumber)
  }

  /**
    The sorted page numbers of a citation, with absent bounds AND an empty list of bounds both
    replaced by the single unlocated page (see FirstLastAsWritten for the code as written).
   */
  function PageNumbers(bounds: Option<seq<Bound>>): (r: seq<int>)
    ensures |r| > 0 && TextSorted(r)
    ensures bounds.Some? && |bounds.value| > 0 ==> multiset(r) == multiset(BoundPages(bounds.value))
    ensures !(bounds.Some? && |bounds.value| > 0) ==> r == [UnlocatedPage]
  {
    var located := if bounds.Some? && |bounds.value| > 0 then bounds.value else [Bound(UnlocatedPage, [])];
    var r := SortByText(BoundPages(located));
    assert |r| == |located| by {
      assert |multiset(r)| == |multiset(BoundPages(located))|;
    }
    r
  }

  /** The page group of `citations[citationIndex]`. */
  function ToPageGroup(c: Citation, citationIndex: nat): (g: PageGroup)
    ensures g.citationIndex == citationIndex
  {
    var ps := PageNumbers(c.bounds);
    PageGroup(ps[0], ps[|ps| - 1], citationIndex)
  }

  /** The code as written: `(bounds ?? [unlocated]).map(...).sort()`, which is empty for `bounds == []`. */
  function PageNumbersAsWritten(bounds: Option<seq<Bound>>): (r: seq<int>)
    ensures TextSorted(r)
    ensures multiset(r) == multiset(BoundPages(bounds.GetOr([Bound(UnlocatedPage, [])])))
  {
    SortByText(BoundPages(bounds.GetOr([Bound(UnlocatedPage, [])])))
  }

  /** `(pageNumbers[0], pageNumbers[length - 1])` as written; `None` where both are `undefined`. */
  function FirstLastAsWritten(bounds: Option<seq<Bound>>): (r: Option<(int, int)>)
    ensures r.None? <==> bounds == Some([])
  {
    var ps := PageNumbersAsWritten(bounds);
    assert |ps| == |BoundPages(bounds.GetOr([Bound(UnlocatedPage, [])]))| by {
      assert |multiset(ps)| == |ps|;
    }
    if |ps| == 0 then None else Some((ps[0], ps[|ps| - 1]))
  }

  /**
    As written, a citation whose bounds are an empty list gets no first or last page at all, whereas
    a citation with no bounds gets the unlocated page.
   */
  lemma EmptyBoundsLeavePagesUndefined()
    ensures FirstLastAsWritten(Some([])).None?
    ensures FirstLastAsWritten(None) == Some((UnlocatedPage, UnlocatedPage))
  {
    assert BoundPages([Bound(UnlocatedPage, [])]) == [UnlocatedPage];
    var ps := PageNumbersAsWritten(None);
    assert multiset(ps) == multiset{UnlocatedPage};
    assert |ps| == 1;
    assert ps[0] in multiset(ps);
  }

  /** The corrected pages agree with the code as written on every input but the empty list. */
  lemma {:induction false} CorrectedAgreesWithAsWritten(bounds: Option<seq<Bound>>)
    requires bounds != Some([])
    ensures FirstLastAsWritten(bounds) == Some((PageNumbers(bounds)[0], PageNumbers(bounds)[|PageNumbers(bounds)| - 1]))
  {
  }

  /** A citation without bounds, or with an empty list of them, is placed on the unlocated page. */
  lemma UnlocatedCitationGroup(c: Citation, citationIndex: nat)
    requires c.bounds.None? || c.bounds == Some([])
    ensures ToPageGroup(c, citationIndex).firstPage == UnlocatedPage
    ensures ToPageGroup(c, citationIndex).lastPage == UnlocatedPage
  {
  }

  /**
    The first page is a page of the citation whose text no other page's text precedes; the last
    page is one whose text precedes no other page's text.
   */
  lemma PageGroupEnds(c: Citation, citationIndex: nat)
    requires c.bounds.Some? && |c.bounds.value| > 0
    ensures exists k :: 0 <= k < |c.bounds.value| && c.bounds.value[k].pageNumber == ToPageGroup(c, citationIndex).firstPage
    ensures exists k :: 0 <= k < |c.bounds.value| && c.bounds.value[k].pageNumber == ToPageGroup(c, citationIndex).lastPage
    ensures forall k :: 0 <= k < |c.bounds.value| ==> !PageTextLess(c.bounds.value[k].pageNumber, ToPageGroup(c, citationIndex).firstPage)
    ensures forall k :: 0 <= k < |c.bounds.value| ==> !PageTextLess(ToPageGroup(c, citationIndex).lastPage, c.bounds.value[k].pageNumber)
  {
    var bs := c.bounds.value;
    var ps := PageNumbers(c.bounds);
    var raw := BoundPages(bs);
    var g := ToPageGroup(c, citationIndex);
    assert ps[0] in multiset(raw) && ps[|ps| - 1] in multiset(raw);
    assert ps[0] in raw && ps[|ps| - 1] in raw;
    forall k | 0 <= k < |bs|
      ensures !PageTextLess(bs[k].pageNumber, g.firstPage)
      ensures !PageTextLess(g.lastPage, bs[k].pageNumber)
    {
      assert raw[k] in multiset(ps);
      var m :| 0 <= m < |ps| && ps[m] == raw[k];
      if m != 0 {
        assert !PageTextLess(ps[m], ps[0]);
      } else {
        Text.StrLessIrreflexive(Text.Decimal(ps[0]));
      }
      if m != |ps| - 1 {
        assert !PageTextLess(ps[|ps| - 1], ps[m]);
      } else {
        Text.StrLessIrreflexive(Text.Decimal(ps[m]));
      }
    }
  }

  /** A citation with a single bound is placed on that bound's page alone. */
  lemma SingleBoundGroup(c: Citation, citationIndex: nat, b: Bound)
    requires c.bounds == Some([b])
    ensures ToPageGroup(c, citationIndex).firstPage == b.pageNumber
    ensures ToPageGroup(c, citationIndex).lastPage == b.pageNumber
  {
    var ps := PageNumbers(c.bounds);
    assert BoundPages([b]) == [b.pageNumber];
    assert |ps| == 1 by {
      assert |multiset(ps)| == 1;
    }
    assert ps[0] in multiset(ps);
  }

  /** "10" sorts before "9". */
  lemma TenBeforeNine()
    ensures PageTextLess(10, 9) && !PageTextLess(9, 10)
  {
    assert Text.Decimal(10) == "10" by {
      assert Text.NatDecimal(10) == Text.NatDecimal(1) + [Text.DigitChar(0)];
    }
    assert Text.Decimal(9) == "9";
  }

  lemma SortNineTen()
    ensures SortByText([9, 10]) == [10, 9]
  {
    TenBeforeNine();
    assert [9, 10][..1] == [9];
    assert SortByText([9]) == [9];
    assert SortByText([9, 10]) == InsertByText(10, [9]);
  }

  /** Bounds on pages 9 and 10 give first page 10 and last page 9, because "10" sorts before "9". */
  lemma TextOrderExample(c: Citation, citationIndex: nat, b9: Bound, b10: Bound)
    requires b9.pageNumber == 9 && b10.pageNumber == 10
    requires c.bounds == Some([b9, b10])
    ensures ToPageGroup(c, citationIndex).firstPage == 10
    ensures ToPageGroup(c, citationIndex).lastPage == 9
  {
    assert PageNumbers(c.bounds) == [10, 9] by {
      assert BoundPages([b9, b10]) == [9, 10];
      SortNineTen();
    }
  }

  // ---------------------------------------------------------------------------------------------
  // The page groups of one document
  // ---------------------------------------------------------------------------------------------

  /**
    The positions below `n` of the citations on `documentId`, in increasing order: the citations
    bound to their indices and filtered by document.
   */
  function DocumentIndices(citations: seq<Citation>, documentId: int, n: nat): (r: seq<nat>)
    requires n <= |citations|
    ensures forall k :: 0 <= k < |r| ==> r[k] < n && citations[r[k]].documentId == documentId
    ensures forall k, l :: 0 <= k < l < |r| ==> r[k] < r[l]
    ensures forall i :: 0 <= i < n && citations[i].documentId == documentId ==> i in r
  {
    if n == 0 then []
    else DocumentIndices(citations, documentId, n - 1) + (if citations[n - 1].documentId == documentId then [n - 1] else [])
  }

  /** The citation indices of a list of page groups. */
  function Indices(gs: seq<PageGroup>): (r: seq<nat>)
    ensures |r| == |gs| && forall k :: 0 <= k < |gs| ==> r[k] == gs[k].citationIndex
  {
    seq(|gs|, k requires 0 <= k < |gs| => gs[k].citationIndex)
  }

  /** The composite sort key `firstPage * maxPageNumber + lastPage`. */
  function SortKey(g: PageGroup): int {
    g.firstPage * MaxPageNumber + g.lastPage
  }

  predicate KeySorted(gs: seq<PageGroup>) {
    forall i, j :: 0 <= i < j < |gs| ==> SortKey(gs[i]) <= SortKey(gs[j])
  }

  /** Sorted by key, and by citation index among equal keys. */
  predicate StablySorted(gs: seq<PageGroup>) {
    forall i, j :: 0 <= i < j < |gs| ==>
      SortKey(gs[i]) < SortKey(gs[j]) || (SortKey(gs[i]) == SortKey(gs[j]) && gs[i].citationIndex < gs[j].citationIndex)
  }

  predicate IncreasingIndices(gs: seq<PageGroup>) {
    forall i, j :: 0 <= i < j < |gs| ==> gs[i].citationIndex < gs[j].citationIndex
  }

  lemma IndicesConcat(a: seq<PageGroup>, b: seq<PageGroup>)
    ensures Indices(a + b) == Indices(a) + Indices(b)
  {
  }

  /** Taking the head of one list, and the same element at `i` of a rearrangement, leaves rearrangements. */
  lemma MultisetRemoveHead<T>(a: seq<T>, b: seq<T>, i: nat)
    requires a != [] && i < |b| && b[i] == a[0] && multiset(a) == multiset(b)
    ensures multiset(a[1..]) == multiset(b[..i] + b[i + 1..])
  {
    var b' := b[..i] + b[i + 1..];
    assert b == b[..i] + [b[i]] + b[i + 1..];
    assert a == [a[0]] + a[1..];
    assert multiset(a) == multiset{a[0]} + multiset(a[1..]);
    assert multiset(b) == multiset(b[..i]) + multiset{b[i]} + multiset(b[i + 1..]);
    assert multiset(b') == multiset(b[..i]) + multiset(b[i + 1..]);
    forall x ensures multiset(a[1..])[x] == multiset(b')[x] {
      assert multiset(a)[x] == multiset(b)[x];
    }
  }

  /** Rearranging a list of groups rearranges their indices alike. */
  lemma {:induction false} MultisetIndices(a: seq<PageGroup>, b: seq<PageGroup>)
    requires multiset(a) == multiset(b)
    ensures multiset(Indices(a)) == multiset(Indices(b))
    decreases |a|
  {
    if a != [] {
      assert a[0] in multiset(b);
      var i :| 0 <= i < |b| && b[i] == a[0];
      var b' := b[..i] + b[i + 1..];
      MultisetRemoveHead(a, b, i);
      MultisetIndices(a[1..], b');
      assert b == b[..i] + [b[i]] + b[i + 1..];
      assert a == [a[0]] + a[1..];
      IndicesConcat([a[0]], a[1..]);
      IndicesConcat(b[..i] + [b[i]], b[i + 1..]);
      IndicesConcat(b[..i], [b[i]]);
      IndicesConcat(b[..i], b[i + 1..]);
    } else {
      assert b == [];
    }
  }

  /** Putting a group with a smaller key than the head's in front keeps a list (stably) sorted. */
  lemma PrependKeySorted(g: PageGroup, gs: seq<PageGroup>)
    requires KeySorted(gs) && gs != [] && SortKey(g) < SortKey(gs[0])
    ensures KeySorted([g] + gs)
    ensures StablySorted(gs) ==> StablySorted([g] + gs)
  {
    var r := [g] + gs;
    forall i, j | 0 <= i < j < |r|
      ensures SortKey(r[i]) <= SortKey(r[j])
      ensures StablySorted(gs) ==> SortKey(r[i]) < SortKey(r[j]) || (SortKey(r[i]) == SortKey(r[j]) && r[i].citationIndex < r[j].citationIndex)
    {
      if i == 0 {
        assert r[j] == gs[j - 1] && SortKey(gs[0]) <= SortKey(gs[j - 1]);
      } else {
        assert r[i] == gs[i - 1] && r[j] == gs[j - 1];
      }
    }
  }

  /**
    Keeping the head in front of a sorted rearrangement of the tail plus a group whose key is not
    smaller keeps a list sorted, and stably sorted when that group comes last in citation order.
   */
  lemma KeepHeadKeySorted(g: PageGroup, gs: seq<PageGroup>, rest: seq<PageGroup>)
    requires KeySorted(gs) && gs != [] && SortKey(g) >= SortKey(gs[0])
    requires KeySorted(rest) && multiset(rest) == multiset(gs[1..]) + multiset{g}
    ensures KeySorted([gs[0]] + rest)
    ensures StablySorted(gs) && StablySorted(rest) && (forall k :: 0 <= k < |gs| ==> gs[k].citationIndex < g.citationIndex) ==>
              StablySorted([gs[0]] + rest)
  {
    var stable := StablySorted(gs) && StablySorted(rest) && (forall k :: 0 <= k < |gs| ==> gs[k].citationIndex < g.citationIndex);
    forall j | 0 <= j < |rest|
      ensures SortKey(gs[0]) <= SortKey(rest[j])
      ensures stable ==> SortKey(gs[0]) < SortKey(rest[j]) || (SortKey(gs[0]) == SortKey(rest[j]) && gs[0].citationIndex < rest[j].citationIndex)
    {
      assert rest[j] in multiset(rest);
      if rest[j] != g {
        assert rest[j] in multiset(gs[1..]);
        var m :| 0 <= m < |gs[1..]| && gs[1..][m] == rest[j];
        assert gs[m + 1] == rest[j];
      }
    }
    var r := [gs[0]] + rest;
    forall i, j | 0 <= i < j < |r|
      ensures SortKey(r[i]) <= SortKey(r[j])
      ensures stable ==> SortKey(r[i]) < SortKey(r[j]) || (SortKey(r[i]) == SortKey(r[j]) && r[i].citationIndex < r[j].citationIndex)
    {
      if i > 0 {
        assert r[i] == rest[i - 1] && r[j] == rest[j - 1];
      } else {
        assert r[j] == rest[j - 1];
      }
    }
  }

  lemma TailSorted(gs: seq<PageGroup>)
    requires gs != []
    ensures KeySorted(gs) ==> KeySorted(gs[1..])
    ensures StablySorted(gs) ==> StablySorted(gs[1..])
  {
    forall i, j | 0 <= i < j < |gs[1..]| ensures gs[1..][i] == gs[i + 1] && gs[1..][j] == gs[j + 1] {
    }
  }

  /** Inserts `g` into a key-sorted list, after every group whose key is not greater. */
  function InsertByKey(g: PageGroup, gs: seq<PageGroup>): (r: seq<PageGroup>)
    requires KeySorted(gs)
    ensures KeySorted(r)
    ensures multiset(r) == multiset(gs) + multiset{g}
    ensures StablySorted(gs) && (forall k :: 0 <= k < |gs| ==> gs[k].citationIndex < g.citationIndex) ==> StablySorted(r)
  {
    if gs == [] then [g]
    else if SortKey(g) < SortKey(gs[0]) then
      PrependKeySorted(g, gs);
      [g] + gs
    else
      TailSorted(gs);
      var rest := InsertByKey(g, gs[1..]);
      KeepHeadKeySorted(g, gs, rest);
      MultisetKeepHead(gs, rest, g);
      [gs[0]] + rest
  }

  /** A rearrangement of all groups but the last comes, in increasing citation order, before the last. */
  lemma EarlierIndices(gs: seq<PageGroup>, prefix: seq<PageGroup>)
    requires gs != [] && multiset(prefix) == multiset(gs[..|gs| - 1])
    ensures IncreasingIndices(gs) ==> forall k :: 0 <= k < |prefix| ==> prefix[k].citationIndex < gs[|gs| - 1].citationIndex
  {
    if IncreasingIndices(gs) {
      forall k | 0 <= k < |prefix| ensures prefix[k].citationIndex < gs[|gs| - 1].citationIndex {
        assert prefix[k] in multiset(gs[..|gs| - 1]);
      }
    }
  }

  /** `sortBy(sortIndex)`: a stable sort ascending by the composite key. */
  function SortByKey(gs: seq<PageGroup>): (r: seq<PageGroup>)
    ensures KeySorted(r)
    ensures multiset(r) == multiset(gs)
    ensures multiset(Indices(r)) == multiset(Indices(gs))
    ensures IncreasingIndices(gs) ==> StablySorted(r)
  {
    if gs == [] then []
    else
      var n := |gs| - 1;
      var prefix := SortByKey(gs[..n]);
      assert gs == gs[..n] + [gs[n]];
      EarlierIndices(gs, prefix);
      var r := InsertByKey(gs[n], prefix);
      MultisetIndices(r, gs);
      r
  }

  /** Steps 1 and 2: the citations of one document as page groups, in citation order. */
  function UnsortedPageGroups(citations: seq<Citation>, documentId: int): seq<PageGroup> {
    var indices := DocumentIndices(citations, documentId, |citations|);
    seq(|indices|, k requires 0 <= k < |indices| => ToPageGroup(citations[indices[k]], indices[k]))
  }

  /** Steps 1 to 3: the citations of one document as page groups, sorted. */
  function DocumentPageGroups(citations: seq<Citation>, documentId: int): seq<PageGroup> {
    SortByKey(UnsortedPageGroups(citations, documentId))
  }

  /** Whether one page group is selected. */
  predicate IsSelected(g: PageGroup, docSelected: bool, selectedCitation: Option<int>, pageNumber: Option<int>) {
    docSelected &&
    if selectedCitation.Some? then selectedCitation.value == g.citationIndex
    else pageNumber.Some? && pageNumber.value >= g.firstPage && pageNumber.value <= g.lastPage
  }

  /** Step 4: each group with its selection flag. */
  function MarkSelection(gs: seq<PageGroup>, docSelected: bool, selectedCitation: Option<int>, pageNumber: Option<int>): seq<MarkedGroup> {
    seq(|gs|, k requires 0 <= k < |gs| => MarkedGroup(gs[k], IsSelected(gs[k], docSelected, selectedCitation, pageNumber)))
  }

  /** Step 5: each group with its neighbours' flags; a missing neighbour counts as unselected. */
  function WithNeighbours(ms: seq<MarkedGroup>): seq<ViewGroup> {
    seq(|ms|, k requires 0 <= k < |ms| =>
      ViewGroup(ms[k].group, ms[k].pageGroupSelected,
                k > 0 && ms[k - 1].pageGroupSelected,
                k + 1 < |ms| && ms[k + 1].pageGroupSelected))
  }

  /** Steps 4 to 6: the sidebar entry of a document, given its sorted groups `gs`. */
  function DocumentView(doc: Doc, docSelected: bool, gs: seq<PageGroup>, selectedCitation: Option<int>, pageNumber: Option<int>): DocView {
    var marked := MarkSelection(gs, docSelected, selectedCitation, pageNumber);
    DocView(
      doc,
      docSelected,
      WithNeighbours(marked),
      docSelected && |marked| > 0 && marked[0].pageGroupSelected,
      docSelected && |marked| > 0 && marked[|marked| - 1].pageGroupSelected,
      docSelected && |marked| == 0)
  }

  /** The sidebar entry of one document. */
  function GroupDocument(doc: Doc, citations: seq<Citation>, documentId: int, selectedCitation: Option<int>, pageNumber: Option<int>): DocView {
    DocumentView(doc, doc.documentId == documentId, DocumentPageGroups(citations, doc.documentId), selectedCitation, pageNumber)
  }

  /** `groupedCitations`: one entry per catalog document, in catalog order. */
  function GroupedCitations(docs: seq<Doc>, citations: seq<Citation>, documentId: int, selectedCitation: Option<int>, pageNumber: Option<int>): (r: seq<DocView>)
    ensures |r| == |docs|
    ensures forall d :: 0 <= d < |docs| ==> r[d].doc == docs[d] && (r[d].docSelected <==> docs[d].documentId == documentId)
  {
    seq(|docs|, d requires 0 <= d < |docs| => GroupDocument(docs[d], citations, documentId, selectedCitation, pageNumber))
  }

  // ---------------------------------------------------------------------------------------------
  // Properties of the grouping
  // ---------------------------------------------------------------------------------------------

  function ViewIndices(vs: seq<ViewGroup>): (r: seq<nat>)
    ensures |r| == |vs| && forall k :: 0 <= k < |vs| ==> r[k] == vs[k].group.citationIndex
  {
    seq(|vs|, k requires 0 <= k < |vs| => vs[k].group.citationIndex)
  }

  /** In a list without repetitions every value occurs at most once. */
  lemma {:induction false} CountInIncreasing(s: seq<nat>, i: nat)
    requires forall k, l :: 0 <= k < l < |s| ==> s[k] < s[l]
    ensures multiset(s)[i] == if i in s then 1 else 0
  {
    if s != [] {
      var n := |s| - 1;
      assert s == s[..n] + [s[n]];
      CountInIncreasing(s[..n], i);
      if s[n] == i {
        assert i !in s[..n] by {
          forall k | 0 <= k < n ensures s[..n][k] != i {
            assert s[k] < s[n];
          }
        }
      }
    }
  }

  /** The groups of one document before the sort are those of its citations, in citation order. */
  lemma UnsortedGroups(citations: seq<Citation>, documentId: int)
    ensures var indices := DocumentIndices(citations, documentId, |citations|);
            var unsorted := UnsortedPageGroups(citations, documentId);
            && Indices(unsorted) == indices
            && IncreasingIndices(unsorted)
            && forall k :: 0 <= k < |unsorted| ==> unsorted[k] == ToPageGroup(citations[indices[k]], indices[k])
  {
  }

  /** `gs` are the page groups of the citations on `documentId`, each citation exactly once. */
  predicate Covers(gs: seq<PageGroup>, citations: seq<Citation>, documentId: int) {
    && (forall k :: 0 <= k < |gs| ==>
          && gs[k].citationIndex < |citations|
          && citations[gs[k].citationIndex].documentId == documentId
          && gs[k] == ToPageGroup(citations[gs[k].citationIndex], gs[k].citationIndex))
    && (forall i :: 0 <= i < |citations| ==>
          multiset(Indices(gs))[i] == if citations[i].documentId == documentId then 1 else 0)
  }

  /** The sorted groups of one document: those of its citations, each citation exactly once. */
  lemma DocumentGroupsCover(citations: seq<Citation>, documentId: int)
    ensures Covers(DocumentPageGroups(citations, documentId), citations, documentId)
  {
    var indices := DocumentIndices(citations, documentId, |citations|);
    var unsorted := UnsortedPageGroups(citations, documentId);
    UnsortedGroups(citations, documentId);
    var sorted := DocumentPageGroups(citations, documentId);
    forall k | 0 <= k < |sorted|
      ensures sorted[k].citationIndex < |citations|
      ensures citations[sorted[k].citationIndex].documentId == documentId
      ensures sorted[k] == ToPageGroup(citations[sorted[k].citationIndex], sorted[k].citationIndex)
    {
      assert sorted[k] in multiset(unsorted);
      var m :| 0 <= m < |unsorted| && unsorted[m] == sorted[k];
    }
    forall i | 0 <= i < |citations|
      ensures multiset(Indices(sorted))[i] == if citations[i].documentId == documentId then 1 else 0
    {
      CountInIncreasing(indices, i);
    }
  }

  /**
    The entry built from sorted groups lists those groups, each with its selection flag and its
    neighbours' flags, and carries the document flags of the first and last group.
   */
  lemma ViewOfGroups(doc: Doc, docSelected: bool, gs: seq<PageGroup>, selectedCitation: Option<int>, pageNumber: Option<int>)
    ensures var v := DocumentView(doc, docSelected, gs, selectedCitation, pageNumber);
            && v.doc == doc && v.docSelected == docSelected
            && |v.pageGroups| == |gs|
            && ViewIndices(v.pageGroups) == Indices(gs)
            && (forall k :: 0 <= k < |gs| ==>
                 && v.pageGroups[k].group == gs[k]
                 && (v.pageGroups[k].pageGroupSelected <==> IsSelected(gs[k], docSelected, selectedCitation, pageNumber))
                 && (v.pageGroups[k].prevPageGroupSelected <==> k > 0 && IsSelected(gs[k - 1], docSelected, selectedCitation, pageNumber))
                 && (v.pageGroups[k].nextPageGroupSelected <==> k + 1 < |gs| && IsSelected(gs[k + 1], docSelected, selectedCitation, pageNumber)))
            && (v.firstPageGroupSelected <==> docSelected && |gs| > 0 && IsSelected(gs[0], docSelected, selectedCitation, pageNumber))
            && (v.lastPageGroupSelected <==> docSelected && |gs| > 0 && IsSelected(gs[|gs| - 1], docSelected, selectedCitation, pageNumber))
            && (v.noCitations <==> docSelected && |gs| == 0)
  {
    var v := DocumentView(doc, docSelected, gs, selectedCitation, pageNumber);
    var marked := MarkSelection(gs, docSelected, selectedCitation, pageNumber);
    assert v.pageGroups == WithNeighbours(marked);
    assert |marked| == |gs|;
    forall k | 0 <= k < |gs|
      ensures marked[k].group == gs[k]
      ensures marked[k].pageGroupSelected == IsSelected(gs[k], docSelected, selectedCitation, pageNumber)
    {
    }
  }

  /** The view of a document lists its sorted groups, each with its flag and its neighbours' flags. */
  lemma GroupDocumentView(doc: Doc, citations: seq<Citation>, documentId: int, selectedCitation: Option<int>, pageNumber: Option<int>)
    ensures var v := GroupDocument(doc, citations, documentId, selectedCitation, pageNumber);
            var gs := DocumentPageGroups(citations, doc.documentId);
            && v.doc == doc
            && (v.docSelected <==> doc.documentId == documentId)
            && |v.pageGroups| == |gs|
            && ViewIndices(v.pageGroups) == Indices(gs)
            && forall k :: 0 <= k < |gs| ==>
                 && v.pageGroups[k].group == gs[k]
                 && (v.pageGroups[k].pageGroupSelected <==> IsSelected(gs[k], v.docSelected, selectedCitation, pageNumber))
                 && (v.pageGroups[k].prevPageGroupSelected <==> k > 0 && IsSelected(gs[k - 1], v.docSelected, selectedCitation, pageNumber))
                 && (v.pageGroups[k].nextPageGroupSelected <==> k + 1 < |gs| && IsSelected(gs[k + 1], v.docSelected, selectedCitation, pageNumber))
  {
    ViewOfGroups(doc, doc.documentId == documentId, DocumentPageGroups(citations, doc.documentId), selectedCitation, pageNumber);
  }

  /**
    Every group of a document is the page group of a citation on that document, and every index
    of a citation on that document occurs exactly once among the groups: the groups are a
    permutation of the filtered citations.
   */
  lemma PageGroupsCoverDocument(doc: Doc, citations: seq<Citation>, documentId: int, selectedCitation: Option<int>, pageNumber: Option<int>)
    ensures var v := GroupDocument(doc, citations, documentId, selectedCitation, pageNumber);
            forall k :: 0 <= k < |v.pageGroups| ==>
              && v.pageGroups[k].group.citationIndex < |citations|
              && citations[v.pageGroups[k].group.citationIndex].documentId == doc.documentId
              && v.pageGroups[k].group == ToPageGroup(citations[v.pageGroups[k].group.citationIndex], v.pageGroups[k].group.citationIndex)
    ensures var v := GroupDocument(doc, citations, documentId, selectedCitation, pageNumber);
            forall i :: 0 <= i < |citations| ==>
              multiset(ViewIndices(v.pageGroups))[i] == if citations[i].documentId == doc.documentId then 1 else 0
  {
    DocumentGroupsCover(citations, doc.documentId);
    ViewCover(doc, doc.documentId == documentId, DocumentPageGroups(citations, doc.documentId), citations, selectedCitation, pageNumber);
  }

  lemma ViewCover(doc: Doc, docSelected: bool, gs: seq<PageGroup>, citations: seq<Citation>, selectedCitation: Option<int>, pageNumber: Option<int>)
    requires Covers(gs, citations, doc.documentId)
    ensures var v := DocumentView(doc, docSelected, gs, selectedCitation, pageNumber);
            forall k :: 0 <= k < |v.pageGroups| ==>
              && v.pageGroups[k].group.citationIndex < |citations|
              && citations[v.pageGroups[k].group.citationIndex].documentId == doc.documentId
              && v.pageGroups[k].group == ToPageGroup(citations[v.pageGroups[k].group.citationIndex], v.pageGroups[k].group.citationIndex)
    ensures var v := DocumentView(doc, docSelected, gs, selectedCitation, pageNumber);
            forall i :: 0 <= i < |citations| ==>
              multiset(ViewIndices(v.pageGroups))[i] == if citations[i].documentId == doc.documentId then 1 else 0
  {
    ViewOfGroups(doc, docSelected, gs, selectedCitation, pageNumber);
  }

  /** An entry built from covering groups has no groups exactly when no citation is on its document. */
  lemma ViewNoCitations(doc: Doc, docSelected: bool, gs: seq<PageGroup>, citations: seq<Citation>, selectedCitation: Option<int>, pageNumber: Option<int>)
    requires Covers(gs, citations, doc.documentId)
    ensures var v := DocumentView(doc, docSelected, gs, selectedCitation, pageNumber);
            v.noCitations <==> docSelected && forall i :: 0 <= i < |citations| ==> citations[i].documentId != doc.documentId
  {
    ViewOfGroups(doc, docSelected, gs, selectedCitation, pageNumber);
    if |gs| > 0 {
      assert citations[gs[0].citationIndex].documentId == doc.documentId;
    } else {
      forall i | 0 <= i < |citations| ensures citations[i].documentId != doc.documentId {
        assert multiset(Indices(gs))[i] == 0;
      }
    }
  }

  /**
    The groups of a document are in non-decreasing order of `firstPage * 1000 + lastPage`, and
    groups with equal keys are in the order of their citations.
   */
  lemma PageGroupsSorted(doc: Doc, citations: seq<Citation>, documentId: int, selectedCitation: Option<int>, pageNumber: Option<int>)
    ensures var gs := GroupDocument(doc, citations, documentId, selectedCitation, pageNumber).pageGroups;
            forall i, j :: 0 <= i < j < |gs| ==>
              SortKey(gs[i].group) <= SortKey(gs[j].group)
              && (SortKey(gs[i].group) == SortKey(gs[j].group) ==> gs[i].group.citationIndex < gs[j].group.citationIndex)
  {
    UnsortedGroups(citations, doc.documentId);
    GroupDocumentView(doc, citations, documentId, selectedCitation, pageNumber);
  }

  /**
    With page numbers below 1000, every citation with bounds is placed before every citation
    without bounds, or with an empty list of them, on the same document.
   */
  lemma UnlocatedSortsLast(doc: Doc, citations: seq<Citation>, documentId: int, selectedCitation: Option<int>, pageNumber: Option<int>, p: nat, q: nat)
    requires var gs := GroupDocument(doc, citations, documentId, selectedCitation, pageNumber).pageGroups;
             p < |gs| && q < |gs|
    requires var gs := GroupDocument(doc, citations, documentId, selectedCitation, pageNumber).pageGroups;
             gs[p].group.citationIndex < |citations|
             && (citations[gs[p].group.citationIndex].bounds.None? || citations[gs[p].group.citationIndex].bounds == Some([]))
    requires var gs := GroupDocument(doc, citations, documentId, selectedCitation, pageNumber).pageGroups;
             gs[q].group.citationIndex < |citations|
             && var bounds := citations[gs[q].group.citationIndex].bounds;
             && bounds.Some? && |bounds.value| > 0
             && forall k :: 0 <= k < |bounds.value| ==> 0 <= bounds.value[k].pageNumber < MaxPageNumber
    ensures q < p
  {
    var gs := GroupDocument(doc, citations, documentId, selectedCitation, pageNumber).pageGroups;
    PageGroupsCoverDocument(doc, citations, documentId, selectedCitation, pageNumber);
    PageGroupsSorted(doc, citations, documentId, selectedCitation, pageNumber);
    var cp := citations[gs[p].group.citationIndex];
    var cq := citations[gs[q].group.citationIndex];
    UnlocatedCitationGroup(cp, gs[p].group.citationIndex);
    PageGroupEnds(cq, gs[q].group.citationIndex);
    assert SortKey(gs[p].group) == UnlocatedPage * MaxPageNumber + UnlocatedPage;
    assert 0 <= gs[q].group.firstPage < MaxPageNumber && 0 <= gs[q].group.lastPage < MaxPageNumber;
    assert SortKey(gs[q].group) < SortKey(gs[p].group);
  }

  /**
    The selection rule: nothing is selected in a document that is not displayed; in the displayed
    document, with a citation selected, exactly the group of that citation is; otherwise the groups
    whose first and last pages enclose the current page are.
   */
  lemma PageGroupSelection(doc: Doc, citations: seq<Citation>, documentId: int, selectedCitation: Option<int>, pageNumber: Option<int>)
    ensures var gs := GroupDocument(doc, citations, documentId, selectedCitation, pageNumber).pageGroups;
            doc.documentId != documentId ==> forall k :: 0 <= k < |gs| ==> !gs[k].pageGroupSelected
    ensures var gs := GroupDocument(doc, citations, documentId, selectedCitation, pageNumber).pageGroups;
            doc.documentId == documentId && selectedCitation.Some? ==>
              forall k :: 0 <= k < |gs| ==> (gs[k].pageGroupSelected <==> gs[k].group.citationIndex == selectedCitation.value)
    ensures var gs := GroupDocument(doc, citations, documentId, selectedCitation, pageNumber).pageGroups;
            doc.documentId == documentId && selectedCitation.None? ==>
              forall k :: 0 <= k < |gs| ==>
                (gs[k].pageGroupSelected <==> pageNumber.Some? && gs[k].group.firstPage <= pageNumber.value <= gs[k].group.lastPage)
  {
    ViewSelection(doc, doc.documentId == documentId, DocumentPageGroups(citations, doc.documentId), selectedCitation, pageNumber);
  }

  lemma ViewSelection(doc: Doc, docSelected: bool, gs: seq<PageGroup>, selectedCitation: Option<int>, pageNumber: Option<int>)
    ensures var vs := DocumentView(doc, docSelected, gs, selectedCitation, pageNumber).pageGroups;
            !docSelected ==> forall k :: 0 <= k < |vs| ==> !vs[k].pageGroupSelected
    ensures var vs := DocumentView(doc, docSelected, gs, selectedCitation, pageNumber).pageGroups;
            docSelected && selectedCitation.Some? ==>
              forall k :: 0 <= k < |vs| ==> (vs[k].pageGroupSelected <==> vs[k].group.citationIndex == selectedCitation.value)
    ensures var vs := DocumentView(doc, docSelected, gs, selectedCitation, pageNumber).pageGroups;
            docSelected && selectedCitation.None? ==>
              forall k :: 0 <= k < |vs| ==>
                (vs[k].pageGroupSelected <==> pageNumber.Some? && vs[k].group.firstPage <= pageNumber.value <= vs[k].group.lastPage)
  {
    ViewOfGroups(doc, docSelected, gs, selectedCitation, pageNumber);
  }

  /** Each group's neighbour flags are the selection flags of the groups before and after it, false at the ends. */
  lemma NeighbourFlags(doc: Doc, citations: seq<Citation>, documentId: int, selectedCitation: Option<int>, pageNumber: Option<int>)
    ensures var gs := GroupDocument(doc, citations, documentId, selectedCitation, pageNumber).pageGroups;
            forall k :: 0 <= k < |gs| ==>
              && (gs[k].prevPageGroupSelected <==> k > 0 && gs[k - 1].pageGroupSelected)
              && (gs[k].nextPageGroupSelected <==> k + 1 < |gs| && gs[k + 1].pageGroupSelected)
  {
    ViewNeighbours(doc, doc.documentId == documentId, DocumentPageGroups(citations, doc.documentId), selectedCitation, pageNumber);
  }

  lemma ViewNeighbours(doc: Doc, docSelected: bool, gs: seq<PageGroup>, selectedCitation: Option<int>, pageNumber: Option<int>)
    ensures var vs := DocumentView(doc, docSelected, gs, selectedCitation, pageNumber).pageGroups;
            forall k :: 0 <= k < |vs| ==>
              && (vs[k].prevPageGroupSelected <==> k > 0 && vs[k - 1].pageGroupSelected)
              && (vs[k].nextPageGroupSelected <==> k + 1 < |vs| && vs[k + 1].pageGroupSelected)
  {
    ViewOfGroups(doc, docSelected, gs, selectedCitation, pageNumber);
  }

  /**
    The document flags: the first and last flags are the selection of the first and last group of
    the displayed document, and `noCitations` holds exactly when the displayed document has no
    citation of the question at all.
   */
  lemma DocumentFlags(doc: Doc, citations: seq<Citation>, documentId: int, selectedCitation: Option<int>, pageNumber: Option<int>)
    ensures var v := GroupDocument(doc, citations, documentId, selectedCitation, pageNumber);
            && (v.firstPageGroupSelected <==> v.docSelected && |v.pageGroups| > 0 && v.pageGroups[0].pageGroupSelected)
            && (v.lastPageGroupSelected <==> v.docSelected && |v.pageGroups| > 0 && v.pageGroups[|v.pageGroups| - 1].pageGroupSelected)
            && (!v.docSelected ==> !v.firstPageGroupSelected && !v.lastPageGroupSelected && !v.noCitations)
    ensures var v := GroupDocument(doc, citations, documentId, selectedCitation, pageNumber);
            v.noCitations <==> v.docSelected && forall i :: 0 <= i < |citations| ==> citations[i].documentId != doc.documentId
  {
    var gs := DocumentPageGroups(citations, doc.documentId);
    ViewOfGroups(doc, doc.documentId == documentId, gs, selectedCitation, pageNumber);
    DocumentGroupsCover(citations, doc.documentId);
    ViewNoCitations(doc, doc.documentId == documentId, gs, citations, selectedCitation, pageNumber);
  }

  /** The catalog names each document once. */
  predicate DistinctDocuments(docs: seq<Doc>) {
    forall d, e :: 0 <= d < e < |docs| ==> docs[d].documentId != docs[e].documentId
  }

  /** A value found at two positions occurs at least twice. */
  lemma CountTwoPositions(s: seq<nat>, k1: nat, k2: nat)
    requires k1 < k2 < |s| && s[k1] == s[k2]
    ensures multiset(s)[s[k1]] >= 2
  {
    assert s == s[..k1] + [s[k1]] + s[k1 + 1..k2] + [s[k2]] + s[k2 + 1..];
  }

  /** Within one document, with a citation selected, only its group is selected, and only in the displayed document. */
  lemma SelectedGroupIsUnique(doc: Doc, citations: seq<Citation>, documentId: int, selected: int, pageNumber: Option<int>, k1: nat, k2: nat)
    requires var gs := GroupDocument(doc, citations, documentId, Some(selected), pageNumber).pageGroups;
             k1 < |gs| && k2 < |gs| && gs[k1].pageGroupSelected && gs[k2].pageGroupSelected
    ensures k1 == k2 && doc.documentId == documentId
    ensures GroupDocument(doc, citations, documentId, Some(selected), pageNumber).pageGroups[k1].group.citationIndex == selected
  {
    var v := GroupDocument(doc, citations, documentId, Some(selected), pageNumber);
    PageGroupSelection(doc, citations, documentId, Some(selected), pageNumber);
    var s := ViewIndices(v.pageGroups);
    assert s[k1] == selected && s[k2] == selected;
    PageGroupsCoverDocument(doc, citations, documentId, Some(selected), pageNumber);
    assert multiset(s)[selected] <= 1;
    if k1 < k2 {
      CountTwoPositions(s, k1, k2);
    } else if k2 < k1 {
      CountTwoPositions(s, k2, k1);
    }
  }

  /**
    With a citation selected and a catalog that names each document once, at most one group in the
    whole sidebar is selected: the group of that citation, in the displayed document.
   */
  lemma SelectedCitationIsExclusive(docs: seq<Doc>, citations: seq<Citation>, documentId: int, selected: int, pageNumber: Option<int>,
                                     d1: nat, k1: nat, d2: nat, k2: nat)
    requires DistinctDocuments(docs)
    requires var r := GroupedCitations(docs, citations, documentId, Some(selected), pageNumber);
             d1 < |r| && d2 < |r| && k1 < |r[d1].pageGroups| && k2 < |r[d2].pageGroups|
             && r[d1].pageGroups[k1].pageGroupSelected && r[d2].pageGroups[k2].pageGroupSelected
    ensures d1 == d2 && k1 == k2
    ensures docs[d1].documentId == documentId
    ensures GroupedCitations(docs, citations, documentId, Some(selected), pageNumber)[d1].pageGroups[k1].group.citationIndex == selected
  {
    SelectedGroupIsUnique(docs[d1], citations, documentId, selected, pageNumber, k1, k1);
    SelectedGroupIsUnique(docs[d2], citations, documentId, selected, pageNumber, k2, k2);
    assert d1 == d2;
    SelectedGroupIsUnique(docs[d1], citations, documentId, selected, pageNumber, k1, k2);
  }

  /**
    The selected citation's own group is there, and selected, when the citation is on the
    displayed document and that document is in the catalog.
   */
  lemma SelectedCitationIsShown(docs: seq<Doc>, citations: seq<Citation>, documentId: int, selected: nat, pageNumber: Option<int>, d: nat)
    requires d < |docs| && docs[d].documentId == documentId
    requires selected < |citations| && citations[selected].documentId == documentId
    ensures var gs := GroupedCitations(docs, citations, documentId, Some(selected), pageNumber)[d].pageGroups;
            exists k :: 0 <= k < |gs| && gs[k].group.citationIndex == selected && gs[k].pageGroupSelected
  {
    var gs := GroupedCitations(docs, citations, documentId, Some(selected), pageNumber)[d].pageGroups;
    PageGroupsCoverDocument(docs[d], citations, documentId, Some(selected), pageNumber);
    PageGroupSelection(docs[d], citations, documentId, Some(selected), pageNumber);
    assert selected in multiset(ViewIndices(gs));
    var k :| 0 <= k < |gs| && ViewIndices(gs)[k] == selected;
  }

  // ---------------------------------------------------------------------------------------------
  // Page group header and answer area
  // ---------------------------------------------------------------------------------------------

  /** The text of a page group's header. */
  function PageGroupLabel(firstPage: int, lastPage: int): (header: string)
    ensures |header| >= 6
    ensures header == "Unable to locate citation" <==> firstPage == lastPage == UnlocatedPage
    ensures firstPage == lastPage && firstPage != UnlocatedPage ==> header[..5] == "Page " && Text.ParseDecimal(header[5..]) == Some(firstPage)
    ensures firstPage != lastPage ==> header[..6] == "Pages " && header[6..] == Text.Decimal(firstPage) + "-" + Text.Decimal(lastPage)
  {
    if firstPage == lastPage then
      if firstPage == UnlocatedPage then "Unable to locate citation"
      else
        var header := "Page " + Text.Decimal(firstPage);
        assert header[0] == 'P';
        assert header[5..] == Text.Decimal(firstPage);
        Text.DecimalRoundTrip(firstPage);
        header
    else
      var header := "Pages " + Text.Decimal(firstPage) + "-" + Text.Decimal(lastPage);
      assert header[0] == 'P';
      header
  }

  /** A citation without bounds, or with an empty list of them, is shown as one that could not be located. */
  lemma UnlocatedCitationLabel(c: Citation, citationIndex: nat)
    requires c.bounds.None? || c.bounds == Some([])
    ensures var g := ToPageGroup(c, citationIndex); PageGroupLabel(g.firstPage, g.lastPage) == "Unable to locate citation"
  {
  }

  /** A citation with one bound on a page other than 1000 is shown under that page's number. */
  lemma SingleBoundLabel(c: Citation, citationIndex: nat, b: Bound)
    requires c.bounds == Some([b]) && b.pageNumber != UnlocatedPage
    ensures var g := ToPageGroup(c, citationIndex);
            var header := PageGroupLabel(g.firstPage, g.lastPage);
            header[..5] == "Page " && Text.ParseDecimal(header[5..]) == Some(b.pageNumber)
  {
    SingleBoundGroup(c, citationIndex, b);
  }

  /** `citations.filter(review === Unreviewed)`. */
  function UnreviewedCitations(citations: seq<Citation>): (r: seq<Citation>)
    ensures |r| <= |citations|
    ensures forall k :: 0 <= k < |r| ==> r[k].review == Unreviewed && r[k] in citations
    ensures forall i :: 0 <= i < |citations| && citations[i].review == Unreviewed ==> citations[i] in r
  {
    if citations == [] then []
    else
      var n := |citations| - 1;
      var rest := UnreviewedCitations(citations[..n]);
      assert forall k :: 0 <= k < |rest| ==> rest[k] in citations by {
        forall k | 0 <= k < |rest| ensures rest[k] in citations {
          var m :| 0 <= m < n && citations[..n][m] == rest[k];
          assert citations[m] == rest[k];
        }
      }
      assert forall i :: 0 <= i < n && citations[i].review == Unreviewed ==> citations[..n][i] in rest;
      rest + (if citations[n].review == Unreviewed then [citations[n]] else [])
  }

  /** What the answer area shows. */
  datatype AnswerSection =
    | EditAnswer               // the answer text area with cancel and save
    | ReviewCitationsFirst     // asks the user to review every suggested citation before answering
    | OfferToAnswer            // invites the user to answer
    | ShowAnswer(answer: string)

  /**
    The answer area: the editor while editing; otherwise the request to review first while any
    citation is unreviewed; otherwise the offer to answer, or the answer once there is one.
   */
  function AnswerArea(editingAnswer: bool, citations: seq<Citation>, answer: Option<string>): (r: AnswerSection)
    ensures r.EditAnswer? <==> editingAnswer
    ensures r.ReviewCitationsFirst? <==> !editingAnswer && exists i :: 0 <= i < |citations| && citations[i].review == Unreviewed
    ensures r.OfferToAnswer? || r.ShowAnswer? ==> forall i :: 0 <= i < |citations| ==> citations[i].review != Unreviewed
    ensures r.OfferToAnswer? <==> !editingAnswer && answer.None? && forall i :: 0 <= i < |citations| ==> citations[i].review != Unreviewed
    ensures r.ShowAnswer? ==> answer == Some(r.answer)
  {
    var unreviewed := UnreviewedCitations(citations);
    assert |unreviewed| > 0 ==> unreviewed[0] in citations && unreviewed[0].review == Unreviewed;
    if editingAnswer then EditAnswer
    else if |unreviewed| > 0 then ReviewCitationsFirst
    else if answer.None? then OfferToAnswer
    else ShowAnswer(answer.value)
  }
}

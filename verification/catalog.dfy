/** The query side of the image listings: request defaults, the cache key,
    the search and label filters, the ordering and the page cut. */
module Catalog {
  import opened Seqs
  import opened Strings
  import opened Tables
  import opened Paging
  import opened Models
  import opened Store
  import opened Auth

  /** `ImageListRequest`. `page` and `pageSize` are 0 when the query string
      omits them. */
  datatype ListRequest = ListRequest(page: int, pageSize: int, search: string, labels: seq<string>, sort: string)

  const DefaultPageSize := 10

  /** The defaults the listings apply: a missing or non-positive page is 1,
      a missing or non-positive page size is 10; nothing else changes. */
  function Normalize(req: ListRequest): (r: ListRequest)
    ensures r.page >= 1 && r.pageSize >= 1
    ensures req.page >= 1 ==> r.page == req.page
    ensures req.pageSize >= 1 ==> r.pageSize == req.pageSize
    ensures req.page < 1 ==> r.page == 1
    ensures req.pageSize < 1 ==> r.pageSize == DefaultPageSize
    ensures r.(page := req.page, pageSize := req.pageSize) == req
  {
    req.(page := if req.page <= 0 then 1 else req.page,
         pageSize := if req.pageSize <= 0 then DefaultPageSize else req.pageSize)
  }

  lemma NormalizeIdempotent(req: ListRequest)
    ensures Normalize(Normalize(req)) == Normalize(req)
  {
  }

  // ---------------------------------------------------------- cache key

  /** Go's `%d` of an int. */
  function FormatInt(n: int): string {
    if n < 0 then "-" + NatToString(-n) else NatToString(n)
  }

  /** Go's `%v` of a `[]string`: the elements separated by single spaces,
      in brackets. */
  function FormatList(xs: seq<string>): (r: string)
    ensures |r| >= 2 && r[0] == '[' && r[|r| - 1] == ']'
  {
    "[" + Join(xs, ' ') + "]"
  }

  /** Between the brackets stand the elements joined by single spaces: when
      no element holds a space, splitting at the spaces gives them back. */
  lemma FormatListSplits(xs: seq<string>)
    requires |xs| >= 1
    requires forall i :: 0 <= i < |xs| ==> ' ' !in xs[i]
    ensures var r := FormatList(xs); Split(r[1..|r| - 1], ' ') == xs
  {
    var r := FormatList(xs);
    assert r[1..|r| - 1] == Join(xs, ' ');
    SplitJoin(xs, ' ');
  }

  /** Non-empty label lists without spaces print differently, so they get
      cache entries of their own. */
  lemma FormatListInjective(xs: seq<string>, ys: seq<string>)
    requires |xs| >= 1 && |ys| >= 1
    requires forall i :: 0 <= i < |xs| ==> ' ' !in xs[i]
    requires forall i :: 0 <= i < |ys| ==> ' ' !in ys[i]
    ensures FormatList(xs) == FormatList(ys) <==> xs == ys
  {
    if FormatList(xs) == FormatList(ys) {
      FormatListSplits(xs);
      FormatListSplits(ys);
    }
  }

  /** The empty list and the list of one empty label print alike, which is
      why the inverse above needs at least one element. */
  lemma FormatListEmptyCollision()
    ensures FormatList([]) == FormatList([""])
  {
  }

  const ListingPrefix := "images:"

  /** `images:%d:%d:%s:%v:%s` over page, page size, search, labels, sort. */
  function CacheKey(req: ListRequest): (k: string)
    ensures ListingPrefix <= k
  {
    ListingPrefix + FormatInt(req.page) + ":" + FormatInt(req.pageSize) + ":" + req.search
      + ":" + FormatList(req.labels) + ":" + req.sort
  }

  /** A listing key never lands on a token's blacklist entry. */
  lemma CacheKeyNotBlacklist(req: ListRequest, token: string)
    ensures CacheKey(req) != BlacklistKey(token)
  {
    var k := CacheKey(req);
    assert k[0] == 'i';
    assert BlacklistKey(token)[0] == 'b';
  }

  /** `%v` does not delimit the elements, so a request for the one label
      "a b" and a request for the two labels "a" and "b" share a key. */
  lemma CacheKeyCollision()
    ensures CacheKey(ListRequest(1, 10, "", ["a b"], "")) == CacheKey(ListRequest(1, 10, "", ["a", "b"], ""))
  {
    assert Join(["a", "b"], ' ') == "a b" by {
      assert Join(["b"], ' ') == "b";
    }
    assert Join(["a b"], ' ') == "a b";
  }

  // ------------------------------------------------------------- search

  /** `name ILIKE %q% OR description ILIKE %q%`, applied only to a non-empty
      search. */
  predicate SearchMatches(img: Image, search: string) {
    search == "" || ContainsFold(img.name, search) || ContainsFold(img.description, search)
  }

  /** The search ignores letter case, and an image is found by its own name. */
  lemma SearchProperties(img: Image, search: string)
    ensures SearchMatches(img, ToLower(search)) == SearchMatches(img, search)
    ensures SearchMatches(img, img.name)
  {
    ContainsFoldIgnoresCase(img.name, search);
    ContainsFoldIgnoresCase(img.description, search);
    if search != "" {
      assert |ToLower(search)| == |search|;
    }
    ContainsSelf(ToLower(img.name));
  }

  // ------------------------------------------------------------- labels

  /** The requested names the image carries. */
  function MatchedLabels(s: Store, imageId: Id, labels: seq<string>): (m: set<string>)
    ensures m <= Elems(labels)
  {
    set l | l in labels && HasLabel(s, imageId, l)
  }

  /** The label filter as the grouped query means it: the number of
      distinct requested names the image carries equals the number of
      requested names. No filter when the list is empty. */
  predicate LabelsMatch(s: Store, imageId: Id, labels: seq<string>) {
    |labels| == 0 || |MatchedLabels(s, imageId, labels)| == |labels|
  }

  /** The image matches exactly when it carries every requested name and no
      name is requested twice. */
  lemma LabelsMatchIff(s: Store, imageId: Id, labels: seq<string>)
    requires |labels| > 0
    ensures LabelsMatch(s, imageId, labels) <==>
      Distinct(labels) && forall i :: 0 <= i < |labels| ==> HasLabel(s, imageId, labels[i])
  {
    var m := MatchedLabels(s, imageId, labels);
    var e := Elems(labels);
    ElemsCard(labels);
    SubsetCard(m, e);
    if LabelsMatch(s, imageId, labels) {
      assert |m| == |labels| && |m| <= |e| <= |labels|;
      assert |e| == |labels|;
      assert Distinct(labels);
      assert m == e;
      forall i | 0 <= i < |labels| ensures HasLabel(s, imageId, labels[i]) {
        assert labels[i] in e;
        assert labels[i] in m;
      }
    }
    if Distinct(labels) && forall i :: 0 <= i < |labels| ==> HasLabel(s, imageId, labels[i]) {
      assert e <= m by {
        forall x | x in e ensures x in m {
          var i :| 0 <= i < |labels| && labels[i] == x;
        }
      }
      assert m == e;
      assert |e| == |labels|;
    }
  }

  /** A request naming one label twice matches no image. */
  lemma RepeatedLabelMatchesNothing(s: Store, imageId: Id, name: string)
    ensures !LabelsMatch(s, imageId, [name, name])
  {
    LabelsMatchIff(s, imageId, [name, name]);
    assert !Distinct([name, name]) by {
      assert [name, name][0] == [name, name][1];
    }
  }

  /** The rows a listing selects, in scan order. */
  function Selected(s: Store, rows: seq<(Id, Image)>, search: string, labels: seq<string>): (r: seq<(Id, Image)>)
    ensures forall e :: e in r <==> e in rows && SearchMatches(e.1, search) && LabelsMatch(s, e.0, labels)
    ensures Distinct(rows) ==> Distinct(r)
  {
    Filter(rows, (e: (Id, Image)) => SearchMatches(e.1, search) && LabelsMatch(s, e.0, labels))
  }

  // ------------------------------------------------------------ ordering

  /** The column a `sort` value orders by; anything else orders by creation
      time. */
  function SortKey(sort: string, img: Image): int {
    if sort == "stars" then img.stars
    else if sort == "updated_at" then img.updatedAt
    else img.createdAt
  }

  /** Descending by the sort column. */
  predicate SortedBy(xs: seq<(Id, Image)>, sort: string) {
    forall i, j :: 0 <= i < j < |xs| ==> SortKey(sort, xs[i].1) >= SortKey(sort, xs[j].1)
  }

  /** Insert `x` before the first row whose key is not larger than its
      own, so that `x` precedes the rows it ties with. */
  function InsertDesc(x: (Id, Image), xs: seq<(Id, Image)>, sort: string): (r: seq<(Id, Image)>)
    ensures |r| == |xs| + 1
    ensures r[0] == x || (|xs| > 0 && r[0] == xs[0])
    ensures r[0] == x <==> xs == [] || SortKey(sort, x.1) >= SortKey(sort, xs[0].1)
    ensures xs == [] || SortKey(sort, x.1) >= SortKey(sort, xs[0].1) ==> r == [x] + xs
    ensures xs != [] && SortKey(sort, x.1) < SortKey(sort, xs[0].1) ==> r[0] == xs[0] && x in r[1..]
  {
    if xs == [] || SortKey(sort, x.1) >= SortKey(sort, xs[0].1) then [x] + xs
    else [xs[0]] + InsertDesc(x, xs[1..], sort)
  }

  /** Inserting into a descending list keeps it descending. */
  lemma {:induction false} InsertDescSorted(x: (Id, Image), xs: seq<(Id, Image)>, sort: string)
    requires SortedBy(xs, sort)
    ensures SortedBy(InsertDesc(x, xs, sort), sort)
  {
    if xs != [] && SortKey(sort, x.1) < SortKey(sort, xs[0].1) {
      InsertDescSorted(x, xs[1..], sort);
      var rest := InsertDesc(x, xs[1..], sort);
      assert SortKey(sort, rest[0].1) <= SortKey(sort, xs[0].1);
      var r := [xs[0]] + rest;
      assert forall j :: 1 <= j < |r| ==> r[j] == rest[j - 1];
    }
  }

  /** Inserting adds exactly the one row. */
  lemma {:induction false} InsertDescPermutes(x: (Id, Image), xs: seq<(Id, Image)>, sort: string)
    ensures multiset(InsertDesc(x, xs, sort)) == multiset(xs) + multiset{x}
  {
    if xs != [] && SortKey(sort, x.1) < SortKey(sort, xs[0].1) {
      InsertDescPermutes(x, xs[1..], sort);
      assert xs == [xs[0]] + xs[1..];
    }
  }

  /** `ORDER BY <column> DESC`, ties left in scan order. */
  function SortImages(xs: seq<(Id, Image)>, sort: string): (r: seq<(Id, Image)>)
    ensures SortedBy(r, sort)
    ensures multiset(r) == multiset(xs)
    ensures |r| == |xs|
  {
    if xs == [] then []
    else
      var rest := SortImages(xs[1..], sort);
      assert xs == [xs[0]] + xs[1..];
      InsertDescSorted(xs[0], rest, sort);
      InsertDescPermutes(xs[0], rest, sort);
      InsertDesc(xs[0], rest, sort)
  }

  /** Rows already in order are left as they are. */
  lemma {:induction false} SortImagesKeepsSorted(xs: seq<(Id, Image)>, sort: string)
    requires SortedBy(xs, sort)
    ensures SortImages(xs, sort) == xs
  {
    if xs != [] {
      assert SortedBy(xs[1..], sort);
      SortImagesKeepsSorted(xs[1..], sort);
    }
  }

  /** The sort keeps exactly the rows it was given. */
  lemma SortImagesSameRows(xs: seq<(Id, Image)>, sort: string)
    ensures forall e :: e in SortImages(xs, sort) <==> e in xs
  {
    var r := SortImages(xs, sort);
    forall e ensures e in r <==> e in xs {
      assert e in r <==> e in multiset(r);
      assert e in xs <==> e in multiset(xs);
    }
  }

  /** A window of a sorted list is sorted and holds rows of the list. */
  lemma WindowSorted(xs: seq<(Id, Image)>, offset: nat, limit: nat, sort: string)
    requires SortedBy(xs, sort)
    ensures SortedBy(Window(xs, offset, limit), sort)
    ensures forall e :: e in Window(xs, offset, limit) ==> e in xs
  {
    var w := Window(xs, offset, limit);
    forall e | e in w ensures e in xs {
      var i :| 0 <= i < |w| && w[i] == e;
      assert xs[offset + i] == e;
    }
  }
}

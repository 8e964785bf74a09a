/** The image catalogue: listings (with their cache), detail, favourites,
    and the author-only create, update and delete. */
module ImageService {
  import opened Results
  import opened Seqs
  import opened Tables
  import opened Paging
  import opened Models
  import opened Store
  import opened Upload
  import opened Catalog

  /** The organisation key that stands for the public organisation. */
  const PublicOrg := "00000000-0000-0000-0000-000000000000"

  /** What the database answers to the label clause of the listings: the
      `image_labels` join table has the columns `image_id` and `label_id`,
      and no `label`. */
  const MissingLabelColumn := "column image_labels.label does not exist"

  /** A listing: the items of one page and the reported total. */
  datatype Page = Page(items: seq<ImageResponse>, total: int)

  // ------------------------------------------------------------ listings

  /** The rows a listing pages through: the selected rows, ordered. */
  function Ranked(s: Store, candidates: seq<(Id, Image)>, q: ListRequest): (r: seq<(Id, Image)>)
    ensures SortedBy(r, q.sort)
    ensures multiset(r) == multiset(Selected(s, candidates, q.search, q.labels))
    ensures forall e :: e in r <==> e in candidates && SearchMatches(e.1, q.search) && LabelsMatch(s, e.0, q.labels)
  {
    SortImagesSameRows(Selected(s, candidates, q.search, q.labels), q.sort);
    SortImages(Selected(s, candidates, q.search, q.labels), q.sort)
  }

  /** The rows of one page: selected, ordered, then cut. */
  function PageRows(s: Store, candidates: seq<(Id, Image)>, q: ListRequest): (r: seq<(Id, Image)>)
    requires q.page >= 1 && q.pageSize >= 1
    ensures |r| <= q.pageSize
    ensures SortedBy(r, q.sort)
    ensures forall e :: e in r ==> e in candidates && SearchMatches(e.1, q.search) && LabelsMatch(s, e.0, q.labels)
    ensures var n := |Selected(s, candidates, q.search, q.labels)|;
            var offset := Offset(q.page, q.pageSize);
            |r| == (if offset >= n then 0 else Min(q.pageSize, n - offset))
    ensures forall i :: 0 <= i < |r| ==>
      Offset(q.page, q.pageSize) + i < |Ranked(s, candidates, q)|
      && r[i] == Ranked(s, candidates, q)[Offset(q.page, q.pageSize) + i]
  {
    var ranked := Ranked(s, candidates, q);
    var offset := Offset(q.page, q.pageSize);
    WindowSorted(ranked, offset, q.pageSize, q.sort);
    Window(ranked, offset, q.pageSize)
  }

  /** Pages 1..n of a listing, one request per page. */
  function ListingPages(s: Store, candidates: seq<(Id, Image)>, q: ListRequest, n: nat): seq<(Id, Image)>
    requires q.pageSize >= 1
  {
    ReadPages(k => if k >= 1 then PageRows(s, candidates, q.(page := k)) else [], n)
  }

  /** Page n of a listing is the n-th window of its ordered rows. */
  lemma PageRowsIsWindow(s: Store, candidates: seq<(Id, Image)>, q: ListRequest, n: nat)
    requires q.pageSize >= 1 && n >= 1
    ensures PageRows(s, candidates, q.(page := n)) == Window(Ranked(s, candidates, q), Offset(n, q.pageSize), q.pageSize)
  {
    var qn := q.(page := n);
    assert Ranked(s, candidates, qn) == Ranked(s, candidates, q) by {
      assert qn.search == q.search && qn.labels == q.labels && qn.sort == q.sort;
    }
  }

  /** Enough pages return every selected row exactly once, in order. */
  lemma EveryMatchOnOnePage(s: Store, candidates: seq<(Id, Image)>, q: ListRequest)
    requires q.pageSize >= 1
    requires |Selected(s, candidates, q.search, q.labels)| + q.pageSize <= Two63
    ensures var n := PageCount(|Selected(s, candidates, q.search, q.labels)|, q.pageSize);
      && ListingPages(s, candidates, q, n) == Ranked(s, candidates, q)
      && multiset(ListingPages(s, candidates, q, n)) == multiset(Selected(s, candidates, q.search, q.labels))
  {
    var ranked := Ranked(s, candidates, q);
    assert |ranked| == |Selected(s, candidates, q.search, q.labels)| by {
      assert |multiset(ranked)| == |ranked|;
    }
    var page := k => if k >= 1 then PageRows(s, candidates, q.(page := k)) else [];
    forall k | 1 <= k ensures page(k) == Window(ranked, Offset(k, q.pageSize), q.pageSize) {
      PageRowsIsWindow(s, candidates, q, k);
    }
    ReadPagesAreFirstPages(ranked, q.pageSize, page, PageCount(|ranked|, q.pageSize));
    AllPagesCoverList(ranked, q.pageSize);
  }

  /** The images a listing request selects (its total), as a set of rows. */
  function MatchingRows(s: Store, candidate: Id -> bool, q: ListRequest): set<(Id, Image)> {
    set k | k in s.images.byId && candidate(k) && SearchMatches(s.images.byId[k], q.search) && LabelsMatch(s, k, q.labels)
      :: (k, s.images.byId[k])
  }

  /** The column the response is ordered by. */
  function ResponseKey(sort: string, r: ImageResponse): int {
    SortKey(sort, RowOf(r))
  }

  /** Ordered descending by the sort column. */
  predicate ResponsesSorted(items: seq<ImageResponse>, sort: string) {
    forall i, j :: 0 <= i < j < |items| ==> ResponseKey(sort, items[i]) >= ResponseKey(sort, items[j])
  }

  /** The response items of the general listing: labels are not loaded, the
      favourite flag is the caller's. */
  function ListItems(s: Store, rows: seq<(Id, Image)>, userId: Id, sort: string): (items: seq<ImageResponse>)
    requires SortedBy(rows, sort)
    ensures |items| == |rows|
    ensures ResponsesSorted(items, sort)
    ensures forall i :: 0 <= i < |items| ==>
      && items[i].id == rows[i].0 && RowOf(items[i]) == rows[i].1
      && items[i].labels == {} && items[i].isStarred == Starred(s, userId, rows[i].0)
  {
    seq(|rows|, i requires 0 <= i < |rows| => Respond(rows[i].0, rows[i].1, {}, Starred(s, userId, rows[i].0)))
  }

  /** A listing computed from the tables. */
  function FreshListing(s: Store, q: ListRequest, userId: Id): (p: Page)
    requires q.page >= 1 && q.pageSize >= 1
    ensures |p.items| <= q.pageSize
    ensures ResponsesSorted(p.items, q.sort)
    ensures forall i :: 0 <= i < |p.items| ==>
      var id := p.items[i].id;
      && id in s.images.byId && RowOf(p.items[i]) == s.images.byId[id]
      && SearchMatches(s.images.byId[id], q.search) && LabelsMatch(s, id, q.labels)
      && p.items[i].labels == {} && p.items[i].isStarred == Starred(s, userId, id)
    ensures forall i :: 0 <= i < |p.items| ==>
      Offset(q.page, q.pageSize) + i < |Ranked(s, s.images.Entries(), q)|
      && p.items[i].id == Ranked(s, s.images.Entries(), q)[Offset(q.page, q.pageSize) + i].0
    ensures p.total == |Selected(s, s.images.Entries(), q.search, q.labels)|
  {
    var rows := PageRows(s, s.images.Entries(), q);
    Page(ListItems(s, rows, userId, q.sort), |Selected(s, s.images.Entries(), q.search, q.labels)|)
  }

  /** `ListImages` as the source writes it. A cached listing is returned
      as stored (with total 0), so its favourite flags are those of the
      caller who filled the cache; and on a miss any label filter makes the
      query fail. */
  function ListImagesAsWritten(s: Store, req: ListRequest, userId: Id, cacheUp: bool): (r: Reply<Page>)
    ensures r.store.(cache := s.cache) == s
    ensures var key := CacheKey(Normalize(req));
            cacheUp && key in s.cache && s.cache[key].Listing? ==>
              r == Reply(s, Ok(Page(s.cache[key].items, 0)))
    ensures var key := CacheKey(Normalize(req));
            !(cacheUp && key in s.cache && s.cache[key].Listing?) && |req.labels| > 0 ==>
              r == Reply(s, Err(MissingLabelColumn))
    ensures var key := CacheKey(Normalize(req));
            !(cacheUp && key in s.cache && s.cache[key].Listing?) && |req.labels| == 0 ==>
              r == ListImages(s, req, userId, cacheUp)
  {
    var q := Normalize(req);
    var key := CacheKey(q);
    if cacheUp && key in s.cache && s.cache[key].Listing? then
      Reply(s, Ok(Page(s.cache[key].items, 0)))
    else if |q.labels| > 0 then
      Reply(s, Err(MissingLabelColumn))
    else
      var p := FreshListing(s, q, userId);
      var s' := if cacheUp && |p.items| > 0 then s.(cache := s.cache[key := Listing(p.items)]) else s;
      Reply(s', Ok(p))
  }

  /** A favourite recorded by one caller shows up as a favourite of the next
      caller, even an anonymous one, once the first listing is cached. */
  lemma CachedStarLeaks(s: Store, req: ListRequest, userId: Id, i: nat)
    requires |req.labels| == 0
    requires CacheKey(Normalize(req)) !in s.cache
    requires i < |FreshListing(s, Normalize(req), userId).items|
    requires FreshListing(s, Normalize(req), userId).items[i].isStarred
    ensures var s1 := ListImagesAsWritten(s, req, userId, true).store;
            var r2 := ListImagesAsWritten(s1, req, "", true).result;
            && r2.Ok? && i < |r2.value.items|
            && r2.value.items[i].isStarred && !Starred(s1, "", r2.value.items[i].id)
  {
  }

  /** One image, favourited by "u", listed by "u" and then anonymously. */
  lemma CachedStarLeaksExample()
    ensures var img := Image("o", "n", "", "u", "r", "", "p", "t", "d", 0, "", 1, "public", "x", 0, 0);
            var s := EmptyStore().(images := Table(["i"], map["i" := img]), collections := [Collection("u", "i")]);
            var req := ListRequest(1, 10, "", [], "");
            var s1 := ListImagesAsWritten(s, req, "u", true).store;
            ListImagesAsWritten(s1, req, "", true).result.value.items[0].isStarred
  {
    var img := Image("o", "n", "", "u", "r", "", "p", "t", "d", 0, "", 1, "public", "x", 0, 0);
    var s := EmptyStore().(images := Table(["i"], map["i" := img]), collections := [Collection("u", "i")]);
    var req := ListRequest(1, 10, "", [], "");
    var entries := s.images.Entries();
    assert s.images.Valid();
    assert entries == [("i", img)];
    assert Selected(s, entries, "", []) == [("i", img)];
    var p := FreshListing(s, Normalize(req), "u");
    assert |p.items| == 1;
    assert Starred(s, "u", "i");
    CachedStarLeaks(s, req, "u", 0);
  }

  /** Every favourite flag restated for the caller. */
  function Restar(s: Store, items: seq<ImageResponse>, userId: Id): (r: seq<ImageResponse>)
    ensures |r| == |items|
    ensures forall i :: 0 <= i < |r| ==>
      r[i].isStarred == Starred(s, userId, items[i].id) && r[i].(isStarred := items[i].isStarred) == items[i]
  {
    seq(|items|, i requires 0 <= i < |items| => items[i].(isStarred := Starred(s, userId, items[i].id)))
  }

  /** Restating the flags of a listing computed for the same caller changes
      nothing. */
  lemma RestarOwnListing(s: Store, q: ListRequest, userId: Id)
    requires q.page >= 1 && q.pageSize >= 1
    ensures Restar(s, FreshListing(s, q, userId).items, userId) == FreshListing(s, q, userId).items
  {
    var items := FreshListing(s, q, userId).items;
    var r := Restar(s, items, userId);
    assert forall i :: 0 <= i < |r| ==> r[i] == items[i];
  }

  /** `ListImages` as evidently intended: the label filter selects images
      by their label names, and a cached page gets the current caller's
      favourite flags. */
  function ListImages(s: Store, req: ListRequest, userId: Id, cacheUp: bool): (r: Reply<Page>)
    ensures r.result.Ok?
    ensures r.store.(cache := s.cache) == s
    ensures forall i :: 0 <= i < |r.result.value.items| ==>
      r.result.value.items[i].isStarred == Starred(s, userId, r.result.value.items[i].id)
    ensures var key := CacheKey(Normalize(req));
      if cacheUp && key in s.cache && s.cache[key].Listing? then
        && r.store == s && r.result.value.total == 0
        && |r.result.value.items| == |s.cache[key].items|
        && forall i :: 0 <= i < |r.result.value.items| ==>
             r.result.value.items[i].(isStarred := s.cache[key].items[i].isStarred) == s.cache[key].items[i]
      else
        && r.result.value == FreshListing(s, Normalize(req), userId)
        && r.store.cache == (if cacheUp && |r.result.value.items| > 0
                             then s.cache[key := Listing(r.result.value.items)] else s.cache)
  {
    var q := Normalize(req);
    var key := CacheKey(q);
    if cacheUp && key in s.cache && s.cache[key].Listing? then
      Reply(s, Ok(Page(Restar(s, s.cache[key].items, userId), 0)))
    else
      var p := FreshListing(s, q, userId);
      var s' := if cacheUp && |p.items| > 0 then s.(cache := s.cache[key := Listing(p.items)]) else s;
      Reply(s', Ok(p))
  }

  /** Listing twice in a row gives the caller the same items: a page the
      first call cached comes back with the flags the caller had. */
  lemma ListingAgainSameItems(s: Store, req: ListRequest, userId: Id)
    ensures var r1 := ListImages(s, req, userId, true);
            ListImages(r1.store, req, userId, true).result.value.items == r1.result.value.items
  {
    var q := Normalize(req);
    var key := CacheKey(q);
    var r1 := ListImages(s, req, userId, true);
    if key in s.cache && s.cache[key].Listing? {
      assert r1.store == s;
    } else {
      var p := FreshListing(s, q, userId);
      MissCachesListing(s, req, userId);
      if |p.items| > 0 {
        var s1 := s.(cache := s.cache[key := Listing(p.items)]);
        assert r1 == Reply(s1, Ok(p));
        CachedListingRestarred(s1, req, userId);
        RestarOwnListing(s, q, userId);
        assert Restar(s1, p.items, userId) == Restar(s, p.items, userId) by {
          assert forall id :: Starred(s1, userId, id) == Starred(s, userId, id);
        }
      } else {
        assert r1.store == s;
      }
    }
  }

  /** A miss computes the page and caches it when it is not empty; the
      store is otherwise left as it was. */
  lemma MissCachesListing(s: Store, req: ListRequest, userId: Id)
    requires var key := CacheKey(Normalize(req)); !(key in s.cache && s.cache[key].Listing?)
    ensures var p := FreshListing(s, Normalize(req), userId);
      ListImages(s, req, userId, true)
        == Reply(if |p.items| > 0 then s.(cache := s.cache[CacheKey(Normalize(req)) := Listing(p.items)]) else s, Ok(p))
  {
  }

  /** A cached page is handed out with the caller's flags. */
  lemma CachedListingRestarred(s: Store, req: ListRequest, userId: Id)
    requires var key := CacheKey(Normalize(req)); key in s.cache && s.cache[key].Listing?
    ensures ListImages(s, req, userId, true).result.value.items
         == Restar(s, s.cache[CacheKey(Normalize(req))].items, userId)
  {
  }

  /** An anonymous caller never sees a favourite flag. */
  lemma AnonymousSeesNoStars(s: Store, req: ListRequest, cacheUp: bool)
    ensures var items := ListImages(s, req, "", cacheUp).result.value.items;
            forall i :: 0 <= i < |items| ==> !items[i].isStarred
  {
  }

  /** The rows of a table scan restricted to candidate keys. */
  ghost predicate ScanOf(s: Store, rows: seq<(Id, Image)>, candidate: Id -> bool) {
    && Distinct(rows)
    && forall e :: e in rows <==> e.0 in s.images.byId && e.1 == s.images.byId[e.0] && candidate(e.0)
  }

  lemma EntriesScan(s: Store)
    requires s.images.Valid()
    ensures ScanOf(s, s.images.Entries(), _ => true)
  {
    var es := s.images.Entries();
    EntriesDistinctKeys(s.images);
    forall e: (Id, Image) | e.0 in s.images.byId && e.1 == s.images.byId[e.0] ensures e in es {
      var i :| 0 <= i < |s.images.rows| && s.images.rows[i] == e.0;
      assert es[i] == e;
    }
  }

  /** Selecting from a scan counts the matching images. */
  lemma SelectedCount(s: Store, rows: seq<(Id, Image)>, candidate: Id -> bool, q: ListRequest)
    requires ScanOf(s, rows, candidate)
    ensures |Selected(s, rows, q.search, q.labels)| == |MatchingRows(s, candidate, q)|
  {
    var sel := Selected(s, rows, q.search, q.labels);
    assert Elems(sel) == MatchingRows(s, candidate, q);
    ElemsCard(sel);
  }

  /** On a cache miss the total is the number of matching images. */
  lemma ListTotalCountsMatches(s: Store, q: ListRequest, userId: Id)
    requires s.images.Valid()
    requires q.page >= 1 && q.pageSize >= 1
    ensures FreshListing(s, q, userId).total == |MatchingRows(s, _ => true, q)|
  {
    EntriesScan(s);
    SelectedCount(s, s.images.Entries(), _ => true, q);
  }

  // -------------------------------------------------------------- detail

  /** `GetImageByID`: the row with its label names and the caller's
      favourite flag. */
  function GetImageByID(s: Store, imageId: Id, userId: Id): (r: Result<ImageResponse>)
    ensures r.Ok? <==> imageId in s.images.byId
    ensures r.Err? ==> r.error == RecordNotFound
    ensures r.Ok? ==>
      && r.value.id == imageId && RowOf(r.value) == s.images.byId[imageId]
      && (forall n :: n in r.value.labels <==> HasLabel(s, imageId, n))
      && (r.value.isStarred <==> userId != "" && Collection(userId, imageId) in s.collections)
  {
    match s.images.Get(imageId)
    case None => Err(RecordNotFound)
    case Some(img) => Ok(Respond(imageId, img, LabelNames(s, imageId), Starred(s, userId, imageId)))
  }

  // ---------------------------------------------------------- favourites

  /** `CollectImage`: record the favourite and raise the image's star
      counter (the update also stamps `updated_at`). */
  function CollectImage(s: Store, userId: Id, imageId: Id, now: int): (r: Reply<()>)
    ensures r.result.Err? ==> r.store == s
    ensures imageId !in s.images.byId ==> r.result == Err("image not found")
    ensures imageId in s.images.byId && Collection(userId, imageId) in s.collections ==>
      r.result == Err("image already collected")
    ensures r.result.Ok? <==> imageId in s.images.byId && Collection(userId, imageId) !in s.collections
    ensures r.result.Ok? ==>
      var img := s.images.byId[imageId];
      && r.store.collections == s.collections + [Collection(userId, imageId)]
      && r.store.images == s.images.Put(imageId, img.(stars := img.stars + 1, updatedAt := now))
      && r.store.(images := s.images, collections := s.collections) == s
  {
    match s.images.Get(imageId)
    case None => Reply(s, Err("image not found"))
    case Some(img) =>
      var c := Collection(userId, imageId);
      if c in s.collections then Reply(s, Err("image already collected"))
      else
        Reply(s.(collections := s.collections + [c],
                 images := s.images.Put(imageId, img.(stars := img.stars + 1, updatedAt := now))),
              Ok(()))
  }

  /** `UncollectImage`: delete the favourite and lower the star counter. */
  function UncollectImage(s: Store, userId: Id, imageId: Id, now: int): (r: Reply<()>)
    ensures r.result.Err? ==> r.store == s
    ensures imageId !in s.images.byId ==> r.result == Err("image not found")
    ensures imageId in s.images.byId && Collection(userId, imageId) !in s.collections ==>
      r.result == Err("image not in collection")
    ensures r.result.Ok? <==> imageId in s.images.byId && Collection(userId, imageId) in s.collections
    ensures r.result.Ok? ==>
      var img := s.images.byId[imageId];
      && (forall c :: c in r.store.collections <==> c in s.collections && c != Collection(userId, imageId))
      && r.store.images == s.images.Put(imageId, img.(stars := img.stars - 1, updatedAt := now))
      && r.store.(images := s.images, collections := s.collections) == s
  {
    match s.images.Get(imageId)
    case None => Reply(s, Err("image not found"))
    case Some(img) =>
      var c := Collection(userId, imageId);
      if c !in s.collections then Reply(s, Err("image not in collection"))
      else
        Reply(s.(collections := Without(s.collections, c),
                 images := s.images.Put(imageId, img.(stars := img.stars - 1, updatedAt := now))),
              Ok(()))
  }

  /** Collecting and then uncollecting restores the favourites and the star
      counter; only the update stamp differs. */
  lemma CollectThenUncollect(s: Store, userId: Id, imageId: Id, t1: int, t2: int)
    requires CollectImage(s, userId, imageId, t1).result.Ok?
    ensures var s1 := CollectImage(s, userId, imageId, t1).store;
            var s2 := UncollectImage(s1, userId, imageId, t2);
            && s2.result.Ok?
            && s2.store.collections == s.collections
            && s2.store.images == s.images.Put(imageId, s.images.byId[imageId].(updatedAt := t2))
  {
    WithoutAppended(s.collections, Collection(userId, imageId));
  }

  /** A favourite can be recorded once only. */
  lemma CollectTwiceFails(s: Store, userId: Id, imageId: Id, t1: int, t2: int)
    requires CollectImage(s, userId, imageId, t1).result.Ok?
    ensures CollectImage(CollectImage(s, userId, imageId, t1).store, userId, imageId, t2).result
         == Err("image already collected")
  {
  }

  lemma CollectPreservesValid(s: Store, userId: Id, imageId: Id, now: int)
    requires Valid(s)
    ensures Valid(CollectImage(s, userId, imageId, now).store)
  {
    var r := CollectImage(s, userId, imageId, now);
    if r.result.Ok? {
      var c := Collection(userId, imageId);
      var t := r.store;
      assert Distinct(t.collections) by {
        forall i, j | 0 <= i < j < |t.collections| ensures t.collections[i] != t.collections[j] {
          if j == |s.collections| {
            assert t.collections[i] == s.collections[i];
          } else {
            assert t.collections[i] == s.collections[i] && t.collections[j] == s.collections[j];
          }
        }
      }
      forall k | k in t.images.byId ensures t.images.byId[k].stars == StarCount(t.collections, k) {
        StarCountAppend(s.collections, c, k);
      }
    }
  }

  lemma UncollectPreservesValid(s: Store, userId: Id, imageId: Id, now: int)
    requires Valid(s)
    ensures Valid(UncollectImage(s, userId, imageId, now).store)
  {
    var r := UncollectImage(s, userId, imageId, now);
    if r.result.Ok? {
      var c := Collection(userId, imageId);
      var t := r.store;
      forall i | 0 <= i < |t.collections| ensures t.collections[i].imageId in t.images.byId {
        assert t.collections[i] in s.collections;
      }
      forall k | k in t.images.byId ensures t.images.byId[k].stars == StarCount(t.collections, k) {
        StarCountWithout(s.collections, c, k);
      }
    }
  }

  // -------------------------------------------------------------- labels

  const LabelCreateFailed := "failed to create label: "

  /** Find the label row with this name or create one under the next
      generated key, then link it to the image (an existing link is kept as
      it is). */
  function AttachOne(s: Store, imageId: Id, name: string, gen: nat -> Id): (r: Result<Store>)
    ensures r.Ok? ==> r.value.(labels := s.labels, links := s.links, serial := s.serial) == s
    ensures r.Ok? ==> s.links <= r.value.links
    ensures r.Err? ==> r.error == LabelCreateFailed + DuplicateKey
  {
    match s.labels.Find((l: Label) => l.name == name)
    case Some(lid) => Ok(s.(links := s.links + {(imageId, lid)}))
    case None =>
      var lid := gen(s.serial);
      if lid in s.labels.byId then Err(LabelCreateFailed + DuplicateKey)
      else
        Ok(s.(labels := s.labels.Insert(lid, Label(name)),
              links := s.links + {(imageId, lid)},
              serial := s.serial + 1))
  }

  /** `AttachOne` for each name in turn. */
  function AttachLabels(s: Store, imageId: Id, names: seq<string>, gen: nat -> Id): (r: Result<Store>)
    ensures r.Ok? ==> r.value.(labels := s.labels, links := s.links, serial := s.serial) == s
    ensures r.Ok? ==> s.links <= r.value.links
    ensures r.Err? ==> r.error == LabelCreateFailed + DuplicateKey
    decreases |names|
  {
    if names == [] then Ok(s)
    else
      match AttachOne(s, imageId, names[0], gen)
      case Err(e) => Err(e)
      case Ok(s') => AttachLabels(s', imageId, names[1..], gen)
  }

  /** Linking one more label row to an image gives the image that label's
      name and changes no other image's labels, provided the rows the old
      links point at are unchanged. */
  lemma LinkStep(s: Store, t: Store, imageId: Id, lid: Id)
    requires LinksWellFormed(s.links, s.images, s.labels)
    requires t.links == s.links + {(imageId, lid)} && lid in t.labels.byId
    requires forall k :: k in s.labels.byId ==> k in t.labels.byId && t.labels.byId[k] == s.labels.byId[k]
    ensures forall n :: HasLabel(t, imageId, n) <==> HasLabel(s, imageId, n) || n == t.labels.byId[lid].name
    ensures forall other, n :: other != imageId ==> (HasLabel(t, other, n) <==> HasLabel(s, other, n))
  {
    forall n ensures HasLabel(t, imageId, n) <==> HasLabel(s, imageId, n) || n == t.labels.byId[lid].name {
      if HasLabel(s, imageId, n) {
        var p :| p in s.links && p.0 == imageId && p.1 in s.labels.byId && s.labels.byId[p.1].name == n;
        assert p in t.links;
      }
      if n == t.labels.byId[lid].name {
        assert (imageId, lid) in t.links;
      }
    }
    forall other, n | other != imageId ensures HasLabel(t, other, n) <==> HasLabel(s, other, n) {
      if HasLabel(s, other, n) {
        var p :| p in s.links && p.0 == other && p.1 in s.labels.byId && s.labels.byId[p.1].name == n;
        assert p in t.links;
      }
      if HasLabel(t, other, n) {
        var p :| p in t.links && p.0 == other && p.1 in t.labels.byId && t.labels.byId[p.1].name == n;
        assert p in s.links;
      }
    }
  }

  /** The label invariants that attaching labels keeps. */
  predicate LabelsSound(s: Store) {
    s.labels.Valid() && UniqueLabelNames(s.labels) && LinksWellFormed(s.links, s.images, s.labels)
  }

  /** One attachment keeps the label invariants and every label row, and
      adds exactly its name to the image's labels. */
  lemma AttachOneFacts(s: Store, imageId: Id, name: string, gen: nat -> Id)
    requires LabelsSound(s) && imageId in s.images.byId
    requires AttachOne(s, imageId, name, gen).Ok?
    ensures var t := AttachOne(s, imageId, name, gen).value;
      && LabelsSound(t)
      && (forall k :: k in s.labels.byId ==> k in t.labels.byId && t.labels.byId[k] == s.labels.byId[k])
      && (forall n :: HasLabel(t, imageId, n) <==> HasLabel(s, imageId, n) || n == name)
      && (forall other, n :: other != imageId ==> (HasLabel(t, other, n) <==> HasLabel(s, other, n)))
  {
    var t := AttachOne(s, imageId, name, gen).value;
    match s.labels.Find((l: Label) => l.name == name)
    case Some(lid) =>
      LinkStep(s, t, imageId, lid);
    case None =>
      var lid := gen(s.serial);
      assert t.labels.byId == s.labels.byId[lid := Label(name)];
      LinkStep(s, t, imageId, lid);
  }

  /** Attaching labels keeps the label invariants, keeps every existing
      label row, and gives the image exactly the requested names on top of
      those it had; other images keep their labels. */
  lemma {:induction false} AttachLabelsFacts(s: Store, imageId: Id, names: seq<string>, gen: nat -> Id)
    requires LabelsSound(s) && imageId in s.images.byId
    requires AttachLabels(s, imageId, names, gen).Ok?
    ensures var t := AttachLabels(s, imageId, names, gen).value;
      && LabelsSound(t)
      && (forall k :: k in s.labels.byId ==> k in t.labels.byId && t.labels.byId[k] == s.labels.byId[k])
      && (forall n :: HasLabel(t, imageId, n) <==> HasLabel(s, imageId, n) || n in names)
      && (forall other, n :: other != imageId ==> (HasLabel(t, other, n) <==> HasLabel(s, other, n)))
    decreases |names|
  {
    if names != [] {
      var s' := AttachOne(s, imageId, names[0], gen).value;
      AttachOneFacts(s, imageId, names[0], gen);
      AttachLabelsFacts(s', imageId, names[1..], gen);
      assert forall n :: n in names <==> n == names[0] || n in names[1..];
    }
  }

  /** All links of one image removed (`Association("Labels").Clear()`). */
  function Unlink(links: set<(Id, Id)>, imageId: Id): (r: set<(Id, Id)>)
    ensures forall p :: p in r <==> p in links && p.0 != imageId
  {
    set p | p in links && p.0 != imageId
  }

  // -------------------------------------------------------------- create

  datatype CreateRequest = CreateRequest(
    name: string, description: string, registry: string, namespace: string,
    repository: string, tag: string, digest: string, size: int,
    readme: Option<FileHeader>, visibility: string, platform: string, labels: seq<string>)

  /** The organisation key stored for an `orgId` argument. */
  function OrgKey(orgId: string): (k: Id)
    ensures orgId == "public" ==> k == PublicOrg
    ensures orgId != "public" ==> k == orgId
  {
    if orgId == "public" then PublicOrg else orgId
  }

  /** The readme path a request leads to: none, or the stored path of the
      uploaded file. */
  function ReadmeUpload(readme: Option<FileHeader>, date: string, uuid: string): (r: Result<string>)
    ensures r.Ok? <==> readme.None? || UploadFile(readme.value, "readme", date, uuid).Ok?
    ensures readme.None? ==> r.value == ""
    ensures r.Ok? && readme.Some? ==> "readme/" + date + "_" + uuid <= r.value
    ensures r.Err? ==>
      && "failed to upload readme file: " <= r.error
      && r.error[|"failed to upload readme file: "|..] == UploadFile(readme.value, "readme", date, uuid).error
  {
    match readme
    case None => Ok("")
    case Some(f) =>
      match UploadFile(f, "readme", date, uuid)
      case Err(e) => Err("failed to upload readme file: " + e)
      case Ok(path) => Ok(path)
  }

  /** The row `CreateImage` inserts. */
  function NewImage(req: CreateRequest, userId: Id, orgId: string, readmePath: string, now: int): (img: Image)
    ensures img.author == userId && img.orgId == OrgKey(orgId) && img.stars == 0
    ensures img.createdAt == now && img.updatedAt == now && img.readmePath == readmePath
    ensures img.visibility == (if req.visibility == "" then DefaultVisibility else req.visibility)
    ensures img.name == req.name && img.description == req.description
    ensures img.registry == req.registry && img.namespace == req.namespace && img.repository == req.repository
    ensures img.tag == req.tag && img.digest == req.digest && img.size == req.size && img.platform == req.platform
  {
    WithColumnDefaults(Image(OrgKey(orgId), req.name, req.description, userId, req.registry,
      req.namespace, req.repository, req.tag, req.digest, req.size, readmePath, 0,
      req.visibility, req.platform, now, now))
  }

  /** `CreateImage`: upload the readme (if any), insert the row under the
      next generated key, attach the labels, all in one transaction, and
      answer with the stored image. */
  function CreateImage(
    s: Store, req: CreateRequest, userId: Id, orgId: string,
    date: string, uuid: string, now: int, gen: nat -> Id): (r: Reply<ImageResponse>)
    ensures r.result.Err? ==> r.store == s
    ensures ReadmeUpload(req.readme, date, uuid).Err? ==> r.result == Err(ReadmeUpload(req.readme, date, uuid).error)
    ensures ReadmeUpload(req.readme, date, uuid).Ok? && gen(s.serial) in s.images.byId ==>
      r.result == Err("failed to create image: " + DuplicateKey)
    ensures r.result.Ok? ==>
      var id := gen(s.serial);
      && id !in s.images.byId
      && id in r.store.images.byId
      && r.store.images.byId[id] == NewImage(req, userId, orgId, ReadmeUpload(req.readme, date, uuid).value, now)
      && r.result == GetImageByID(r.store, id, userId)
      && r.store.(labels := s.labels, links := s.links, serial := s.serial) == s.(images := s.images.Insert(id, r.store.images.byId[id]))
  {
    match ReadmeUpload(req.readme, date, uuid)
    case Err(e) => Reply(s, Err(e))
    case Ok(readmePath) =>
      var id := gen(s.serial);
      if id in s.images.byId then Reply(s, Err("failed to create image: " + DuplicateKey))
      else
        var img := NewImage(req, userId, orgId, readmePath, now);
        var s1 := s.(images := s.images.Insert(id, img), serial := s.serial + 1);
        match AttachLabels(s1, id, req.labels, gen)
        case Err(e) => Reply(s, Err(e))
        case Ok(s2) => Reply(s2, GetImageByID(s2, id, userId))
  }

  /** A key with no image row has no labels and no favourites. */
  lemma UnknownImageBare(s: Store, id: Id, userId: Id)
    requires LinksWellFormed(s.links, s.images, s.labels) && FavouritesWellFormed(s.collections, s.images)
    requires id !in s.images.byId
    ensures forall n :: !HasLabel(s, id, n)
    ensures Collection(userId, id) !in s.collections
  {
    assert forall i :: 0 <= i < |s.collections| ==> s.collections[i] != Collection(userId, id);
  }

  /** Labels attached to an image that had none are exactly the requested
      names. */
  lemma AttachToBareImage(s: Store, imageId: Id, names: seq<string>, gen: nat -> Id)
    requires LabelsSound(s) && imageId in s.images.byId
    requires forall n :: !HasLabel(s, imageId, n)
    requires AttachLabels(s, imageId, names, gen).Ok?
    ensures LabelNames(AttachLabels(s, imageId, names, gen).value, imageId) == Elems(names)
  {
    AttachLabelsFacts(s, imageId, names, gen);
    var t := AttachLabels(s, imageId, names, gen).value;
    assert forall n :: n in LabelNames(t, imageId) <==> n in names;
  }

  /** A created image carries exactly the requested label names, no
      favourite and no stars. */
  lemma CreateImageLabels(
    s: Store, req: CreateRequest, userId: Id, orgId: string,
    date: string, uuid: string, now: int, gen: nat -> Id)
    requires Valid(s)
    requires CreateImage(s, req, userId, orgId, date, uuid, now, gen).result.Ok?
    ensures var v := CreateImage(s, req, userId, orgId, date, uuid, now, gen).result.value;
            v.labels == Elems(req.labels) && !v.isStarred && v.stars == 0
  {
    var id := gen(s.serial);
    var img := NewImage(req, userId, orgId, ReadmeUpload(req.readme, date, uuid).value, now);
    var s1 := s.(images := s.images.Insert(id, img), serial := s.serial + 1);
    UnknownImageBare(s, id, userId);
    assert forall n :: !HasLabel(s1, id, n) by {
      forall n ensures !HasLabel(s1, id, n) {
        assert !HasLabel(s, id, n);
      }
    }
    assert LabelsSound(s1);
    AttachToBareImage(s1, id, req.labels, gen);
    var s2 := AttachLabels(s1, id, req.labels, gen).value;
    assert s2.collections == s.collections;
    var r := CreateImage(s, req, userId, orgId, date, uuid, now, gen);
    assert r.store == s2 && r.result == GetImageByID(s2, id, userId);
    assert s2.images.Get(id) == Some(img);
    assert GetImageByID(s2, id, userId) == Ok(Respond(id, img, LabelNames(s2, id), Starred(s2, userId, id)));
  }

  lemma CreateImagePreservesValid(
    s: Store, req: CreateRequest, userId: Id, orgId: string,
    date: string, uuid: string, now: int, gen: nat -> Id)
    requires Valid(s)
    ensures Valid(CreateImage(s, req, userId, orgId, date, uuid, now, gen).store)
  {
    var r := CreateImage(s, req, userId, orgId, date, uuid, now, gen);
    if r.result.Ok? {
      var id := gen(s.serial);
      var img := NewImage(req, userId, orgId, ReadmeUpload(req.readme, date, uuid).value, now);
      var s1 := s.(images := s.images.Insert(id, img), serial := s.serial + 1);
      AttachLabelsFacts(s1, id, req.labels, gen);
      var t := r.store;
      assert t.images == s1.images;
      StarCountZero(s.collections, id);
      forall k | k in t.images.byId ensures t.images.byId[k].stars == StarCount(t.collections, k) {
      }
    }
  }

  // -------------------------------------------------------------- update

  datatype UpdateRequest = UpdateRequest(
    name: string, description: string, registry: string, namespace: string,
    repository: string, tag: string, readme: Option<FileHeader>,
    visibility: string, platform: string, labels: seq<string>)

  /** The columns `UpdateImage` takes from the request: name, description,
      registry, repository and tag, each only when given. Namespace,
      visibility and platform are not applied. */
  function Overlay(img: Image, req: UpdateRequest): (r: Image)
    ensures r.name == (if req.name != "" then req.name else img.name)
    ensures r.description == (if req.description != "" then req.description else img.description)
    ensures r.registry == (if req.registry != "" then req.registry else img.registry)
    ensures r.repository == (if req.repository != "" then req.repository else img.repository)
    ensures r.tag == (if req.tag != "" then req.tag else img.tag)
    ensures r.(name := img.name, description := img.description, registry := img.registry,
               repository := img.repository, tag := img.tag) == img
  {
    img.(name := if req.name != "" then req.name else img.name,
         description := if req.description != "" then req.description else img.description,
         registry := if req.registry != "" then req.registry else img.registry,
         repository := if req.repository != "" then req.repository else img.repository,
         tag := if req.tag != "" then req.tag else img.tag)
  }

  const NotFoundOrNotAuthor := "image not found or not authorized"

  /** The image exists and the caller wrote it. */
  predicate AuthoredBy(s: Store, imageId: Id, userId: Id) {
    imageId in s.images.byId && s.images.byId[imageId].author == userId
  }

  /** `UpdateImage`: the author edits the given columns, may replace the
      readme, and, when the request names labels, replaces the image's
      labels by them. */
  function UpdateImage(
    s: Store, imageId: Id, req: UpdateRequest, userId: Id,
    date: string, uuid: string, now: int, gen: nat -> Id): (r: Reply<ImageResponse>)
    ensures r.result.Err? ==> r.store == s
    ensures !AuthoredBy(s, imageId, userId) ==> r.result == Err(NotFoundOrNotAuthor)
    ensures AuthoredBy(s, imageId, userId) && req.readme.Some? && ReadmeUpload(req.readme, date, uuid).Err? ==>
      r.result == Err(ReadmeUpload(req.readme, date, uuid).error)
    ensures r.result.Ok? ==>
      var prev := s.images.byId[imageId];
      && AuthoredBy(s, imageId, userId)
      && imageId in r.store.images.byId
      && r.store.images == s.images.Put(imageId, r.store.images.byId[imageId])
      && r.store.images.byId[imageId] == Overlay(prev, req).(
           readmePath := if req.readme.Some? then ReadmeUpload(req.readme, date, uuid).value else prev.readmePath,
           updatedAt := now)
      && r.store.(images := s.images, labels := s.labels, links := s.links, serial := s.serial) == s
      && (|req.labels| == 0 ==> r.store.labels == s.labels && r.store.links == s.links)
      && r.result == GetImageByID(r.store, imageId, userId)
  {
    match s.images.Get(imageId)
    case None => Reply(s, Err(NotFoundOrNotAuthor))
    case Some(prev) =>
      if prev.author != userId then Reply(s, Err(NotFoundOrNotAuthor))
      else
        var readme := if req.readme.Some? then ReadmeUpload(req.readme, date, uuid) else Ok(prev.readmePath);
        match readme
        case Err(e) => Reply(s, Err(e))
        case Ok(path) =>
          var img := Overlay(prev, req).(readmePath := path, updatedAt := now);
          var s1 := s.(images := s.images.Put(imageId, img));
          if |req.labels| == 0 then Reply(s1, GetImageByID(s1, imageId, userId))
          else
            match AttachLabels(s1.(links := Unlink(s1.links, imageId)), imageId, req.labels, gen)
            case Err(e) => Reply(s, Err(e))
            case Ok(s2) => Reply(s2, GetImageByID(s2, imageId, userId))
  }

  /** Unlinking an image takes away all its labels and no other image's. */
  lemma UnlinkFacts(s: Store, imageId: Id)
    requires LabelsSound(s)
    ensures var t := s.(links := Unlink(s.links, imageId));
      && LabelsSound(t)
      && (forall n :: !HasLabel(t, imageId, n))
      && (forall other, n :: other != imageId ==> (HasLabel(t, other, n) <==> HasLabel(s, other, n)))
  {
    var t := s.(links := Unlink(s.links, imageId));
    forall other, n | other != imageId ensures HasLabel(t, other, n) <==> HasLabel(s, other, n) {
      if HasLabel(s, other, n) {
        var p :| p in s.links && p.0 == other && p.1 in s.labels.byId && s.labels.byId[p.1].name == n;
        assert p in t.links;
      }
    }
  }

  /** An update that names labels leaves the image with exactly those
      names; one that names none leaves its labels as they were. Other
      images keep theirs either way. */
  lemma UpdateImageLabels(
    s: Store, imageId: Id, req: UpdateRequest, userId: Id,
    date: string, uuid: string, now: int, gen: nat -> Id)
    requires Valid(s)
    requires UpdateImage(s, imageId, req, userId, date, uuid, now, gen).result.Ok?
    ensures var t := UpdateImage(s, imageId, req, userId, date, uuid, now, gen).store;
      && LabelNames(t, imageId) == (if |req.labels| > 0 then Elems(req.labels) else LabelNames(s, imageId))
      && forall other :: other != imageId ==> LabelNames(t, other) == LabelNames(s, other)
  {
    var r := UpdateImage(s, imageId, req, userId, date, uuid, now, gen);
    var s1 := s.(images := r.store.images);
    if |req.labels| > 0 {
      assert LabelsSound(s1);
      UnlinkFacts(s1, imageId);
      var u := s1.(links := Unlink(s1.links, imageId));
      assert forall other, n :: HasLabel(s1, other, n) <==> HasLabel(s, other, n);
      AttachToBareImage(u, imageId, req.labels, gen);
      AttachLabelsFacts(u, imageId, req.labels, gen);
      assert r.store == AttachLabels(u, imageId, req.labels, gen).value;
      forall other | other != imageId ensures LabelNames(r.store, other) == LabelNames(s, other) {
        assert forall n :: n in LabelNames(r.store, other) <==> n in LabelNames(s, other);
      }
    } else {
      assert forall other, n :: HasLabel(r.store, other, n) <==> HasLabel(s, other, n);
      forall other ensures LabelNames(r.store, other) == LabelNames(s, other) {
        assert forall n :: n in LabelNames(r.store, other) <==> n in LabelNames(s, other);
      }
    }
  }

  lemma UpdateImagePreservesValid(
    s: Store, imageId: Id, req: UpdateRequest, userId: Id,
    date: string, uuid: string, now: int, gen: nat -> Id)
    requires Valid(s)
    ensures Valid(UpdateImage(s, imageId, req, userId, date, uuid, now, gen).store)
  {
    var r := UpdateImage(s, imageId, req, userId, date, uuid, now, gen);
    if r.result.Ok? {
      var s1 := s.(images := r.store.images);
      assert s1.images.byId.Keys == s.images.byId.Keys;
      assert LabelsSound(s1);
      if |req.labels| > 0 {
        UnlinkFacts(s1, imageId);
        var u := s1.(links := Unlink(s1.links, imageId));
        AttachLabelsFacts(u, imageId, req.labels, gen);
        assert r.store == AttachLabels(u, imageId, req.labels, gen).value;
      }
      assert StarsMatch(r.store.images, r.store.collections);
    }
  }

  // -------------------------------------------------------------- delete

  /** `DeleteImage`: the author removes the image with its favourites and
      its label links; the label rows stay. */
  function DeleteImage(s: Store, imageId: Id, userId: Id): (r: Reply<()>)
    ensures r.result.Err? ==> r.store == s
    ensures r.result.Ok? <==> AuthoredBy(s, imageId, userId)
    ensures r.result.Err? ==> r.result.error == NotFoundOrNotAuthor
    ensures r.result.Ok? ==>
      && r.store.images.byId == s.images.byId - {imageId}
      && (forall c :: c in r.store.collections <==> c in s.collections && c.imageId != imageId)
      && (forall p :: p in r.store.links <==> p in s.links && p.0 != imageId)
      && r.store.(images := s.images, collections := s.collections, links := s.links) == s
  {
    if !AuthoredBy(s, imageId, userId) then Reply(s, Err(NotFoundOrNotAuthor))
    else
      Reply(s.(images := s.images.Remove(imageId),
               collections := DropImage(s.collections, imageId),
               links := Unlink(s.links, imageId)),
            Ok(()))
  }

  /** After deletion the image is gone for every caller. */
  lemma DeleteThenGetFails(s: Store, imageId: Id, userId: Id, caller: Id)
    requires DeleteImage(s, imageId, userId).result.Ok?
    ensures GetImageByID(DeleteImage(s, imageId, userId).store, imageId, caller) == Err(RecordNotFound)
  {
  }

  lemma DeleteImagePreservesValid(s: Store, imageId: Id, userId: Id)
    requires Valid(s)
    ensures Valid(DeleteImage(s, imageId, userId).store)
  {
    var r := DeleteImage(s, imageId, userId);
    if r.result.Ok? {
      var t := r.store;
      forall i | 0 <= i < |t.collections| ensures t.collections[i].imageId in t.images.byId {
        assert t.collections[i] in s.collections;
      }
      forall k | k in t.images.byId ensures t.images.byId[k].stars == StarCount(t.collections, k) {
        StarCountDropImage(s.collections, imageId, k);
      }
    }
  }

  // ---------------------------------------------------------- favourites

  /** `ListFavorites`: the caller's favourite images, filtered, ordered and
      cut like the general listing, each with its label names and marked as
      a favourite. */
  function ListFavorites(s: Store, req: ListRequest, userId: Id): (r: Result<Page>)
    ensures r.Ok?
    ensures var q := Normalize(req);
      && |r.value.items| <= q.pageSize
      && ResponsesSorted(r.value.items, q.sort)
      && forall i :: 0 <= i < |r.value.items| ==>
           var id := r.value.items[i].id;
           && id in s.images.byId && RowOf(r.value.items[i]) == s.images.byId[id]
           && Collection(userId, id) in s.collections
           && SearchMatches(s.images.byId[id], q.search) && LabelsMatch(s, id, q.labels)
           && r.value.items[i].isStarred && r.value.items[i].labels == LabelNames(s, id)
    ensures var q := Normalize(req);
      forall i :: 0 <= i < |r.value.items| ==>
        Offset(q.page, q.pageSize) + i < |Ranked(s, Favourites(s, userId), q)|
        && r.value.items[i].id == Ranked(s, Favourites(s, userId), q)[Offset(q.page, q.pageSize) + i].0
  {
    var q := Normalize(req);
    var candidates := Favourites(s, userId);
    var rows := PageRows(s, candidates, q);
    Ok(Page(FavouriteItems(s, rows, q.sort), |Selected(s, candidates, q.search, q.labels)|))
  }

  /** The response items of the favourites listing: labels loaded, every
      item marked as a favourite. */
  function FavouriteItems(s: Store, rows: seq<(Id, Image)>, sort: string): (items: seq<ImageResponse>)
    requires SortedBy(rows, sort)
    ensures |items| == |rows|
    ensures ResponsesSorted(items, sort)
    ensures forall i :: 0 <= i < |items| ==>
      && items[i].id == rows[i].0 && RowOf(items[i]) == rows[i].1
      && items[i].labels == LabelNames(s, rows[i].0) && items[i].isStarred
  {
    seq(|rows|, i requires 0 <= i < |rows| => Respond(rows[i].0, rows[i].1, LabelNames(s, rows[i].0), true))
  }

  /** The scan rows the caller has favourited. */
  function Favourites(s: Store, userId: Id): (r: seq<(Id, Image)>)
    ensures forall e :: e in r <==> e in s.images.Entries() && Collection(userId, e.0) in s.collections
  {
    Filter(s.images.Entries(), (e: (Id, Image)) => Collection(userId, e.0) in s.collections)
  }

  /** The favourites total is the number of matching favourited images. */
  lemma FavouritesTotal(s: Store, req: ListRequest, userId: Id)
    requires s.images.Valid()
    ensures ListFavorites(s, req, userId).value.total
         == |MatchingRows(s, k => Collection(userId, k) in s.collections, Normalize(req))|
  {
    EntriesScan(s);
    var rows := Favourites(s, userId);
    assert ScanOf(s, rows, k => Collection(userId, k) in s.collections);
    SelectedCount(s, rows, k => Collection(userId, k) in s.collections, Normalize(req));
  }
}

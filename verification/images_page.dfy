/** The client-side filter of the image gallery page: a search over name
    and description, a tag selection every shown image must carry, and the
    tag choices offered (each tag of any image once). */
module ImagesPage {
  import opened Seqs
  import opened Strings
  import opened Tables
  import opened Store
  import opened Catalog

  datatype ImageItem = ImageItem(id: string, name: string, description: string, tags: seq<string>, stars: int, isStarred: bool)

  /** Name or description contains the search text, ignoring case. */
  predicate MatchesSearch(img: ImageItem, searchText: string) {
    ContainsFold(img.name, searchText) || ContainsFold(img.description, searchText)
  }

  /** The image carries every selected tag; no selection selects all. */
  predicate MatchesTags(img: ImageItem, selectedTags: seq<string>) {
    |selectedTags| == 0 || forall i :: 0 <= i < |selectedTags| ==> selectedTags[i] in img.tags
  }

  predicate Shown(img: ImageItem, searchText: string, selectedTags: seq<string>) {
    MatchesSearch(img, searchText) && MatchesTags(img, selectedTags)
  }

  /** `filteredImages`. */
  function FilterImages(images: seq<ImageItem>, searchText: string, selectedTags: seq<string>): (r: seq<ImageItem>)
    ensures forall img :: img in r <==> img in images && Shown(img, searchText, selectedTags)
    ensures Subsequence(r, images)
  {
    FilterIsSubsequence(images, (img: ImageItem) => Shown(img, searchText, selectedTags));
    Filter(images, (img: ImageItem) => Shown(img, searchText, selectedTags))
  }

  /** An empty search and an empty selection show every image, in order. */
  lemma {:induction false} NoFilterShowsAll(images: seq<ImageItem>)
    ensures FilterImages(images, "", []) == images
  {
    if images != [] {
      ContainsEmpty(ToLower(images[0].name));
      NoFilterShowsAll(images[1..]);
      assert images == [images[0]] + images[1..];
    }
  }

  /** Typing more search text never shows more images. */
  lemma LongerSearchShowsFewer(img: ImageItem, searchText: string, more: string, tags: seq<string>)
    requires Shown(img, searchText + more, tags)
    ensures Shown(img, searchText, tags)
  {
    if ContainsFold(img.name, searchText + more) {
      ContainsFoldPrefix(img.name, searchText, more);
    } else {
      ContainsFoldPrefix(img.description, searchText, more);
    }
  }

  /** Adding a tag to the selection never shows more images. */
  lemma MoreTagsShowFewer(img: ImageItem, searchText: string, tags: seq<string>, extra: string)
    requires Shown(img, searchText, tags + [extra])
    ensures Shown(img, searchText, tags)
  {
    if |tags| > 0 {
      forall i | 0 <= i < |tags| ensures tags[i] in img.tags {
        assert (tags + [extra])[i] == tags[i];
      }
    }
  }

  /** The tag selection agrees with the server's label filter on an image
      whose label names are its tags, except that the server matches
      nothing when a tag is selected twice. */
  lemma TagsMirrorServerLabels(s: Store, imageId: Id, img: ImageItem, selectedTags: seq<string>)
    requires |selectedTags| > 0
    requires forall n :: n in img.tags <==> HasLabel(s, imageId, n)
    ensures LabelsMatch(s, imageId, selectedTags) <==> Distinct(selectedTags) && MatchesTags(img, selectedTags)
  {
    LabelsMatchIff(s, imageId, selectedTags);
  }

  /** Every tag of every image, in order. */
  function AllTagOccurrences(images: seq<ImageItem>): (r: seq<string>)
    ensures forall t :: t in r <==> exists i :: 0 <= i < |images| && t in images[i].tags
  {
    if images == [] then []
    else
      var rest := AllTagOccurrences(images[1..]);
      assert forall t :: (exists i :: 0 <= i < |images| && t in images[i].tags) <==>
        t in images[0].tags || exists i :: 0 <= i < |images[1..]| && t in images[1..][i].tags
      by {
        forall t | exists i :: 0 <= i < |images| && t in images[i].tags
          ensures t in images[0].tags || exists i :: 0 <= i < |images[1..]| && t in images[1..][i].tags
        {
          var i :| 0 <= i < |images| && t in images[i].tags;
          if i > 0 { assert t in images[1..][i - 1].tags; }
        }
      }
      images[0].tags + rest
  }

  /** `allTags`: each tag that occurs on some image, exactly once. */
  function AllTags(images: seq<ImageItem>): (r: seq<string>)
    ensures Distinct(r)
    ensures forall t :: t in r <==> exists i :: 0 <= i < |images| && t in images[i].tags
  {
    Dedup(AllTagOccurrences(images))
  }
}

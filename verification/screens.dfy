/**
  The state-dependent parts of the screens: which photos the list screen
  shows for a search query and the favorites switch, when it shows the
  "No items available" message instead, and the image URLs the list item
  and the detail screen load.
 */
module Screens {
  import opened Text
  import opened Seqs
  import opened Urls
  import opened Photos
  import opened ViewModel

  /** The first `.filter`: the title contains the search query, ignoring case. */
  function TitleMatches(query: string): Photo -> bool
  {
    (p: Photo) => Contains(p.title, query, true)
  }

  /** The second `.filter`: with the favorites view on, only favorite ids pass. */
  function FavoritesViewAllows(favorites: set<int>, showFavorites: bool): Photo -> bool
  {
    (p: Photo) => !showFavorites || p.id in favorites
  }

  /** Whether the list screen shows photo `p`. */
  predicate Listed(p: Photo, favorites: set<int>, query: string, showFavorites: bool)
  {
    Contains(p.title, query, true) && (!showFavorites || p.id in favorites)
  }

  /**
    `filteredPhotos` of the list screen: the current photos, in their
    order, keeping exactly those whose title contains the query ignoring
    case and, in the favorites view, whose id is a favorite.
   */
  function FilteredPhotos(st: PhotoState, query: string, showFavorites: bool): (r: seq<Photo>)
    ensures IsSubsequence(r, st.photos)
    ensures forall p :: p in r <==> p in st.photos && Listed(p, st.favorites, query, showFavorites)
    ensures forall p :: multiset(r)[p] == if Listed(p, st.favorites, query, showFavorites) then multiset(st.photos)[p] else 0
  {
    FilterTwice(st.photos, TitleMatches(query), FavoritesViewAllows(st.favorites, showFavorites),
                (p: Photo) => Listed(p, st.favorites, query, showFavorites));
    Filter(Filter(st.photos, TitleMatches(query)), FavoritesViewAllows(st.favorites, showFavorites))
  }

  /** The two filters in a row are one filter by `Listed`. */
  lemma FilteredPhotosIsOneFilter(st: PhotoState, query: string, showFavorites: bool)
    ensures FilteredPhotos(st, query, showFavorites)
         == Filter(st.photos, (p: Photo) => Listed(p, st.favorites, query, showFavorites))
  {
    FilterTwice(st.photos, TitleMatches(query), FavoritesViewAllows(st.favorites, showFavorites),
                (p: Photo) => Listed(p, st.favorites, query, showFavorites));
  }

  /** The list screen shows "No items available" exactly when no current photo is listed. */
  function ShowsNoItemsMessage(st: PhotoState, query: string, showFavorites: bool): (r: bool)
    ensures r <==> forall i :: 0 <= i < |st.photos| ==> !Listed(st.photos[i], st.favorites, query, showFavorites)
  {
    var shown := FilteredPhotos(st, query, showFavorites);
    if |shown| > 0 then
      assert shown[0] in shown;
      false
    else
      assert forall i :: 0 <= i < |st.photos| ==> st.photos[i] !in shown;
      true
  }

  /** An empty search in the all-photos view lists every photo, in order. */
  lemma EmptySearchListsAllPhotos(st: PhotoState)
    ensures FilteredPhotos(st, "", false) == st.photos
  {
    forall i | 0 <= i < |st.photos|
      ensures Listed(st.photos[i], st.favorites, "", false)
    {
      ContainsEmpty(st.photos[i].title, true);
    }
    FilteredPhotosIsOneFilter(st, "", false);
    FilterKeepsAll(st.photos, (p: Photo) => Listed(p, st.favorites, "", false));
  }

  /** The favorites view with no favorites is empty, so it shows "No items available". */
  lemma FavoritesViewWithoutFavoritesIsEmpty(st: PhotoState, query: string)
    requires st.favorites == {}
    ensures FilteredPhotos(st, query, true) == []
    ensures ShowsNoItemsMessage(st, query, true)
  {
    assert ShowsNoItemsMessage(st, query, true);
  }

  /** The search does not depend on the case of the query. */
  lemma SearchIgnoresQueryCase(st: PhotoState, q1: string, q2: string, showFavorites: bool)
    requires LowerAll(q1) == LowerAll(q2)
    ensures FilteredPhotos(st, q1, showFavorites) == FilteredPhotos(st, q2, showFavorites)
  {
    forall i | 0 <= i < |st.photos|
      ensures Listed(st.photos[i], st.favorites, q1, showFavorites) == Listed(st.photos[i], st.favorites, q2, showFavorites)
    {
      ContainsIgnoresQueryCase(st.photos[i].title, q1, q2);
    }
    FilteredPhotosIsOneFilter(st, q1, showFavorites);
    FilteredPhotosIsOneFilter(st, q2, showFavorites);
    FilterSameVerdicts(st.photos, (p: Photo) => Listed(p, st.favorites, q1, showFavorites),
                       (p: Photo) => Listed(p, st.favorites, q2, showFavorites));
  }

  /** In the all-photos view the favorites play no part. */
  lemma AllPhotosViewIgnoresFavorites(st: PhotoState, favorites: set<int>, query: string)
    ensures FilteredPhotos(st, query, false) == FilteredPhotos(st.(favorites := favorites), query, false)
  {
    var other := st.(favorites := favorites);
    FilteredPhotosIsOneFilter(st, query, false);
    FilteredPhotosIsOneFilter(other, query, false);
    FilterSameVerdicts(st.photos, (p: Photo) => Listed(p, st.favorites, query, false),
                       (p: Photo) => Listed(p, favorites, query, false));
  }

  /** In the favorites view, toggling the star of a matching photo makes it appear or disappear. */
  lemma ToggleShowsOrHidesInFavoritesView(st: PhotoState, query: string, p: Photo)
    requires p in st.photos
    requires Contains(p.title, query, true)
    ensures p in FilteredPhotos(ToggleFavorite(st, p.id), query, true) <==> p !in FilteredPhotos(st, query, true)
  {
  }

  /** The thumbnail the list item loads: the stored URL, rewritten once more. */
  function ThumbnailSource(p: Photo): (r: string)
    ensures !Contains(r, OldHost, false)
    ensures r == p.thumbnailUrl <==> !Contains(p.thumbnailUrl, OldHost, false)
  {
    RewriteHost(p.thumbnailUrl)
  }

  /** The image the detail screen loads: the stored URL, rewritten once more. */
  function DetailImageSource(p: Photo): (r: string)
    ensures !Contains(r, OldHost, false)
    ensures r == p.url <==> !Contains(p.url, OldHost, false)
  {
    RewriteHost(p.url)
  }

  /** Rendering never loads from the old host, whatever URL a photo carries. */
  lemma RenderedSourcesAvoidOldHost(p: Photo)
    ensures !Contains(ThumbnailSource(p), OldHost, false)
    ensures !Contains(DetailImageSource(p), OldHost, false)
  {
  }

  /** For fetched photos the second rewrite at rendering is a no-op: the screens load the stored URLs. */
  lemma RenderingFetchedPhotosLoadsStoredUrls(st: PhotoState, records: seq<Record>)
    requires |records| >= PhotoLimit
    ensures forall p :: p in FetchPhotos(st, records).photos ==>
              ThumbnailSource(p) == p.thumbnailUrl && DetailImageSource(p) == p.url
  {
  }
}

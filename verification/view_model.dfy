/**
  `PhotoViewModel`: the current photo list and the set of favorite photo
  ids, as one immutable state value with pure transitions. A favorite id
  need not belong to any photo of the current list.
 */
module ViewModel {
  import opened Wrappers
  import opened Seqs
  import opened Photos

  datatype PhotoState = PhotoState(photos: seq<Photo>, favorites: set<int>)

  /** Both containers start empty. */
  function Initial(): (r: PhotoState)
    ensures r.photos == [] && r.favorites == {}
  {
    PhotoState([], {})
  }

  /** `_photos.value = photoList`: the list is replaced wholesale; favorites are not touched. */
  function SetPhotos(st: PhotoState, photos: seq<Photo>): (r: PhotoState)
    ensures r.photos == photos
    ensures r.favorites == st.favorites
  {
    st.(photos := photos)
  }

  /**
    `fetchPhotos` once the payload is decoded: the first 20 records replace
    the photo list. With fewer records `getJSONObject` throws before the
    assignment, so the state stays as it was.
   */
  function FetchPhotos(st: PhotoState, records: seq<Record>): (r: PhotoState)
    ensures r.favorites == st.favorites
    ensures |records| < PhotoLimit ==> r == st
    ensures |records| >= PhotoLimit ==> r.photos == BuildPhotoList(records).value
  {
    match BuildPhotoList(records)
    case Success(photoList) => SetPhotos(st, photoList)
    case Failure(_) => st
  }

  /** `findPhotoById`: the first photo of the current list with that id, if any. */
  function FindPhotoById(st: PhotoState, photoId: int): (r: Option<Photo>)
    ensures r.None? <==> forall i :: 0 <= i < |st.photos| ==> st.photos[i].id != photoId
    ensures r.Some? ==> r.value.id == photoId
    ensures r.Some? ==> exists i :: 0 <= i < |st.photos| && st.photos[i] == r.value
                                    && forall j :: 0 <= j < i ==> st.photos[j].id != photoId
  {
    Find(st.photos, (p: Photo) => p.id == photoId)
  }

  /** `toggleFavorite`: the id leaves the favorites if it is there and joins them otherwise. */
  function ToggleFavorite(st: PhotoState, photoId: int): (r: PhotoState)
    ensures photoId in r.favorites <==> photoId !in st.favorites
    ensures forall x :: x != photoId ==> (x in r.favorites <==> x in st.favorites)
    ensures r.photos == st.photos
  {
    st.(favorites := if photoId in st.favorites then st.favorites - {photoId} else st.favorites + {photoId})
  }

  /** `toggleFavorite(photoId)` called `n` times in a row. */
  function ToggleTimes(st: PhotoState, photoId: int, n: nat): PhotoState
  {
    if n == 0 then st else ToggleFavorite(ToggleTimes(st, photoId, n - 1), photoId)
  }

  /** A second toggle of the same id undoes the first. */
  lemma ToggleTwiceRestores(st: PhotoState, photoId: int)
    ensures ToggleFavorite(ToggleFavorite(st, photoId), photoId) == st
  {
    var r := ToggleFavorite(ToggleFavorite(st, photoId), photoId);
    assert r.favorites == st.favorites;
  }

  /**
    After `n` toggles of one id, the id is a favorite exactly when it was
    one before and `n` is even, or it was not and `n` is odd; an even
    number of toggles restores the whole state.
   */
  lemma {:induction false} ToggleParity(st: PhotoState, photoId: int, n: nat)
    ensures photoId in ToggleTimes(st, photoId, n).favorites <==> (photoId in st.favorites <==> n % 2 == 0)
    ensures n % 2 == 0 ==> ToggleTimes(st, photoId, n) == st
    decreases n
  {
    if n >= 2 {
      ToggleParity(st, photoId, n - 2);
      ToggleTwiceRestores(ToggleTimes(st, photoId, n - 2), photoId);
    }
  }

  /** Toggles of two ids can be applied in either order. */
  lemma TogglesCommute(st: PhotoState, a: int, b: int)
    ensures ToggleFavorite(ToggleFavorite(st, a), b) == ToggleFavorite(ToggleFavorite(st, b), a)
  {
    var ab := ToggleFavorite(ToggleFavorite(st, a), b);
    var ba := ToggleFavorite(ToggleFavorite(st, b), a);
    assert ab.favorites == ba.favorites;
  }

  /** From a fresh view model, toggling id 1 makes it the only favorite; toggling it again empties the favorites. */
  lemma ToggleFromFreshState()
    ensures ToggleFavorite(Initial(), 1).favorites == {1}
    ensures ToggleFavorite(ToggleFavorite(Initial(), 1), 1).favorites == {}
  {
  }

  /** When ids are unique, looking up the id of any photo returns that photo. */
  lemma FindPhotoByUniqueId(st: PhotoState, i: int)
    requires 0 <= i < |st.photos|
    requires forall j, k :: 0 <= j < k < |st.photos| ==> st.photos[j].id != st.photos[k].id
    ensures FindPhotoById(st, st.photos[i].id) == Some(st.photos[i])
  {
    var r := FindPhotoById(st, st.photos[i].id);
    var m :| 0 <= m < |st.photos| && st.photos[m] == r.value
             && forall j :: 0 <= j < m ==> st.photos[j].id != st.photos[i].id;
    assert m == i;
  }

  /** A one-photo list: its id is found, any other id is not. */
  lemma FindInSinglePhotoList()
    ensures FindPhotoById(SetPhotos(Initial(), [Photo(1, 1, "a", "", "")]), 1) == Some(Photo(1, 1, "a", "", ""))
    ensures FindPhotoById(SetPhotos(Initial(), [Photo(1, 1, "a", "", "")]), 2) == None
  {
    var st := SetPhotos(Initial(), [Photo(1, 1, "a", "", "")]);
    FindPhotoByUniqueId(st, 0);
  }
}

# Photo list state, modelled in Dafny

This project models the state-and-filter layer of a small Android photo
browser (`photos_homework`). The app fetches a list of photos, shows them
in a searchable list with an "All photos" / "Favorites" switch, lets the
user star photos as favorites, and opens a detail screen per photo.

The model keeps the logic that decides what the app holds and shows:

- `PhotoViewModel`'s state is one immutable value `PhotoState(photos, favorites)`:
  a sequence of `Photo` and a set of favorite ids. Its transitions are pure
  functions: `FetchPhotos`, `ToggleFavorite` and `FindPhotoById`. A favorite
  id need not belong to any current photo, and the model adds no such
  invariant.
- The photo list is built from the fetched payload by taking the first 20
  records. The payload is taken as already decoded: a sequence of `Record`
  values in array order.
- Image URLs are rewritten from `via.placeholder.com` to `dummyimage.com`
  when the list is built and again when an image is rendered.
- The list screen keeps the photos whose title contains the search query,
  ignoring case. With the favorites view on, it also requires the photo's
  id to be a favorite. When nothing is kept it shows "No items available".

Modules, following the program's structure:

| file | module | models |
|---|---|---|
| `wrappers.dfy` | `Wrappers` | Kotlin's nullable results (`Option`) and thrown errors (`Result`) |
| `text.dfy` | `Text` | `indexOf`, `contains` and `replace` on strings |
| `urls.dfy` | `Urls` | the image host rewrite |
| `seqs.dfy` | `Seqs` | `filter` and `find` on lists, and the index search `find` performs |
| `photos.dfy` | `Photos` | `Photo`, decoded records, building the 20-photo list |
| `view_model.dfy` | `ViewModel` | `PhotoViewModel`: photos, favorites, toggle, lookup, fetch |
| `screens.dfy` | `Screens` | the list screen's filter, its empty message, the image sources |

Photo ids are described as unique, but the code never checks this.
`FindPhotoById` therefore returns the first photo with the id, as Kotlin's
`find` does. `FindPhotoByUniqueId` assumes distinct ids and proves that the
lookup returns the one photo carrying the id.

## Model

| member | source | states |
|---|---|---|
| `Text.IndexOf` | app/src/main/java/com/example/photos_homework/MainActivity.kt:152 | The result is -1 exactly when the query occurs nowhere at or after the start index. Otherwise it is an index where the query occurs, and the query occurs at no earlier index from the start. |
| `Text.Contains` | app/src/main/java/com/example/photos_homework/MainActivity.kt:152 | `title.contains(query, ignoreCase)` holds exactly when some index of the title starts an occurrence of the query. |
| `Text.ContainsEmpty` | app/src/main/java/com/example/photos_homework/MainActivity.kt:152 | Every title contains the empty query, including the empty title. |
| `Text.ContainsIgnoresQueryCase` | app/src/main/java/com/example/photos_homework/MainActivity.kt:152 | For a case-insensitive search, two queries that differ only in letter case give the same answer. |
| `Text.ReplaceAll` | app/src/main/java/com/example/photos_homework/MainActivity.kt:83-84 | `replace` leaves a string unchanged when the old value does not occur in it. When the replacement is no longer than the old value, the result is never longer than the input. |
| `Text.ReplaceShortens` | app/src/main/java/com/example/photos_homework/MainActivity.kt:83-84 | When the replacement is shorter than the old value, `replace` makes every string that contains the old value strictly shorter. |
| `Text.Replace` | app/src/main/java/com/example/photos_homework/MainActivity.kt:83-84 | The search-and-copy loop (find the next occurrence, copy the text before it, append the replacement, resume after it) computes the left-to-right, non-overlapping replacement `ReplaceAll`. |
| `Text.ReplaceLeavesNoOccurrence` | app/src/main/java/com/example/photos_homework/MainActivity.kt:83-84 | When the replacement cannot start a new occurrence of the old value, the output of `replace` contains no occurrence of it. |
| `Urls.NewHostNeverRecreatesOldHost` | app/src/main/java/com/example/photos_homework/MainActivity.kt:83 | `dummyimage.com` has no 'v', and the rest of `via.placeholder.com` never lines up with it. |
| `Urls.RewriteHost` | app/src/main/java/com/example/photos_homework/MainActivity.kt:83-84 | A rewritten URL never contains `via.placeholder.com`. The rewrite changes a URL exactly when the URL contains the old host. |
| `Urls.RewriteHostIdempotent` | app/src/main/java/com/example/photos_homework/MainActivity.kt:229 | Rewriting an already rewritten URL gives the same URL. |
| `Seqs.Filter` | app/src/main/java/com/example/photos_homework/MainActivity.kt:152-153 | `filter` returns a subsequence of its input in the input's order. An element is in it exactly when it is in the input and accepted. Each accepted element occurs as often as in the input, and rejected elements do not occur. |
| `Seqs.FilterIsTheOnlyKeepingSubsequence` | app/src/main/java/com/example/photos_homework/MainActivity.kt:152-153 | Any order-preserving subsequence that keeps each accepted element as often as the input and nothing else is the filter result. |
| `Seqs.FilterTwice` | app/src/main/java/com/example/photos_homework/MainActivity.kt:152-153 | Two `filter` calls in a row equal one filter by the conjunction of their predicates. |
| `Seqs.FilterKeepsAll` | app/src/main/java/com/example/photos_homework/MainActivity.kt:152 | A filter whose predicate accepts every element returns its input unchanged. |
| `Seqs.FilterSameVerdicts` | app/src/main/java/com/example/photos_homework/MainActivity.kt:153 | Two predicates that agree on every element give the same filter result. |
| `Seqs.SubsequenceCounts` | app/src/main/java/com/example/photos_homework/MainActivity.kt:152-153 | A subsequence holds each element at most as often as the sequence it is taken from. |
| `Seqs.FirstIndex` | app/src/main/java/com/example/photos_homework/MainActivity.kt:66 | The result is absent exactly when no element matches. Otherwise it is a matching index with no match before it. |
| `Seqs.Find` | app/src/main/java/com/example/photos_homework/MainActivity.kt:66 | `find` returns nothing exactly when no element matches. Otherwise it returns a matching element, found at an index with no match before it. |
| `Photos.ToPhoto` | app/src/main/java/com/example/photos_homework/MainActivity.kt:79-85 | A photo copies the record's id, album id and title. Neither of its URLs contains `via.placeholder.com`, and each URL is kept as it was exactly when it did not contain the old host. |
| `Photos.BuildPhotoList` | app/src/main/java/com/example/photos_homework/MainActivity.kt:77-86 | Fewer than 20 records fail at the first missing index. Otherwise the result has exactly 20 photos. Photo i copies id, albumId and title from record i and carries both URLs rewritten. No URL in the list contains the old host. |
| `ViewModel.Initial` | app/src/main/java/com/example/photos_homework/MainActivity.kt:59-62 | A fresh view model holds no photos and no favorites. |
| `ViewModel.SetPhotos` | app/src/main/java/com/example/photos_homework/MainActivity.kt:87 | Assigning the photo list replaces the photos and leaves the favorites as they were. |
| `ViewModel.FetchPhotos` | app/src/main/java/com/example/photos_homework/MainActivity.kt:77-87 | A fetch never changes the favorites. With fewer than 20 records it leaves the state as it was. Otherwise the photo list becomes the built list. |
| `ViewModel.FindPhotoById` | app/src/main/java/com/example/photos_homework/MainActivity.kt:65-67 | The lookup returns nothing exactly when no current photo has the id. Otherwise it returns a photo with that id, at the lowest index carrying it. |
| `ViewModel.FindPhotoByUniqueId` | app/src/main/java/com/example/photos_homework/MainActivity.kt:65-67 | When ids are distinct, looking up the id of any photo in the list returns that photo. |
| `ViewModel.FindInSinglePhotoList` | app/src/main/java/com/example/photos_homework/MainActivity.kt:65-67 | With the one photo `Photo(1, 1, "a", "", "")` listed, id 1 finds it and id 2 finds nothing. |
| `ViewModel.ToggleFavorite` | app/src/main/java/com/example/photos_homework/MainActivity.kt:97-102 | After the toggle, the id is a favorite exactly when it was not one before. Every other id keeps its membership, and the photo list is untouched. |
| `ViewModel.ToggleTwiceRestores` | app/src/main/java/com/example/photos_homework/MainActivity.kt:99-101 | Toggling the same id twice restores the original state. |
| `ViewModel.ToggleParity` | app/src/main/java/com/example/photos_homework/MainActivity.kt:97-102 | After n toggles of one id, the id's membership is flipped exactly when n is odd. An even number of toggles restores the whole state. |
| `ViewModel.TogglesCommute` | app/src/main/java/com/example/photos_homework/MainActivity.kt:97-102 | Toggles of two ids give the same state in either order. |
| `ViewModel.ToggleFromFreshState` | app/src/androidTest/java/com/example/photos_homework/ExampleInstrumentedTest.kt:48-55 | From a fresh view model, one toggle of id 1 gives the favorites `{1}` and a second toggle gives `{}`. |
| `Screens.FilteredPhotos` | app/src/main/java/com/example/photos_homework/MainActivity.kt:152-153 | The list shown is an order-preserving subsequence of the current photos. A photo is in it exactly when its title contains the query ignoring case and, with the favorites view on, its id is a favorite. Shown photos keep their multiplicity. |
| `Screens.FilteredPhotosIsOneFilter` | app/src/main/java/com/example/photos_homework/MainActivity.kt:152-153 | The two successive filters equal a single filter by "title matches and favorites view allows". |
| `Screens.ShowsNoItemsMessage` | app/src/main/java/com/example/photos_homework/MainActivity.kt:196 | "No items available" is shown exactly when no current photo passes both filters. |
| `Screens.EmptySearchListsAllPhotos` | app/src/main/java/com/example/photos_homework/MainActivity.kt:152-153 | With an empty query and the favorites view off, the shown list is the full photo list in its order. |
| `Screens.FavoritesViewWithoutFavoritesIsEmpty` | app/src/androidTest/java/com/example/photos_homework/ExampleInstrumentedTest.kt:72-75 | With the favorites view on and no favorites, the shown list is empty and "No items available" is shown, whatever the photos and query. |
| `Screens.SearchIgnoresQueryCase` | app/src/main/java/com/example/photos_homework/MainActivity.kt:152 | Queries that differ only in letter case show the same list. |
| `Screens.AllPhotosViewIgnoresFavorites` | app/src/main/java/com/example/photos_homework/MainActivity.kt:153 | With the favorites view off, the shown list does not depend on the favorites. |
| `Screens.ToggleShowsOrHidesInFavoritesView` | app/src/main/java/com/example/photos_homework/MainActivity.kt:211-212 | In the favorites view, toggling the star of a photo whose title matches the query flips whether that photo is shown. |
| `Screens.ThumbnailSource` | app/src/main/java/com/example/photos_homework/MainActivity.kt:229 | The list item's thumbnail source never contains `via.placeholder.com`. It is the stored thumbnail URL exactly when that URL does not contain the old host. |
| `Screens.DetailImageSource` | app/src/main/java/com/example/photos_homework/MainActivity.kt:258 | The detail screen's image source never contains `via.placeholder.com`. It is the stored URL exactly when that URL does not contain the old host. |
| `Screens.RenderedSourcesAvoidOldHost` | app/src/main/java/com/example/photos_homework/MainActivity.kt:229 | The thumbnail and detail image sources never contain `via.placeholder.com`, whatever URL the photo carries. |
| `Screens.RenderingFetchedPhotosLoadsStoredUrls` | app/src/main/java/com/example/photos_homework/MainActivity.kt:258 | For fetched photos, the rewrite applied again at rendering changes nothing. The list item and the detail screen load the stored URLs. |

## Left out

- Network retrieval (`URL`, `HttpURLConnection`, reading the stream; MainActivity.kt:70-74) is I/O. The decoded records are a parameter of `FetchPhotos`.
- JSON decoding (`JSONArray`, `getJSONObject`, `getInt`, `getString`) belongs to a foreign library. Records arrive already decoded. A missing or mistyped field is not modelled. Only a missing array element is modelled, as `MissingRecord`.
- What happens to the exception after it leaves `fetchPhotos` is coroutine failure handling and is not modelled. The model records only that the photo list is not assigned.
- `viewModelScope.launch(Dispatchers.IO)` and the `LaunchedEffect` launch (MainActivity.kt:90-94, 155-159) are concurrency and framework scheduling. Each transition is one atomic state replacement.
- `StateFlow` observation and `collectAsState` are not modelled: reads and writes are plain reads and replacements of the state value, with no observers.
- Compose layout, navigation routes and route-argument parsing, toasts, dialogs, button colours and Coil image loading (MainActivity.kt:106-303) are left out. Only the filtered list, the empty-list message and the image URLs handed to the loader are modelled.
- Text.Contains: ignoring case folds only the ASCII letters A-Z and a-z. Kotlin's `Char.equals(ignoreCase = true)` also maps the rest of Unicode through upper and lower case, and that mapping is not modelled.
- Text.ReplaceAll requires a non-empty old value. Kotlin's `replace` with an empty old value inserts the replacement between every two characters and at both ends (`"abc".replace("", "-")` gives `"-a-b-c-"`). The app only replaces the non-empty host name.
- Text.IndexOf requires a start index within the string. For a start index past the end, Kotlin returns -1, except that an exact search for the empty query returns the string's length. The app never searches from past the end.
- Photos.Photo: Kotlin's `Int` is 32 bits wide, and ids and album ids are modelled as unbounded `int`. The app only copies and compares them and never computes with them, so no wrap-around can occur.

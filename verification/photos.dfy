/**
  The `Photo` record and the construction of the photo list from the
  fetched payload. The payload is taken as already decoded: one `Record`
  per JSON object, in array order.
 */
module Photos {
  import opened Wrappers
  import opened Text
  import opened Urls

  /** Kotlin's `data class Photo`; ids are compared, never computed on, so `int` stands for Kotlin's `Int`. */
  datatype Photo = Photo(id: int, albumId: int, title: string, url: string, thumbnailUrl: string)

  /** One decoded object of the fetched JSON array, before any rewriting. */
  datatype Record = Record(id: int, albumId: int, title: string, url: string, thumbnailUrl: string)

  /** Only the first 20 records of the payload become photos. */
  const PhotoLimit: nat := 20

  /** `getJSONObject(i)` for an index past the end of the array: the first missing index. */
  datatype FetchError = MissingRecord(index: nat)

  /** One record as a photo: the fields copied, both URLs rewritten to the new image host. */
  function ToPhoto(rec: Record): (p: Photo)
    ensures p.id == rec.id && p.albumId == rec.albumId && p.title == rec.title
    ensures !Contains(p.url, OldHost, false) && !Contains(p.thumbnailUrl, OldHost, false)
    ensures p.url == rec.url <==> !Contains(rec.url, OldHost, false)
    ensures p.thumbnailUrl == rec.thumbnailUrl <==> !Contains(rec.thumbnailUrl, OldHost, false)
  {
    Photo(rec.id, rec.albumId, rec.title, RewriteHost(rec.url), RewriteHost(rec.thumbnailUrl))
  }

  /**
    `(0 until 20).map { i -> ... }` over the decoded records: exactly 20
    photos, the i-th built from the i-th record; fewer than 20 records make
    `getJSONObject` fail at the first missing index.
   */
  function BuildPhotoList(records: seq<Record>): (r: Result<seq<Photo>, FetchError>)
    ensures r.Failure? <==> |records| < PhotoLimit
    ensures r.Failure? ==> r.error == MissingRecord(|records|)
    ensures r.Success? ==> |r.value| == PhotoLimit
    ensures r.Success? ==> forall i :: 0 <= i < PhotoLimit ==>
              && r.value[i].id == records[i].id
              && r.value[i].albumId == records[i].albumId
              && r.value[i].title == records[i].title
              && r.value[i].url == RewriteHost(records[i].url)
              && r.value[i].thumbnailUrl == RewriteHost(records[i].thumbnailUrl)
    ensures r.Success? ==> forall p :: p in r.value ==>
              !Contains(p.url, OldHost, false) && !Contains(p.thumbnailUrl, OldHost, false)
  {
    if |records| < PhotoLimit then Failure(MissingRecord(|records|))
    else Success(seq(PhotoLimit, i requires 0 <= i < PhotoLimit => ToPhoto(records[i])))
  }
}

/** The album list: a click on "All Photos" or on an album fetches the id
    list, then every photo, and hands the object URLs to the application.
    The id list is read without checking the HTTP status, and so are the
    photo downloads; only a request that fails outright stops the click. */
module AlbumList {
  import opened Wrappers
  import opened JsNumber
  import opened Entities
  import opened IdList
  import opened Batch
  import opened IdListExamples

  const AllPhotosLabel: string := "All Photos"

  /** What was clicked. */
  datatype Target = AllPhotos | OneAlbum(album: Album)

  /** The label handed to the application along with the photos. */
  function Label(t: Target): string {
    match t
    case AllPhotos => AllPhotosLabel
    case OneAlbum(a) => a.name
  }

  function ListRequest(t: Target): Request {
    match t
    case AllPhotos => GetWithCookie("/photos")
    case OneAlbum(a) => AlbumPhotosRequest(a.name)
  }

  /** Only the album branch drops blank tokens. */
  function Ids(t: Target, text: string): seq<Num> {
    Decode(text, t.OneAlbum?)
  }

  /** The `onAlbumClick(label, urls)` call. */
  datatype Call = Call(title: string, urls: seq<string>)

  datatype Outcome = Outcome(sent: seq<Request>, call: Option<Call>)

  /** `handleAlbumClick`. `listReply` is the text of the id-list response, or
      None when the request failed; `photo` gives the object URL made from a
      photo download, or None when that download failed. */
  function HandleAlbumClick(t: Target, listReply: Option<string>, photo: Num -> Option<string>): (o: Outcome)
    ensures |o.sent| >= 1 && o.sent[0] == ListRequest(t)
    ensures listReply.None? ==> o == Outcome([ListRequest(t)], None)
    ensures listReply.Some? ==>
      var ids := Ids(t, listReply.value);
      && o.sent[1..] == PhotoRequests(ids)
      && (o.call.Some? <==> forall i :: 0 <= i < |ids| ==> photo(ids[i]).Some?)
      && (o.call.Some? ==>
            && o.call.value.title == Label(t)
            && |o.call.value.urls| == |ids|
            && forall i :: 0 <= i < |ids| ==> o.call.value.urls[i] == photo(ids[i]).value)
  {
    match listReply
    case None => Outcome([ListRequest(t)], None)
    case Some(text) => ClickIds(t, Ids(t, text), photo)
  }

  /** The click once the id list is decoded: the list request, one download
      per id, and the call iff every download succeeded. */
  function ClickIds(t: Target, ids: seq<Num>, photo: Num -> Option<string>): (o: Outcome)
    ensures |o.sent| >= 1 && o.sent[0] == ListRequest(t)
    ensures o.sent[1..] == PhotoRequests(ids)
    ensures o.call.Some? <==> forall i :: 0 <= i < |ids| ==> photo(ids[i]).Some?
    ensures o.call.Some? ==>
      && o.call.value.title == Label(t)
      && |o.call.value.urls| == |ids|
      && forall i :: 0 <= i < |ids| ==> o.call.value.urls[i] == photo(ids[i]).value
  {
    var call := match MapAll(ids, photo)
      case None => None
      case Some(urls) => Some(Call(Label(t), urls));
    Outcome([ListRequest(t)] + PhotoRequests(ids), call)
  }

  /** An empty album (`List()`) opens with no photos, but "All Photos" over
      an empty library asks for `/photos/NaN` and opens only if that
      download succeeds. */
  lemma {:induction false} EmptyListBranches(text: string, album: Album, photo: Num -> Option<string>)
    requires text == "List()"
    ensures HandleAlbumClick(OneAlbum(album), Some(text), photo)
      == Outcome([AlbumPhotosRequest(album.name)], Some(Call(album.name, [])))
    ensures HandleAlbumClick(AllPhotos, Some(text), photo).sent
      == [GetWithCookie("/photos"), PhotoRequest(NaN)]
    ensures HandleAlbumClick(AllPhotos, Some(text), photo).call.Some? <==> photo(NaN).Some?
  {
    DecodeEmptyList();
    EmptyAlbumOpens(text, album, photo);
    BlankLibraryAsksNaN(text, photo);
  }

  /** An album whose list decodes to nothing opens at once with no photos. */
  lemma {:induction false} EmptyAlbumOpens(text: string, album: Album, photo: Num -> Option<string>)
    requires Decode(text, true) == []
    ensures HandleAlbumClick(OneAlbum(album), Some(text), photo)
      == Outcome([AlbumPhotosRequest(album.name)], Some(Call(album.name, [])))
  {
    assert PhotoRequests([]) == [];
  }

  /** A library list that decodes to one NaN asks for `/photos/NaN` alone. */
  lemma {:induction false} BlankLibraryAsksNaN(text: string, photo: Num -> Option<string>)
    requires Decode(text, false) == [NaN]
    ensures HandleAlbumClick(AllPhotos, Some(text), photo).sent
      == [GetWithCookie("/photos"), PhotoRequest(NaN)]
    ensures HandleAlbumClick(AllPhotos, Some(text), photo).call.Some? <==> photo(NaN).Some?
  {
    OneIdClick(AllPhotos, photo, NaN);
  }

  /** A list of one id sends the list request and that download, and opens
      iff the download succeeds. */
  lemma {:induction false} OneIdClick(t: Target, photo: Num -> Option<string>, id: Num)
    ensures ClickIds(t, [id], photo).sent == [ListRequest(t), PhotoRequest(id)]
    ensures ClickIds(t, [id], photo).call.Some? <==> photo(id).Some?
  {
    var o := ClickIds(t, [id], photo);
    assert o.sent == [o.sent[0]] + o.sent[1..];
  }
}

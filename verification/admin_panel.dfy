/** The admin panel: users, albums, the photo library with its upload area,
    and the selector that links library photos to an album. Every handler
    is a function from the panel state and the replies of the server to the
    next state and the requests sent. The panel's users, albums and
    name-keyed photo lists belong to the application and are written
    through its setters; here they are fields of the panel state. */
module AdminPanel {
  import opened Wrappers
  import opened JsString
  import opened JsNumber
  import opened Seqs
  import opened Entities
  import opened IdList
  import opened Batch
  import opened IdListExamples

  datatype Panel = Panel(
    users: seq<User>,
    albums: seq<Album>,
    photos: map<string, seq<string>>,
    newUser: string,
    newUserIsAdmin: bool,
    newAlbum: string,
    selectedAlbumId: Option<int>,
    showPhotoSelector: bool,
    availablePhotos: seq<Photo>,
    selectedPhotoIds: seq<Num>,
    isLoading: bool)

  /** The state after a handler and the requests it sent, in order. */
  datatype Step = Step(panel: Panel, sent: seq<Request>)

  // ---------------------------------------------------------------------
  // The photo library

  /** `fetchAvailablePhotos`. `listReply` is the text of `/photos` when the
      response was ok, None otherwise; `photo` gives the object URL of a
      downloaded image, or None when the download failed. The id list is
      decoded without dropping blank tokens. */
  function FetchAvailablePhotos(p: Panel, listReply: Option<string>, photo: Num -> Option<string>): (s: Step)
    ensures s.panel.(availablePhotos := p.availablePhotos) == p
    ensures |s.sent| >= 1 && s.sent[0] == GetWithCookie("/photos")
    ensures listReply.None? ==> s == Step(p, [GetWithCookie("/photos")])
    ensures listReply.Some? ==>
      var ids := Decode(listReply.value, false);
      && s.sent[1..] == PhotoRequests(ids)
      && ((forall i :: 0 <= i < |ids| ==> photo(ids[i]).Some?) ==>
            && |s.panel.availablePhotos| == |ids|
            && forall i :: 0 <= i < |ids| ==>
                 s.panel.availablePhotos[i] == Photo(ids[i], photo(ids[i]).value))
      && (!(forall i :: 0 <= i < |ids| ==> photo(ids[i]).Some?) ==>
            s.panel.availablePhotos == p.availablePhotos)
  {
    var list := GetWithCookie("/photos");
    match listReply
    case None => Step(p, [list])
    case Some(text) =>
      var ids := Decode(text, false);
      var found := match MapAll(ids, photo)
        case None => p.availablePhotos
        case Some(urls) => seq(|ids|, i requires 0 <= i < |ids| => Photo(ids[i], urls[i]));
      Step(p.(availablePhotos := found), [list] + PhotoRequests(ids))
  }

  /** An empty library still yields one entry: the id NaN, downloaded from
      `/photos/NaN`. */
  lemma {:induction false} EmptyLibraryOffersNaN(p: Panel, text: string, photo: Num -> Option<string>)
    requires text == "" && photo(NaN).Some?
    ensures FetchAvailablePhotos(p, Some(text), photo).panel.availablePhotos
      == [Photo(NaN, photo(NaN).value)]
  {
    DecodeEmpty();
    LibraryOfOne(p, text, photo, NaN);
  }

  /** A list naming one id whose download succeeds offers exactly that photo. */
  lemma {:induction false} LibraryOfOne(p: Panel, text: string, photo: Num -> Option<string>, id: Num)
    requires Decode(text, false) == [id] && photo(id).Some?
    ensures FetchAvailablePhotos(p, Some(text), photo).panel.availablePhotos
      == [Photo(id, photo(id).value)]
  {
  }

  // ---------------------------------------------------------------------
  // Selecting photos

  /** `a !== b` on numbers: NaN differs from every number, itself included. */
  predicate StrictNotEqual(a: Num, b: Num) {
    !(a.Int? && b.Int? && a.value == b.value)
  }

  /** `handlePhotoSelect` as written: `includes` finds NaN (it compares with
      SameValueZero, the equality of `Num` here), but the `!==` filter then
      keeps every NaN. */
  function ToggleAsWritten(sel: seq<Num>, x: Num): (r: seq<Num>)
    ensures x !in sel ==> r == sel + [x]
    ensures x.Int? ==> r == Toggle(sel, x)
    ensures x.NaN? && x in sel ==> r == sel
  {
    if x !in sel then sel + [x]
    else if x.Int? then
      FilterCongruent(sel, y => StrictNotEqual(y, x), y => y != x);
      Filter(sel, y => StrictNotEqual(y, x))
    else
      FilterAllKept(sel, y => StrictNotEqual(y, x));
      Filter(sel, y => StrictNotEqual(y, x))
  }

  /** The selection toggle as intended: a present id leaves, with every
      occurrence of it; an absent id joins at the end. */
  function Toggle(sel: seq<Num>, x: Num): (r: seq<Num>)
    ensures x !in sel ==> r == sel + [x]
    ensures x in sel ==> x !in r
    ensures x in sel ==> forall i :: 0 <= i < |sel| && sel[i] != x ==> sel[i] in r
    ensures forall i :: 0 <= i < |r| ==> r[i] in sel || r[i] == x
  {
    if x in sel then Filter(sel, y => y != x) else sel + [x]
  }

  /** On integer ids the code as written is the intended toggle. */
  lemma {:induction false} ToggleAsWrittenOnIntegers(sel: seq<Num>, x: Num)
    requires x.Int?
    ensures ToggleAsWritten(sel, x) == Toggle(sel, x)
  {
    if x in sel {
      FilterCongruent(sel, y => StrictNotEqual(y, x), y => y != x);
    }
  }

  /** As written, toggling NaN when it is selected changes nothing, so a NaN
      photo once selected cannot be deselected: from an empty selection two
      clicks leave `[NaN]`, where the intended toggle gives `[]` back. */
  lemma {:induction false} NaNCannotBeDeselected(sel: seq<Num>)
    requires NaN in sel
    ensures ToggleAsWritten(sel, NaN) == sel
    ensures ToggleAsWritten(ToggleAsWritten([], NaN), NaN) == [NaN]
    ensures Toggle(Toggle([], NaN), NaN) == []
  {
    FilterAllKept(sel, y => StrictNotEqual(y, NaN));
    FilterAllKept([NaN], y => StrictNotEqual(y, NaN));
    assert [] + [NaN] == [NaN];
  }

  /** Toggling an absent id twice restores the selection exactly. */
  lemma {:induction false} ToggleTwiceAbsent(sel: seq<Num>, x: Num)
    requires x !in sel
    ensures Toggle(Toggle(sel, x), x) == sel
  {
    var keep := y => y != x;
    FilterAppend(sel, [x], keep);
    FilterAllKept(sel, keep);
    assert Filter([x], keep) == [];
  }

  /** Toggling a present id twice keeps the same set of ids: its occurrences
      leave and one comes back, at the end. */
  lemma {:induction false} ToggleTwicePresent(sel: seq<Num>, x: Num)
    requires x in sel
    ensures Toggle(Toggle(sel, x), x) == Filter(sel, y => y != x) + [x]
    ensures forall y :: y in Toggle(Toggle(sel, x), x) <==> y in sel
  {
  }

  /** A selection without repeats keeps none after a toggle. */
  lemma {:induction false} ToggleKeepsNoDuplicates(sel: seq<Num>, x: Num)
    requires NoDuplicates(sel)
    ensures NoDuplicates(Toggle(sel, x))
  {
    if x in sel {
      FilterNoDuplicates(sel, y => y != x);
    } else {
      var r := sel + [x];
      forall i, j | 0 <= i < j < |r| ensures r[i] != r[j] {
        if j == |sel| {
          assert r[i] == sel[i];
        }
      }
    }
  }

  /** `handlePhotoSelect`, with the intended toggle. */
  function SelectPhoto(p: Panel, x: Num): (q: Panel)
    ensures q.(selectedPhotoIds := p.selectedPhotoIds) == p
    ensures x in q.selectedPhotoIds <==> x !in p.selectedPhotoIds
  {
    p.(selectedPhotoIds := Toggle(p.selectedPhotoIds, x))
  }

  /** `handlePhotoSelect` as written: the intended handler on integer ids,
      while a click on NaN can only add it. */
  function SelectPhotoAsWritten(p: Panel, x: Num): (q: Panel)
    ensures q.(selectedPhotoIds := p.selectedPhotoIds) == p
    ensures x.Int? ==> q == SelectPhoto(p, x)
    ensures x.NaN? ==> NaN in q.selectedPhotoIds
    ensures x.NaN? && NaN in p.selectedPhotoIds ==> q == p
  {
    p.(selectedPhotoIds := ToggleAsWritten(p.selectedPhotoIds, x))
  }

  // ---------------------------------------------------------------------
  // Linking photos to an album

  /** `handleAddPhotos(albumId)`: open the selector for that album and reload
      the library. The previous selection is not cleared. */
  function OpenSelector(p: Panel, albumId: int, listReply: Option<string>, photo: Num -> Option<string>): (s: Step)
    ensures s.panel.showPhotoSelector && s.panel.selectedAlbumId == Some(albumId)
    ensures s.panel.(showPhotoSelector := p.showPhotoSelector, selectedAlbumId := p.selectedAlbumId,
                     availablePhotos := p.availablePhotos) == p
    ensures var r := FetchAvailablePhotos(p, listReply, photo);
      s.sent == r.sent && s.panel.availablePhotos == r.panel.availablePhotos
  {
    FetchAvailablePhotos(p.(showPhotoSelector := true, selectedAlbumId := Some(albumId)), listReply, photo)
  }

  /** The Cancel button only hides the selector. */
  function CancelSelector(p: Panel): (q: Panel)
    ensures !q.showPhotoSelector
    ensures q.(showPhotoSelector := p.showPhotoSelector) == p
  {
    p.(showPhotoSelector := false)
  }

  /** `if (!selectedAlbumId || selectedPhotoIds.length === 0) return;` —
      album id 0 counts as no album. */
  predicate CanLink(p: Panel) {
    p.selectedAlbumId.Some? && p.selectedAlbumId.value != 0 && |p.selectedPhotoIds| > 0
  }

  /** `photoIds=${selectedPhotoIds.join(',')}` */
  function LinkBody(ids: seq<Num>): string {
    "photoIds=" + JoinIds(ids)
  }

  function LinkRequest(albumId: int, ids: seq<Num>): Request {
    Request(Post, "/albums/" + NumToString(Int(albumId)) + "/photos/link",
            CookieBearer, Some(FormType), FormText(LinkBody(ids)))
  }

  /** The body of the link request carries the selection in a form the id
      decoder reads back exactly, NaN included. */
  lemma {:induction false} LinkBodyRoundTrip(albumId: int, ids: seq<Num>)
    requires |ids| > 0
    ensures var text := LinkRequest(albumId, ids).body.text;
      StartsWith(text, "photoIds=")
      && Decode(text[|"photoIds="|..], false) == ids
  {
    var text := LinkRequest(albumId, ids).body.text;
    assert text[|"photoIds="|..] == JoinIds(ids);
    DecodeJoinIds(ids, false);
  }

  /** `albums.find((a) => a.id === id)`: the first album with that id. */
  function FindAlbum(albums: seq<Album>, id: int): (r: Option<Album>)
    ensures r.None? ==> forall i :: 0 <= i < |albums| ==> albums[i].id != id
    ensures r.Some? ==> exists k :: 0 <= k < |albums| && albums[k] == r.value && r.value.id == id
                          && forall j :: 0 <= j < k ==> albums[j].id != id
  {
    if |albums| == 0 then None
    else if albums[0].id == id then Some(albums[0])
    else
      var r := FindAlbum(albums[1..], id);
      if r.Some? then
        ghost var k :| 0 <= k < |albums[1..]| && albums[1..][k] == r.value && r.value.id == id
                       && forall j :: 0 <= j < k ==> albums[1..][j].id != id;
        assert albums[k + 1] == r.value;
        r
      else r
  }

  /** `photoIds.split(',').filter((id) => id.trim() !== '')`: the refetched
      album list is kept as raw tokens, neither stripped of `List(` and `)`
      nor trimmed nor parsed. */
  function Listing(text: string): (r: seq<string>)
    ensures forall i :: 0 <= i < |r| ==> NonBlank(r[i]) && ',' !in r[i]
  {
    SplitCharPieces(text, ',');
    Filter(SplitOn(text, ","), NonBlank)
  }

  /** Listing a comma-join of non-blank, comma-free entries gives them back. */
  lemma {:induction false} ListingJoin(entries: seq<string>)
    requires |entries| > 0
    requires forall i :: 0 <= i < |entries| ==> NonBlank(entries[i]) && ',' !in entries[i]
    ensures Listing(Join(entries, ",")) == entries
  {
    SplitJoinChar(entries, ',');
    FilterAllKept(entries, NonBlank);
  }

  /** The state after a fully successful link: selection cleared, selector
      closed, no target album, not loading. */
  function Cleared(p: Panel): Panel {
    p.(selectedPhotoIds := [], showPhotoSelector := false, selectedAlbumId := None, isLoading := false)
  }

  /** `handleLinkPhotos`. `linked` says whether the link request succeeded;
      `refetch` is the text of the album's photo list when that request
      succeeded. Any failure ends with only `isLoading` reset. */
  function LinkPhotos(p: Panel, linked: bool, refetch: Option<string>): (s: Step)
    ensures !CanLink(p) ==> s == Step(p, [])
    ensures CanLink(p) ==>
      && |s.sent| >= 1
      && s.sent[0] == LinkRequest(p.selectedAlbumId.value, p.selectedPhotoIds)
      && !s.panel.isLoading
    ensures CanLink(p) && !linked ==> s.panel == p.(isLoading := false) && |s.sent| == 1
    ensures CanLink(p) && linked ==>
      match FindAlbum(p.albums, p.selectedAlbumId.value)
      case None => s.panel == Cleared(p) && |s.sent| == 1
      case Some(a) =>
        && s.sent[1..] == [AlbumPhotosRequest(a.name)]
        && (refetch.None? ==> s.panel == p.(isLoading := false))
        && (refetch.Some? ==> s.panel == Cleared(p).(photos := p.photos[a.name := Listing(refetch.value)]))
  {
    if !CanLink(p) then Step(p, [])
    else
      var link := LinkRequest(p.selectedAlbumId.value, p.selectedPhotoIds);
      var failed := p.(isLoading := false);
      if !linked then Step(failed, [link])
      else match FindAlbum(p.albums, p.selectedAlbumId.value)
        case None => Step(Cleared(p), [link])
        case Some(a) =>
          var sent := [link, AlbumPhotosRequest(a.name)];
          match refetch
          case None => Step(failed, sent)
          case Some(text) => Step(Cleared(p).(photos := p.photos[a.name := Listing(text)]), sent)
  }

  /** After a link only the target album's entry of the photo map can
      change; every other key keeps its presence and its list. */
  lemma {:induction false} LinkOnlyTouchesAlbumKey(p: Panel, linked: bool, refetch: Option<string>, k: string)
    requires CanLink(p) && linked
    requires FindAlbum(p.albums, p.selectedAlbumId.value).None? || FindAlbum(p.albums, p.selectedAlbumId.value).value.name != k
    ensures var q := LinkPhotos(p, linked, refetch).panel;
      (k in q.photos <==> k in p.photos) && (k in p.photos ==> q.photos[k] == p.photos[k])
  {
  }

  /** The Link button is disabled while loading or with nothing selected. */
  predicate LinkButtonEnabled(p: Panel) {
    !p.isLoading && |p.selectedPhotoIds| > 0
  }

  /** A press on the Link button. */
  function PressLink(p: Panel, linked: bool, refetch: Option<string>): (s: Step)
    ensures !LinkButtonEnabled(p) ==> s == Step(p, [])
    ensures LinkButtonEnabled(p) ==> s == LinkPhotos(p, linked, refetch)
  {
    if LinkButtonEnabled(p) then LinkPhotos(p, linked, refetch) else Step(p, [])
  }

  /** Nothing in the handler itself refuses a second link while one is in
      flight; only the disabled button does. */
  lemma {:induction false} SecondLinkBlockedOnlyByButton(p: Panel, linked: bool, refetch: Option<string>)
    requires CanLink(p) && p.isLoading
    ensures LinkPhotos(p, linked, refetch).sent[0] == LinkRequest(p.selectedAlbumId.value, p.selectedPhotoIds)
    ensures PressLink(p, linked, refetch).sent == []
  {
  }

  /** Cancelling keeps the selection, so reopening the selector for another
      album and linking sends the old selection to the new album. */
  lemma {:induction false} SelectionSurvivesCancel(p: Panel, albumId: int, listReply: Option<string>,
                                                   photo: Num -> Option<string>, linked: bool, refetch: Option<string>)
    requires albumId != 0 && |p.selectedPhotoIds| > 0
    ensures var q := OpenSelector(CancelSelector(p), albumId, listReply, photo).panel;
      LinkPhotos(q, linked, refetch).sent[0] == LinkRequest(albumId, p.selectedPhotoIds)
  {
  }

  // ---------------------------------------------------------------------
  // Albums

  predicate AlbumNameTaken(albums: seq<Album>, name: string) {
    exists i :: 0 <= i < |albums| && albums[i].name == name
  }

  function CreateAlbumRequest(name: string): Request {
    Request(Post, "/albums/create", NoAuthorization, Some(FormType), FormText("name=" + name))
  }

  /** `handleAddAlbum`. `reply` is the album the server returned, or None
      when the request or its JSON failed. The HTTP status is not checked. */
  function AddAlbum(p: Panel, reply: Option<Album>): (s: Step)
    ensures p.newAlbum == "" || AlbumNameTaken(p.albums, p.newAlbum) ==> s == Step(p, [])
    ensures p.newAlbum != "" && !AlbumNameTaken(p.albums, p.newAlbum) ==>
      && s.sent == [CreateAlbumRequest(p.newAlbum)]
      && (reply.None? ==> s.panel == p)
      && (reply.Some? ==>
            && s.panel.albums == p.albums + [reply.value]
            && reply.value.name in s.panel.photos && s.panel.photos[reply.value.name] == []
            && (forall k :: k != reply.value.name ==>
                  (k in s.panel.photos <==> k in p.photos)
                  && (k in p.photos ==> s.panel.photos[k] == p.photos[k]))
            && s.panel.newAlbum == ""
            && s.panel.(albums := p.albums, photos := p.photos, newAlbum := p.newAlbum) == p)
  {
    if p.newAlbum == "" || AlbumNameTaken(p.albums, p.newAlbum) then Step(p, [])
    else
      var req := CreateAlbumRequest(p.newAlbum);
      match reply
      case None => Step(p, [req])
      case Some(a) =>
        Step(p.(albums := p.albums + [a], photos := p.photos[a.name := []], newAlbum := ""), [req])
  }

  function DeleteAlbumRequest(id: int): Request {
    Request(Post, "/albums/delete/" + NumToString(Int(id)), NoAuthorization, None, NoBody)
  }

  /** `handleRemoveAlbum`. `delivered` says whether a response arrived; its
      status is not checked. */
  function RemoveAlbum(p: Panel, album: Album, delivered: bool): (s: Step)
    ensures s.sent == [DeleteAlbumRequest(album.id)]
    ensures !delivered ==> s.panel == p
    ensures delivered ==>
      && (forall i :: 0 <= i < |s.panel.albums| ==> s.panel.albums[i].id != album.id)
      && (forall i :: 0 <= i < |p.albums| && p.albums[i].id != album.id ==> p.albums[i] in s.panel.albums)
      && (forall i :: 0 <= i < |s.panel.albums| ==> s.panel.albums[i] in p.albums)
      && album.name !in s.panel.photos
      && (forall k :: k != album.name ==>
            (k in s.panel.photos <==> k in p.photos)
            && (k in p.photos ==> s.panel.photos[k] == p.photos[k]))
      && s.panel.(albums := p.albums, photos := p.photos) == p
  {
    var req := DeleteAlbumRequest(album.id);
    if !delivered then Step(p, [req])
    else Step(p.(albums := Filter(p.albums, (a: Album) => a.id != album.id), photos := p.photos - {album.name}), [req])
  }

  /** Removal keeps the remaining albums in their order: removing from a
      concatenation removes from each part. */
  lemma {:induction false} RemoveAlbumKeepsOrder(p: Panel, front: seq<Album>, back: seq<Album>, album: Album)
    requires p.albums == front + back
    ensures RemoveAlbum(p, album, true).panel.albums
      == RemoveAlbum(p.(albums := front), album, true).panel.albums
       + RemoveAlbum(p.(albums := back), album, true).panel.albums
  {
    FilterAppend(front, back, (a: Album) => a.id != album.id);
  }

  /** Removal from a one-album list keeps that album iff its id differs;
      with `RemoveAlbumKeepsOrder` this fixes the surviving albums, their
      order and their count. */
  lemma {:induction false} RemoveAlbumOne(p: Panel, a: Album, album: Album)
    requires p.albums == [a]
    ensures RemoveAlbum(p, album, true).panel.albums == if a.id == album.id then [] else [a]
  {
    var keep := (x: Album) => x.id != album.id;
    if keep(a) {
      FilterAllKept([a], keep);
    }
  }

  // ---------------------------------------------------------------------
  // Users

  predicate UsernameTaken(users: seq<User>, name: string) {
    exists i :: 0 <= i < |users| && users[i].username == name
  }

  /** The create-user record: id 0 and the initial password `password`. */
  function CreateUserRequest(name: string, isAdmin: bool): Request {
    Request(Post, "/users/create", CookieBearer, Some(JsonType), UserJson(User(0, name, "password", isAdmin)))
  }

  /** `handleAddUser`. `reply` is the created user when the response was ok
      and its JSON parsed, None otherwise. */
  function AddUser(p: Panel, reply: Option<User>): (s: Step)
    ensures p.newUser == "" || UsernameTaken(p.users, p.newUser) ==> s == Step(p, [])
    ensures p.newUser != "" && !UsernameTaken(p.users, p.newUser) ==>
      && s.sent == [CreateUserRequest(p.newUser, p.newUserIsAdmin)]
      && (reply.None? ==> s.panel == p)
      && (reply.Some? ==> s.panel == p.(users := p.users + [reply.value], newUser := "", newUserIsAdmin := false))
  {
    if p.newUser == "" || UsernameTaken(p.users, p.newUser) then Step(p, [])
    else
      var req := CreateUserRequest(p.newUser, p.newUserIsAdmin);
      match reply
      case None => Step(p, [req])
      case Some(u) => Step(p.(users := p.users + [u], newUser := "", newUserIsAdmin := false), [req])
  }

  function DeleteUserRequest(id: int): Request {
    Request(Delete, "/users/user/" + NumToString(Int(id)), CookieBearer, Some(JsonType), NoBody)
  }

  /** `handleDeleteUser`. `ok` says whether the response was ok. */
  function DeleteUser(p: Panel, userId: int, ok: bool): (s: Step)
    ensures s.sent == [DeleteUserRequest(userId)]
    ensures !ok ==> s.panel == p
    ensures ok ==>
      && (forall i :: 0 <= i < |s.panel.users| ==> s.panel.users[i].id != userId && s.panel.users[i] in p.users)
      && (forall i :: 0 <= i < |p.users| && p.users[i].id != userId ==> p.users[i] in s.panel.users)
      && s.panel.(users := p.users) == p
  {
    var req := DeleteUserRequest(userId);
    if ok then Step(p.(users := Filter(p.users, (u: User) => u.id != userId)), [req]) else Step(p, [req])
  }

  /** Deletion keeps the remaining users in their order: deleting from a
      concatenation deletes from each part. */
  lemma {:induction false} DeleteUserKeepsOrder(p: Panel, front: seq<User>, back: seq<User>, userId: int)
    requires p.users == front + back
    ensures DeleteUser(p, userId, true).panel.users
      == DeleteUser(p.(users := front), userId, true).panel.users
       + DeleteUser(p.(users := back), userId, true).panel.users
  {
    FilterAppend(front, back, (u: User) => u.id != userId);
  }

  /** Deletion from a one-user list keeps that user iff its id differs;
      with `DeleteUserKeepsOrder` this fixes the surviving users, their order
      and their count. */
  lemma {:induction false} DeleteUserOne(p: Panel, u: User, userId: int)
    requires p.users == [u]
    ensures DeleteUser(p, userId, true).panel.users == if u.id == userId then [] else [u]
  {
    var keep := (x: User) => x.id != userId;
    if keep(u) {
      FilterAllKept([u], keep);
    }
  }

  function ResetPasswordRequest(user: string): Request {
    Request(Post, "/users/password/" + user, CookieBearer, Some(JsonType), PasswordJson("password"))
  }

  /** `handleResetPassword(user)`: an admin may reset anyone's password to
      `password`, anyone else only their own. Nothing in the panel changes. */
  function ResetPassword(isAdmin: bool, currentUser: Option<string>, user: string): (sent: seq<Request>)
    ensures |sent| <= 1
    ensures |sent| == 1 <==> isAdmin || currentUser == Some(user)
    ensures |sent| == 1 ==> sent[0] == ResetPasswordRequest(user)
  {
    if isAdmin || currentUser == Some(user) then [ResetPasswordRequest(user)] else []
  }

  // ---------------------------------------------------------------------
  // Uploads

  /** Five mebibytes; a file of exactly this size is accepted. */
  const MaxFileSize: int := 5 * 1024 * 1024

  /** `file.type.startsWith('image/')` */
  predicate IsImage(f: FileInfo) {
    StartsWith(f.mimeType, "image/")
  }

  predicate WithinLimit(f: FileInfo) {
    f.size <= MaxFileSize
  }

  /** An upload ends with the panel, the requests sent, and whether the
      whole batch succeeded, which triggers a reload of the library. */
  datatype Upload = Upload(panel: Panel, sent: seq<Request>, succeeded: bool)

  /** The upload of one file, without a declared content type. */
  function UploadRequest(f: FileInfo): Request {
    Request(Post, "/photos/upload", CookieBearer, None, ImageForm(f))
  }

  function UploadRequests(files: seq<FileInfo>): (r: seq<Request>)
    ensures |r| == |files|
    ensures forall i :: 0 <= i < |files| ==> r[i] == UploadRequest(files[i])
  {
    seq(|files|, i requires 0 <= i < |files| => UploadRequest(files[i]))
  }

  /** The upload of one dropped file as written: the drop handler passes
      `getAuthHeaders()` unchanged, whose `Content-Type` is JSON. */
  function DropUploadRequestAsWritten(f: FileInfo): (r: Request)
    ensures r.body == ImageForm(f) && r.path == "/photos/upload"
  {
    Request(Post, "/photos/upload", CookieBearer, Some(JsonType), ImageForm(f))
  }

  /** The drop handler's requests declare JSON for a multipart body, unlike
      the corrected upload request, which leaves the type to `fetch`. */
  lemma {:induction false} DropUploadDeclaresJson(f: FileInfo)
    ensures !DeclaresFittingType(DropUploadRequestAsWritten(f))
    ensures DeclaresFittingType(UploadRequest(f))
  {
  }

  /** The drop handler: non-images are set aside (none at all: nothing
      happens); every image within the size limit is uploaded, but one
      oversize image fails the whole drop. `uploaded` says whether the
      upload of a file got an ok response. */
  function DropUpload(p: Panel, dropped: seq<FileInfo>, uploaded: FileInfo -> bool): (u: Upload)
    ensures (forall i :: 0 <= i < |dropped| ==> !IsImage(dropped[i])) ==> u == Upload(p, [], false)
    ensures (exists i :: 0 <= i < |dropped| && IsImage(dropped[i])) ==> u.panel == p.(isLoading := false)
    ensures forall i :: 0 <= i < |u.sent| ==>
      exists f :: f in dropped && IsImage(f) && WithinLimit(f) && u.sent[i] == UploadRequest(f)
    ensures forall i :: 0 <= i < |dropped| && IsImage(dropped[i]) && WithinLimit(dropped[i]) ==>
      UploadRequest(dropped[i]) in u.sent
    ensures u.succeeded <==>
      && (exists i :: 0 <= i < |dropped| && IsImage(dropped[i]))
      && (forall i :: 0 <= i < |dropped| && IsImage(dropped[i]) ==> WithinLimit(dropped[i]) && uploaded(dropped[i]))
  {
    var images := Filter(dropped, IsImage);
    if |images| == 0 then
      assert forall i :: 0 <= i < |dropped| ==> !IsImage(dropped[i]);
      Upload(p, [], false)
    else
      assert images[0] in dropped;
      var accepted := Filter(images, WithinLimit);
      var sent := UploadRequests(accepted);
      assert forall i :: 0 <= i < |sent| ==> accepted[i] in images && accepted[i] in dropped;
      var ok := forall i :: 0 <= i < |images| ==> WithinLimit(images[i]) && uploaded(images[i]);
      assert ok <==> forall i :: 0 <= i < |dropped| && IsImage(dropped[i]) ==> WithinLimit(dropped[i]) && uploaded(dropped[i]) by {
        if ok {
          forall i | 0 <= i < |dropped| && IsImage(dropped[i]) ensures WithinLimit(dropped[i]) && uploaded(dropped[i]) {
            assert dropped[i] in images;
          }
        }
      }
      Upload(p.(isLoading := false), sent, ok)
  }

  /** Every request of a drop carries its image in a fitting way. */
  lemma {:induction false} DropUploadFits(p: Panel, dropped: seq<FileInfo>, uploaded: FileInfo -> bool)
    ensures forall i :: 0 <= i < |DropUpload(p, dropped, uploaded).sent| ==>
      DeclaresFittingType(DropUpload(p, dropped, uploaded).sent[i])
  {
  }

  /** A drop of two batches of files sends the requests of the first batch,
      then those of the second: each accepted image once, in drop order. */
  lemma {:induction false} DropUploadAppend(p: Panel, a: seq<FileInfo>, b: seq<FileInfo>, uploaded: FileInfo -> bool)
    ensures DropUpload(p, a + b, uploaded).sent == DropUpload(p, a, uploaded).sent + DropUpload(p, b, uploaded).sent
  {
    var ia, ib := Filter(a, IsImage), Filter(b, IsImage);
    FilterAppend(a, b, IsImage);
    FilterAppend(ia, ib, WithinLimit);
    var ka, kb := Filter(ia, WithinLimit), Filter(ib, WithinLimit);
    assert DropUpload(p, a, uploaded).sent == UploadRequests(ka);
    assert DropUpload(p, b, uploaded).sent == UploadRequests(kb);
    UploadRequestsAppend(ka, kb);
  }

  lemma {:induction false} UploadRequestsAppend(a: seq<FileInfo>, b: seq<FileInfo>)
    ensures UploadRequests(a + b) == UploadRequests(a) + UploadRequests(b)
  {
    assert forall i :: 0 <= i < |a| + |b| ==>
      (UploadRequests(a) + UploadRequests(b))[i] == UploadRequest((a + b)[i]);
  }

  /** A drop of one file sends it iff it is an image within the limit. */
  lemma {:induction false} DropUploadOne(p: Panel, f: FileInfo, uploaded: FileInfo -> bool)
    ensures DropUpload(p, [f], uploaded).sent == if IsImage(f) && WithinLimit(f) then [UploadRequest(f)] else []
  {
    var images := Filter([f], IsImage);
    if IsImage(f) {
      FilterAllKept([f], IsImage);
      if WithinLimit(f) {
        FilterAllKept(images, WithinLimit);
      }
    }
  }

  /** The drop handler as written: every request declares JSON, which does
      not fit its multipart body. */
  function DropUploadAsWritten(p: Panel, dropped: seq<FileInfo>, uploaded: FileInfo -> bool): (u: Upload)
    ensures forall i :: 0 <= i < |u.sent| ==> !DeclaresFittingType(u.sent[i])
  {
    var images := Filter(dropped, IsImage);
    if |images| == 0 then Upload(p, [], false)
    else
      var accepted := Filter(images, WithinLimit);
      var sent := seq(|accepted|, i requires 0 <= i < |accepted| => DropUploadRequestAsWritten(accepted[i]));
      var ok := forall i :: 0 <= i < |images| ==> WithinLimit(images[i]) && uploaded(images[i]);
      Upload(p.(isLoading := false), sent, ok)
  }

  /** The drop handler as written and the corrected one send the same files
      and end alike; their requests differ only in the declared type. */
  lemma {:induction false} DropUploadDiffersOnlyInType(p: Panel, dropped: seq<FileInfo>, uploaded: FileInfo -> bool)
    ensures var u, c := DropUploadAsWritten(p, dropped, uploaded), DropUpload(p, dropped, uploaded);
      && u.panel == c.panel && u.succeeded == c.succeeded
      && |u.sent| == |c.sent|
      && forall i :: 0 <= i < |u.sent| ==> u.sent[i] == c.sent[i].(contentType := Some(JsonType))
  {
    var images := Filter(dropped, IsImage);
    if |images| > 0 {
      var accepted := Filter(images, WithinLimit);
      assert DropUpload(p, dropped, uploaded).sent == UploadRequests(accepted);
    }
  }

  /** The file picker: no type or size check; every chosen file is
      uploaded, and the batch succeeds iff every upload does. */
  function PickerUpload(p: Panel, files: seq<FileInfo>, uploaded: FileInfo -> bool): (u: Upload)
    ensures |files| == 0 ==> u == Upload(p, [], false)
    ensures |files| > 0 ==> u.panel == p.(isLoading := false) && u.sent == UploadRequests(files)
    ensures u.succeeded <==> |files| > 0 && forall i :: 0 <= i < |files| ==> uploaded(files[i])
  {
    if |files| == 0 then Upload(p, [], false)
    else Upload(p.(isLoading := false), UploadRequests(files),
                forall i :: 0 <= i < |files| ==> uploaded(files[i]))
  }

  /** The picker is the drop handler without its checks: on files that all
      pass them, both give the same requests, panel and outcome. */
  lemma {:induction false} PickerIsUncheckedDrop(p: Panel, files: seq<FileInfo>, uploaded: FileInfo -> bool)
    requires forall i :: 0 <= i < |files| ==> IsImage(files[i]) && WithinLimit(files[i])
    ensures PickerUpload(p, files, uploaded) == DropUpload(p, files, uploaded)
  {
    FilterAllKept(files, IsImage);
    FilterAllKept(files, WithinLimit);
  }
}

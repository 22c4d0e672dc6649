/** The records the client exchanges with the server, and the requests it
    sends. Paths are relative to the API base URL, which depends on the
    build environment and stays opaque here. */
module Entities {
  import opened Wrappers
  import opened JsNumber

  /** A user as listed by `/users/users`. */
  datatype User = User(id: int, username: string, passwordHash: string, isAdmin: bool)

  /** The role the application runs under: `'admin'` or `'user'`. */
  datatype Role = AdminRole | UserRole

  datatype Album = Album(id: int, name: string, ownerId: int)

  /** A photo offered in the selector: its decoded id (possibly NaN) and the
      object URL of its downloaded image. */
  datatype Photo = Photo(id: Num, url: string)

  /** A file handed over by a drop or the file picker. */
  datatype FileInfo = FileInfo(name: string, mimeType: string, size: int)

  datatype Method = Get | Post | Delete

  /** The `Authorization` header of a request: absent, `Bearer` with the
      token read from the cookie, or `Bearer` with a token in hand. */
  datatype Authorization = NoAuthorization | CookieBearer | ExplicitBearer(token: string)

  datatype Body =
    | NoBody
    | FormText(text: string)              // a urlencoded string body
    | UserJson(user: User)                // the create-user record
    | PasswordJson(password: string)      // { password }
    | LoginJson(username: string, password: string)
    | ImageForm(file: FileInfo)           // FormData with field `image`

  /** A request as the client issues it; `contentType` is the header the
      code declares, None when it leaves the choice to `fetch`. */
  datatype Request = Request(verb: Method, path: string, authorization: Authorization,
                             contentType: Option<string>, body: Body)

  const JsonType: string := "application/json"
  const FormType: string := "application/x-www-form-urlencoded"

  /** A declared content type agrees with the body: JSON bodies as JSON,
      urlencoded text as a form, and a `FormData` body with no declared type
      so that `fetch` can add the multipart boundary. */
  predicate DeclaresFittingType(r: Request) {
    match r.body
    case NoBody => true
    case FormText(_) => r.contentType == Some(FormType)
    case UserJson(_) => r.contentType == Some(JsonType)
    case PasswordJson(_) => r.contentType == Some(JsonType)
    case LoginJson(_, _) => r.contentType == Some(JsonType)
    case ImageForm(_) => r.contentType.None?
  }

  /** A GET carrying the headers of `getAuthHeaders()`. */
  function GetWithCookie(path: string): Request {
    Request(Get, path, CookieBearer, Some(JsonType), NoBody)
  }

  /** `/photos/${id}`: the id is printed as JavaScript prints it. */
  function PhotoRequest(id: Num): Request {
    GetWithCookie("/photos/" + NumToString(id))
  }

  /** `/albums/${name}/photos`: the name is not URL-encoded. */
  function AlbumPhotosRequest(name: string): Request {
    GetWithCookie("/albums/" + name + "/photos")
  }

  /** One `/photos/${id}` request per id, in id order. */
  function PhotoRequests(ids: seq<Num>): (r: seq<Request>)
    ensures |r| == |ids|
    ensures forall i :: 0 <= i < |ids| ==> r[i] == PhotoRequest(ids[i])
  {
    seq(|ids|, i requires 0 <= i < |ids| => PhotoRequest(ids[i]))
  }
}

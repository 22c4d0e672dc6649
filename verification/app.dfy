/** The application shell: session state, the shared users, albums and
    name-keyed photo lists, and the choice of the view to render. */
module App {
  import opened Wrappers
  import opened Entities
  import AdminPanel

  datatype AppState = AppState(
    isLoggedIn: bool,
    role: Option<Role>,
    username: Option<string>,
    selectedAlbum: Option<string>,
    showSettings: bool,
    users: seq<User>,
    albums: seq<Album>,
    photos: map<string, seq<string>>)

  /** The state before anything happens, with the placeholder users and
      albums the application starts from until the server's lists arrive. */
  function Initial(): (s: AppState)
    ensures !s.isLoggedIn && s.role.None? && s.username.None? && s.selectedAlbum.None? && !s.showSettings
    ensures |s.users| == 2 && forall i :: 0 <= i < |s.users| ==> !s.users[i].isAdmin
    ensures |s.albums| == 3 && s.photos == map[]
  {
    AppState(false, None, None, None, false,
             [User(1, "user1", "hash1", false), User(2, "user2", "hash2", false)],
             [Album(1, "Vacation", 1), Album(2, "Family", 1), Album(3, "Friends", 1)],
             map[])
  }

  /** `handleLogin(username, role)` */
  function Login(s: AppState, username: string, role: Role): (t: AppState)
    ensures t.isLoggedIn && t.role == Some(role) && t.username == Some(username)
    ensures t.(isLoggedIn := s.isLoggedIn, role := s.role, username := s.username) == s
  {
    s.(isLoggedIn := true, role := Some(role), username := Some(username))
  }

  /** `handleLogout`: the username, the users, the albums and the photo lists
      all survive a logout. */
  function Logout(s: AppState): (t: AppState)
    ensures !t.isLoggedIn && t.role.None? && t.selectedAlbum.None? && !t.showSettings
    ensures t.username == s.username && t.users == s.users && t.albums == s.albums && t.photos == s.photos
  {
    s.(isLoggedIn := false, role := None, selectedAlbum := None, showSettings := false)
  }

  /** `handleAlbumClick(album, albumPhotos)`: select the album and overwrite
      its photo list only. */
  function AlbumClick(s: AppState, album: string, albumPhotos: seq<string>): (t: AppState)
    ensures t.selectedAlbum == Some(album)
    ensures album in t.photos && t.photos[album] == albumPhotos
    ensures forall k :: k != album ==> (k in t.photos <==> k in s.photos) && (k in s.photos ==> t.photos[k] == s.photos[k])
    ensures t.(selectedAlbum := s.selectedAlbum, photos := s.photos) == s
  {
    s.(selectedAlbum := Some(album), photos := s.photos[album := albumPhotos])
  }

  /** `handleBackToAlbums` */
  function Back(s: AppState): (t: AppState)
    ensures t.selectedAlbum.None? && t.(selectedAlbum := s.selectedAlbum) == s
  {
    s.(selectedAlbum := None)
  }

  /** `toggleSettings` */
  function ToggleSettings(s: AppState): (t: AppState)
    ensures t.showSettings != s.showSettings && t.(showSettings := s.showSettings) == s
  {
    s.(showSettings := !s.showSettings)
  }

  lemma {:induction false} ToggleSettingsTwice(s: AppState)
    ensures ToggleSettings(ToggleSettings(s)) == s
  {
  }

  /** A JavaScript string that is neither null nor empty. */
  predicate Truthy(o: Option<string>) {
    o.Some? && o.value != ""
  }

  /** What the application renders below its header. `AdminView` is the
      admin panel followed by the user settings of `currentUser`. */
  datatype View =
    | LoginView
    | AdminView(users: seq<User>, albums: seq<Album>, photos: map<string, seq<string>>,
                currentUser: string, isAdmin: bool)
    | SettingsView(username: Option<string>)
    | GridView(album: string, albumPhotos: seq<string>)
    | AlbumsView

  function Render(s: AppState): (v: View)
    ensures !s.isLoggedIn <==> v.LoginView?
    ensures v.AdminView? <==> s.isLoggedIn && s.showSettings && s.role == Some(AdminRole) && Truthy(s.username)
    ensures v.SettingsView? <==> s.isLoggedIn && s.showSettings && !(s.role == Some(AdminRole) && Truthy(s.username))
    ensures v.GridView? <==> s.isLoggedIn && !s.showSettings && Truthy(s.selectedAlbum)
    ensures v.AlbumsView? <==> s.isLoggedIn && !s.showSettings && !Truthy(s.selectedAlbum)
  {
    if !s.isLoggedIn then LoginView
    else if s.showSettings then
      if s.role == Some(AdminRole) && Truthy(s.username) then
        AdminView(s.users, s.albums, s.photos, s.username.value, s.role == Some(AdminRole))
      else SettingsView(s.username)
    else if Truthy(s.selectedAlbum) then
      var a := s.selectedAlbum.value;
      GridView(a, if a in s.photos then s.photos[a] else [])
    else AlbumsView
  }

  /** The admin panel is only ever given `isAdmin = true`, with the signed-in
      user's name and the application's own lists. */
  lemma {:induction false} AdminViewShape(s: AppState)
    requires Render(s).AdminView?
    ensures var v := Render(s);
      v.isAdmin && v.currentUser == s.username.value && v.currentUser != ""
      && v.users == s.users && v.albums == s.albums && v.photos == s.photos
  {
  }

  /** Hence the panel's reset-password check always passes: an admin may
      reset the password of any user. */
  lemma {:induction false} ResetAlwaysAllowedInPanel(s: AppState, user: string)
    requires Render(s).AdminView?
    ensures var v := Render(s);
      AdminPanel.ResetPassword(v.isAdmin, Some(v.currentUser), user) == [AdminPanel.ResetPasswordRequest(user)]
  {
    AdminViewShape(s);
  }

  /** The grid shows the stored list of the selected album, or nothing for
      an album without a list. */
  lemma {:induction false} GridShowsStoredPhotos(s: AppState)
    requires Render(s).GridView?
    ensures var v := Render(s);
      v.album == s.selectedAlbum.value
      && v.albumPhotos == (if v.album in s.photos then s.photos[v.album] else [])
  {
  }

  /** After a logout the login screen shows, whatever else the state holds. */
  lemma {:induction false} LogoutShowsLogin(s: AppState)
    ensures Render(Logout(s)) == LoginView
  {
  }

  /** A click on a non-empty album label while browsing shows exactly the
      photos handed over. */
  lemma {:induction false} AlbumClickShowsGrid(s: AppState, album: string, albumPhotos: seq<string>)
    requires s.isLoggedIn && !s.showSettings && album != ""
    ensures Render(AlbumClick(s, album, albumPhotos)) == GridView(album, albumPhotos)
  {
  }

  /** Back from an album shows the album list again. */
  lemma {:induction false} BackShowsAlbums(s: AppState)
    requires s.isLoggedIn && !s.showSettings
    ensures Render(Back(s)) == AlbumsView
  {
  }

  /** Signing in again after a logout starts at the album list, since the
      logout dropped the selected album and closed the settings. */
  lemma {:induction false} ReloginShowsAlbums(s: AppState, username: string, role: Role)
    ensures Render(Login(Logout(s), username, role)) == AlbumsView
  {
  }
}

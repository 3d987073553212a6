/**
 The application shell (src/App.tsx): the signed-in profile and the loading
 flag, how session and profile answers change them, and the route table as a
 decision from (profile, path) to a page or a redirect.
 */
module AppRouter {

  import opened Common
  import opened Schema

  // ---------------------------------------------------------------------------
  // Session state
  // ---------------------------------------------------------------------------

  /** `user` is the signed-in profile (`null` when none is known), `loading` gates every route. */
  datatype AppState = AppState(user: Option<Profile>, loading: bool)

  const InitialApp := AppState(None, true)

  /**
   What reaches the shell: the first session check, a later auth change
   (both carry the session's user id, if any), or the answer of the profile
   query (`maybeSingle`: an error, no row, or the row).
   */
  datatype AppEvent =
    | SessionChecked(sessionUser: Option<string>)
    | AuthChanged(sessionUser: Option<string>)
    | ProfileAnswer(answer: Result<Option<Profile>>)

  /** The new state, and the id whose profile is requested next, if any. */
  datatype Transition = Transition(next: AppState, fetchProfileOf: Option<string>)

  /** `fetchUserProfile`'s completion: only a found row changes `user`; every answer ends loading. */
  function ProfileFetched(st: AppState, answer: Result<Option<Profile>>): (r: AppState)
    ensures !r.loading
    ensures answer.Success? && answer.value.Some? ==> r.user == answer.value
    ensures answer.Failure? || answer.value.None? ==> r.user == st.user
  {
    match answer
    case Failure(_) => st.(loading := false)
    case Success(None) => st.(loading := false)
    case Success(Some(p)) => AppState(Some(p), false)
  }

  function Step(st: AppState, ev: AppEvent): (t: Transition)
    ensures ev.SessionChecked? && ev.sessionUser.None? ==> t == Transition(st.(loading := false), None)
    ensures ev.AuthChanged? && ev.sessionUser.None? ==> t == Transition(AppState(None, false), None)
    ensures !ev.ProfileAnswer? && ev.sessionUser.Some? ==> t == Transition(st, ev.sessionUser)
    ensures ev.ProfileAnswer? ==> t == Transition(ProfileFetched(st, ev.answer), None)
  {
    match ev
    case SessionChecked(None) => Transition(st.(loading := false), None)
    case AuthChanged(None) => Transition(AppState(None, false), None)
    case SessionChecked(Some(id)) => Transition(st, Some(id))
    case AuthChanged(Some(id)) => Transition(st, Some(id))
    case ProfileAnswer(a) => Transition(ProfileFetched(st, a), None)
  }

  /**
   Once the spinner is gone it never comes back; while loading, only a
   session with a user (which starts a profile query) keeps it.
   */
  lemma LoadingOnlyClears(st: AppState, ev: AppEvent)
    ensures !st.loading ==> !Step(st, ev).next.loading
    ensures Step(st, ev).next.loading ==> Step(st, ev).fetchProfileOf.Some?
  {
  }

  /** From the first render, a session without a user shows the public pages to a visitor. */
  lemma SignedOutStart()
    ensures Step(InitialApp, SessionChecked(None)).next == AppState(None, false)
    ensures Step(InitialApp, AuthChanged(None)).next == AppState(None, false)
  {
  }

  /** A signed-in session whose profile row is missing or unreadable ends loading with no profile. */
  lemma MissingProfileStaysSignedOut(id: string, answer: Result<Option<Profile>>)
    requires answer.Failure? || answer.value.None?
    ensures var t := Step(InitialApp, SessionChecked(Some(id)));
      && t.fetchProfileOf == Some(id) && t.next.loading
      && Step(t.next, ProfileAnswer(answer)).next == AppState(None, false)
  {
  }

  // ---------------------------------------------------------------------------
  // Routes
  // ---------------------------------------------------------------------------

  datatype Path =
    | Home
    | LoginPath
    | RegisterPath
    | ManagerPath
    | DashboardPath
    | CoursesPath
    | CoursePath(courseId: string)
    | OtherPath(path: string)

  datatype Page = Landing | LoginForm | RegisterForm | ManagerHome | StudentHome | CourseList | CourseDetailPage(courseId: string)

  /** The spinner, a page, a `<Navigate>`, or no matching route (nothing rendered). */
  datatype View = Spinner | Render(page: Page) | Redirect(to: Path) | NoMatch

  /** Where a signed-in visitor of the sign-in pages is sent. */
  function HomeOf(p: Profile): (to: Path)
    ensures to == ManagerPath <==> p.role == Manager
    ensures to == DashboardPath <==> p.role.User?
  {
    if p.role == Manager then ManagerPath else DashboardPath
  }

  /**
   The route table: the spinner while loading, the public pages for anyone,
   the sign-in pages only without a profile (else home by role), and each
   dashboard only for its role (else the sign-in page).
   */
  function Decide(st: AppState, path: Path): (v: View)
    ensures v == Spinner <==> st.loading
    ensures !st.loading && (path.Home? || path.CoursesPath? || path.CoursePath?) ==> v.Render?
    ensures !st.loading && (path == LoginPath || path == RegisterPath) ==>
              (v.Render? <==> st.user.None?) && (st.user.Some? ==> v == Redirect(HomeOf(st.user.value)))
    ensures !st.loading && path == ManagerPath ==>
              (v.Render? <==> st.user.Some? && st.user.value.role == Manager) && (!v.Render? ==> v == Redirect(LoginPath))
    ensures !st.loading && path == DashboardPath ==>
              (v.Render? <==> st.user.Some? && st.user.value.role == User) && (!v.Render? ==> v == Redirect(LoginPath))
    ensures v == NoMatch <==> !st.loading && path.OtherPath?
  {
    if st.loading then Spinner
    else
      match path
      case Home => Render(Landing)
      case LoginPath => if st.user.None? then Render(LoginForm) else Redirect(HomeOf(st.user.value))
      case RegisterPath => if st.user.None? then Render(RegisterForm) else Redirect(HomeOf(st.user.value))
      case ManagerPath =>
        if st.user.Some? && st.user.value.role == Manager then Render(ManagerHome) else Redirect(LoginPath)
      case DashboardPath =>
        if st.user.Some? && st.user.value.role == User then Render(StudentHome) else Redirect(LoginPath)
      case CoursesPath => Render(CourseList)
      case CoursePath(id) => Render(CourseDetailPage(id))
      case OtherPath(_) => NoMatch
  }

  /** Nothing is decided while loading. */
  lemma LoadingGate(st: AppState, path: Path)
    ensures Decide(st, path) == Spinner <==> st.loading
    ensures Decide(InitialApp, path) == Spinner
  {
  }

  /** The landing page and the catalog render for anyone once loading is over. */
  lemma PublicRoutes(st: AppState, id: string)
    requires !st.loading
    ensures Decide(st, Home) == Render(Landing)
    ensures Decide(st, CoursesPath) == Render(CourseList)
    ensures Decide(st, CoursePath(id)) == Render(CourseDetailPage(id))
  {
  }

  /** The sign-in pages show their forms exactly when no profile is known, else they send the visitor home. */
  lemma AuthPages(st: AppState)
    requires !st.loading
    ensures Decide(st, LoginPath) == Render(LoginForm) <==> st.user.None?
    ensures Decide(st, RegisterPath) == Render(RegisterForm) <==> st.user.None?
    ensures st.user.Some? && st.user.value.role == Manager ==> Decide(st, LoginPath) == Redirect(ManagerPath)
    ensures st.user.Some? && st.user.value.role == User ==> Decide(st, RegisterPath) == Redirect(DashboardPath)
    ensures st.user.Some? ==>
              Decide(st, LoginPath) == Redirect(HomeOf(st.user.value)) && Decide(st, RegisterPath) == Redirect(HomeOf(st.user.value))
  {
  }

  /**
   Each dashboard renders exactly for its role and sends everyone else to
   the sign-in page, so no profile reaches both.
   */
  lemma DashboardsExclusive(st: AppState)
    requires !st.loading
    ensures Decide(st, ManagerPath) == Render(ManagerHome) <==> st.user.Some? && st.user.value.role == Manager
    ensures Decide(st, DashboardPath) == Render(StudentHome) <==> st.user.Some? && st.user.value.role == User
    ensures !(Decide(st, ManagerPath).Render? && Decide(st, DashboardPath).Render?)
    ensures !Decide(st, ManagerPath).Render? ==> Decide(st, ManagerPath) == Redirect(LoginPath)
    ensures !Decide(st, DashboardPath).Render? ==> Decide(st, DashboardPath) == Redirect(LoginPath)
  {
  }

  /** Follows up to `hops` redirects from `path`. */
  function Follow(st: AppState, path: Path, hops: nat): View
    decreases hops
  {
    match Decide(st, path)
    case Redirect(to) => if hops == 0 then Redirect(to) else Follow(st, to, hops - 1)
    case v => v
  }

  /**
   Redirects never loop: after at most two hops every path ends on a page
   (or on no route); a signed-in visitor ends on the dashboard of their role
   and a visitor without a profile on the sign-in form.
   */
  lemma RedirectsSettle(st: AppState, path: Path)
    requires !st.loading
    ensures !Follow(st, path, 2).Redirect?
    ensures st.user.None? && path in {LoginPath, ManagerPath, DashboardPath} ==> Follow(st, path, 2) == Render(LoginForm)
    ensures st.user.Some? && path in {LoginPath, RegisterPath, ManagerPath, DashboardPath} ==>
              Follow(st, path, 2) == Render(if st.user.value.role == Manager then ManagerHome else StudentHome)
  {
    var v := Decide(st, path);
    if v.Redirect? {
      var w := Decide(st, v.to);
      if w.Redirect? {
        assert !Decide(st, w.to).Redirect?;
      }
    }
  }
}

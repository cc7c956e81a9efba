/**
 * Role-based access control for the HTML views: the `role_required` decorator, the role set each
 * administrative route declares, and the gate those routes put in front of the view, namely
 * `@login_required` first and `role_required(...)` second.
 */
module Access {
  import opened Wrappers
  import opened Models

  /** What a decorated view does: abort with 401 or 403, or run the view on its own arguments. */
  datatype Guarded<R> = Unauthorized | Forbidden | Ran(result: R)

  /**
   * `role_required(*roles)(view)(args)`, where `current` is `current_user` when authenticated: the
   * authentication test comes first, then the role test.
   */
  function RoleRequired<A, R>(current: Option<User>, roles: seq<string>, view: A -> R, args: A): (g: Guarded<R>)
    ensures g.Unauthorized? <==> current.None?
    ensures g.Forbidden? <==> current.Some? && current.value.role !in roles
    ensures g.Ran? <==> current.Some? && current.value.role in roles
    ensures g.Ran? ==> g.result == view(args)
  {
    if current.None? then Unauthorized
    else if current.value.role !in roles then Forbidden
    else Ran(view(args))
  }

  /** An anonymous request is refused with 401, never 403, whatever the roles. */
  lemma AnonymousNeverForbidden<A, R>(roles: seq<string>, view: A -> R, args: A)
    ensures RoleRequired(None, roles, view, args) == Unauthorized
  {
  }

  /** With no roles listed, every signed-in user is refused with 403. */
  lemma EmptyRolesForbidEveryone<A, R>(u: User, view: A -> R, args: A)
    ensures RoleRequired(Some(u), [], view, args) == Forbidden
  {
  }

  /** Listing more roles never locks out a user the shorter list admitted, and the view sees the same arguments. */
  lemma MoreRolesAdmitMore<A, R>(current: Option<User>, roles: seq<string>, wider: seq<string>, view: A -> R, args: A)
    requires forall r :: r in roles ==> r in wider
    ensures RoleRequired(current, roles, view, args).Ran? ==> RoleRequired(current, wider, view, args) == RoleRequired(current, roles, view, args)
  {
  }

  /** The routes of the `admin` blueprint. */
  datatype AdminRoute =
    | StudentsList | StudentsNew | StudentsEdit | StudentsDelete
    | TeachersList | TeachersNew | TeachersEdit | TeachersDelete
    | BackupPage | BackupDownload | BackupRestore

  /** The roles each route passes to `role_required`. */
  function RouteRoles(r: AdminRoute): seq<string> {
    match r
    case StudentsList | StudentsNew | StudentsEdit => ["admin", "teacher"]
    case _ => ["admin"]
  }

  /** The outcome of the two decorators in front of an administrative view. */
  datatype Admission = LoginRedirect | Abort(status: int) | Proceed

  /**
   * `@login_required` then `@role_required(...)`: an anonymous request is redirected to the login page
   * before the role test can run, so the administrative routes never answer 401.
   */
  function AdminGate(current: Option<User>, route: AdminRoute): (a: Admission)
    ensures a.Abort? ==> a.status == 403
    ensures a == LoginRedirect <==> current.None?
    ensures a == Proceed <==> current.Some? && current.value.role in RouteRoles(route)
  {
    if current.None? then LoginRedirect
    else match RoleRequired(current, RouteRoles(route), (_: ()) => (), ())
      case Unauthorized => Abort(401)
      case Forbidden => Abort(403)
      case Ran(_) => Proceed
  }

  predicate IsBackupRoute(r: AdminRoute) {
    r == BackupPage || r == BackupDownload || r == BackupRestore
  }

  predicate IsStudentView(r: AdminRoute) {
    r == StudentsList || r == StudentsNew || r == StudentsEdit
  }

  /**
   * Who reaches which route: an admin reaches all of them, a teacher exactly the student list, create and
   * edit views, and anyone else (a student, an unknown role) none.
   */
  lemma WhoReachesWhat(u: User, route: AdminRoute)
    ensures u.role == "admin" ==> AdminGate(Some(u), route) == Proceed
    ensures u.role == "teacher" ==> (AdminGate(Some(u), route) == Proceed <==> IsStudentView(route))
    ensures u.role != "admin" && u.role != "teacher" ==> AdminGate(Some(u), route) == Abort(403)
    ensures IsBackupRoute(route) ==> (AdminGate(Some(u), route) == Proceed <==> u.role == "admin")
  {
  }
}

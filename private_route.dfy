/** The route guard: a page wrapped in it renders only for a user role in its allow-list,
    and otherwise redirects to /home. Missing roles are checked as the empty string. */
module PrivateRoute {
  import opened Wrappers

  /** Where a refused user is sent. */
  const RedirectTarget: string := "/home"

  datatype Outcome = RenderChildren | Navigate(to: string)

  /** `userRole || ""`: null and the empty string both become "". */
  function EffectiveRole(userRole: Option<string>): (r: string)
    ensures r == "" <==> userRole == None || userRole == Some("")
    ensures r != "" ==> userRole == Some(r)
  {
    match userRole
    case Some(role) => role
    case None => ""
  }

  function Guard(allowedRoles: seq<string>, userRole: Option<string>): (o: Outcome)
    ensures o == RenderChildren <==> EffectiveRole(userRole) in allowedRoles
    ensures o != RenderChildren ==> o == Navigate(RedirectTarget)
  {
    if EffectiveRole(userRole) !in allowedRoles then Navigate(RedirectTarget) else RenderChildren
  }

  /** A missing role is treated as the empty role. */
  lemma MissingRoleIsEmptyRole(allowedRoles: seq<string>)
    ensures Guard(allowedRoles, None) == Guard(allowedRoles, Some(""))
  {
  }

  /** An empty allow-list sends every user to /home. */
  lemma EmptyAllowListRedirects(userRole: Option<string>)
    ensures Guard([], userRole) == Navigate("/home")
  {
  }

  /** Allowing more roles never turns a render into a redirect. */
  lemma MoreRolesNeverRedirect(allowed: seq<string>, larger: seq<string>, userRole: Option<string>)
    requires forall r :: r in allowed ==> r in larger
    ensures Guard(allowed, userRole) == RenderChildren ==> Guard(larger, userRole) == RenderChildren
  {
  }

  /** A route for administrators only: "admin" renders, a customer is sent to /home. */
  lemma AdminOnlyRoute()
    ensures Guard(["admin"], Some("admin")) == RenderChildren
    ensures Guard(["admin"], Some("cliente")) == Navigate("/home")
  {
  }
}

/** The navigation header: which links and whether the logout button are shown, as a function
    of the current path and of the user type read once when the header mounts (null until
    then). The logout button logs out and navigates to the landing page. */
module Header {
  import opened Wrappers
  import Session

  /** The pages on which the header shows neither links nor the logout button. */
  const SpecialPages: seq<string> := ["/", "/signup", "/passwordReset", "/passwordRecovery"]

  datatype NavLink = NavLink(text: string, target: string)

  /** The links every user sees, in order. */
  const CommonLinks: seq<NavLink> := [
    NavLink("Início", "/home"),
    NavLink("Ver meu perfil", "/perfil"),
    NavLink("Troca de pontos", "/beneficios/troca")
  ]

  /** The links only an administrator sees, after the common ones. */
  const AdminLinks: seq<NavLink> := [
    NavLink("Benefícios", "/beneficios"),
    NavLink("Usuários", "/usuarios"),
    NavLink("Cadastro de Benefícios", "/beneficios/cadastro")
  ]

  /** What the header shows besides the logo. */
  datatype Menu = Menu(links: seq<NavLink>, showLogout: bool)

  predicate IsSpecialPage(pathname: string) {
    pathname in SpecialPages
  }

  predicate IsAdminUser(userType: Option<string>) {
    userType == Some("admin")
  }

  function NavMenu(pathname: string, userType: Option<string>): (m: Menu)
    ensures m.showLogout <==> !IsSpecialPage(pathname)
    ensures IsSpecialPage(pathname) ==> m.links == []
    ensures |m.links| == if IsSpecialPage(pathname) then 0
                         else if IsAdminUser(userType) then |CommonLinks| + |AdminLinks|
                         else |CommonLinks|
    ensures !IsSpecialPage(pathname) ==> m.links[..|CommonLinks|] == CommonLinks
  {
    if IsSpecialPage(pathname) then Menu([], false)
    else if IsAdminUser(userType) then Menu(CommonLinks + AdminLinks, true)
    else Menu(CommonLinks, true)
  }

  function Targets(links: seq<NavLink>): seq<string> {
    seq(|links|, k requires 0 <= k < |links| => links[k].target)
  }

  /** The special pages are matched exactly, as whole strings. */
  lemma SpecialPagesExactly(pathname: string)
    ensures IsSpecialPage(pathname) <==>
              pathname == "/" || pathname == "/signup" || pathname == "/passwordReset" || pathname == "/passwordRecovery"
  {
  }

  /** On any other page the targets start with /home, /perfil, /beneficios/troca; an
      administrator's continue with /beneficios, /usuarios, /beneficios/cadastro, anyone
      else's stop there. */
  lemma MenuTargets(pathname: string, userType: Option<string>)
    requires !IsSpecialPage(pathname)
    ensures Targets(NavMenu(pathname, userType).links) ==
              if IsAdminUser(userType)
              then ["/home", "/perfil", "/beneficios/troca", "/beneficios", "/usuarios", "/beneficios/cadastro"]
              else ["/home", "/perfil", "/beneficios/troca"]
  {
  }

  /** An admin-only link is shown exactly when the page is not special and the user type is
      exactly "admin"; a null or any other user type sees the common links only. */
  lemma AdminLinksIff(pathname: string, userType: Option<string>, link: NavLink)
    requires link in AdminLinks
    ensures link in NavMenu(pathname, userType).links <==> !IsSpecialPage(pathname) && userType == Some("admin")
  {
    if !IsSpecialPage(pathname) && !IsAdminUser(userType) {
      assert link !in CommonLinks;
    }
  }

  /** The customer menu is a prefix of the administrator menu on every page, followed by
      exactly the admin links off the special pages. */
  lemma CustomerMenuIsPrefix(pathname: string, userType: Option<string>)
    requires !IsAdminUser(userType)
    ensures NavMenu(pathname, Some("admin")).links ==
              NavMenu(pathname, userType).links + (if IsSpecialPage(pathname) then [] else AdminLinks)
  {
  }

  /** The logout button: logout() and then a push to the landing page. */
  method OnLogoutClick(client: Session.AuthClient) returns (target: string)
    modifies client
    ensures target == "/"
    ensures client.State() == Session.LogoutStore(old(client.State()))
  {
    client.Logout();
    target := "/";
  }
}

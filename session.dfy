/** The session store of src/app/login_api.tsx: the browser's local storage (a key to string
    map) and the HTTP client's common default headers, with login, isAuthenticated, getToken
    and logout. The login request goes over the network; the server's answer is an input. */
module Session {
  import opened Wrappers

  /** The storage key that holds the token. */
  const AuthTokenKey: string := "authToken"

  /** The default header that carries the token on later requests. */
  const AuthorizationHeader: string := "Authorization"

  /** What the login request gave back: a response whose body may carry `access_token`
      (None when the body or the field is missing), or a request that threw. */
  datatype LoginResponse = Received(accessToken: Option<string>) | RequestFailed

  /** Local storage and the client's common headers. */
  datatype Store = Store(storage: map<string, string>, headers: map<string, string>)

  /** The token a response is accepted with: present and truthy, that is a non-empty string. */
  function AcceptedToken(response: LoginResponse): (t: Option<string>)
    ensures t.Some? <==> response.Received? && response.accessToken.Some? && response.accessToken.value != ""
    ensures t.Some? ==> response == Received(Some(t.value))
  {
    match response
    case Received(Some(token)) => if token != "" then Some(token) else None
    case _ => None
  }

  /** The store after login: an accepted token is saved and set as a bearer credential. */
  function LoginStore(s: Store, response: LoginResponse): Store {
    match AcceptedToken(response)
    case Some(token) => Store(s.storage[AuthTokenKey := token], s.headers[AuthorizationHeader := "Bearer " + token])
    case None => s
  }

  /** The store after logout: the token and the Authorization header are gone. */
  function LogoutStore(s: Store): Store {
    Store(s.storage - {AuthTokenKey}, s.headers - {AuthorizationHeader})
  }

  predicate Authenticated(s: Store) {
    AuthTokenKey in s.storage
  }

  function StoredToken(s: Store): Option<string> {
    if AuthTokenKey in s.storage then Some(s.storage[AuthTokenKey]) else None
  }

  /** An accepted token is stored, becomes the bearer credential, and is what getToken reads. */
  lemma LoginWithToken(s: Store, token: string)
    requires token != ""
    ensures var s' := LoginStore(s, Received(Some(token)));
            && s'.storage == s.storage[AuthTokenKey := token]
            && s'.headers == s.headers[AuthorizationHeader := "Bearer " + token]
            && Authenticated(s') && StoredToken(s') == Some(token)
  {
  }

  /** A response without a truthy token, or a failed request, leaves storage and headers alone. */
  lemma LoginWithoutToken(s: Store, response: LoginResponse)
    requires response == RequestFailed || response == Received(None) || response == Received(Some(""))
    ensures LoginStore(s, response) == s && AcceptedToken(response) == None
  {
  }

  /** Logout removes the token and the header and nothing else; a second logout changes nothing. */
  lemma LogoutClearsOnlySession(s: Store)
    ensures !Authenticated(LogoutStore(s)) && StoredToken(LogoutStore(s)) == None
    ensures AuthorizationHeader !in LogoutStore(s).headers
    ensures forall k :: k != AuthTokenKey ==>
              (k in LogoutStore(s).storage <==> k in s.storage) &&
              (k in s.storage ==> LogoutStore(s).storage[k] == s.storage[k])
    ensures forall h :: h != AuthorizationHeader ==>
              (h in LogoutStore(s).headers <==> h in s.headers) &&
              (h in s.headers ==> LogoutStore(s).headers[h] == s.headers[h])
    ensures LogoutStore(LogoutStore(s)) == LogoutStore(s)
  {
  }

  /** Whatever login did, logging out afterwards leaves the session unauthenticated, and the
      same as logging out without having logged in. */
  lemma LoginThenLogout(s: Store, response: LoginResponse)
    ensures !Authenticated(LogoutStore(LoginStore(s, response)))
    ensures LogoutStore(LoginStore(s, response)) == LogoutStore(s)
  {
  }

  /** The session as mutable state: localStorage and api.defaults.headers.common. */
  class AuthClient {
    var storage: map<string, string>
    var headers: map<string, string>

    function State(): Store
      reads this
    {
      Store(storage, headers)
    }

    constructor (storage: map<string, string>, headers: map<string, string>)
      ensures State() == Store(storage, headers)
    {
      this.storage := storage;
      this.headers := headers;
    }

    /** login: returns the accepted token and saves it, or returns null and changes nothing. */
    method Login(response: LoginResponse) returns (token: Option<string>)
      modifies this
      ensures token == AcceptedToken(response)
      ensures State() == LoginStore(old(State()), response)
    {
      if response.Received? && response.accessToken.Some? && response.accessToken.value != "" {
        var t := response.accessToken.value;
        storage := storage[AuthTokenKey := t];
        headers := headers[AuthorizationHeader := "Bearer " + t];
        return Some(t);
      }
      return None;
    }

    method IsAuthenticated() returns (authenticated: bool)
      ensures authenticated == Authenticated(State())
    {
      authenticated := AuthTokenKey in storage;
    }

    method GetToken() returns (token: Option<string>)
      ensures token == StoredToken(State())
    {
      token := if AuthTokenKey in storage then Some(storage[AuthTokenKey]) else None;
    }

    method Logout()
      modifies this
      ensures State() == LogoutStore(old(State()))
    {
      storage := storage - {AuthTokenKey};
      headers := headers - {AuthorizationHeader};
    }
  }
}

/** The request decision of credentialsHandler: which site the URL names,
    which requests are refused with 400 or 405 before any data call, and
    which data operation every other request reaches. */
module Handlers {
  import opened Results
  import opened GoStrings

  /** A JSON request body as decoded: POST reads all three fields, PUT only
      the username and the password. */
  datatype Fields = Fields(Site: string, Username: string, Password: string)

  /** Why a request is refused with 400 Bad Request. */
  datatype Reason =
    | InvalidBody
    | SiteRequired
    | UsernameRequired
    | PasswordRequired
    | SiteTooLong
    | UsernameTooLong
    | PasswordTooLong
    | MissingSiteForUpdate
    | CredentialsRequired
    | MissingSiteForDelete

  /** What the handler does with a request: refuse it, or hand it to the
      data operation it selects, with the arguments it passes. */
  datatype Outcome =
    | BadRequest(reason: Reason)
    | MethodNotAllowed
    | Store(site: string, username: string, password: string)
    | ShowAll
    | Retrieve(site: string)
    | Update(site: string, username: string, password: string)
    | Delete(site: string)

  const MaxSiteLength: nat := 255
  const MaxUsernameLength: nat := 255
  const MaxPasswordLength: nat := 1000

  predicate IsSlash(c: char) {
    c == '/'
  }

  /** The site named by the URL path: one leading "/credentials" removed,
      then every leading and trailing '/'. Empty means "all sites". */
  function SiteFromPath(path: string): (site: string)
    ensures site == [] || (site[0] != '/' && site[|site| - 1] != '/')
    ensures var rest := TrimPrefix(path, "/credentials");
      CutAround(rest, site, |rest| - |TrimLeft(rest, IsSlash)|, IsSlash)
  {
    Trim(TrimPrefix(path, "/credentials"), IsSlash)
  }

  /** The checks the handler makes of a (trimmed) POST body, in its order:
      None when the body may be stored. */
  function PostCheck(f: Fields): (r: Option<Reason>)
    ensures r == None <==>
      && f.Site != "" && f.Username != "" && f.Password != ""
      && ByteLen(f.Site) <= MaxSiteLength
      && ByteLen(f.Username) <= MaxUsernameLength
      && ByteLen(f.Password) <= MaxPasswordLength
  {
    if f.Site == "" then Some(SiteRequired)
    else if f.Username == "" then Some(UsernameRequired)
    else if f.Password == "" then Some(PasswordRequired)
    else if ByteLen(f.Site) > MaxSiteLength then Some(SiteTooLong)
    else if ByteLen(f.Username) > MaxUsernameLength then Some(UsernameTooLong)
    else if ByteLen(f.Password) > MaxPasswordLength then Some(PasswordTooLong)
    else None
  }

  /** Every field with its surrounding white space removed. */
  function Trimmed(f: Fields): (t: Fields)
    ensures TrimSpace(t.Site) == t.Site && TrimSpace(t.Username) == t.Username && TrimSpace(t.Password) == t.Password
  {
    TrimIdempotent(f.Site, IsSpace);
    TrimIdempotent(f.Username, IsSpace);
    TrimIdempotent(f.Password, IsSpace);
    Fields(TrimSpace(f.Site), TrimSpace(f.Username), TrimSpace(f.Password))
  }

  /** credentialsHandler up to its data call. `body` is the decoded JSON
      body, None when decoding fails; GET and DELETE never read it. */
  function Route(httpMethod: string, path: string, body: Option<Fields>): (r: Outcome)
    ensures r == MethodNotAllowed <==> httpMethod !in {"POST", "GET", "PUT", "DELETE"}
    ensures r.Store? ==> httpMethod == "POST" && body.Some?
  {
    var site := SiteFromPath(path);
    if httpMethod == "POST" then Post(body)
    else if httpMethod == "GET" then Get(site)
    else if httpMethod == "PUT" then Put(site, body)
    else if httpMethod == "DELETE" then Delete(site)
    else MethodNotAllowed
  }

  /** POST: decode, trim the three fields, check them, then store. */
  function Post(body: Option<Fields>): (r: Outcome)
    ensures r.BadRequest? || r.Store?
    ensures body.None? ==> r == BadRequest(InvalidBody)
    ensures body.Some? ==> (r.Store? <==> PostCheck(Trimmed(body.value)) == None)
    ensures body.Some? && r.BadRequest? ==> PostCheck(Trimmed(body.value)) == Some(r.reason)
    ensures r.Store? ==>
      && body.Some? && r == Store(TrimSpace(body.value.Site), TrimSpace(body.value.Username), TrimSpace(body.value.Password))
      && r.site != "" && r.username != "" && r.password != ""
      && ByteLen(r.site) <= MaxSiteLength && ByteLen(r.username) <= MaxUsernameLength
      && ByteLen(r.password) <= MaxPasswordLength
  {
    match body
    case None => BadRequest(InvalidBody)
    case Some(payload) => CheckThenStore(Trimmed(payload))
  }

  /** The POST steps after trimming: the first failed check, or the store. */
  function CheckThenStore(t: Fields): (r: Outcome)
    ensures r.Store? <==> PostCheck(t) == None
    ensures r.BadRequest? <==> PostCheck(t).Some?
    ensures r.BadRequest? ==> PostCheck(t) == Some(r.reason)
    ensures r.Store? ==> r == Store(t.Site, t.Username, t.Password)
  {
    match PostCheck(t)
    case Some(reason) => BadRequest(reason)
    case None => Store(t.Site, t.Username, t.Password)
  }

  /** GET: list everything for the collection path, one site otherwise. */
  function Get(site: string): (r: Outcome)
    ensures r == ShowAll <==> site == ""
    ensures r.Retrieve? <==> site != ""
    ensures r.Retrieve? ==> r.site == site
  {
    if site == "" then ShowAll else Retrieve(site)
  }

  /** PUT: the site must be in the path (checked before the body is read);
      then decode, trim username and password, and require both. */
  function Put(site: string, body: Option<Fields>): (r: Outcome)
    ensures r.BadRequest? || r.Update?
    ensures site == "" ==> r == BadRequest(MissingSiteForUpdate)
    ensures r.Update? <==>
      site != "" && body.Some? && TrimSpace(body.value.Username) != "" && TrimSpace(body.value.Password) != ""
    ensures r.Update? ==> r == Update(site, TrimSpace(body.value.Username), TrimSpace(body.value.Password))
  {
    if site == "" then BadRequest(MissingSiteForUpdate)
    else match body
      case None => BadRequest(InvalidBody)
      case Some(creds) =>
        var username, password := TrimSpace(creds.Username), TrimSpace(creds.Password);
        if username == "" || password == "" then BadRequest(CredentialsRequired)
        else Update(site, username, password)
  }

  /** DELETE: the site must be in the path. */
  function Delete(site: string): (r: Outcome)
    ensures r == BadRequest(MissingSiteForDelete) <==> site == ""
    ensures r.Delete? <==> site != ""
    ensures r.Delete? ==> r.site == site
  {
    if site == "" then BadRequest(MissingSiteForDelete) else Outcome.Delete(site)
  }

  /** The path of one site's resource names that site, with or without a
      trailing slash. */
  lemma {:induction false} SiteFromResourcePath(site: string)
    requires site == [] || (site[0] != '/' && site[|site| - 1] != '/')
    ensures SiteFromPath("/credentials/" + site) == site
    ensures SiteFromPath("/credentials/" + site + "/") == site
  {
    var p := "/credentials/" + site;
    assert p == "/credentials" + ("/" + site);
    assert HasPrefix(p, "/credentials");
    assert TrimPrefix(p, "/credentials") == "/" + site;
    var q := p + "/";
    assert q == "/credentials" + ("/" + site + "/");
    assert HasPrefix(q, "/credentials");
    assert TrimPrefix(q, "/credentials") == "/" + site + "/";
    TrimSlashes(site);
  }

  lemma TrimSlashes(site: string)
    requires site == [] || (site[0] != '/' && site[|site| - 1] != '/')
    ensures Trim("/" + site, IsSlash) == site
    ensures Trim("/" + site + "/", IsSlash) == site
  {
    assert ("/" + site)[1..] == site;
    assert ("/" + site + "/")[1..] == site + "/";
    assert (site + "/")[..|site|] == site;
  }

  /** POST: white space around the fields is ignored, because the handler
      trims before it checks anything. */
  lemma PostTrimsFirst(f: Fields)
    ensures Post(Some(Trimmed(f))) == Post(Some(f))
  {
    var t := Trimmed(f);
    TrimmedFixed(t);
    assert Post(Some(t)) == CheckThenStore(Trimmed(t)) == CheckThenStore(t);
  }

  /** Fields already free of surrounding white space are their own trimmed form. */
  lemma TrimmedFixed(t: Fields)
    requires TrimSpace(t.Site) == t.Site && TrimSpace(t.Username) == t.Username && TrimSpace(t.Password) == t.Password
    ensures Trimmed(t) == t
  {
  }

  /** POST: the emptiness checks come first, site before username before
      password, and each is reported on its own. */
  lemma PostCheckOrder(f: Fields)
    ensures PostCheck(f) == Some(SiteRequired) <==> f.Site == ""
    ensures PostCheck(f) == Some(UsernameRequired) <==> f.Site != "" && f.Username == ""
    ensures PostCheck(f) == Some(PasswordRequired) <==> f.Site != "" && f.Username != "" && f.Password == ""
  {
  }

  /** POST: the length limits count UTF-8 bytes (Go's `len`) and apply only
      to bodies whose three fields are present; site before username before
      password. */
  lemma PostLengthOrder(f: Fields)
    ensures var present := f.Site != "" && f.Username != "" && f.Password != "";
      && (PostCheck(f) == Some(SiteTooLong) <==> present && ByteLen(f.Site) > MaxSiteLength)
      && (PostCheck(f) == Some(UsernameTooLong) <==>
            present && ByteLen(f.Site) <= MaxSiteLength && ByteLen(f.Username) > MaxUsernameLength)
      && (PostCheck(f) == Some(PasswordTooLong) <==>
            present && ByteLen(f.Site) <= MaxSiteLength && ByteLen(f.Username) <= MaxUsernameLength
            && ByteLen(f.Password) > MaxPasswordLength)
  {
  }

  /** A body of ASCII fields is measured in characters: a 255-character
      site passes the limit and a 256-character one does not. */
  lemma AsciiSiteLimit(f: Fields)
    requires f.Username != "" && f.Password != ""
    requires ByteLen(f.Username) <= MaxUsernameLength && ByteLen(f.Password) <= MaxPasswordLength
    requires forall i :: 0 <= i < |f.Site| ==> f.Site[i] as int < 0x80
    requires f.Site != ""
    ensures PostCheck(f) == None <==> |f.Site| <= MaxSiteLength
  {
  }

  /** The methods the handler serves reach their own case, whatever the
      path and the body. */
  lemma Dispatch(path: string, body: Option<Fields>)
    ensures Route("POST", path, body) == Post(body)
    ensures Route("GET", path, body) == Get(SiteFromPath(path))
    ensures Route("PUT", path, body) == Put(SiteFromPath(path), body)
    ensures Route("DELETE", path, body) == Delete(SiteFromPath(path))
  {
    assert "GET"[0] != "POST"[0] && "PUT"[1] != "POST"[1] && "DELETE"[0] != "POST"[0];
    assert "PUT"[0] != "GET"[0] && "DELETE"[0] != "GET"[0] && "DELETE"[0] != "PUT"[0];
  }
}

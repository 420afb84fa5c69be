/** The url_t record (uparse.h:14-22), its initialiser init_url_t
    (uparse.c:76-83) and the parse driver parse_url (uparse.c:209-237), which
    in this version of the library runs the scheme stage only. */
module UrlParse {
  import opened Wrappers
  import opened Uparse
  import opened Scheme

  /** url_t: a NULL field is None. The record is updated field by field, so
      it is an object; `new Url` is malloc, which leaves the fields
      unspecified until Init runs. */
  class Url {
    var scheme: Option<string>
    var host: Option<string>
    var port: nat
    var path: Option<string>
    var query: Option<string>
    var fragment: Option<string>

    /** Every string field NULL and the port 0. */
    predicate IsInitial()
      reads this
    {
      scheme == None && host == None && port == 0 &&
      path == None && query == None && fragment == None
    }

    /** init_url_t (uparse.c:76-83). */
    method Init()
      modifies this
      ensures IsInitial()
    {
      scheme := None;
      host := None;
      port := 0;
      path := None;
      query := None;
      fragment := None;
    }
  }

  /** parse_url (uparse.c:210-237): a fresh record holding the scheme read
      from the start of `urlString`, or null when get_scheme refuses it. The
      error out-parameter is reset to NO_UPARSE_ERROR on entry and then
      handed to get_scheme, which sets it to UPARSE_ERROR and leaves it so;
      the caller sees UPARSE_ERROR on success and on failure alike. */
  method ParseUrl(urlString: string) returns (url: Url?, urlErrOut: nat)
    requires IsCString(urlString)
    ensures urlErrOut == UparseError
    ensures url == null <==> SchemeSpec(urlString).Failure?
    ensures url != null ==>
      && fresh(url)
      && url.scheme == Some(SchemeSpec(urlString).value.0)
      && url.host == None && url.port == 0 && url.path == None
      && url.query == None && url.fragment == None
  {
    urlErrOut := NoUparseError;
    url := new Url;
    url.Init();
    // The working copy that get_scheme advances through.
    var s := urlString;
    var scheme, next, err := GetScheme(s, 0);
    urlErrOut := err;
    assert s[0..] == s;
    if scheme.Failure? {
      url := null;
      return;
    }
    url.scheme := Some(scheme.value);
  }
}

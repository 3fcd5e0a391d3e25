/** `checkAuth` of the business-plan page: the page is shown only when the
    Cookie header carries a non-empty `auth_token`, otherwise the visitor is
    redirected to the login page. */
module BusinessPlanAuth {
  import opened Wrappers

  const Marker: string := "auth_token="

  /** The regular expression `auth_token=([^;]+)` matches at index `i`:
      the marker is there and at least one character other than `;` follows. */
  predicate MatchesAt(cookie: string, i: int) {
    0 <= i && i + |Marker| < |cookie|
    && cookie[i..i + |Marker|] == Marker
    && cookie[i + |Marker|] != ';'
  }

  /** `token` starts at index `k` of `cookie`, holds no `;`, and runs up to
      the next `;` or to the end: the greedy capture of `[^;]+`. */
  predicate CapturedAt(cookie: string, k: int, token: string) {
    0 <= k && k + |token| <= |cookie|
    && cookie[k..k + |token|] == token
    && (forall j :: 0 <= j < |token| ==> token[j] != ';')
    && (k + |token| == |cookie| || cookie[k + |token|] == ';')
  }

  /** The end of the run of non-`;` characters starting at `k`. */
  function RunEnd(cookie: string, k: nat): (e: nat)
    requires k <= |cookie|
    ensures k <= e <= |cookie|
    ensures forall j :: k <= j < e ==> cookie[j] != ';'
    ensures e == |cookie| || cookie[e] == ';'
    decreases |cookie| - k
  {
    if k == |cookie| || cookie[k] == ';' then k else RunEnd(cookie, k + 1)
  }

  /** The leftmost index at or after `from` where the expression matches. */
  function FirstMatchFrom(cookie: string, from: nat): (r: Option<nat>)
    requires from <= |cookie|
    ensures r.None? ==> forall i :: from <= i < |cookie| ==> !MatchesAt(cookie, i)
    ensures r.Some? ==>
      && from <= r.value && MatchesAt(cookie, r.value)
      && forall i :: from <= i < r.value ==> !MatchesAt(cookie, i)
    decreases |cookie| - from
  {
    if from == |cookie| then None
    else if MatchesAt(cookie, from) then Some(from)
    else FirstMatchFrom(cookie, from + 1)
  }

  /** `cookie.match(/auth_token=([^;]+)/)?.[1]`: the capture of the leftmost
      match, which is non-empty and free of `;`. */
  function TokenOf(cookie: string): (token: Option<string>)
    ensures token.None? <==> forall i :: 0 <= i < |cookie| ==> !MatchesAt(cookie, i)
    ensures token.Some? ==> |token.value| > 0 && ';' !in token.value
    ensures token.Some? ==> exists i ::
      && MatchesAt(cookie, i)
      && (forall j :: 0 <= j < i ==> !MatchesAt(cookie, j))
      && CapturedAt(cookie, i + |Marker|, token.value)
  {
    match FirstMatchFrom(cookie, 0)
    case None => None
    case Some(i) =>
      var k := i + |Marker|;
      var t := cookie[k..RunEnd(cookie, k)];
      assert CapturedAt(cookie, k, t);
      assert t[0] == cookie[k];
      Some(t)
  }

  datatype Outcome = Authenticated | Redirect(to: string)

  /** `checkAuth`: a missing or empty Cookie header, or one without a token,
      redirects to `/login`; any token at all authenticates. */
  function CheckAuth(cookieHeader: Option<string>): (r: Outcome)
    ensures r.Redirect? ==> r.to == "/login"
    ensures r == Authenticated <==>
      cookieHeader.Some? && exists i :: 0 <= i < |cookieHeader.value| && MatchesAt(cookieHeader.value, i)
  {
    if cookieHeader.None? || cookieHeader.value == "" then Redirect("/login")
    else match TokenOf(cookieHeader.value)
      case None => Redirect("/login")
      case Some(_) => Authenticated
  }

  /** The capture starting at a given index is determined by the cookie. */
  lemma CaptureUnique(cookie: string, k: int, t1: string, t2: string)
    requires CapturedAt(cookie, k, t1) && CapturedAt(cookie, k, t2)
    ensures t1 == t2
  {
    assert |t1| == |t2|;
  }

  /** A cookie that starts with the token: the whole run up to the first `;`. */
  lemma LeadingToken(token: string, rest: string)
    requires token != [] && ';' !in token
    requires rest == [] || rest[0] == ';'
    ensures TokenOf(Marker + token + rest) == Some(token)
  {
    var c := Marker + token + rest;
    assert c[..|Marker|] == Marker;
    assert MatchesAt(c, 0);
    var t := TokenOf(c).value;
    var i :| MatchesAt(c, i) && (forall j :: 0 <= j < i ==> !MatchesAt(c, j)) && CapturedAt(c, i + |Marker|, t);
    assert i == 0;
    assert c[|Marker|..|Marker| + |token|] == token;
    CaptureUnique(c, |Marker|, t, token);
  }

  /** The expression is not anchored: the marker may end a longer cookie name. */
  lemma UnanchoredMatch(token: string)
    requires token != [] && ';' !in token
    ensures TokenOf("x" + Marker + token) == Some(token)
  {
    var c := "x" + Marker + token;
    var m := |Marker|;
    assert c[1..1 + m] == Marker;
    assert MatchesAt(c, 1);
    var t := TokenOf(c).value;
    var i :| MatchesAt(c, i) && (forall j :: 0 <= j < i ==> !MatchesAt(c, j)) && CapturedAt(c, i + m, t);
    assert c[0..m][0] == 'x';
    assert i == 1;
    assert c[1 + m..] == token;
    CaptureUnique(c, 1 + m, t, token);
  }

  /** A marker followed by nothing, or by `;`, is no match there: the header
      `auth_token=` alone redirects. */
  lemma EmptyTokenRedirects(rest: string)
    ensures !MatchesAt(Marker + ";" + rest, 0)
    ensures CheckAuth(Some(Marker)) == Redirect("/login")
  {
    assert (Marker + ";" + rest)[|Marker|] == ';';
  }
}

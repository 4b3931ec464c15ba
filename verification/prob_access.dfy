/** The access decision `onInit` makes for a "Protected B" site: given the
    page URL, the current user's e-mail and the responses of the site-group
    lookups, either leave the page alone or send the browser to the home
    page. The assignment to `window.location.href` is the `Redirect` verdict. */
module ProbAccess {
  import opened Optional
  import opened JsText
  import opened SiteAddress
  import opened Membership

  /** Where every redirect goes. */
  const HomeUrl: string := "https://devgcx.sharepoint.com"

  /** A lower-cased URL containing this is a Protected B site. */
  const ProtectedBMarker: string := "/teams/b"

  /** The page meant to be exempt from the check. It is compared against the
      lower-cased URL, yet it has upper-case letters. */
  const AppCatalogPage: string := "/sites/appcatalog/_layouts/15/tenantAppCatalog.aspx/manageApps"

  /** The groups consulted, in this order. */
  const AuthorizedGroups: seq<string> := ["Owners", "Members", "Visitors"]

  /** Why the page is left alone. */
  datatype AllowReason = NotProtectedB | AppCatalog | GroupMember

  /** Why the user is sent away: the user lookup threw (the catch block), no
      site address could be extracted, or no group contains the user. */
  datatype DenyReason = UserLookupFailed | NoSiteAddress | NotInAnyGroup

  datatype Verdict = NoRedirect(allow: AllowReason) | Redirect(target: string, deny: DenyReason)

  /** The page URL names a Protected B site, ignoring case. */
  ghost predicate IsProtectedBUrl(href: string) {
    exists i :: OccursAtIgnoringCase(href, ProtectedBMarker, i)
  }

  /** The decision of `onInit`. `user` is the current user's e-mail, `None`
      when `currentUser.get()` fails or the user has no e-mail (both throw
      inside the `try`); `dir` holds the group lookup responses. */
  function Decide(href: string, user: Option<string>, dir: Directory): (v: Verdict)
    ensures v.Redirect? ==> v.target == HomeUrl
    ensures v.NoRedirect? && v.allow == GroupMember ==> user.Some? && SiteAddressFromUrl(Lower(href)) != ""
    ensures v != NoRedirect(AppCatalog)
  {
    var siteUrl := Lower(href);
    AppCatalogNeverInLoweredUrl(href);
    if !Includes(siteUrl, ProtectedBMarker) then NoRedirect(NotProtectedB)
    else if Includes(siteUrl, AppCatalogPage) then NoRedirect(AppCatalog)
    else match user
      case None => Redirect(HomeUrl, UserLookupFailed)
      case Some(email) =>
        var userEmail := Lower(email);
        var siteAddress := SiteAddressFromUrl(siteUrl);
        if siteAddress == "" then Redirect(HomeUrl, NoSiteAddress)
        else if !ScanGroups(dir, AuthorizedGroups, userEmail).authorized then Redirect(HomeUrl, NotInAnyGroup)
        else NoRedirect(GroupMember)
  }

  /** The app catalog needle is never found in a lower-cased URL: it holds
      an upper-case `A`. So the exemption never applies. */
  lemma AppCatalogNeverInLoweredUrl(href: string)
    ensures !Includes(Lower(href), AppCatalogPage)
  {
    assert AppCatalogPage[36] == 'A';
    LowerNeverContainsUpper(href, AppCatalogPage, 36);
  }

  /** A URL that does not name a Protected B site, in any letter case, is
      never redirected, whatever the user and the groups. */
  lemma NotProtectedBNeverRedirects(href: string, user: Option<string>, dir: Directory)
    ensures !IsProtectedBUrl(href) <==> Decide(href, user, dir) == NoRedirect(NotProtectedB)
  {
    IncludesLowerIgnoresCase(href, ProtectedBMarker);
  }

  /** The user is a member of one of the authorized groups, by the same
      e-mail comparison the group test uses. */
  ghost predicate Authorized(dir: Directory, email: string) {
    InSomeGroup(dir, AuthorizedGroups, email)
  }

  /** On a Protected B site the page stays exactly when the user's e-mail is
      known, a site address is extracted, and some group contains the user. */
  lemma ProtectedBVerdict(href: string, user: Option<string>, dir: Directory)
    requires IsProtectedBUrl(href)
    ensures Decide(href, user, dir).NoRedirect? <==>
      user.Some? && SiteAddressFromUrl(Lower(href)) != "" && Authorized(dir, user.value)
  {
    IncludesLowerIgnoresCase(href, ProtectedBMarker);
    if user.Some? {
      var e := user.value;
      forall i | 0 <= i < |AuthorizedGroups|
        ensures IsUserInGroup(dir, AuthorizedGroups[i], Lower(e)) == IsUserInGroup(dir, AuthorizedGroups[i], e)
      {
        RelowerIsNoOp(dir, AuthorizedGroups[i], e);
      }
      assert Authorized(dir, e) <==> InSomeGroup(dir, AuthorizedGroups, Lower(e));
    }
  }

  /** On a Protected B site the only way to stay on the page is group
      membership: neither exemption applies. */
  lemma ProtectedBStaysOnlyForMembers(href: string, user: Option<string>, dir: Directory)
    requires IsProtectedBUrl(href)
    ensures Decide(href, user, dir).NoRedirect? ==> Decide(href, user, dir) == NoRedirect(GroupMember)
  {
    IncludesLowerIgnoresCase(href, ProtectedBMarker);
  }

  /** On a Protected B site a failed user lookup ends in the catch block's
      redirect. */
  lemma MissingUserRedirects(href: string, dir: Directory)
    requires IsProtectedBUrl(href)
    ensures Decide(href, None, dir) == Redirect(HomeUrl, UserLookupFailed)
  {
    IncludesLowerIgnoresCase(href, ProtectedBMarker);
  }

  /** On a Protected B site the "no site address" redirect happens exactly
      when the user is known and the extracted address is empty. */
  lemma NoSiteAddressRedirectIff(href: string, user: Option<string>, dir: Directory)
    requires IsProtectedBUrl(href)
    ensures Decide(href, user, dir) == Redirect(HomeUrl, NoSiteAddress) <==>
      user.Some? && SiteAddressFromUrl(Lower(href)) == ""
  {
    IncludesLowerIgnoresCase(href, ProtectedBMarker);
  }

  /** On a Protected B site the "not in any group" redirect happens exactly
      when the user is known, a site address is extracted, and no listed
      group contains the user. */
  lemma NotInAnyGroupRedirectIff(href: string, user: Option<string>, dir: Directory)
    requires IsProtectedBUrl(href)
    ensures Decide(href, user, dir) == Redirect(HomeUrl, NotInAnyGroup) <==>
      user.Some? && SiteAddressFromUrl(Lower(href)) != "" && !Authorized(dir, user.value)
  {
    ProtectedBVerdict(href, user, dir);
    IncludesLowerIgnoresCase(href, ProtectedBMarker);
  }

  /** On a Protected B site the "no site address" redirect happens only when
      the segment after the leftmost `/sites/` or `/teams/` is all white
      space: the marker `/teams/b` itself always yields a match. */
  lemma NoSiteAddressOnlyForBlankSegment(href: string, user: Option<string>, dir: Directory)
    requires IsProtectedBUrl(href)
    ensures Decide(href, user, dir) == Redirect(HomeUrl, NoSiteAddress) ==>
      exists i :: IsLeftmostMatch(Lower(href), i) && AllWhitespace(Capture(Lower(href), i))
  {
    IncludesLowerIgnoresCase(href, ProtectedBMarker);
    TeamsBAddressEmptyOnlyIfBlank(Lower(href));
  }
}

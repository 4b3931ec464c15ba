# Protected B access check — a Dafny model

The SharePoint application customizer `ProBAccessApplicationCustomizer` runs
when a page loads. It decides whether the current user may stay on a
"Protected B" site or is sent to the tenant home page. This project models
that decision as a pure function:

- **Inputs:** the page URL, the current user's e-mail (absent when the user
  lookup fails or the profile has no `Email` property), and the response of
  the site-group lookup for each group name (`Failed`, or the users with
  their possibly missing e-mails). "No e-mail" always means a missing
  `Email` property. An empty string is an e-mail like any other: it does not
  throw, so it fails open (`Membership.EmptyEmailAdmitted`).
- **Output:** a `Verdict`, which is `NoRedirect(reason)` or
  `Redirect(HomeUrl, reason)`.

The decision has three parts:

1. **Classification.** The URL is lower-cased. Only URLs that contain
   `/teams/b` are checked.
2. **Site-address extraction.** The regular expression
   `/\/(sites|teams)\/([^/?]+)/` becomes a scanner for the leftmost match,
   followed by `trim`. An empty address forces a redirect.
3. **Fail-closed membership.** The groups `Owners`, `Members` and `Visitors`
   are consulted in order. The check stops at the first group whose member
   e-mails include the user's e-mail, compared without regard to case. A
   failed lookup, or a member without an e-mail, makes that group answer "no".

Modules:

- `Optional` holds `Option`.
- `JsText` models the JavaScript string operations: `toLowerCase`, `trim`,
  `indexOf` and `includes`.
- `SiteAddress` models `getSiteAddressFromUrl`.
- `Membership` models `isUserInGroup` and `isUserInAnyGroup`.
- `ProbAccess` models the decision made by `onInit`.

The URL check for the app catalog, which was meant to exempt that page, is
kept as written. Its needle
`/sites/appcatalog/_layouts/15/tenantAppCatalog.aspx/manageApps` contains
upper-case letters, but it is searched for in a URL that has already been
lower-cased. The exemption therefore never fires. `AppCatalogNeverInLoweredUrl`
proves this. The rest of the model keeps the code's behaviour rather than a
corrected one.

The header comment describes a Public/Private access-level branch and special
handling for new tabs and the search bar. The code implements neither, and
this model follows the code. The extracted site address is used only to test
for emptiness. It does not select the groups.

## Model

| member | source | states |
|---|---|---|
| JsText.Lower | src/extensions/probAccess/ProbAccessApplicationCustomizer.ts:40 | `toLowerCase` restricted to ASCII letters: it keeps the length, maps each upper-case ASCII letter to its lower-case letter (code point plus 32) and leaves every other character in place |
| JsText.LowerIdempotent | src/extensions/probAccess/ProbAccessApplicationCustomizer.ts:60 | lower-casing an already lower-cased e-mail changes nothing |
| JsText.Trim | src/extensions/probAccess/ProbAccessApplicationCustomizer.ts:103 | `trim` returns the contiguous slice of the input left after removing a white-space prefix and a white-space suffix, with its inner characters unchanged; the slice is empty exactly when the input is all white space, and otherwise starts and ends with a character that is not white space |
| JsText.IndexOf | src/extensions/probAccess/ProbAccessApplicationCustomizer.ts:44 | for a start index within the string, the search returns the leftmost occurrence at or after it, or nothing exactly when there is no such occurrence |
| JsText.Includes | src/extensions/probAccess/ProbAccessApplicationCustomizer.ts:44 | `includes` is true exactly when the needle occurs at some index |
| JsText.IncludesLowerIgnoresCase | src/extensions/probAccess/ProbAccessApplicationCustomizer.ts:40-44 | searching the lower-cased URL is a case-insensitive search of the original URL |
| JsText.LowerNeverContainsUpper | src/extensions/probAccess/ProbAccessApplicationCustomizer.ts:53 | a needle with an upper-case letter is never found in a lower-cased string |
| SiteAddress.SegmentEnd | src/extensions/probAccess/ProbAccessApplicationCustomizer.ts:101 | the greedy run `[^/?]+` ends at the first `/` or `?`, or at the end of the URL |
| SiteAddress.FindMatch | src/extensions/probAccess/ProbAccessApplicationCustomizer.ts:101 | the scanner finds the leftmost index where `/sites/` or `/teams/` is followed by a character other than `/` or `?`, and reports no match exactly when there is none |
| SiteAddress.Capture | src/extensions/probAccess/ProbAccessApplicationCustomizer.ts:101-103 | group 2 is non-empty, is the longest run of non-`/`, non-`?` characters after the prefix, and holds neither `/` nor `?` |
| SiteAddress.SiteAddressFromUrl | src/extensions/probAccess/ProbAccessApplicationCustomizer.ts:99-111 | the result is the trimmed capture of the leftmost match and holds no `/` or `?` |
| SiteAddress.SiteAddressEmptyIff | src/extensions/probAccess/ProbAccessApplicationCustomizer.ts:101-110 | the address is empty exactly when there is no match (the fallback `""`) or the segment captured at the leftmost match is all white space |
| SiteAddress.TeamsBAlwaysMatches | src/extensions/probAccess/ProbAccessApplicationCustomizer.ts:44 | a URL that contains `/teams/b` always matches the extraction pattern |
| SiteAddress.TeamsBAddressEmptyOnlyIfBlank | src/extensions/probAccess/ProbAccessApplicationCustomizer.ts:101-103 | for such a URL the address is empty exactly when the segment captured at the leftmost match is all white space |
| Membership.LowerEmails | src/extensions/probAccess/ProbAccessApplicationCustomizer.ts:135 | mapping `Email.toLowerCase()` over the users succeeds exactly when every user has an e-mail; on success it gives their lower-cased e-mails in order |
| Membership.IsUserInGroup | src/extensions/probAccess/ProbAccessApplicationCustomizer.ts:131-144 | true exactly when the lookup succeeded, every member has an e-mail, and one of those e-mails equals the user's e-mail ignoring case; a failed lookup or a missing e-mail gives false |
| Membership.ScanGroups | src/extensions/probAccess/ProbAccessApplicationCustomizer.ts:114-128 | authorized exactly when some listed group contains the user; the groups consulted are a prefix of the list; on success the last group consulted is the first that contains the user; on failure every group was consulted |
| Membership.AllLookupsFailedDenies | src/extensions/probAccess/ProbAccessApplicationCustomizer.ts:140-143 | when every group lookup fails, the user is not authorized |
| Membership.GroupOrderIrrelevant | src/extensions/probAccess/ProbAccessApplicationCustomizer.ts:116-123 | two lists of group names that contain the same names give the same answer (the `authorized` result of the scan), whatever their order or repetitions |
| Membership.RelowerIsNoOp | src/extensions/probAccess/ProbAccessApplicationCustomizer.ts:139 | lower-casing the user's e-mail before the group test does not change the answer |
| Membership.ExampleScan | src/extensions/probAccess/ProbAccessApplicationCustomizer.ts:116-122 | worked case: a group with a member lacking an e-mail and a failed lookup are both skipped, and the third group admits the user |
| Membership.EmptyEmailAdmitted | src/extensions/probAccess/ProbAccessApplicationCustomizer.ts:134-139 | an empty but present e-mail does not throw, so a user with the empty e-mail is admitted by a group listing a member whose e-mail is empty |
| ProbAccess.Decide | src/extensions/probAccess/ProbAccessApplicationCustomizer.ts:35-96 | every redirect targets the fixed home URL; the page is left to a group member only when the user's e-mail is known and a site address was extracted; the app catalog exemption is never the verdict |
| ProbAccess.AppCatalogNeverInLoweredUrl | src/extensions/probAccess/ProbAccessApplicationCustomizer.ts:52-56 | the app catalog needle is never found in the lower-cased URL, whatever the URL |
| ProbAccess.NotProtectedBNeverRedirects | src/extensions/probAccess/ProbAccessApplicationCustomizer.ts:40-50 | the verdict is "not Protected B, no redirect" exactly when the URL does not contain `/teams/b` in any letter case, whatever the user and the groups |
| ProbAccess.ProtectedBVerdict | src/extensions/probAccess/ProbAccessApplicationCustomizer.ts:58-95 | on a Protected B URL the page stays exactly when the user's e-mail is known, the address is non-empty and some authorized group contains the user |
| ProbAccess.ProtectedBStaysOnlyForMembers | src/extensions/probAccess/ProbAccessApplicationCustomizer.ts:52-95 | on a Protected B URL the only verdict that leaves the page is group membership; the app catalog exemption never applies |
| ProbAccess.MissingUserRedirects | src/extensions/probAccess/ProbAccessApplicationCustomizer.ts:59-91 | on a Protected B URL a failed user lookup leads to the catch-block redirect to the home URL |
| ProbAccess.NoSiteAddressRedirectIff | src/extensions/probAccess/ProbAccessApplicationCustomizer.ts:63-70 | on a Protected B URL the "no site address" redirect happens exactly when the user is known and the extracted address is empty |
| ProbAccess.NotInAnyGroupRedirectIff | src/extensions/probAccess/ProbAccessApplicationCustomizer.ts:73-80 | on a Protected B URL the "not in any group" redirect happens exactly when the user is known, the address is non-empty and no authorized group contains the user |
| ProbAccess.NoSiteAddressOnlyForBlankSegment | src/extensions/probAccess/ProbAccessApplicationCustomizer.ts:63-71 | on a Protected B URL the "no site address" redirect happens only when the leftmost captured segment is all white space |

## Left out

- Framework glue is not modelled: `BaseApplicationCustomizer`, `@override`,
  and the `Log` and `console` output. None of it affects the decision.
- `pnpSetup` is not modelled as a call, but its effect is. It fixes the base
  URL to the tenant root `https://devgcx.sharepoint.com`. So the user lookup
  and every group lookup go to the root web, not to the Protected B site
  being visited. The directory `dir` is therefore the root web's group
  directory, and `Decide` uses the same one for every URL.
- The PnP calls `sp.web.currentUser.get()` and
  `siteGroups.getByName(...).users()` become inputs. The user is an
  `Option<string>` e-mail: `None` stands for a rejected call and for a
  profile without `Email`, since both throw inside the `try`. Each group
  lookup is a `GroupLookup`, and a name missing from the directory map is a
  failed lookup.
- `async`/`await` are not modelled, because the steps run strictly in
  sequence. The assignment to `window.location.href` is the `Redirect`
  verdict rather than a side effect.
- The `catch` in `isUserInAnyGroup` is not modelled. `isUserInGroup`
  catches every error itself, so that branch cannot be reached.
- JsText.Lower: lower-cases ASCII letters only and always keeps the length.
  JavaScript's `toLowerCase` also maps other Unicode letters, and a few of
  them change the length (`"İ"` becomes two characters). The membership
  verdict depends on this: e-mails that differ only in the case of a
  non-ASCII letter (`É@x` and `é@x`) are different here but equal in
  JavaScript, so such a user is redirected by the model and stays on the
  page in the browser. The URL checks are not affected: no non-ASCII
  character lower-cases to white space, `/` or `?`, and the only ASCII
  letters such mappings produce (`i` followed by a combining dot from `İ`,
  `k` from the Kelvin sign) cannot complete `/sites/`, `/teams/` or
  `/teams/b`.
- The header comment's Public/Private access-level branch, its new-tab and
  search-bar handling, and any redirect-loop or session state are not
  modelled. The code implements none of them.

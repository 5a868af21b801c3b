# HSContactCaddie core, in Dafny

HSContactCaddie is a CRM contact card for golf players. It has two parts:

- a card, which shows a player's golf rounds, a handicap and an entry form;
- a small server, which keeps OAuth tokens per portal, renames properties for the CRM's custom objects and checks the signature on incoming requests.

This project models the pure core of both parts and proves properties of it:

- **Handicap engine** (`HandicapEngine`, `GolfTypes`):
  - per-round differentials, with 9-hole doubling and the slope and rating defaults;
  - the newest-first date sort;
  - the 20-round window and the best-8 selection;
  - the mean times 0.96, rounded half up to tenths;
  - the official and initial tiers.
- **Token store** (`TokenStore`): the per-portal key, store, get and delete over a map, the five-minute expiry buffer, and the four outcomes of `getValidAccessToken`:
  - no record;
  - fresh token;
  - refreshed token;
  - deleted after a failed refresh.
- **Property-prefix codec** (`PrefixCodec`): `formatAppObjectProperties` and `stripAppObjectPrefix` over an object modelled as its properties in insertion order.
- **Signature input** (`SignatureValidation`):
  - `decodeHubSpotUri`, which makes 12 global replacements, one per escape;
  - the local bypass and the header check;
  - the protocol, hostname and URL construction;
  - the body choice;
  - the verdict. The HMAC check `Signature.isValid` is a function parameter and is not interpreted.
- **Card rules**:
  - `GolfRoundForm`: the date string, the submit guard, payload and reset, and `isValid`;
  - `HandicapCard`: the possessive name, the sign, the tier label and the latest round;
  - `GolfRoundsCard`: the 20-row window, the series label, the count label and the cell fallbacks.

Numbers are Dafny `real`: exact, with no IEEE rounding. `Math.round(x)` is `Floor(x + 0.5)`. A date is an integer day key.

An empty list of rounds makes the handicap `0 / 0`, which is NaN. It is modelled as `handicap == None`, not excluded by a precondition, and the card's sign test treats it as "not above zero".

Clocks, the OAuth refresh call, `process.env` and the key-value store's I/O are parameters of the functions that use them.

Four behaviours of the code a reader may not expect:

- The hostname is `host.split(':')[0] || host`. An empty host, or one that begins with `:`, is kept whole, port and all (`SignatureValidation.Hostname`).
- The table and the chart take the first twenty rounds in the order received, not sorted. They coincide with the handicap window only when the rounds arrive newest first (`GolfRoundsCard.ShownIsHandicapWindow`).
- The date sort is stable, so when more than twenty rounds are recorded and several share the day at the window's edge, which of them count depends on the order the rounds arrived in. Rounds of a strictly older day never count once twenty newer ones exist (`HandicapEngine.SortIsStable`, `HandicapEngine.OlderRoundsIgnored`).
- The card writes the sign in front of the handicap's own text, so a handicap of −2.1 reads "+-2.1" and one of 5.4 reads "-5.4" (`HandicapCard.SignPrefix`).

## Model

| member | source | states |
|---|---|---|
| HandicapEngine.CalculateHandicapDifferential | hs-contact-caddie/src/app/cards/utils.tsx:7-15 | the differential times the effective slope equals (adjusted score − effective rating) × 113; with a positive slope it is positive exactly when the adjusted score exceeds the rating |
| HandicapEngine.NineHoleScoreDoubled | hs-contact-caddie/src/app/cards/utils.tsx:10 | a 9-hole round's score is doubled before the differential |
| HandicapEngine.OtherHolesScoreUnchanged | hs-contact-caddie/src/app/cards/utils.tsx:10 | any other holes value uses the score unchanged |
| HandicapEngine.DefaultsApplied | hs-contact-caddie/src/app/cards/utils.tsx:3-4 | a missing or zero slope and rating give exactly adjusted score − 72 |
| HandicapEngine.InsertByDate | hs-contact-caddie/src/app/cards/utils.tsx:18 | inserting into a newest-first list keeps it newest first and adds exactly that round |
| HandicapEngine.SortGolfRoundsByDate | hs-contact-caddie/src/app/cards/utils.tsx:17-19 | the result is newest first and a permutation (same multiset) of the input |
| HandicapEngine.SortKeepsSorted | hs-contact-caddie/src/app/cards/utils.tsx:17-19 | a list already newest first comes back unchanged |
| HandicapEngine.SortIsStable | hs-contact-caddie/src/app/cards/utils.tsx:17-19 | the sort is stable: the rounds of any one day come out in the order they went in |
| HandicapEngine.NewestIsFirst | hs-contact-caddie/src/app/cards/utils.tsx:17-19 | the first sorted round is an input round whose date is at least every input date |
| HandicapEngine.Last20Rounds | hs-contact-caddie/src/app/cards/utils.tsx:33 | the window has min(20, n) rounds, newest first, drawn from the input, and no round left out is newer than a round kept |
| HandicapEngine.Differentials | hs-contact-caddie/src/app/cards/utils.tsx:36 | one differential per window round, position by position |
| HandicapEngine.SortAscending | hs-contact-caddie/src/app/cards/utils.tsx:39 | the numeric sort returns an ascending permutation |
| HandicapEngine.BestDifferentials | hs-contact-caddie/src/app/cards/utils.tsx:39 | at most 8 are taken, each at most every differential left out; with 8 or fewer all are taken |
| HandicapEngine.RoundToTenth | hs-contact-caddie/src/app/cards/utils.tsx:45 | half-up rounding to a multiple of 0.1 within 0.05 of the input |
| HandicapEngine.BestOf | hs-contact-caddie/src/app/cards/utils.tsx:33-39 | min(8, 20, n) differentials feed the mean |
| HandicapEngine.CalculateHandicap | hs-contact-caddie/src/app/cards/utils.tsx:21-48 | official iff at least 20 rounds, initial iff 5 to 19, never both; the handicap is NaN (None) exactly for no rounds, and otherwise a multiple of 0.1 within 0.05 of 0.96 × the mean of the selected differentials |
| HandicapEngine.HandicapIndex | hs-contact-caddie/src/app/cards/utils.tsx:42-45 | the index is undefined exactly when nothing was selected, and otherwise a multiple of 0.1 within 0.05 of 0.96 × the mean of the selected differentials |
| HandicapEngine.RoundToTenthUnique | hs-contact-caddie/src/app/cards/utils.tsx:45 | the rounded value is the only multiple of 0.1 in (x − 0.05, x + 0.05] |
| HandicapEngine.HandicapIsRoundedScaledMean | hs-contact-caddie/src/app/cards/utils.tsx:42-45 | for n > 0 the handicap is exactly 0.96 × the mean of the selected differentials, rounded half up to tenths |
| HandicapEngine.OlderRoundsIgnored | hs-contact-caddie/src/app/cards/utils.tsx:33-36 | once 20 rounds are newer than a day, dropping every round of that day or earlier leaves the result unchanged, however low their differentials |
| HandicapEngine.OrderIndependent | hs-contact-caddie/src/app/cards/utils.tsx:33-42 | up to 20 rounds, any reordering of the input gives the same result |
| HandicapEngine.FewRoundsUseAll | hs-contact-caddie/src/app/cards/utils.tsx:39-45 | with 8 rounds or fewer the handicap is the index of all their differentials |
| HandicapEngine.HandicapIndexBounded | hs-contact-caddie/src/app/cards/utils.tsx:42-45 | the index lies within 0.96 × the smallest and largest selected differential, give or take 0.05 |
| HandicapEngine.HandicapBounded | hs-contact-caddie/src/app/cards/utils.tsx:21-48 | the handicap lies within 0.96 × the bounds of all differentials, give or take 0.05 |
| TokenStore.EnvSegment | caddie-server/src/lib/tokenStore.ts:26 | "prod" exactly in production, "dev" otherwise |
| TokenStore.GetTokenKey | caddie-server/src/lib/tokenStore.ts:25-28 | the key is `hubspot:tokens:`, then the `prod` or `dev` segment chosen by the environment, then `:` and the portal id |
| TokenStore.TokenKeyInjective | caddie-server/src/lib/tokenStore.ts:25-28 | two keys are equal exactly when the environment and the portal are |
| TokenStore.IsTokenExpired | caddie-server/src/lib/tokenStore.ts:80-82 | expired exactly when at most five minutes remain before the expiry time |
| TokenStore.ExpiryBoundary | caddie-server/src/lib/tokenStore.ts:80-82 | a token is expired from exactly five minutes before its expiry |
| TokenStore.StoreTokens | caddie-server/src/lib/tokenStore.ts:30-44 | writes the pair with expiry now + expiresIn × 1000 under the portal's key; every other key is unchanged |
| TokenStore.GetTokens | caddie-server/src/lib/tokenStore.ts:46-52 | None exactly when the portal has no record, else that record |
| TokenStore.DeleteTokens | caddie-server/src/lib/tokenStore.ts:54-58 | the portal's key is gone; every other key is unchanged |
| TokenStore.StoreThenGet | caddie-server/src/lib/tokenStore.ts:30-52 | reading after storing gives the stored record |
| TokenStore.StoreOverwrites | caddie-server/src/lib/tokenStore.ts:30-44 | a second store fully replaces the first |
| TokenStore.DeleteIdempotent | caddie-server/src/lib/tokenStore.ts:54-58 | deleting twice equals deleting once, and the portal then reads as absent |
| TokenStore.OtherPortalsUnchanged | caddie-server/src/lib/tokenStore.ts:25-58 | storing or deleting one portal leaves every other portal's record |
| TokenStore.GetValidAccessToken | caddie-server/src/lib/tokenStore.ts:84-108 | no record: None and no change; fresh: the stored token, no refresh, no change; expired: one refresh, then the refresh response's token returned and exactly that response stored, or the record deleted and None |
| TokenStore.LookupLeavesOtherPortals | caddie-server/src/lib/tokenStore.ts:84-108 | the lookup never touches another portal's record |
| TokenStore.NoStaleToken | caddie-server/src/lib/tokenStore.ts:94-107 | a token returned without refresh is more than five minutes from expiry |
| TokenStore.RefreshedTokenServedUntilExpiry | caddie-server/src/lib/tokenStore.ts:94-99 | after a refresh, later lookups before the new buffered expiry return the new token without refreshing |
| TokenStore.FailedRefreshNeedsReauthorization | caddie-server/src/lib/tokenStore.ts:100-104 | after a failed refresh every later lookup is None with no refresh attempt |
| PrefixCodec.Get | caddie-server/src/lib/hubspotApiUtils.ts:101-103 | a key reads as absent exactly when no property has it, and otherwise gives the value of the first property with that key |
| PrefixCodec.Assign | caddie-server/src/lib/hubspotApiUtils.ts:101-103 | assignment keeps keys distinct, appends a new key at the end, and leaves other properties unchanged |
| PrefixCodec.AssignInPlace | caddie-server/src/lib/hubspotApiUtils.ts:101-103 | assigning to an existing key replaces that property at its own position and changes nothing else |
| PrefixCodec.AssignGet | caddie-server/src/lib/hubspotApiUtils.ts:101-103 | after `obj[k] = v`, k holds v and every other key keeps its value |
| PrefixCodec.FormatKey | caddie-server/src/lib/hubspotApiUtils.ts:100-104 | a name already starting with the prefix is kept, any other gets `prefix_`; the result always starts with the prefix |
| PrefixCodec.StripKey | caddie-server/src/lib/hubspotApiUtils.ts:117-122 | one leading `prefix_` is removed; other names are kept |
| PrefixCodec.FormatAppObjectProperties | caddie-server/src/lib/hubspotApiUtils.ts:95-108 | every output key starts with the prefix, keys are distinct, and every input name's formatted form is a key |
| PrefixCodec.StripAppObjectPrefix | caddie-server/src/lib/hubspotApiUtils.ts:113-126 | keys are distinct, every output key is the stripped form of an input name, and every input name's stripped form is a key |
| PrefixCodec.RekeyCoversKeys | caddie-server/src/lib/hubspotApiUtils.ts:98-104 | no renamed name goes missing: each input property's new name is a key of the copy |
| PrefixCodec.RekeyKeys | caddie-server/src/lib/hubspotApiUtils.ts:98-104 | every output key is the renaming of some input key |
| PrefixCodec.LastRenamed | caddie-server/src/lib/hubspotApiUtils.ts:98-104 | finds the last property renamed to a key, or None when no property is |
| PrefixCodec.RekeyLastWins | caddie-server/src/lib/hubspotApiUtils.ts:98-104 | an output key holds the value of the last property renamed to it |
| PrefixCodec.MapKeys | caddie-server/src/lib/hubspotApiUtils.ts:116-123 | position by position renaming with values kept |
| PrefixCodec.RekeyWithoutClash | caddie-server/src/lib/hubspotApiUtils.ts:116-123 | without clashes the copy renames every property in place, order and values kept |
| PrefixCodec.FormatKeysAndValues | caddie-server/src/lib/hubspotApiUtils.ts:98-104 | a formatted key is present exactly when some name formats to it, and holds that property's value |
| PrefixCodec.StripNamesAndValues | caddie-server/src/lib/hubspotApiUtils.ts:116-123 | stripping renames each property in place and keeps every value |
| PrefixCodec.LaterPropertyWins | caddie-server/src/lib/hubspotApiUtils.ts:98-104 | `x` and `golf_x` collide on `golf_x` and the later value is kept |
| PrefixCodec.FormatIdempotent | caddie-server/src/lib/hubspotApiUtils.ts:100-101 | formatting twice equals formatting once |
| PrefixCodec.StripFormatKey | caddie-server/src/lib/hubspotApiUtils.ts:100-119 | stripping a formatted name restores it, unless the name already started with `prefix_` |
| PrefixCodec.FormatKeyInjective | caddie-server/src/lib/hubspotApiUtils.ts:100-104 | formatting merges no two names that do not start with `prefix_` |
| PrefixCodec.StripFormatRoundTrip | caddie-server/src/lib/hubspotApiUtils.ts:95-126 | if no name starts with `prefix_`, strip(format(m)) == m |
| SignatureValidation.ReplaceAllLength | caddie-server/src/lib/signatureValidation.ts:26 | a global replace of an n-character escape by one character shortens by n − 1 per occurrence |
| SignatureValidation.ReplaceAllAbsent | caddie-server/src/lib/signatureValidation.ts:26 | a string without the escape is unchanged |
| SignatureValidation.ReplaceAllRemoves | caddie-server/src/lib/signatureValidation.ts:26 | no occurrence of the escape survives its global replace |
| SignatureValidation.ReplaceAllKeepsAbsent | caddie-server/src/lib/signatureValidation.ts:26 | a replace introduces no string that lacks the replacement character |
| SignatureValidation.DecodeTableWellFormed | caddie-server/src/lib/signatureValidation.ts:9-22 | the 12 escapes are three characters starting with `%`, and no decoded character occurs in any escape |
| SignatureValidation.DecodeHubSpotUri | caddie-server/src/lib/signatureValidation.ts:8-29 | no escape of the table is left in the decoded path, a path without escapes comes back unchanged, and every replacement shortens it by two characters |
| SignatureValidation.DecodeUsesTable | caddie-server/src/lib/signatureValidation.ts:24-28 | the decoder equals the reference definition that applies the whole table's rows one after another, first row first |
| SignatureValidation.DecodeWithTable | caddie-server/src/lib/signatureValidation.ts:9-28 | applying the whole table leaves no escape, keeps an unescaped path, and shortens by two per replacement |
| SignatureValidation.DecodeShortens | caddie-server/src/lib/signatureValidation.ts:26 | output length is input length minus 2 per replacement, never longer |
| SignatureValidation.NoEscapeRemains | caddie-server/src/lib/signatureValidation.ts:24-28 | none of the 12 escapes remains after decoding |
| SignatureValidation.UnescapedUnchanged | caddie-server/src/lib/signatureValidation.ts:9-26 | a path with none of the escapes, in particular one with no `%`, is unchanged |
| SignatureValidation.DecodeIdempotent | caddie-server/src/lib/signatureValidation.ts:24-28 | decoding twice equals decoding once |
| SignatureValidation.OtherEscapesKept | caddie-server/src/lib/signatureValidation.ts:9-22 | lower-case `%3a` and unlisted `%20` survive |
| SignatureValidation.Protocol | caddie-server/src/lib/signatureValidation.ts:48 | the forwarded protocol if given, else http for a localhost host and https otherwise |
| SignatureValidation.Hostname | caddie-server/src/lib/signatureValidation.ts:53 | the host up to its first `:`, or the whole host when that part is empty |
| SignatureValidation.HostnameDropsPort | caddie-server/src/lib/signatureValidation.ts:53 | `name:port` gives `name` |
| SignatureValidation.MethodOf | caddie-server/src/lib/signatureValidation.ts:70 | the request method, `GET` when it is missing |
| SignatureValidation.RequestBody | caddie-server/src/lib/signatureValidation.ts:61-64 | empty for GET in any case, for no method and for a null or undefined body; else the JSON text; a throwing serialisation is None |
| SignatureValidation.GetInAnyCase | caddie-server/src/lib/signatureValidation.ts:62 | `get`, `Get` and `GET` all sign an empty body |
| SignatureValidation.BuildInput | caddie-server/src/lib/signatureValidation.ts:66-74 | the checked input carries v3, the headers, the method, the full URL and the body |
| SignatureValidation.ValidateRequestSignature | caddie-server/src/lib/signatureValidation.ts:31-89 | bypass accepts; a missing header rejects; otherwise accept exactly when the input was built and the check returned a match |
| SignatureValidation.AcceptedMeansMatched | caddie-server/src/lib/signatureValidation.ts:66-84 | an accepted, non-bypassed request had both headers and a matching check on its signature and URL |
| SignatureValidation.FailingCheckRejects | caddie-server/src/lib/signatureValidation.ts:76-88 | when the check never matches, a non-bypassed request is rejected |
| SignatureValidation.FullUrl | caddie-server/src/lib/signatureValidation.ts:56-57 | the URL starts with the protocol and `://`, ends with the decoded path, and holds exactly the hostname between them |
| SignatureValidation.SignedUrl | caddie-server/src/lib/signatureValidation.ts:53-57 | for a host `name:port` and a path without `%`, the signed URL is the protocol, `://`, the name and the path as received |
| SignatureValidation.BypassSkipsCheck | caddie-server/src/lib/signatureValidation.ts:32-36 | a host containing `localhost`, or the development environment, is accepted even with no signature headers |
| SignatureValidation.ProductionNeedsHeaders | caddie-server/src/lib/signatureValidation.ts:38-44 | in production, a request to another host without the signature header is rejected |
| SignatureValidation.UrlStartsWithScheme | caddie-server/src/lib/signatureValidation.ts:57 | the URL starts with the protocol and `://` |
| SignatureValidation.CheckedUrlIsHttps | caddie-server/src/lib/signatureValidation.ts:33-57 | a checked request without a forwarded protocol is checked against an https URL |
| SignatureValidation.CheckedPathDecoded | caddie-server/src/lib/signatureValidation.ts:49-57 | the URL is protocol, `://`, hostname and the decoded path, which holds none of the escapes |
| SignatureValidation.UnsignedBodyIgnored | caddie-server/src/lib/signatureValidation.ts:61-64 | for GET or no method the body never affects the verdict |
| GolfRoundForm.TwoDigits | hs-contact-caddie/src/app/cards/GolfRoundForm.tsx:26-27 | padding a number below 100 gives two digits reading back as it |
| GolfRoundForm.ConvertDateToString | hs-contact-caddie/src/app/cards/GolfRoundForm.tsx:24-29 | the `YYYY-MM-DD` string parses back to the picked date, and its year has no leading zero |
| GolfRoundForm.DateStringShape | hs-contact-caddie/src/app/cards/GolfRoundForm.tsx:24-29 | digits, `-`, two digits, `-`, two digits |
| GolfRoundForm.HandleSubmit | hs-contact-caddie/src/app/cards/GolfRoundForm.tsx:31-51 | no call and no change when the guard fails; otherwise the payload with only the date converted, then the initial form |
| GolfRoundForm.IsValid | hs-contact-caddie/src/app/cards/GolfRoundForm.tsx:53 | a form that enables the button, with a holes choice, passes the handler's guard |
| GolfRoundForm.ValidFormSubmits | hs-contact-caddie/src/app/cards/GolfRoundForm.tsx:32-53 | a valid form always passes the submit guard |
| GolfRoundForm.SubmitThenResubmit | hs-contact-caddie/src/app/cards/GolfRoundForm.tsx:45-53 | after a submit the form is empty: neither guard nor `isValid` passes |
| GolfRoundForm.HandlerAcceptsWhatButtonRefuses | hs-contact-caddie/src/app/cards/GolfRoundForm.tsx:32-53 | the handler's guard is strictly weaker than `isValid` (blank course, zero score) |
| HandicapCard.PlayerName | hs-contact-caddie/src/app/cards/Handicap.tsx:22-27 | `'` after a name ending in s, `'s` after any other, `Player's` for no name |
| HandicapCard.PossessiveShape | hs-contact-caddie/src/app/cards/Handicap.tsx:22-27 | the possessive starts with the name and ends in `'` or `'s` |
| HandicapCard.SignPrefix | hs-contact-caddie/src/app/cards/Handicap.tsx:35 | `-` exactly for a handicap above zero, `+` otherwise |
| HandicapCard.SignFollowsDifferentials | hs-contact-caddie/src/app/cards/Handicap.tsx:35 | every round at least 0.1 over the standard shows `-`; no round above the standard shows `+` |
| HandicapCard.RenderStatContent | hs-contact-caddie/src/app/cards/Handicap.tsx:56-86 | official label; initial label with the 20-round warning; tracking label with the 5-round warning |
| HandicapCard.ContentByRoundCount | hs-contact-caddie/src/app/cards/Handicap.tsx:15-86 | the label follows the round count: 20 and more, 5 to 19, under 5 |
| HandicapCard.LatestRound | hs-contact-caddie/src/app/cards/Handicap.tsx:16-19 | a round with the newest date when there are rounds, namely the first round of that day in the order received; else the previous value |
| HandicapCard.LatestTieGoesToFirst | hs-contact-caddie/src/app/cards/Handicap.tsx:16-18 | worked example: of two rounds on the same day, the one listed first is the latest |
| GolfRoundsCard.Shown | hs-contact-caddie/src/app/cards/GolfRounds.tsx:22 | the first min(n, 20) rounds, in the order received |
| GolfRoundsCard.ShownIsHandicapWindow | hs-contact-caddie/src/app/cards/GolfRounds.tsx:53 | rounds arriving newest first are shown as exactly the handicap's window |
| GolfRoundsCard.SeriesLabel | hs-contact-caddie/src/app/cards/GolfRounds.tsx:25 | "9 hole rounds" iff holes is "9", else "18 hole rounds" |
| GolfRoundsCard.TruncateScore | hs-contact-caddie/src/app/cards/GolfRounds.tsx:26 | the score's integer part, toward zero |
| GolfRoundsCard.WholeScoreCharted | hs-contact-caddie/src/app/cards/GolfRounds.tsx:26 | a whole score is charted as it is |
| GolfRoundsCard.TrendsOf | hs-contact-caddie/src/app/cards/GolfRounds.tsx:22-28 | one point per round, position by position, with its date, series and truncated score |
| GolfRoundsCard.ScoreTrends | hs-contact-caddie/src/app/cards/GolfRounds.tsx:21-29 | one point per shown round with its date, series and truncated score |
| GolfRoundsCard.CountLabel | hs-contact-caddie/src/app/cards/GolfRounds.tsx:33 | the label starts with "Showing the last " and ends with " rounds played" for more than one round, " round played" otherwise |
| GolfRoundsCard.CountLabelReadsBack | hs-contact-caddie/src/app/cards/GolfRounds.tsx:33 | the label holds min(n, 20) in decimal without a leading zero, and `rounds` iff n > 1 |
| GolfRoundsCard.CountLabelMatchesShown | hs-contact-caddie/src/app/cards/GolfRounds.tsx:33 | the label agrees with the number of rows shown |
| GolfRoundsCard.HolesCell | hs-contact-caddie/src/app/cards/GolfRounds.tsx:57 | empty holes show "N/A", anything else as stored |
| GolfRoundsCard.OptionalNumberCell | hs-contact-caddie/src/app/cards/GolfRounds.tsx:63-64 | a missing or zero rating or slope shows "-" |
| GolfRoundsCard.CellsShowEffectiveValues | hs-contact-caddie/src/app/cards/GolfRounds.tsx:63-64 | where a dash appears the engine uses the default 72 or 113; where a number appears it is the value the engine uses |
| GolfRoundsCard.HolesCellAgreesWithChart | hs-contact-caddie/src/app/cards/GolfRounds.tsx:57 | the holes cell reads "9" exactly for the chart's nine-hole series, the rounds whose score the engine doubles |
| GolfRoundsCard.RowsOf | hs-contact-caddie/src/app/cards/GolfRounds.tsx:53-80 | one table row per shown round, in order |
| GolfRoundsCard.Render | hs-contact-caddie/src/app/cards/GolfRounds.tsx:111-113 | nothing when hidden; otherwise as many rows as points, min(n, 20), and the count label |
| GolfRoundsCard.TableAndChartAgree | hs-contact-caddie/src/app/cards/GolfRounds.tsx:22-53 | row i and point i describe the same, i-th received round |

## Left out

- The Redis reads and writes and the JSON round trip of the token record. The store is a map holding the record itself, so a record that fails to parse is not modelled.
- The OAuth refresh call. It is a function parameter from refresh token to outcome, and a store write that throws is a flag.
- Client construction in `getAuthorizedHubSpotClient`. It wraps `getValidAccessToken`, which is modelled.
- `Signature.isValid`. It is a foreign HMAC check and is modelled as a parameter whose result is a match, a mismatch or a throw.
- `JSON.stringify` of the body. A body is undefined, null, already-serialised JSON text, or a value whose serialisation throws.
- `Number(timestamp)`. The timestamp header is passed to the check as its text.
- Header values that arrive as arrays, and the log output.
- `handleHubSpotError`, `parseHubSpotResponse`, the API route handlers and the card's fetch wrappers in `api.ts`. These are network and response plumbing.
- JSX rendering and the static pages.
- The date cell's `toLocaleDateString`, `toString` of numbers, and `parseInt` on exponent notation.
- IEEE-754 arithmetic: rounding error, NaN from a NaN slope or rating, and invalid dates in the sort comparator. Numbers are exact reals and dates are integers.
- The in-place mutation of the caller's array by `Array.prototype.sort`. The sort returns a new sequence.
- JavaScript's ordering of integer-like object keys before other keys. An object is its properties in insertion order.
- PrefixCodec.StripAppObjectPrefix: a name that strips to `__proto__` is assigned through the prototype setter in JavaScript (hubspotApiUtils.ts:119 and :121), so it creates no own property and is missing from the result; the model keeps it as an ordinary key.
- Concurrent refreshes of one portal, which race with no coordination in the code.
- Case conversion and trimming beyond ASCII. `toUpperCase` is modelled on `a`–`z`, and `trim` on space, tab, line feed, carriage return, vertical tab, form feed, no-break space and the byte-order mark; other Unicode spaces are not removed.
- The date picker's month numbering, which the date string passes through as given.
- SignatureValidation.OtherEscapesKept: states survival of unlisted and lower-case escapes on two sample strings, not for all strings; the general form is UnescapedUnchanged.

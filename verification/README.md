# OTA-Service: a verified model

OTA-Service decides which firmware release each enrolled device may be offered,
hands out the signed manifest of that release, and delivers its bytes. This
project models the rules behind that, in Dafny, and proves what a fleet operator
relies on: that policies never become ambiguous, that an offer can always be
downloaded and matches its signed manifest, that devices only move up, that
stored releases are never damaged by later uploads, that quotas hold, and that
revoked administrators stay revoked.

## How it is laid out

| file | what it holds |
|---|---|
| `Wrappers`, `Text` | results and options; decimal rendering, splitting, trimming |
| `Tables` | the rows, the coded errors and the database session (commit, rollback) |
| `Version`, `UpdatePath` | version triples; URL paths, object keys and their length budgets |
| `Policy`, `PolicyService` | what a policy may say, which one governs, and the calls that edit them |
| `Der`, `Manifest` | the signature screen, the manifest field rules and the signed payload |
| `RateLimit` | the fixed-window limiter and its garbage collection |
| `Devices`, `DeviceAuth` | device types, devices, tokens and the authentication of requests |
| `Registry` | what the calls on device types, devices and tokens accept and write, column by column |
| `Firmware`, `ReleaseSafety` | the release store with its compensating actions, and what it keeps |
| `UpdateDecision`, `Ota`, `OtaSafety` | the offer gate, the delivery gate, both endpoints, and how they agree |
| `World` | every call as a step of one state machine, the invariant, and whole-run theorems |
| `Lifecycle`, `Upgrades`, `Delivery` | one device over a whole run: identity, retirement, upgrades, and from a manifest to its bytes |
| `Publishing` | what an upload has to be, what the lifecycle calls do to the devices, and signatures, over a whole run |
| `Contract` | what each answer to a device means, and what each request records |
| `Quota`, `Evidence` | the limiter behind the endpoints, and what the attempts table says of downloads, over a whole run |
| `Streaming` | the two nested generators of a download and its evidence row |
| `Admin`, `Passwords` | administrative accounts and sessions, and which password opens an account, over whole runs |

Services that change rows are classes whose methods work on a shared session, an
object store or a table field. Each method is proved against a specification
function on table values (`Settles`, `Answers`), and the theorems are about those
functions. What each call stores is then stated again in the columns of the rows,
without the specification's helpers, and carried on to what devices and
administrators get to see. A call ends committed, or refused and rolled back; runs are serial.
Object-store faults, the reachability of the store, clock readings, salts, the
limiter's answers and the deployment's settings (delivery base URL, whether
signatures are checked) are parameters of each call, so a theorem over all runs
covers every choice of them, and every change of settings in between.

## The main results

* **No conflict, ever.** In every state reachable from empty tables by any run of
  calls of any kind, policy resolution reports no conflict, for every device and
  instant (`World.ConflictIsUnreachable`). The write-time test behind it is exact:
  it refuses a pair precisely when some device could see a tie
  (`Policies.ClashIffTie`). The resolver returns the unique best policy, whatever
  the row order (`PolicyRules.ResolveMeetsSpec`, `Policies.GovernsIff`).
* **The right policy governs.** Column by column, a stored policy governs a device iff
  it applies and comes before every other one that does (`Policies.GovernsIff`); each
  call stores exactly what it was given (`Policies.UpdateStores`), and a policy that is
  raised above the others of its scope governs from then on
  (`Policies.RaisedPolicyGoverns`).
* **Publication is what reaches devices.** In every run, from a successful publication
  until the release is deprecated or archived, every poll of a device that awaits it,
  let past by the limiter while the store can be read, is served that release or one at
  least as new (`Publishing.PublishedIsOffered`), and a release that is neither published
  nor deprecated is served by neither endpoint until a call publishes it again
  (`Publishing.ServedMeansPublishedSince`).
* **Signatures that were checked are genuine.** An upload passes iff it is what its
  manifest says and, where signatures are checked, the verifier accepts the signature
  for exactly `version|url|md5|size` (`Publishing.UploadPassesIff`); a release marked
  as checked has such a signature in every reachable state
  (`Publishing.MarkedMeansGenuine`), and where every publication was made under that
  setting so has everything deliverable (`Publishing.DeliverableIsGenuine`).
* **The answer is the table's.** Each reason a poll can be given is given exactly in its
  own case, in terms of the rows (`Contract.PollIsAnsweredByTable`), and likewise for
  downloads (`Contract.DownloadIsAnsweredByTable`).
* **Releases are immutable and own their objects.** No two releases share an
  object, every release matches its stored objects and its type's current path,
  and neither failed nor successful later calls change its row (but for the
  status) or its bytes (`World.ObjectsHaveOneOwner`, `World.ReleasesAreIntact`,
  `World.ReleasesAreImmutable`, `World.UploadedBytesStay`). Integrity failures are
  unreachable while the store answers (`World.OutageMeansStore`).
* **A signed manifest is good for as long as its release may be delivered.** In every
  run, whatever happens between a served manifest and any later download of its URL
  by the same device that the limiter lets past while the store can be read, the
  download is served exactly when the release is published or deprecated by then, the
  device is active and enabled, and its policy permits the release; and it brings the size and checksum the manifest stated
  (`Delivery.OfferedThenDelivered`). Followed at once it is always served
  (`Delivery.DeliveredAtOnce`), and a deprecation in between takes nothing away
  (`OtaSafety.DeprecationKeepsDelivery`). The two separately coded gates agree on
  every published release (`UpdateDecisions.GatesAgree`).
* **Devices only climb.** Under any interleaving, a device that reports and
  installs never goes down, installs at most as often as its type published
  distinct greater version numbers, and then rests (`Upgrades.NoDowngrade`,
  `Upgrades.InstallsAreBounded`, `Upgrades.InstalledThenRests`). Greater is numeric:
  major first, patch last (`Version.OrderIsNumeric`).
* **Identity and retirement.** An authenticated device has one type, serial and
  address for as long as its row exists, and a retired one is served nothing until
  it was in fact moved to DISABLED, later to ACTIVE, and explicitly enabled
  (`Lifecycle.AuthenticatedIdentityIsFixed`, `Lifecycle.RetirementLasts`).
* **Quotas.** Any half-open interval of `k` windows admits at most
  `(k + 1) * limit - 1` calls of one key, a bound that is attained for every limit,
  window and `k`, and garbage collection is invisible (`RateLimiting.RateBound`,
  `RateLimiting.RateBoundIsTight`, `RateLimiting.SweepIsInvisible`). Within one window
  the limit's worth is admitted, first come first served (`RateLimiting.WindowIsExact`).
  At the endpoints the bound is how many requests of one device get past the limiter,
  whatever everybody else does (`Quota.QuotaHolds`), and a request is refused only if
  the device's own requests have used its quota up (`Quota.OnlyOwnRequestsCount`).
* **True evidence.** In every run the recorded deliveries are, with their repetitions,
  among the responses served before, to that device, of that release and size
  (`Evidence.RecordedWithinServed`, `Evidence.RecordedMeansServed`).
* **Exact streaming, exact screens.** A download is recorded as served exactly when
  its callback ran, which is exactly when iteration ended with the announced bytes
  (`Streaming.CompletionIsExact`, `Streaming.Deliver`); the signature screen decides
  its grammar on every byte string, and how far that is from DER is stated exactly
  (`Der.IsDerEcdsaSignature`, `Der.AcceptedIsDerIff`); the signed payload is uniquely
  decodable (`ManifestRules.PayloadIsUniquelyDecodable`).
* **Administrators.** An active super administrator always remains, and a token
  opens its account exactly while the clock is between its issue and its expiry, the
  account is active, and no deactivation, change of role or change of password has
  succeeded since
  (`Admin.SuperAdminRemains`, `Admin.TokenLivesExactly`). Where hashing is faithful, the
  last password given to an account is the only one that opens it, whatever happens in
  between, logins that renew the stored hash included
  (`Passwords.LastGivenPasswordOpens`).

## Where the code differs from its documentation

* The repository's README.md, SECURITY.md and architecture decision records say that a
  request with another eFuse MAC is refused. `app/services/device_auth.py:58-63` never
  rejects on it. Whoever gets in also gets in with a header that is no address at all
  (`DeviceAuth.MismatchedMacGetsIn`), so the rule is met exactly while no admitted
  device has a usable token (`DeviceAuth.MacHonouredIff`).
* Device tokens have an `expires_at` column that `app/services/device_tokens.py:79-85`
  does not test: whatever is written there changes no answer
  (`DeviceAuth.ExpiryIsNotTested`), and expiry would be honoured exactly when no usable
  token of an admitted device has expired (`DeviceAuth.ExpiryHonouredIff`). Since no
  call writes the column, that is so in every reachable state (`World.NoTokenExpires`).
* The comment on `app/services/ota.py:356-362` speaks of published releases only;
  `app/services/firmware.py:319-339` also delivers deprecated ones, as that function's
  own comment explains. `OtaSafety.ReleaseIsServedIff` says exactly when.
* `app/domain/manifest.py:143-185` is described as a DER check. An accepted string is
  DER iff its three lengths are in short form, as section 10.1 of ITU-T X.690 demands,
  and both integers are minimal, as section 8.3.2 does (`Der.AcceptedIsDerIff`);
  `Der.LongFormIsNotDer` and `Der.PaddedPairAccepted` are one accepted input for each.
* Patterns of the form `^...$` used with `match` let one final newline through. The
  model keeps it. Path and payload injectivity hold all the same; two spellings of
  one version number exist (`Version.NewlineSpellingCollides`), and equality of
  strings is equality of numbers exactly when both agree about the newline
  (`Version.ParseDecidesEquality`).
* The endpoint comment at `app/api/v1/admin_auth.py:168` says that a password change
  ends every other session. It ends the caller's own as well
  (`Admin.RevokedForGood` makes no exception).
* A manifest put that raises although the object landed is not cleaned up, because
  its key is recorded only after the put, unless the artifact itself is called
  manifest.json, when the artifact's key is the same
  (`ReleaseSafety.LandedManifestIsLeftUnlessShared`).
  `ReleaseSafety.FailedUploadLeavesNothingIff` gives the exact condition for every
  failed upload, also onto keys that an earlier failure left in use.
* `windows_overlap` takes an empty window for overlapping (`PolicyRules.EmptyWindowOverlaps`);
  validation excludes empty windows, and then the test is exact.

## Model

| member | source | states |
|---|---|---|
| Version.ValidIffMatches | app/domain/version.py:13-19 | the validity test accepts exactly three dot-separated decimal numbers without leading zeros, one final newline allowed, within fifteen characters |
| Version.PrintOfParse | app/domain/version.py:22-30 | printing the parsed triple restores the version up to its final newline |
| Version.ParseOfPrint | app/domain/version.py:22-30 | every printed triple short enough is accepted back as itself |
| Version.ParseDecidesEquality | app/domain/version.py:22-30 | two accepted versions are the same number iff they are the same string up to the newline |
| Version.NewlineSpellingCollides | app/domain/version.py:13-19 | a concrete pair of different accepted strings with one parse |
| Version.ComponentBound | app/domain/version.py:13-30 | every component of an accepted version is below 10^11 |
| Version.OrderIsNumeric | app/domain/version.py:22-30 | one version is below another iff the number with digits major, minor, patch in base 10^11 is |
| Text.ToNatAppends | app/domain/version.py:22-30 | digits are read in base ten, the most significant first |
| Text.StripCuts | app/services/admin_users.py:227-232 | trimming cuts white space off both ends and nothing else |
| UpdatePath.FirmwareUrl | app/domain/update_path.py:123-138 | every composed URL is shorter than 96 characters |
| UpdatePath.KeysMirrorPaths | app/domain/update_path.py:95-110 | the object key is the URL path without its leading slash and exists exactly when the path does; the manifest key is the key its own filename would get |
| UpdatePath.ValidIsSlashFree | app/domain/update_path.py:45-87 | no accepted code, platform, version or filename contains a slash |
| UpdatePath.SplitOfKey | app/domain/update_path.py:141-157 | splitting a key at slashes recovers code, platform, version and filename |
| UpdatePath.KeysAreInjective | app/domain/update_path.py:148-157 | two object keys are equal only if all four parts are |
| UpdatePath.UrlComposesIff | app/domain/update_path.py:123-138 | composition succeeds iff every part is valid, the three path parts stay within 40 characters and base and parts below 82; and the URL is stripped base, `/firmware/`, code, platform, `v` and version, filename |
| UpdatePath.SlugIff | app/domain/update_path.py:21 | a code or platform has slug form iff, up to one final newline, it is lower-case letters, digits and hyphens with no hyphen first, last or doubled |
| UpdatePath.TypePathAcceptedIff | app/domain/update_path.py:45-87 | code and platform are accepted iff they are slugs of 3 to 24 and 2 to 16 characters and together at most 29 |
| UpdatePath.FilenameAcceptedIff | app/domain/update_path.py:67-75 | a filename is accepted iff, up to one final newline, it is 1 to 32 of the allowed characters and starts with a letter or digit |
| UpdatePath.StripSlashesCuts | app/domain/update_path.py:160-161 | the base URL loses its trailing slashes and nothing else |
| UpdatePath.BudgetSuffices | app/domain/update_path.py:34-42 | every accepted device type composes with every version of at most 11 characters while stripped base URL plus filename stay within 41 |
| Der.ReadDerLength | app/domain/manifest.py:173-185 | the reader returns the length and position the code's length grammar assigns, and refuses exactly when no octets there encode a length |
| Der.IsDerEcdsaSignature | app/domain/manifest.py:143-170 | for every byte string, acceptance iff one 0x30 element exactly filled by two 0x02 elements of 1 to 33 octets |
| Der.LengthIsPrefixFree | app/domain/manifest.py:173-185 | a position holds at most one encoded length |
| Der.SignatureSize | app/domain/manifest.py:143-170 | every accepted signature has 8 to 75 octets |
| Der.LayoutIsUnique | app/domain/manifest.py:143-170 | one accepted signature carries one pair of integers |
| Der.MinimalLengthReadsBack | app/domain/manifest.py:173-185 | reading back the minimal encoding of any length below 2^32 returns it, whatever surrounds it |
| Der.MinimalPairAccepted | app/domain/manifest.py:143-170 | every minimally encoded pair of integers of 1 to 33 octets is accepted |
| Der.LongFormPairAccepted | app/domain/manifest.py:173-185 | the same pair with long-form lengths, which DER forbids, is accepted too |
| Der.LengthsAreDerIff | app/domain/manifest.py:173-185 | the lengths of an accepted string are the ones DER prescribes iff all three are in short form |
| Der.AcceptedIsDerIff | app/domain/manifest.py:143-185 | an accepted string is the distinguished encoding of two integers iff its lengths are in short form and both contents are minimal |
| Der.DerIsAccepted | app/domain/manifest.py:143-170 | every distinguished encoding of two integers of 1 to 33 octets is accepted |
| Der.PaddedPairAccepted | app/domain/manifest.py:143-170 | a concrete accepted string with minimal lengths that is not DER, for a needless leading zero |
| Der.LongFormIsNotDer | app/domain/manifest.py:173-185 | a concrete accepted string with minimal integers that is not DER, for a long-form length |
| ManifestRules.Parse | app/domain/manifest.py:85-140 | the parser, check by check, returns what the field rules say of the decoded object and signature |
| ManifestRules.ParseAcceptsIff | app/domain/manifest.py:85-140 | a manifest parses iff it is 1 to 1024 bytes of an object with exactly the five fields, each within its limits, and its signature is base64 of an acceptable one; the three errors are told apart |
| ManifestRules.ParsedFields | app/domain/manifest.py:85-140 | the parsed manifest carries the fields of its document, the decoded signature and its own bytes |
| ManifestRules.PayloadIsUniquelyDecodable | app/domain/manifest.py:66-68 | equal signed payloads mean equal version, URL, checksum and size, although the URL may contain bars |
| ManifestRules.ParsedPayloadsDiffer | app/domain/manifest.py:66-140 | a signature over one parsed manifest says nothing about any other combination of fields |
| PolicyRules.ValidatePolicyDefinition | app/domain/policy.py:34-86 | a definition is accepted iff it meets the table's scope and type constraints, its versions parse, its range is ordered and its window is not empty |
| PolicyRules.RefusalNamesTheRule | app/domain/policy.py:34-86 | a refusal names the first broken rule: targets, fields, versions, their order, window |
| PolicyRules.OverlapIsExact | app/domain/policy.py:89-112 | two validated windows overlap iff some instant lies in both; the test is symmetric |
| PolicyRules.EmptyWindowOverlaps | app/domain/policy.py:89-103 | a concrete empty window passes the overlap test without sharing an instant |
| PolicyRules.ResolveMeetsSpec | app/domain/policy.py:128-149 | the resolver returns the unique maximum under narrower scope then priority, a conflict iff that maximum is not unique, and never falls back to a wider scope |
| PolicyRules.SpecIsUnique | app/domain/policy.py:128-149 | at most one answer meets that specification |
| PolicyRules.ResolveIgnoresOrder | app/domain/policy.py:128-149 | the outcome does not depend on the order of the rows |
| PolicyRules.LowerRankedRowIsIgnored | app/domain/policy.py:128-149 | adding a row that some row in effect outranks changes nothing |
| Policies.PolicyService.Create | app/services/policies.py:39-93 | creates an active row, or refuses with the first broken rule and leaves the tables alone |
| Policies.PolicyService.Update | app/services/policies.py:95-131 | edits only the fields given, re-checks definition and conflict against the other rows, and refuses archived rows and immutable fields |
| Policies.PolicyService.SetActive | app/services/policies.py:133-148 | activation is refused on conflict and for archived rows |
| Policies.PolicyService.Archive | app/services/policies.py:150-158 | archives and deactivates; archiving twice changes nothing |
| Policies.PolicyService.Restore | app/services/policies.py:160-170 | an archived row comes back inactive |
| Policies.PolicyService.AssertNoConflict | app/services/policies.py:319-346 | the loop refuses iff some other active row has the same target and priority and an overlapping window |
| Policies.PolicyService.ResolveForDevice | app/services/policies.py:250-277 | the answer, for any order in which the rows arrive |
| Policies.UpdateKeepsIdentity | app/services/policies.py:95-131 | an edit keeps scope, type, target and activity |
| Policies.ClashIffTie | app/services/policies.py:319-346 | the write-time test refuses a pair precisely when some device could see the two tie at some instant |
| Policies.ResolveNeverConflicts | app/services/policies.py:250-277 | under the table invariant the read-time conflict branch is unreachable |
| Policies.GovernsIff | app/services/policies.py:250-277 | a stored policy governs a device iff it is active, unarchived, within its window and global, of the device's type or of the device itself, and comes before every other such policy, narrower scope first, then higher priority; none governs iff none applies |
| Policies.CreateStores | app/services/policies.py:39-93 | creation succeeds iff the definition is well formed, its target exists and no active row with the same target and priority is in force at a common instant; it adds one active row with what was asked for |
| Policies.UpdateStores | app/services/policies.py:95-131 | a successful edit stores each of the six values it was given, and leaves every other column and row |
| Policies.UpdateSucceedsIff | app/services/policies.py:95-131 | when an edit is accepted, and when it is refused as unknown, archived or conflicting |
| Policies.SetActiveStores | app/services/policies.py:133-148 | switching is refused for archived rows, and on for rivalled ones; it stores the flag only |
| Policies.ArchiveAndRestoreStore | app/services/policies.py:150-170 | archiving leaves the row inactive and keeps its first time; restoring needs an archived row and leaves it inactive |
| Policies.CreatedPolicyGoverns | app/services/policies.py:39-93 | a created policy that comes before all others in force governs the device |
| Policies.RaisedPolicyGoverns | app/services/policies.py:95-131 | a policy edited to a priority above all others of its scope, with nothing narrower in force, governs the device |
| Policies.WithdrawnPolicyGovernsNobody | app/services/policies.py:133-170 | a policy switched off, archived or restored governs no device at any instant |
| RateLimiting.InMemoryRateLimiter.Allow | app/services/rate_limit.py:79-91 | one call, sweep included, as a function of the window table |
| RateLimiting.InMemoryRateLimiter.Sweep | app/services/rate_limit.py:97-100 | the loop deletes exactly the expired entries |
| RateLimiting.SweepIsInvisible | app/services/rate_limit.py:79-100 | at any threshold, every call in every run with non-decreasing readings is answered as if nothing were ever swept |
| RateLimiting.SweepNeedsMonotoneClock | app/services/rate_limit.py:79-100 | a concrete run with a reading that goes back is answered differently |
| RateLimiting.KeysAreIndependent | app/services/rate_limit.py:79-100 | what one key is answered depends on the calls for that key alone |
| RateLimiting.WindowIsExact | app/services/rate_limit.py:79-91 | of the calls in the window that the first opens exactly the first limit's worth is admitted, sweeps or not |
| RateLimiting.RateBound | app/services/rate_limit.py:79-100 | any half-open interval of k windows admits at most (k + 1) * limit - 1 calls of one key, whatever the other keys and sweeps do |
| RateLimiting.RateBoundIsTight | app/services/rate_limit.py:79-100 | for every limit, window length and k at least 1 a run attains the bound |
| Devices.NormalizeIsIdempotent | app/services/devices.py:29-34 | a normalized address is its own normal form |
| Devices.DeviceService.CreateDeviceType | app/services/devices.py:41-69 | a type is added for an accepted, unused code and platform within budget, or refused |
| Devices.DeviceService.UpdateDeviceType | app/services/devices.py:119-142 | renaming is refused while anything refers to the type; otherwise path rules and unique codes are re-checked |
| Devices.DeviceService.DeleteDeviceType | app/services/devices.py:150-155 | only an unreferenced type is deleted |
| Devices.DeviceService.DeletableTypeIds | app/services/devices.py:157-184 | the batch, one query per table, returns exactly the ids without dependencies |
| Devices.DeviceService.RegisterDevice | app/services/devices.py:186-226 | a provisioned row with a unique serial and address under an active type; a malformed address of either kind is refused, in the order of the checks |
| Devices.DeviceService.ChangeStatus | app/services/devices.py:234-255 | only allowed transitions; retirement clears the OTA flag |
| Devices.DeviceService.ChangeIdentity | app/services/devices.py:257-287 | refused once the identity is locked; otherwise the given fields are written after uniqueness checks |
| Devices.DeviceService.PurgeDevice | app/services/devices.py:289-297 | removes a provisioned device without retained history, and its tokens |
| Devices.DeviceService.DeviceActionEligibility | app/services/devices.py:299-335 | the batch equals the per-device guards |
| Devices.DeviceService.ChangeOtaEnabled | app/services/devices.py:372-376 | writes the flag and nothing else |
| Devices.DeviceService.ChangeTypeActive | app/services/devices.py:144-148 | writes the type's activity and nothing else |
| Devices.DeviceService.AssertKnownVersion | app/services/devices.py:378-401 | an administrator's version is stored if it parses, or cleared |
| Devices.EligibilityMatchesGuards | app/services/devices.py:299-370 | the reported pair is true exactly when an identity update, or a purge, would not be refused by its guard |
| Devices.DeletableMatchesGuard | app/services/devices.py:150-184 | a type is reported deletable iff deleting it succeeds |
| Registry.SpellingsNormalizeAlike | app/services/devices.py:29-34 | twelve letters and digits, in either case, plain, hyphenated or with colons, become their upper-case pairs joined by colons |
| Registry.SubmittedAddress | app/services/devices.py:197-222 | an absent or blank address is stored as none, any other in normal form or refused |
| Registry.TypeIsAdded | app/services/devices.py:41-69 | a type is added iff its path is accepted and its code is free; it is active and the only row written |
| Registry.TypeIsEdited | app/services/devices.py:119-142 | when an edit is accepted, in terms of the referring rows and the other codes, and what it writes |
| Registry.TypeIsSwitched | app/services/devices.py:144-148 | the activity is written, nothing else |
| Registry.TypeIsDeleted | app/services/devices.py:150-155 | a type is deleted iff no device, release or policy refers to it, and only its row goes |
| Registry.DeviceIsRegistered | app/services/devices.py:186-226 | a device is registered iff its type is active, both addresses are acceptable and serial and eFuse address are free; every column of the new row, and which refusal for what |
| Registry.StatusIsChanged | app/services/devices.py:234-255 | the eight accepted changes of status; retirement takes the flag down |
| Registry.IdentityIsChanged | app/services/devices.py:257-287 | an identity is changed iff the device is provisioned without history or tokens and the new values are free; what is written |
| Registry.DeviceIsPurged | app/services/devices.py:289-297 | a device is purged iff it is provisioned and nothing but its tokens refers to it; row and tokens go, all else stays |
| Registry.FlagIsSet | app/services/devices.py:372-376 | the OTA flag is written, nothing else |
| Registry.VersionIsAsserted | app/services/devices.py:378-401 | a parsing version is stored as asserted, none clears both columns, any other is refused |
| DeviceAuth.DeviceTokenService.Issue | app/services/device_tokens.py:45-51 | adds an active token with an unused digest |
| DeviceAuth.DeviceTokenService.Rotate | app/services/device_tokens.py:53-61 | revokes and issues in one transaction, rolled back together |
| DeviceAuth.DeviceTokenService.Revoke | app/services/device_tokens.py:63-68 | marks a token of the given owner revoked |
| DeviceAuth.DeviceTokenService.FindActiveByHash | app/services/device_tokens.py:79-85 | returns the one usable token with the digest, if any |
| DeviceAuth.DeviceAuthService.Authenticate | app/services/device_auth.py:40-74 | answers in the order of the checks and touches only the last-seen time |
| DeviceAuth.IdentifyIsProof | app/services/device_auth.py:40-74 | success iff the serial, an admitted status and an own usable token prove exactly that device; a token failure means the serial is of an admitted device |
| DeviceAuth.GetsInIff | app/services/device_auth.py:40-74 | a caller is the device iff neither header is blank, the serial is its own, it is provisioned or active, and an active unrevoked token of its own has the digest of the secret |
| DeviceAuth.SerialIsReadIff | app/services/device_auth.py:49 | a serial header is read iff, trimmed, it is 1 to 19 digits of a number up to 2^63 - 1 |
| DeviceAuth.LockoutIffNotAdmitted | app/services/device_auth.py:46-70 | with both headers present, 403 means exactly that no admitted device has the serial; the token has no say |
| DeviceAuth.MacIsNotEnforced | app/services/device_auth.py:58-63 | no MAC header changes any outcome |
| DeviceAuth.MismatchedMacGetsIn | app/services/device_auth.py:58-63 | every request that gets in gets in with the header "x" too, which matches no device |
| DeviceAuth.MacHonouredIff | app/services/device_auth.py:40-74 | nobody gets in with an address other than the device's iff no admitted device has a usable token |
| DeviceAuth.RevokedTokenIsUseless | app/services/device_tokens.py:63-85 | a revoked secret proves nothing to anybody |
| DeviceAuth.RotationReplaces | app/services/device_tokens.py:53-61 | after a rotation the new secret proves the device and the old one proves nothing |
| Registry.IssuedTokenWorks | app/services/device_tokens.py:45-51 | an issued token has an unused digest, is the only row written, and gets an admitted device in at once |
| Registry.TokenIsRevoked | app/services/device_tokens.py:63-68 | revoking needs a token of the named owner, stamps it and leaves it dead |
| Registry.TokenIsRotated | app/services/device_tokens.py:53-61 | rotation needs a token of the device and an unused digest; one token dies with its first revocation time, one is added, no other is touched |
| DeviceAuth.ExpiryIsNotTested | app/services/device_tokens.py:79-85 | no expiry written into any token changes the answer to any request |
| DeviceAuth.ExpiryHonouredIff | app/services/device_tokens.py:79-85 | nobody gets in on an expired token iff no usable token of an admitted device has expired |
| Firmware.FirmwareService.Create | app/services/firmware.py:108-230 | the whole upload, committed or compensated, for every combination of faults |
| Firmware.FirmwareService.CheckUpload | app/services/firmware.py:129-159 | the gate before anything is written, in the order of its checks |
| Firmware.FirmwareService.PrepareUploadedManifest | app/services/firmware.py:453-517 | parse, cross-check against version, checksum, size and URL, and the signature gate |
| Firmware.FirmwareService.WriteObjects | app/services/firmware.py:172-211 | which objects exist and which keys are to be cleaned up after each possible fault |
| Firmware.FirmwareService.DiscardObjects | app/services/firmware.py:530-538 | removes each written key it can reach |
| Firmware.FirmwareService.Publish | app/services/firmware.py:377-404 | publishes a validated or draft release whose stored artifact was read back intact |
| Firmware.FirmwareService.Deprecate | app/services/firmware.py:406-412 | only a published release is deprecated |
| Firmware.FirmwareService.Archive | app/services/firmware.py:414-420 | any settled, unarchived release is archived |
| Firmware.FirmwareService.Restore | app/services/firmware.py:422-431 | an archived release comes back as a draft |
| Firmware.FirmwareService.MakeDraft | app/services/firmware.py:369-375 | only a validated release becomes a draft |
| ReleaseSafety.SoundReleasesAreIntact | app/services/firmware.py:172-228 | keys are those of the type's current path, the URL was composed from it under some base URL, the rows agree, and the store holds the matching artifact and manifest |
| ReleaseSafety.SettingsDoNotMatter | app/services/firmware.py:89-106 | what is kept of releases does not depend on the settings in force |
| ReleaseSafety.KeysBelongToOneRelease | app/domain/update_path.py:141-157 | no two releases own one key, also when an artifact is called manifest.json |
| ReleaseSafety.UploadSparesOthers | app/services/firmware.py:172-230 | an upload that fails or succeeds never removes or overwrites an object of a committed release, and a failed one changes no table |
| ReleaseSafety.UploadHoldsBytes | app/services/firmware.py:172-228 | after a commit the store holds the uploaded manifest byte for byte and an artifact of the uploaded size and checksum |
| ReleaseSafety.UploadAddsOneRow | app/services/firmware.py:108-230 | a commit adds one row at a fresh id for a version the type did not have |
| ReleaseSafety.UploadKeepsSound | app/services/firmware.py:108-230 | every upload keeps the release invariant |
| ReleaseSafety.FailedUploadLeavesNothingIff | app/services/firmware.py:172-226 | every upload that fails after its checks leaves neither object iff each was absent and not written, or its key was recorded and could be removed; equal keys and keys already in use included |
| ReleaseSafety.LandedManifestIsLeftUnlessShared | app/services/firmware.py:172-226 | a manifest put that lands and raises leaves the manifest behind, unless both keys are one |
| ReleaseSafety.UpdateTypeKeepsSound | app/services/devices.py:119-142 | because identity is locked while releases exist, no key goes stale |
| ReleaseSafety.PublishSucceedsIff | app/services/firmware.py:377-404 | publishing a sound release succeeds iff the status allows it, the store can be read and, where signatures are checked by now, the signature was checked at upload |
| Publishing.SignatureIsChecked | app/services/firmware.py:453-517 | a parsed manifest passes iff it says what was uploaded and, where signatures are checked, the verifier accepts its signature for `version|url|md5|size`; the first disagreement is the one reported |
| Publishing.UploadPassesIff | app/services/firmware.py:129-159 | an upload passes its checks iff type, version, filename, size, manifest, composed URL and signature are all as required |
| Publishing.UploadCommitsIff | app/services/firmware.py:108-230 | it commits iff moreover every write, the read-back and the commit succeed; an artifact called manifest.json only if the manifest has its size and checksum |
| Publishing.UploadedRow | app/services/firmware.py:160-228 | every column of the row of a committed upload: validated, and marked as verified iff signatures were checked |
| Publishing.PublishWrites | app/services/firmware.py:377-404 | exactly when publishing succeeds, and that it makes the release published and writes nothing else |
| Publishing.TransitionsWrite | app/services/firmware.py:369-431 | from which statuses drafting, deprecating, archiving and restoring succeed, to which they lead, and that they write nothing else |
| Publishing.StepMovesStatus | app/services/firmware.py:369-431 | no call but these five moves a status, each along its own arrows |
| Publishing.AwaitedIsOffered | app/services/update_decision.py:135-224 | while a release is published, a poll of a device that awaits it is served a manifest of a published release at least as new |
| Publishing.PublishedIsOffered | app/services/firmware.py:377-404 | in every run the same holds from a successful publication until the release is deprecated or archived |
| Publishing.WithdrawnIsNotDelivered | app/services/ota.py:353-376 | a release that is neither published nor deprecated does not resolve, and no download is answered with it |
| Publishing.ServedMeansPublishedSince | app/services/firmware.py:414-431 | in every run a release that was not deliverable is served by neither endpoint until a call has published it |
| Publishing.MarkedMeansGenuine | app/services/firmware.py:503-517 | in every reachable state the verifier accepts the signature of a release marked as verified, for the fields of its row |
| Publishing.DeliverableIsGenuine | app/services/firmware.py:384-387 | where every publication was made with signatures checked, so it does for everything published or deprecated |
| UpdateDecisions.KnownVersion | app/services/update_decision.py:302-321 | a known version always parses |
| UpdateDecisions.MaxByVersion | app/services/update_decision.py:184-224 | a candidate than which no other is numerically newer |
| UpdateDecisions.NarrowKeepsPermitted | app/services/update_decision.py:276-292 | narrowing keeps exactly the published releases the policy permits |
| UpdateDecisions.UpdateDecisionService.PublishedReleases | app/services/update_decision.py:255-274 | the loop returns exactly the type's published releases whose version parses |
| UpdateDecisions.UpdateDecisionService.Decide | app/services/update_decision.py:135-224 | the decision meets the documented rule: gates in order, best permitted candidate, offered iff strictly newer than the known version |
| UpdateDecisions.UpdateDecisionService.DeliveryAllowed | app/services/update_decision.py:226-253 | the delivery gate lets the bytes go iff the governing policy permits the release |
| UpdateDecisions.AllowsIffPermits | app/services/update_decision.py:226-253 | bytes may be delivered iff the governing policy permits the release |
| UpdateDecisions.GatesAgree | app/services/update_decision.py:226-292 | a published release survives the offer gate iff the delivery gate accepts it |
| UpdateDecisions.OfferIsEntitled | app/services/update_decision.py:102-224 | an offer is of a published release of the own type, strictly newer, permitted, to an active enabled device |
| UpdateDecisions.DecisionIsDetermined | app/services/update_decision.py:135-224 | two decisions of one state agree in all but the spelling of the version |
| UpdateDecisions.InstalledMeansNoUpdate | app/services/update_decision.py:184-224 | once the offered version or a later one is the known version, the same tables answer that there is no update |
| Ota.OtaService.Manifest | app/services/ota.py:102-203 | a poll: authentication, quota, reported version, decision, stored bytes, recorded offer |
| Ota.OtaService.Download | app/services/ota.py:207-349 | a download: authentication, quota, eligibility, resolution, delivery gate, opened object of the published size |
| Ota.OtaService.FindRelease | app/services/ota.py:353-376 | the one deliverable release with that version and filename, if any |
| Ota.LimiterKeysAreInjective | app/services/ota.py:378-384 | devices and surfaces never share a quota |
| OtaSafety.PollChangesEvidenceOnly | app/services/ota.py:102-203 | a poll changes timestamps, version columns and attempts only |
| OtaSafety.DownloadChangesEvidenceOnly | app/services/ota.py:207-349 | so does a download |
| OtaSafety.ServedMeansOffered | app/services/ota.py:141-203 | a served manifest is the stored object of the release the decision offered |
| OtaSafety.PollOutageMeansStore | app/services/ota.py:170-182 | in a sound state a poll's outage means that the store could not be read |
| OtaSafety.DownloadOutageMeansStore | app/services/ota.py:287-327 | likewise for downloads: the size never mismatches |
| OtaSafety.PollLocksOutIff | app/services/ota.py:403-422 | a poll is answered 403 iff both headers are present and no admitted device has the serial |
| OtaSafety.UrlRoutesToRelease | app/domain/update_path.py:123-138 | the URL of a release routes to the release's own path segments |
| OtaSafety.ResolvesToItself | app/services/ota.py:353-376 | a deliverable release is what its own version and filename resolve to |
| OtaSafety.ReleaseIsServedIff | app/services/ota.py:232-349 | a request for a release's own version and filename by a device of its type is served iff the release is published or deprecated, the device eligible and the policy permits it; and then with the manifest's size and checksum |
| OtaSafety.DeprecationKeepsDelivery | app/services/firmware.py:319-339 | after a release is deprecated the same request is served the same bytes |
| Contract.PollStatusIs | app/services/ota.py:386-446 | the status code of a poll from the request and the tables: 401, 403, 429, 404, 503, 200 each exactly in its case |
| Contract.DownloadStatusIs | app/services/ota.py:386-446 | the same for downloads |
| Contract.OfferNamesItsRule | app/services/update_decision.py:184-300 | an offer gives the rule it was made by and names the governing policy |
| Contract.PollIsAnsweredByTable | app/services/update_decision.py:102-224 | each reason a poll can be given is given exactly in its own case, and something is offered iff something permitted is newer than the known version |
| Contract.DownloadIsAnsweredByTable | app/services/ota.py:232-349 | refusals in their order, then the one release the path names, blocked or served with the size and checksum of its row |
| Contract.PollIsRecorded | app/services/ota.py:102-203 | every column and row a poll writes, and when it records an offer |
| Contract.DownloadIsRecorded | app/services/ota.py:207-349 | a download writes the last-seen time of an authenticated device and nothing else |
| Contract.CompletionIsRecorded | app/services/ota.py:493-562 | a completed delivery is recorded once, with the version known by then and the bytes served, if both rows exist |
| World.StepKeepsSound | app/api/v1/policies.py:135-140 | every call, committed or rolled back, keeps the invariant over all tables and objects |
| World.RunIsSound | app/api/v1/policies.py:135-140 | every state of every run from empty tables satisfies the invariant |
| World.ConflictIsUnreachable | app/services/policies.py:250-277 | no reachable state has a policy conflict for any device at any instant |
| World.ObjectsHaveOneOwner | app/services/firmware.py:108-230 | in no reachable state do two releases share an object |
| World.ReleasesAreIntact | app/services/firmware.py:369-431 | in every reachable state every release agrees with its objects and its type's path, under whatever settings each call ran |
| World.ReleasesAreImmutable | app/services/firmware.py:108-230 | once committed, a release's row but for its status and its objects never change again |
| World.UploadedBytesStay | app/services/firmware.py:172-228 | what an upload that added its row stored is what is stored at every later point of the run |
| World.OutageMeansStore | app/services/ota.py:287-327 | integrity failures are unreachable in every run while the store answers |
| World.NoTokenExpires | app/services/device_tokens.py:45-51 | in no reachable state has a token an expiry, so expiry is honoured |
| World.OfferKeepsAttempts | app/services/ota.py:464-491 | at most one recorded offer per device and target version |
| World.DeviceStepKeepsUnique | app/services/devices.py:186-287 | serials, addresses and token digests stay unique |
| World.PurgeKeepsReferences | app/services/devices.py:289-297 | a purge leaves no dangling reference |
| World.TypeStepKeepsReferences | app/services/devices.py:150-155 | nor does the deletion of a type |
| Lifecycle.StepIsLater | app/services/devices.py:257-297 | no call brings an id back or opens a lock |
| Lifecycle.LockedIdentityIsFixed | app/services/devices.py:257-263 | once locked, type, serial and address stand for as long as the row exists |
| Lifecycle.AuthenticatedIdentityIsFixed | app/services/device_auth.py:40-74 | a device that ever authenticates has one identity from then on |
| Lifecycle.StepMoves | app/services/devices.py:234-255 | how one call can move a device that has left PROVISIONED |
| Lifecycle.ServedIsEnabled | app/services/update_decision.py:129-132 | neither endpoint serves a device that is not active with OTA enabled |
| Lifecycle.RetirementLasts | app/services/devices.py:234-255 | after retirement nothing is served until calls since have in fact moved the device from RETIRED to DISABLED, then from DISABLED to ACTIVE, and raised its flag |
| Upgrades.OfferIsUpgrade | app/services/ota.py:126-143 | a poll that reports a version is offered only strictly newer ones, whatever an administrator asserted |
| Upgrades.NoDowngrade | app/services/ota.py:126-143 | under any interleaving the running version never goes down and every install goes up strictly |
| Upgrades.InstallsAreBounded | app/services/update_decision.py:184-224 | at most as many installs as distinct greater version numbers the type published |
| Upgrades.InstalledThenRests | app/services/update_decision.py:184-224 | at any time after an install, whatever was installed since, an admitted poll with catalogue, policy and eligibility as they were is answered that there is no update |
| Delivery.OfferedThenDelivered | app/services/ota.py:207-376 | for a manifest served at one call and a download of its URL by the same device at any later one, with limiter and store willing: the release is the offered one but for its status, it is served iff the device may receive it by then, and it brings the size and checksum stated |
| Delivery.DeliveredAtOnce | app/services/ota.py:102-349 | a device that follows the manifest at once is always served that release |
| Delivery.AnswerIff | app/services/ota.py:232-349 | the same for one state: following a release's manifest is served iff the device may receive it |
| Quota.RequestRefused | app/services/ota.py:378-401 | an authenticated request is answered 429 iff the limiter refuses it |
| Quota.QuotaHolds | app/services/ota.py:378-401 | in every run, at most (n + 1) * 20 - 1 polls of one device within n times 300 seconds, and (n + 1) * 10 - 1 downloads within n times 900, get past the limiter, with every other use of it in between |
| Quota.OnlyOwnRequestsCount | app/services/ota.py:378-401 | in every run a poll is answered 429 only if twenty polls of that device got past the limiter in the last 300 seconds, and a download only if ten of its downloads did in the last 900 |
| Evidence.StepAccounts | app/services/ota.py:493-538 | no call adds to the recorded and open deliveries but what it serves |
| Evidence.RecordedWithinServed | app/services/ota.py:493-562 | at every point of a run the recorded and still open deliveries are, with repetitions, among those served so far |
| Evidence.RecordedMeansServed | app/services/ota.py:493-562 | every attempt recorded as served goes back to an earlier download answered with that release, to that device, with that many bytes |
| Streaming.PlanIsPrefix | app/api/v1/ota.py:163-205 | the inner generator yields non-empty chunks that spell a prefix of the object, complete exactly at the announced length |
| Streaming.EndingIs | app/api/v1/ota.py:163-205 | iteration breaks iff reading fails or there are too many bytes, completes iff they are as many as announced, and else is short |
| Streaming.BodyIsPrefix | app/api/v1/ota.py:145-205 | for every chunk sequence, fault and stop point the bytes sent are a prefix and no more than announced |
| Streaming.CompletionIsExact | app/api/v1/ota.py:145-205 | the stream is closed once if iteration began; callback, served outcome and exhausted iteration with exactly the announced bytes coincide; everything else that began is recorded incomplete |
| Streaming.StoppingAtTheLastByteIsIncomplete | app/api/v1/ota.py:145-205 | a consumer that stops right after the last byte completes nothing |
| Streaming.SoundObjectIsServed | app/api/v1/ota.py:163-205 | an object of the announced size read without a fault ends completely, however it is cut into chunks |
| Streaming.ChunkGenerator.Next | app/api/v1/ota.py:163-205 | one resumption of the inner generator, with the stream closed before the callback runs |
| Streaming.ChunkGenerator.Close | app/api/v1/ota.py:193-197 | closing at a yield closes the stream and runs no callback; closing an unstarted generator does nothing |
| Streaming.ObservedStream.Next | app/api/v1/ota.py:145-160 | one resumption of the outer generator, and what it records at the end |
| Streaming.ObservedStream.Close | app/api/v1/ota.py:155-160 | abandoning a started transfer records it as incomplete |
| Streaming.CommunicationRecorder.Transfer | app/services/communications.py:165-170 | the recorded outcome of a transfer |
| Streaming.CommunicationRecorder.Save | app/services/communications.py:177-196 | an event is kept when the row exists; a failing save leaves the stored outcome |
| Streaming.Deliver | app/api/v1/ota.py:145-205 | driving both generators leaves exactly the delivery the lemmas above are about |
| Streaming.Respond | app/api/v1/ota.py:111-160 | the evidence row says streaming before the first byte and anything else only once the transfer has ended |
| Admin.NormalizeIsIdempotent | app/services/admin_users.py:227-239 | a normalized address is its own normal form |
| Admin.AdminUserService.CreateAdmin | app/services/admin_users.py:67-83 | an active account with a unique normalized address, or a refusal |
| Admin.AdminUserService.BootstrapSuperAdmin | app/services/admin_users.py:46-63 | creates the first super administrator only; otherwise reports the account with the least id and changes nothing |
| Admin.AdminUserService.SetAccountActive | app/services/admin_users.py:85-92 | deactivation is guarded and ends sessions; activation ends none |
| Admin.AdminUserService.SetAccountRole | app/services/admin_users.py:94-103 | demotion is guarded; an actual change ends sessions |
| Admin.AdminUserService.SetAccountPassword | app/services/admin_users.py:105-111 | a strong password replaces the hash and ends sessions |
| Admin.AdminUserService.ChangePassword | app/services/admin_users.py:113-127 | additionally the current password must verify and differ |
| Admin.AdminUserService.AssertNotLastSuperAdmin | app/services/admin_users.py:207-224 | refuses iff no other active super administrator exists |
| Admin.AdminAuthService.Login | app/services/admin_auth.py:32-45 | a token of the account's role and session version; unknown, wrong and inactive are refused alike |
| Admin.GuardIsExact | app/services/admin_users.py:207-224 | a deactivation or demotion is refused exactly when it would leave no active super administrator |
| Admin.SuperAdminRemains | app/services/admin_users.py:85-103 | from the first bootstrap on, an active super administrator always exists |
| Admin.VersionsAlwaysTell | app/services/admin_users.py:85-111 | equal session versions mean that nothing in between invalidated the account's sessions, and so that the role is the same |
| Admin.TokenLivesExactly | app/services/admin_auth.py:47-58 | a token resolves iff the clock is between its issue and its expiry, ten seconds allowed either way, the account is active, and no deactivation, change of role or of password succeeded since it was issued |
| Admin.RevokedForGood | app/services/admin_auth.py:47-58 | a token issued before such a change never resolves again, reactivation included |
| Admin.ResolvedRoleIsCurrent | app/services/admin_auth.py:47-58 | whenever a token resolves, its role claim is the account's current role |
| Passwords.AcceptedAddressIff | app/services/admin_users.py:227-239 | an address is accepted iff, trimmed and in lower case, it has at most 254 characters, no space, one @ that is neither first nor last, and after it a dot that is not next to it |
| Passwords.CreateStores | app/services/admin_users.py:67-83 | an account is created iff the address is acceptable and unused and the password strong; every column of the new row |
| Passwords.BootstrapStores | app/services/admin_users.py:46-63 | bootstrap creates a super administrator where there is no account, and changes nothing otherwise |
| Passwords.ActiveStores | app/services/admin_users.py:85-92 | deactivation is refused only for the last active super administrator; what is stored |
| Passwords.RoleStores | app/services/admin_users.py:94-103 | demotion likewise; the role is stored, and the session version rises iff it changes |
| Passwords.PasswordStores | app/services/admin_users.py:105-111 | a strong password's hash is stored and the session version rises; nothing else changes |
| Passwords.OwnChangeAcceptedIff | app/services/admin_users.py:113-127 | an own change succeeds iff the current password is right and the new one strong and different |
| Passwords.LoginStores | app/services/admin_users.py:181-200 | a successful login renews an out-of-date hash of the password given and writes nothing else of what is modelled; a failed one writes nothing |
| Passwords.StoredAddressIsNormal | app/services/admin_users.py:227-239 | in every reachable state every stored address is its own normal form |
| Passwords.LoginOpensIff | app/services/admin_users.py:181-200 | a login opens an account iff it names its address, the account is active and the password is the one whose hash is stored |
| Passwords.LastGivenPasswordOpens | app/services/admin_users.py:67-127 | in every run, after a creation or change of password and until the next, a login opens the account iff address, activity and exactly that password agree, renewed hashes included |
| Passwords.FoundersPasswordOpens | app/services/admin_users.py:46-63 | the same for the password of the first bootstrap |

## Left out

- Concurrent transactions: the policy, last-administrator and offer checks read and then write without locks, so they are proved for serial runs only.
- A commit that fails is taken to have been rolled back, and no commit fails but the one that ends an upload.
- The limiter reads its clock before it takes its lock; its theorems are about readings that do not decrease in lock order. `reset` and a limit of 0, under which the first call of a window is still admitted, are excluded.
- The limiter's answer is a parameter of `World` steps: the whole-run theorems hold for every answer; `Ota.OtaService` and, over runs, `Quota` tie it to the limiter.
- One counter hands out the ids of all tables, where the database has one per table.
- The library functions and the public key stay the same over a run; the delivery base URL and whether signatures are checked may change with every call. Token times are whole seconds, as in the signed claims, and clock readings likewise.
- That hashing accepts exactly the password it was given is a hypothesis of the theorems in `Passwords` (`Faithful`), not proved.
- MD5, SHA-256, Argon2, JWT signing, ECDSA verification, JSON and base64 decoding are uninterpreted functions; UTF-8 encoding of the signed payload is left out. Tokens of administrators are issued records, so forged ones do not occur.
- Upper-casing, lower-casing and trimming are modelled for ASCII characters.
- Columns no modelled rule reads: names, notes, SHA-256 of artifacts, audit rows, and timestamps other than last seen and last manifest check. `update_metadata` changes only such columns.
- A null sent for a policy's priority fails when the row is flushed; edits here either give a value or leave the field alone. A null sent for a type's code or platform is read as the text None (`app/services/devices.py:126-127`), which the model refuses like any other invalid text.
- Evidence rows of requests are the set of devices some row refers to (`World.Communicate`), and the recorder's outcome in `Streaming`; in `World` the callback of a served download is a step of its own, at most once and at any later time, whose transaction may fail.
- A delivery generator that is never started leaves its stream open, as in the source; the response object's own disposal is not part of this model.
- Listing, search and paging, dashboards, monitoring, audit export, health probes, the command line, role capabilities, cookies, CSRF, HTTP routing but for the delivery path, the MinIO adapter and the deployment scripts: they hold no rule the results above depend on.
- UpdateDecisions.DecisionIsDetermined: where two published versions are one number in two spellings, the source picks whichever row comes first, so the model leaves the choice open.

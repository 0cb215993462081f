/** Device-facing URLs and object keys (app/domain/update_path.py). */
module UpdatePath {
  import opened Wrappers
  import opened Text
  import opened Tables
  import opened Version

  const CODE_MIN_LENGTH := 3
  const CODE_MAX_LENGTH := 24
  const PLATFORM_MIN_LENGTH := 2
  const PLATFORM_MAX_LENGTH := 16
  const MANIFEST_FILENAME := "manifest.json"
  const MAX_FIRMWARE_URL_LENGTH := 96
  const DEVICE_TYPE_PATH_BUDGET := 29
  const FIRMWARE_URL_BUDGET := 40

  /* ----- validators ----- */

  predicate IsSlugChar(c: char) {
    'a' <= c <= 'z' || IsDigit(c)
  }

  /** One or more non-empty groups of lower-case letters and digits, joined by
      single hyphens; `$` allows a final newline. */
  predicate IsSlug(s: string) {
    forall i :: 0 <= i < |Split(Chomp(s), '-')| ==>
      var group := Split(Chomp(s), '-')[i];
      group != "" && forall j :: 0 <= j < |group| ==> IsSlugChar(group[j])
  }

  predicate IsFilenameChar(c: char) {
    'a' <= c <= 'z' || 'A' <= c <= 'Z' || IsDigit(c) || c == '.' || c == '_' || c == '-'
  }

  predicate IsFilename(s: string) {
    var body := Chomp(s);
    && 1 <= |body| <= 32
    && (forall i :: 0 <= i < |body| ==> IsFilenameChar(body[i]))
    && body[0] !in "._-"
  }

  function ValidateCode(code: string): Option<Code> {
    if |code| < CODE_MIN_LENGTH || |code| > CODE_MAX_LENGTH || !IsSlug(code)
    then Some(InvalidCode) else None
  }

  function ValidatePlatform(platform: string): Option<Code> {
    if |platform| < PLATFORM_MIN_LENGTH || |platform| > PLATFORM_MAX_LENGTH || !IsSlug(platform)
    then Some(InvalidPlatform) else None
  }

  function ValidateVersion(version: string): Option<Code> {
    if IsValidVersion(version) then None else Some(InvalidVersion)
  }

  function ValidateFilename(filename: string): Option<Code> {
    if filename in {"", ".", ".."} || !IsFilename(filename) then Some(InvalidFilename) else None
  }

  function ValidateDeviceTypePath(code: string, platform: string): Option<Code> {
    if ValidateCode(code).Some? then ValidateCode(code)
    else if ValidatePlatform(platform).Some? then ValidatePlatform(platform)
    else if |code| + |platform| > DEVICE_TYPE_PATH_BUDGET then Some(DeviceTypePathBudgetExceeded)
    else None
  }

  /* ----- composition ----- */

  /** The segments of a key, before any check. */
  function ObjectKey(code: string, platform: string, version: string, filename: string): string {
    "firmware/" + code + "/" + platform + "/v" + version + "/" + filename
  }

  function FirmwarePath(code: string, platform: string, version: string, filename: string)
    : Result<string, Code>
  {
    if ValidateDeviceTypePath(code, platform).Some? then
      Failure(ValidateDeviceTypePath(code, platform).value)
    else if ValidateVersion(version).Some? then Failure(InvalidVersion)
    else if ValidateFilename(filename).Some? then Failure(InvalidFilename)
    else if |code| + |platform| + |version| > FIRMWARE_URL_BUDGET then Failure(ManifestUrlTooLong)
    else Success("/firmware/" + code + "/" + platform + "/v" + version + "/" + filename)
  }

  function StripSlashes(base: string): string {
    if base != "" && base[|base| - 1] == '/' then StripSlashes(base[..|base| - 1]) else base
  }

  function FirmwareUrl(base: string, code: string, platform: string, version: string, filename: string)
    : (url: Result<string, Code>)
    ensures url.Success? ==> |url.value| < MAX_FIRMWARE_URL_LENGTH
  {
    var path :- FirmwarePath(code, platform, version, filename);
    var url := StripSlashes(base) + path;
    if |url| >= MAX_FIRMWARE_URL_LENGTH then Failure(ManifestUrlTooLong) else Success(url)
  }

  function ReleaseStoragePrefix(code: string, platform: string, version: string): Result<string, Code> {
    if ValidateDeviceTypePath(code, platform).Some? then
      Failure(ValidateDeviceTypePath(code, platform).value)
    else if ValidateVersion(version).Some? then Failure(InvalidVersion)
    else Success("firmware/" + code + "/" + platform + "/v" + version)
  }

  function StorageKey(code: string, platform: string, version: string, filename: string)
    : Result<string, Code>
  {
    if ValidateFilename(filename).Some? then Failure(InvalidFilename)
    else
      var _ :- FirmwarePath(code, platform, version, filename);
      var prefix :- ReleaseStoragePrefix(code, platform, version);
      Success(prefix + "/" + filename)
  }

  function ManifestStorageKey(code: string, platform: string, version: string): Result<string, Code> {
    var prefix :- ReleaseStoragePrefix(code, platform, version);
    Success(prefix + "/" + MANIFEST_FILENAME)
  }

  /* ----- what is accepted ----- */

  ghost predicate SlugChars(s: string) {
    forall i :: 0 <= i < |s| ==> 'a' <= s[i] <= 'z' || '0' <= s[i] <= '9' || s[i] == '-'
  }

  /** Every hyphen is followed by something else than a hyphen. */
  ghost predicate HyphensLead(s: string) {
    forall i :: 0 <= i < |s| && s[i] == '-' ==> i + 1 < |s| && s[i + 1] != '-'
  }

  ghost predicate GroupOk(group: string) {
    forall j :: 0 <= j < |group| ==> IsSlugChar(group[j])
  }

  ghost predicate GroupsOk(groups: seq<string>) {
    && (forall i :: 0 <= i < |groups| ==> GroupOk(groups[i]))
    && (forall i :: 1 <= i < |groups| ==> groups[i] != "")
  }

  lemma {:induction false} FirstGroup(s: string)
    ensures Split(s, '-')[0] == "" <==> s == "" || s[0] == '-'
  {
  }

  lemma GroupsOfHyphen(rest: seq<string>)
    requires rest != []
    ensures GroupsOk([""] + rest) <==> GroupsOk(rest) && rest[0] != ""
  {
    var groups := [""] + rest;
    assert forall i :: 0 <= i < |rest| ==> groups[i + 1] == rest[i];
  }

  lemma GroupsOfChar(c: char, rest: seq<string>)
    requires rest != []
    ensures GroupsOk([[c] + rest[0]] + rest[1..]) <==> IsSlugChar(c) && GroupsOk(rest)
  {
    var first := [c] + rest[0];
    var groups := [first] + rest[1..];
    assert forall i :: 1 <= i < |rest| ==> groups[i] == rest[i];
    assert first[0] == c && first[1..] == rest[0];
    assert forall j :: 0 <= j < |rest[0]| ==> first[j + 1] == rest[0][j];
    if GroupsOk(groups) {
      assert GroupOk(groups[0]);
      assert GroupOk(rest[0]);
    }
  }

  lemma HyphensOfTail(s: string)
    requires s != ""
    ensures HyphensLead(s) <==> HyphensLead(s[1..]) && (s[0] == '-' ==> 1 < |s| && s[1] != '-')
    ensures SlugChars(s) <==> SlugChars(s[1..]) && (IsSlugChar(s[0]) || s[0] == '-')
  {
    assert forall i :: 1 <= i < |s| ==> s[i] == s[1..][i - 1];
    assert forall i :: 0 <= i < |s| - 1 ==> s[1..][i] == s[i + 1];
  }

  lemma {:induction false} GroupsAreOkIff(s: string)
    ensures GroupsOk(Split(s, '-')) <==> SlugChars(s) && HyphensLead(s)
  {
    if s != "" {
      GroupsAreOkIff(s[1..]);
      HyphensOfTail(s);
      FirstGroup(s[1..]);
      var rest := Split(s[1..], '-');
      if s[0] == '-' {
        GroupsOfHyphen(rest);
      } else {
        GroupsOfChar(s[0], rest);
      }
    }
  }

  /** A slug, up to one final newline: lower-case letters, digits and hyphens, no hyphen
      first, last, or next to another. */
  lemma SlugIff(s: string)
    ensures IsSlug(s) <==> var b := Chomp(s); b != "" && b[0] != '-' && SlugChars(b) && HyphensLead(b)
  {
    var b := Chomp(s);
    var groups := Split(b, '-');
    GroupsAreOkIff(b);
    FirstGroup(b);
    assert IsSlug(s) <==> GroupsOk(groups) && groups[0] != "";
  }

  /** A device type's path parts are accepted iff both are slugs within their lengths,
      newline included, and together within the budget. */
  lemma TypePathAcceptedIff(code: string, platform: string)
    ensures ValidateDeviceTypePath(code, platform).None?
            <==> && 3 <= |code| <= 24 && IsSlug(code) && 2 <= |platform| <= 16 && IsSlug(platform)
                 && |code| + |platform| <= 29
  {
  }

  /** One to 32 letters, digits, dots, underscores and hyphens, none of the last three
      first. */
  ghost predicate IsPlainFilename(b: string) {
    && 1 <= |b| <= 32 && b[0] != '.' && b[0] != '_' && b[0] != '-'
    && forall i :: 0 <= i < |b| ==>
         || 'a' <= b[i] <= 'z' || 'A' <= b[i] <= 'Z' || '0' <= b[i] <= '9'
         || b[i] == '.' || b[i] == '_' || b[i] == '-'
  }

  lemma ChompOfPlain(b: string)
    requires IsPlainFilename(b)
    ensures Chomp(b) == b && Chomp(b + "\n") == b
  {
    assert b[|b| - 1] != '\n';
    assert (b + "\n")[..|b|] == b;
  }

  lemma FilenameBodyIsPlain(s: string)
    ensures IsFilename(s) <==> IsPlainFilename(Chomp(s))
  {
    var dot, underscore, hyphen := "._-"[0], "._-"[1], "._-"[2];
    assert forall c :: c in "._-" <==> c == dot || c == underscore || c == hyphen;
  }

  /** A filename is accepted iff it is plain, up to one final newline. */
  lemma FilenameAcceptedIff(filename: string)
    ensures ValidateFilename(filename).None?
            <==> exists b :: IsPlainFilename(b) && (filename == b || filename == b + "\n")
  {
    FilenameBodyIsPlain(filename);
    if ValidateFilename(filename).None? {
      var b := Chomp(filename);
      assert IsPlainFilename(b);
      assert filename == b || filename == b + "\n";
    }
    if b :| IsPlainFilename(b) && (filename == b || filename == b + "\n") {
      ChompOfPlain(b);
    }
  }

  /** Stripping the base URL takes the trailing slashes, and only those. */
  lemma {:induction false} StripSlashesCuts(base: string) returns (n: nat)
    ensures n <= |base| && StripSlashes(base) == base[..n]
    ensures forall i :: n <= i < |base| ==> base[i] == '/'
    ensures n > 0 ==> base[n - 1] != '/'
    decreases |base|
  {
    n := |base|;
    if base != "" && base[|base| - 1] == '/' {
      n := StripSlashesCuts(base[..|base| - 1]);
      assert base[..|base| - 1][..n] == base[..n];
    }
  }

  /* ----- what the keys are ----- */

  /** The object key is the URL path without its leading slash, and exists exactly
      when the path does. The manifest lies at the key its own filename would get. */
  lemma KeysMirrorPaths(code: string, platform: string, version: string, filename: string)
    ensures StorageKey(code, platform, version, filename).Success?
            <==> FirmwarePath(code, platform, version, filename).Success?
    ensures
      var path, key := FirmwarePath(code, platform, version, filename),
                       StorageKey(code, platform, version, filename);
      path.Success? ==> path.value == "/" + key.value
                        && key.value == ObjectKey(code, platform, version, filename)
    ensures
      var key := ManifestStorageKey(code, platform, version);
      key.Success? ==> key.value == ObjectKey(code, platform, version, MANIFEST_FILENAME)
  {
  }

  /** Codes, platforms, versions and filenames never contain a slash, with or
      without the newline their patterns let through. */
  lemma SlugIsSlashFree(s: string)
    requires IsSlug(s)
    ensures Free(s, '/')
  {
    var groups := Split(Chomp(s), '-');
    JoinOfSplit(Chomp(s), '-');
    assert forall i :: 0 <= i < |groups| ==> Free(groups[i], '/');
    JoinIsFree(groups, '-', '/');
    assert EndsWithNewline(s) ==> s == Chomp(s) + "\n";
  }

  lemma {:induction false} JoinIsFree(parts: seq<string>, sep: char, c: char)
    requires parts != [] && c != sep
    requires forall i :: 0 <= i < |parts| ==> Free(parts[i], c)
    ensures Free(Join(parts, sep), c)
  {
    if |parts| > 1 {
      JoinIsFree(parts[1..], sep, c);
    }
  }

  lemma VersionIsFree(version: string, c: char)
    requires IsValidVersion(version) && !IsDigit(c) && c != '.' && c != '\n'
    ensures Free(version, c)
  {
    var x, y, z := Parts(version);
    NumeralFree(x, c);
    NumeralFree(y, c);
    NumeralFree(z, c);
    assert EndsWithNewline(version) ==> version == Chomp(version) + "\n";
  }

  ghost predicate SlashFree(code: string, platform: string, version: string, filename: string) {
    Free(code, '/') && Free(platform, '/') && Free(version, '/') && Free(filename, '/')
  }

  lemma ValidIsSlashFree(code: string, platform: string, version: string, filename: string)
    requires ValidateDeviceTypePath(code, platform).None?
    requires IsValidVersion(version) && ValidateFilename(filename).None?
    ensures SlashFree(code, platform, version, filename)
    ensures SlashFree(code, platform, version, MANIFEST_FILENAME)
  {
    SlugIsSlashFree(code);
    SlugIsSlashFree(platform);
    VersionIsFree(version, '/');
    assert forall i :: 0 <= i < |Chomp(filename)| ==> IsFilenameChar(Chomp(filename)[i]);
    assert EndsWithNewline(filename) ==> filename == Chomp(filename) + "\n";
  }

  /** Splitting a key recovers its four parts. */
  lemma SplitOfKey(code: string, platform: string, version: string, filename: string)
    requires SlashFree(code, platform, version, filename)
    ensures Split(ObjectKey(code, platform, version, filename), '/')
            == ["firmware", code, platform, "v" + version, filename]
  {
    var parts := ["firmware", code, platform, "v" + version, filename];
    KeyIsJoin(code, platform, version, filename);
    SplitOfJoin(parts, '/');
  }

  lemma KeyIsJoin(code: string, platform: string, version: string, filename: string)
    ensures ObjectKey(code, platform, version, filename)
            == Join(["firmware", code, platform, "v" + version, filename], '/')
  {
    var tail := ["v" + version, filename];
    assert Join(tail, '/') == "v" + version + "/" + filename;
    assert ([platform] + tail)[1..] == tail;
    assert ([code] + ([platform] + tail))[1..] == [platform] + tail;
    assert Join([platform] + tail, '/') == platform + "/" + Join(tail, '/');
    assert Join([code] + ([platform] + tail), '/') == code + "/" + Join([platform] + tail, '/');
    var parts := ["firmware", code, platform, "v" + version, filename];
    assert parts[1..] == [code] + ([platform] + tail);
  }

  /** Hence two keys are equal only if all four parts are. */
  lemma KeysAreInjective(
    code: string, platform: string, version: string, filename: string,
    code': string, platform': string, version': string, filename': string)
    requires SlashFree(code, platform, version, filename)
    requires SlashFree(code', platform', version', filename')
    requires ObjectKey(code, platform, version, filename) == ObjectKey(code', platform', version', filename')
    ensures code == code' && platform == platform' && version == version' && filename == filename'
  {
    SplitOfKey(code, platform, version, filename);
    SplitOfKey(code', platform', version', filename');
    var parts := ["firmware", code, platform, "v" + version, filename];
    var parts' := ["firmware", code', platform', "v" + version', filename'];
    assert parts[3][1..] == version && parts'[3][1..] == version';
    assert parts[1] == parts'[1] && parts[2] == parts'[2] && parts[4] == parts'[4];
  }

  /** Composition fails only for an invalid part or for length, and the length
      test is on the stripped base URL plus the variable parts. */
  lemma UrlComposesIff(base: string, code: string, platform: string, version: string, filename: string)
    ensures FirmwareUrl(base, code, platform, version, filename).Success?
            <==> && ValidateDeviceTypePath(code, platform).None?
                 && IsValidVersion(version)
                 && ValidateFilename(filename).None?
                 && |code| + |platform| + |version| <= 40
                 && |StripSlashes(base)| + |code| + |platform| + |version| + |filename| < 82
    ensures FirmwareUrl(base, code, platform, version, filename).Success? ==>
              FirmwareUrl(base, code, platform, version, filename).value
              == StripSlashes(base) + "/firmware/" + code + "/" + platform + "/v" + version + "/" + filename
  {
    var tail := "/firmware/" + code + "/" + platform + "/v" + version + "/" + filename;
    assert StripSlashes(base) + tail
           == StripSlashes(base) + "/firmware/" + code + "/" + platform + "/v" + version + "/" + filename;
  }

  /** The budget reserved when a device type is created is enough: a version of at
      most 11 characters always composes while base URL and filename stay within 41. */
  lemma BudgetSuffices(base: string, code: string, platform: string, version: string, filename: string)
    requires ValidateDeviceTypePath(code, platform).None?
    requires IsValidVersion(version) && |version| <= 11 && ValidateFilename(filename).None?
    requires |StripSlashes(base)| + |filename| <= 41
    ensures FirmwareUrl(base, code, platform, version, filename).Success?
    ensures StorageKey(code, platform, version, filename).Success?
    ensures ManifestStorageKey(code, platform, version).Success?
  {
  }
}

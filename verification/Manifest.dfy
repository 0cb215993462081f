/** Signed OTA manifest rules (app/domain/manifest.py). */
module ManifestRules {
  import opened Wrappers
  import opened Text
  import opened Tables
  import opened Version
  import opened UpdatePath
  import opened Der

  const MANIFEST_KEYS := {"version", "url", "md5", "size", "signature"}
  const MD5_PATTERN_LENGTH := 32
  const MAX_MANIFEST_BYTES := 1024
  const MAX_URL_LENGTH := 96
  const MIN_ARTIFACT_SIZE := 1
  const MAX_ARTIFACT_SIZE := 4 * 1024 * 1024

  /** A decoded JSON value, as far as the field rules tell values apart. */
  datatype Json = JString(text: string) | JInt(number: int) | JBool(flag: bool) | JOther

  /** The library decoders: `json.loads` after UTF-8, restricted to objects, and
      strict base64. Nothing is assumed about them. */
  datatype Decoders = Decoders(
    json: bytes -> Option<map<string, Json>>,
    base64: string -> Option<bytes>)

  /** `raw` is the exact byte sequence stored and served. */
  datatype Manifest = Manifest(
    version: string,
    url: string,
    md5: string,
    size: nat,
    signature: string,
    signatureBytes: bytes,
    raw: bytes)

  /* ----- field rules ----- */

  predicate StartsWith(s: string, prefix: string) {
    prefix <= s
  }

  predicate IsHexChar(c: char) {
    IsDigit(c) || 'a' <= c <= 'f'
  }

  predicate IsHex(value: string, length: nat) {
    |value| == length && forall i :: 0 <= i < |value| ==> IsHexChar(value[i])
  }

  predicate VersionFieldOk(v: Json) {
    v.JString? && IsValidVersion(v.text)
  }

  predicate UrlFieldOk(v: Json) {
    && v.JString?
    && (StartsWith(v.text, "http://") || StartsWith(v.text, "https://"))
    && |v.text| < MAX_URL_LENGTH
  }

  predicate Md5FieldOk(v: Json) {
    v.JString? && IsHex(v.text, MD5_PATTERN_LENGTH)
  }

  predicate SizeFieldOk(v: Json) {
    v.JInt? && MIN_ARTIFACT_SIZE <= v.number <= MAX_ARTIFACT_SIZE
  }

  predicate FieldsOk(document: map<string, Json>) {
    && document.Keys == MANIFEST_KEYS
    && VersionFieldOk(document["version"])
    && UrlFieldOk(document["url"])
    && Md5FieldOk(document["md5"])
    && SizeFieldOk(document["size"])
  }

  /** What parsing means: the decoded object passes every field rule, and the
      signature is base64 of an acceptable DER string. */
  ghost function ParseManifest(decoders: Decoders, raw: bytes): Result<Manifest, Code> {
    if raw == [] || |raw| > MAX_MANIFEST_BYTES then Failure(ManifestInvalid)
    else
      var document := decoders.json(raw);
      if document.None? || !FieldsOk(document.value) then Failure(ManifestInvalid)
      else
        var d := document.value;
        if !d["signature"].JString? || d["signature"].text == "" then Failure(MissingSignature)
        else
          var octets := decoders.base64(d["signature"].text);
          if octets.None? || !IsSignature(octets.value) then Failure(InvalidSignature)
          else Success(Manifest(d["version"].text, d["url"].text, d["md5"].text, d["size"].number,
                                d["signature"].text, octets.value, raw))
  }

  /** The parser of the source, check by check. */
  method Parse(decoders: Decoders, raw: bytes) returns (r: Result<Manifest, Code>)
    ensures r == ParseManifest(decoders, raw)
  {
    if raw == [] || |raw| > MAX_MANIFEST_BYTES {
      return Failure(ManifestInvalid);
    }
    var document := decoders.json(raw);
    if document.None? || document.value.Keys != MANIFEST_KEYS {
      return Failure(ManifestInvalid);
    }
    var d := document.value;
    if !VersionFieldOk(d["version"]) {
      return Failure(ManifestInvalid);
    }
    if !UrlFieldOk(d["url"]) {
      return Failure(ManifestInvalid);
    }
    if !Md5FieldOk(d["md5"]) {
      return Failure(ManifestInvalid);
    }
    if !SizeFieldOk(d["size"]) {
      return Failure(ManifestInvalid);
    }
    var signature := d["signature"];
    if !signature.JString? || signature.text == "" {
      return Failure(MissingSignature);
    }
    var octets := decoders.base64(signature.text);
    if octets.None? {
      return Failure(InvalidSignature);
    }
    var der := IsDerEcdsaSignature(octets.value);
    if !der {
      return Failure(InvalidSignature);
    }
    return Success(Manifest(d["version"].text, d["url"].text, d["md5"].text, d["size"].number,
                            signature.text, octets.value, raw));
  }

  /** The fields of an acceptable document but for its signature. */
  ghost predicate IsManifestDocument(d: map<string, Json>) {
    && d.Keys == {"version", "url", "md5", "size", "signature"}
    && d["version"].JString? && IsValidVersion(d["version"].text)
    && d["url"].JString? && ("http://" <= d["url"].text || "https://" <= d["url"].text) && |d["url"].text| < 96
    && d["md5"].JString? && |d["md5"].text| == 32
    && (forall i :: 0 <= i < 32 ==>
          var c := d["md5"].text[i]; '0' <= c <= '9' || 'a' <= c <= 'f')
    && d["size"].JInt? && 1 <= d["size"].number <= 4_194_304
  }

  /** What is accepted, and as what: one to 1024 bytes of a JSON object with exactly the
      five fields, each within its rules, whose signature is base64 of an acceptable
      signature. Of the two signature errors a missing one is told from a bad one. */
  lemma ParseAcceptsIff(decoders: Decoders, raw: bytes)
    ensures
      var document := decoders.json(raw);
      var sound := 1 <= |raw| <= 1024 && document.Some? && IsManifestDocument(document.value);
      && (ParseManifest(decoders, raw) == Failure(ManifestInvalid) <==> !sound)
      && (sound ==>
            var signature := document.value["signature"];
            var r := ParseManifest(decoders, raw);
            && (r == Failure(MissingSignature) <==> !signature.JString? || signature.text == "")
            && (r.Success?
                <==> && signature.JString? && signature.text != "" && decoders.base64(signature.text).Some?
                     && IsSignature(decoders.base64(signature.text).value))
            && (r.Failure? ==> r.error.MissingSignature? || r.error.InvalidSignature?))
  {
    if decoders.json(raw).Some? {
      assert FieldsOk(decoders.json(raw).value) <==> IsManifestDocument(decoders.json(raw).value);
    }
  }

  /** A parsed manifest carries the fields of its document and its own bytes. */
  lemma ParsedFields(decoders: Decoders, raw: bytes)
    requires ParseManifest(decoders, raw).Success?
    ensures decoders.json(raw).Some? && IsManifestDocument(decoders.json(raw).value)
    ensures
      var d, m := decoders.json(raw).value, ParseManifest(decoders, raw).value;
      && m.raw == raw && d["version"] == JString(m.version) && d["url"] == JString(m.url)
      && d["md5"] == JString(m.md5) && d["size"] == JInt(m.size) && d["signature"] == JString(m.signature)
      && decoders.base64(m.signature) == Some(m.signatureBytes)
  {
    ParseAcceptsIff(decoders, raw);
  }

  /* ----- the signed payload ----- */

  /** `version|url|md5|size`; UTF-8 encoding, which is injective, is left out. */
  function SignedPayload(version: string, url: string, md5: string, size: nat): string {
    version + "|" + url + "|" + md5 + "|" + Render(size)
  }

  /** The facts unique decoding rests on; the URL may contain anything. */
  ghost predicate PayloadFields(version: string, md5: string) {
    IsValidVersion(version) && IsHex(md5, MD5_PATTERN_LENGTH)
  }

  lemma HeadIsUnique(a: string, x: string, b: string, y: string, sep: char)
    requires Free(a, sep) && Free(b, sep) && a + [sep] + x == b + [sep] + y
    ensures a == b && x == y
  {
    var s, t := a + [sep] + x, b + [sep] + y;
    assert s[|a|] == sep && t[|b|] == sep;
    assert forall i :: 0 <= i < |a| ==> s[i] == a[i];
    assert forall i :: 0 <= i < |b| ==> t[i] == b[i];
    assert |a| == |b|;
    assert a == s[..|a|] && b == t[..|b|];
    assert x == s[|a| + 1..] && y == t[|b| + 1..];
  }

  lemma TailIsUnique(x: string, a: string, y: string, b: string, sep: char)
    requires Free(a, sep) && Free(b, sep) && x + [sep] + a == y + [sep] + b
    ensures a == b && x == y
  {
    var s, t := x + [sep] + a, y + [sep] + b;
    assert s[|x|] == sep && t[|y|] == sep;
    assert forall i :: |x| < i < |s| ==> s[i] == a[i - |x| - 1];
    assert forall i :: |y| < i < |t| ==> t[i] == b[i - |y| - 1];
    assert |x| == |y|;
    assert x == s[..|x|] && y == t[..|y|];
    assert a == s[|x| + 1..] && b == t[|y| + 1..];
  }

  /** Two manifests that pass the field rules sign the same payload only if they
      agree in all four fields, whatever bars their URLs contain. */
  lemma PayloadIsUniquelyDecodable(
    version: string, url: string, md5: string, size: nat,
    version': string, url': string, md5': string, size': nat)
    requires PayloadFields(version, md5) && PayloadFields(version', md5')
    requires SignedPayload(version, url, md5, size) == SignedPayload(version', url', md5', size')
    ensures version == version' && url == url' && md5 == md5' && size == size'
  {
    VersionIsFree(version, '|');
    VersionIsFree(version', '|');
    NumeralFree(Render(size), '|');
    NumeralFree(Render(size'), '|');
    assert Free(md5, '|') && Free(md5', '|');
    TailIsUnique(version + "|" + url + "|" + md5, Render(size),
                 version' + "|" + url' + "|" + md5', Render(size'), '|');
    assert size == ToNat(Render(size)) == ToNat(Render(size')) == size';
    TailIsUnique(version + "|" + url, md5, version' + "|" + url', md5', '|');
    HeadIsUnique(version, url, version', url', '|');
  }

  /** In particular a signature over one parsed manifest's payload says nothing
      about any other version, URL, checksum or size. */
  lemma ParsedPayloadsDiffer(decoders: Decoders, raw: bytes, raw': bytes)
    requires ParseManifest(decoders, raw).Success? && ParseManifest(decoders, raw').Success?
    ensures
      var m, m' := ParseManifest(decoders, raw).value, ParseManifest(decoders, raw').value;
      SignedPayload(m.version, m.url, m.md5, m.size) == SignedPayload(m'.version, m'.url, m'.md5, m'.size)
      ==> m.version == m'.version && m.url == m'.url && m.md5 == m'.md5 && m.size == m'.size
  {
    var m, m' := ParseManifest(decoders, raw).value, ParseManifest(decoders, raw').value;
    if SignedPayload(m.version, m.url, m.md5, m.size) == SignedPayload(m'.version, m'.url, m'.md5, m'.size) {
      PayloadIsUniquelyDecodable(m.version, m.url, m.md5, m.size, m'.version, m'.url, m'.md5, m'.size);
    }
  }
}

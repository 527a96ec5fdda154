/**
 * The Microsoft Teams app manifest (schema version 1.16) that the form
 * derives from its fields: the `manifest` computed property of the app.
 */
module Manifests {
  import opened Wrappers
  import opened JsStrings
  import opened Uri

  /** The form fields the manifest depends on; `id` is fixed once per page session. */
  datatype Form = Form(
    id: JsString,
    name: JsString,
    fullName: JsString,
    description: JsString,
    fullDescription: JsString,
    url: JsString)

  datatype ShortFull = ShortFull(short: JsString, full: JsString)

  datatype Developer = Developer(
    name: JsString,
    mpnId: JsString,
    websiteUrl: JsString,
    privacyUrl: JsString,
    termsOfUseUrl: JsString)

  datatype Icons = Icons(outline: JsString, color: JsString)

  /** A static tab; the "about" tab has neither `name` nor `contentUrl`. */
  datatype StaticTab = StaticTab(
    entityId: JsString,
    name: Option<JsString>,
    contentUrl: Option<JsString>,
    scopes: seq<JsString>)

  datatype Manifest = Manifest(
    schema: JsString,
    version: JsString,
    manifestVersion: JsString,
    id: JsString,
    packageName: JsString,
    name: ShortFull,
    developer: Developer,
    description: ShortFull,
    icons: Icons,
    accentColor: JsString,
    staticTabs: seq<StaticTab>,
    validDomains: seq<JsString>,
    isFullScreen: bool)

  const SchemaUrl: JsString := Lit("https://developer.microsoft.com/en-us/json-schemas/teams/v1.16/MicrosoftTeams.schema.json")
  const AppVersion: JsString := Lit("1.0.0")
  const SchemaVersion: JsString := Lit("1.16")
  const PackageName: JsString := Lit("com.zivieri.leonardo.link")
  const FixedDeveloper: Developer := Developer(
    Lit("Leonardo Zivieri"),
    [],
    Lit("https://rawcdn.githack.com/LeonardoZivieri/MicrosoftTeamsSimpleTabRedirect/main/build.html"),
    Lit("https://rawcdn.githack.com/LeonardoZivieri/MicrosoftTeamsSimpleTabRedirect/main/privacy.html"),
    Lit("https://rawcdn.githack.com/LeonardoZivieri/MicrosoftTeamsSimpleTabRedirect/main/termsofuse.html"))
  const IconFiles: Icons := Icons(Lit("outline.png"), Lit("color.png"))
  const AccentColor: JsString := Lit("#FFFFFF")
  const LinkTabEntityId: JsString := Lit("ebc288fb-3745-4c0f-9caa-44d2841000c0")
  const LinkSuffix: JsString := Lit(" - Link")
  const RedirectPrefix: JsString := Lit("https://rawcdn.githack.com/FunctionOneCorporate/MicrosoftTeamsSimpleTabRedirect/main/index.html?url=")
  const Personal: seq<JsString> := [Lit("personal")]
  const AboutTab: StaticTab := StaticTab(Lit("about"), None, None, Personal)
  const ValidDomains: seq<JsString> := [Lit("rawcdn.githack.com")]

  /** JavaScript's `full || short` on two strings: the empty string is the only falsy one. */
  function OrElse(full: JsString, short: JsString): JsString {
    if full != [] then full else short
  }

  /** The `manifest` computed property; it throws when `encodeURIComponent(url)` does. */
  function ManifestOf(f: Form): Result<Manifest, UriError> {
    var encodedUrl :- EncodeUriComponent(f.url);
    var linkTab := StaticTab(LinkTabEntityId, Some(f.name + LinkSuffix), Some(RedirectPrefix + encodedUrl), Personal);
    Success(Manifest(
      SchemaUrl, AppVersion, SchemaVersion, f.id, PackageName,
      ShortFull(f.name, OrElse(f.fullName, f.name)),
      FixedDeveloper,
      ShortFull(f.description, OrElse(f.fullDescription, f.description)),
      IconFiles, AccentColor,
      [linkTab, AboutTab],
      ValidDomains, true))
  }

  /** The manifest can be computed exactly when the target URL holds no unpaired surrogate. */
  lemma ManifestDefinedIff(f: Form)
    ensures ManifestOf(f).Success? <==> NoLoneSurrogates(f.url)
  {
    EncodeSucceedsIff(f.url);
  }

  /** The manifest carries the session id unchanged. */
  lemma ManifestId(f: Form)
    requires ManifestOf(f).Success?
    ensures ManifestOf(f).value.id == f.id
  {
  }

  /** The short name is the name; the full name is the full name when given, the name otherwise. */
  lemma NameFallback(f: Form)
    requires ManifestOf(f).Success?
    ensures var n := ManifestOf(f).value.name;
      n.short == f.name &&
      (f.fullName != [] ==> n.full == f.fullName) &&
      (f.fullName == [] ==> n.full == f.name) &&
      (n.full == [] <==> f.fullName == [] && f.name == [])
  {
  }

  /** The short description is the description; the full one falls back to it when left empty. */
  lemma DescriptionFallback(f: Form)
    requires ManifestOf(f).Success?
    ensures var d := ManifestOf(f).value.description;
      d.short == f.description &&
      (f.fullDescription != [] ==> d.full == f.fullDescription) &&
      (f.fullDescription == [] ==> d.full == f.description) &&
      (d.full == [] <==> f.fullDescription == [] && f.description == [])
  {
  }

  /**
   * The first tab links to the redirect page with the URL as its `url` query
   * parameter: only unreserved characters and `%XX` triplets follow the prefix,
   * and percent-decoding them gives back the URL.
   */
  lemma LinkTab(f: Form)
    requires ManifestOf(f).Success?
    ensures var tabs := ManifestOf(f).value.staticTabs;
      |tabs| == 2 &&
      tabs[0].entityId == LinkTabEntityId &&
      tabs[0].name == Some(f.name + LinkSuffix) &&
      tabs[0].scopes == Personal &&
      tabs[1] == AboutTab &&
      tabs[0].contentUrl.Some? &&
      exists encoded :: tabs[0].contentUrl.value == RedirectPrefix + encoded &&
        IsPercentEncodedForm(encoded) && DecodeUriComponent(encoded) == Success(f.url)
  {
    var encoded := EncodeUriComponent(f.url).value;
    EncodedForm(f.url);
    DecodeEncode(f.url);
    assert ManifestOf(f).value.staticTabs[0].contentUrl.value == RedirectPrefix + encoded;
  }

  /** Two forms with different URLs never produce the same tab link. */
  lemma LinkDeterminesUrl(f: Form, g: Form)
    requires ManifestOf(f).Success? && ManifestOf(g).Success?
    requires ManifestOf(f).value.staticTabs[0].contentUrl == ManifestOf(g).value.staticTabs[0].contentUrl
    ensures f.url == g.url
  {
    var ef := EncodeUriComponent(f.url).value;
    var eg := EncodeUriComponent(g.url).value;
    assert RedirectPrefix + ef == RedirectPrefix + eg;
    assert ef == (RedirectPrefix + ef)[|RedirectPrefix|..];
    assert eg == (RedirectPrefix + eg)[|RedirectPrefix|..];
    EncodeInjective(f.url, g.url);
  }

  /**
   * Everything but the id, the names, the descriptions and the link tab is the
   * same for every form: the schema, versions, package name, developer, icons,
   * accent colour, the about tab, the valid domains and full-screen flag.
   */
  lemma ConstantFields(f: Form, g: Form)
    requires ManifestOf(f).Success? && ManifestOf(g).Success?
    ensures var m, n := ManifestOf(f).value, ManifestOf(g).value;
      m == n.(id := m.id, name := m.name, description := m.description,
              staticTabs := [m.staticTabs[0]] + n.staticTabs[1..])
    ensures var m := ManifestOf(f).value;
      m.schema == SchemaUrl && m.version == AppVersion && m.manifestVersion == SchemaVersion &&
      m.packageName == PackageName && m.developer == FixedDeveloper && m.icons == IconFiles &&
      m.accentColor == AccentColor && m.validDomains == ValidDomains && m.isFullScreen
  {
    var m, n := ManifestOf(f).value, ManifestOf(g).value;
    assert m.staticTabs == [m.staticTabs[0]] + n.staticTabs[1..];
  }

  /** The URL `https://example.com` becomes `https%3A%2F%2Fexample.com` in the tab link. */
  lemma ExampleLink(id: JsString)
    ensures var f := Form(id, Lit("Test"), [], [], [], Lit("https://example.com"));
      ManifestOf(f).Success? &&
      ManifestOf(f).value.name.short == Lit("Test") &&
      ManifestOf(f).value.name.full == Lit("Test") &&
      ManifestOf(f).value.staticTabs[0].contentUrl == Some(RedirectPrefix + Lit("https%3A%2F%2Fexample.com"))
  {
    ExampleEncoding(Lit("https://example.com"), Lit("https%3A%2F%2Fexample.com"));
  }

  lemma ExampleEncoding(url: JsString, encoded: JsString)
    requires url == Lit("https://example.com") && encoded == Lit("https%3A%2F%2Fexample.com")
    ensures EncodeUriComponent(url) == Success(encoded)
  {
    var scheme, host := Lit("https"), Lit("example.com");
    ExampleSplit(url, encoded, scheme, host);
    ExampleEncodingSteps(scheme, host);
  }

  lemma ExampleSplit(url: JsString, encoded: JsString, scheme: JsString, host: JsString)
    requires url == Lit("https://example.com") && encoded == Lit("https%3A%2F%2Fexample.com")
    requires scheme == Lit("https") && host == Lit("example.com")
    ensures url == scheme + ([':' as int] + (['/' as int] + (['/' as int] + host)))
    ensures encoded == scheme + ([Percent, '3' as int, 'A' as int] + ([Percent, '2' as int, 'F' as int] + ([Percent, '2' as int, 'F' as int] + host)))
  {
    var colon, slash := ':' as int, '/' as int;
    forall i | 0 <= i < 19 ensures url[i] == (scheme + ([colon] + ([slash] + ([slash] + host))))[i] {
    }
  }

  lemma ExampleEncodingSteps(scheme: JsString, host: JsString)
    requires scheme == Lit("https") && host == Lit("example.com")
    ensures EncodeUriComponent(scheme + ([':' as int] + (['/' as int] + (['/' as int] + host)))) ==
      Success(scheme + ([Percent, '3' as int, 'A' as int] + ([Percent, '2' as int, 'F' as int] + ([Percent, '2' as int, 'F' as int] + host))))
  {
    var colon, slash := ':' as int, '/' as int;
    forall i | 0 <= i < |host| ensures IsUnreserved(host[i]) {
    }
    forall i | 0 <= i < |scheme| ensures IsUnreserved(scheme[i]) {
    }
    assert HexDigit(colon / 16) == '3' as int && HexDigit(colon % 16) == 'A' as int;
    assert HexDigit(slash / 16) == '2' as int && HexDigit(slash % 16) == 'F' as int;
    EncodeUnreserved(host);
    EncodeAsciiReserved(slash, host);
    EncodeAsciiReserved(slash, [slash] + host);
    EncodeAsciiReserved(colon, [slash] + ([slash] + host));
    EncodePrefixUnreserved(scheme, [colon] + ([slash] + ([slash] + host)));
  }
}

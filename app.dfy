/**
 * The page's app: the form fields it holds, the manifest it derives from them
 * and `create`, which packs the manifest and the two icons into an archive.
 */
module Apps {
  import opened Wrappers
  import opened JsStrings
  import opened Uri
  import opened DataUrl
  import opened Manifests

  /** What `create` throws: a `URIError` from the manifest's URL, or a `TypeError` from `null.replace`. */
  datatype CreateError = BadUrl | NullIcon

  /** An archive entry holds the manifest (written out as JSON) or base64 text (decoded to bytes). */
  datatype Content = ManifestJson(manifest: Manifest) | Base64Data(payload: JsString)

  datatype Entry = Entry(name: JsString, content: Content)

  const ManifestFile: JsString := Lit("manifest.json")
  const ColorFile: JsString := Lit("color.png")
  const OutlineFile: JsString := Lit("outline.png")

  /** The form fields a text input edits. */
  datatype TextField = Name | FullName | Description | FullDescription | Url

  datatype IconField = ColorIcon | OutlineIcon

  function WithField(f: Form, field: TextField, value: JsString): (g: Form)
    ensures g.id == f.id
  {
    match field
    case Name => f.(name := value)
    case FullName => f.(fullName := value)
    case Description => f.(description := value)
    case FullDescription => f.(fullDescription := value)
    case Url => f.(url := value)
  }

  /** The entries `create` writes, in order, or what it throws first. */
  function ArchiveEntries(f: Form, colorIcon: Option<JsString>, outlineIcon: Option<JsString>): Result<seq<Entry>, CreateError> {
    match ManifestOf(f)
    case Failure(_) => Failure(BadUrl)
    case Success(m) =>
      if colorIcon.None? || outlineIcon.None? then Failure(NullIcon)
      else Success([
        Entry(ManifestFile, ManifestJson(m)),
        Entry(ColorFile, Base64Data(StripBase64Header(colorIcon.value))),
        Entry(OutlineFile, Base64Data(StripBase64Header(outlineIcon.value)))])
  }

  /** Exactly three entries, `manifest.json`, `color.png`, `outline.png`, holding the manifest and the icons' payloads. */
  lemma ArchiveLayout(f: Form, colorIcon: Option<JsString>, outlineIcon: Option<JsString>)
    requires ArchiveEntries(f, colorIcon, outlineIcon).Success?
    ensures var es := ArchiveEntries(f, colorIcon, outlineIcon).value;
      |es| == 3 &&
      es[0].name == ManifestFile && es[1].name == ColorFile && es[2].name == OutlineFile &&
      ManifestOf(f).Success? && es[0].content == ManifestJson(ManifestOf(f).value) &&
      es[0].content.manifest.id == f.id &&
      es[1].content == Base64Data(StripBase64Header(colorIcon.value)) &&
      es[2].content == Base64Data(StripBase64Header(outlineIcon.value))
  {
  }

  /** `create` fails exactly when the URL holds an unpaired surrogate or an icon is `null`. */
  lemma ArchiveFailsIff(f: Form, colorIcon: Option<JsString>, outlineIcon: Option<JsString>)
    ensures ArchiveEntries(f, colorIcon, outlineIcon).Failure? <==>
      !NoLoneSurrogates(f.url) || colorIcon.None? || outlineIcon.None?
    ensures ArchiveEntries(f, colorIcon, outlineIcon) == Failure(BadUrl) <==> !NoLoneSurrogates(f.url)
  {
    ManifestDefinedIff(f);
  }

  /** Icons read as `data:<type>;base64,<payload>` are stored as their payloads. */
  lemma ArchiveStoresPayloads(f: Form, colorType: JsString, color: JsString, outlineType: JsString, outline: JsString)
    requires NoLoneSurrogates(f.url)
    requires |colorType| > 0 && OneLine(colorType, 0, |colorType|) && !ContainsMarker(color)
    requires |outlineType| > 0 && OneLine(outlineType, 0, |outlineType|) && !ContainsMarker(outline)
    ensures var es := ArchiveEntries(f, Some(Scheme + colorType + Marker + color), Some(Scheme + outlineType + Marker + outline));
      es.Success? && es.value[1].content == Base64Data(color) && es.value[2].content == Base64Data(outline)
  {
    ManifestDefinedIff(f);
    StripDataUrl(colorType, color);
    StripDataUrl(outlineType, outline);
  }

  /** Editing a text field never changes the manifest's id. */
  lemma EditKeepsId(f: Form, field: TextField, value: JsString)
    requires ManifestOf(f).Success? && ManifestOf(WithField(f, field, value)).Success?
    ensures ManifestOf(WithField(f, field, value)).value.id == ManifestOf(f).value.id
  {
    ManifestId(f);
    ManifestId(WithField(f, field, value));
  }

  /** The JSZip object `create` fills: it only ever gains entries under new names here. */
  class Zip {
    var entries: seq<Entry>

    constructor ()
      ensures entries == []
    {
      entries := [];
    }

    /** `zip.file(name, content)`. */
    method File(name: JsString, content: Content)
      modifies this
      ensures entries == old(entries) + [Entry(name, content)]
    {
      entries := entries + [Entry(name, content)];
    }
  }

  class App {
    /** Drawn once per page session and never reassigned. */
    const id: JsString
    var name: JsString
    var fullName: JsString
    var description: JsString
    var fullDescription: JsString
    var url: JsString
    /** The icons as data URLs; the image inputs may set them to `null`. */
    var colorIcon: Option<JsString>
    var outlineIcon: Option<JsString>

    /** `data()`, with the session id passed in. */
    constructor (sessionId: JsString)
      ensures id == sessionId
      ensures Fields() == Manifests.Form(sessionId, [], [], [], [], [])
      ensures colorIcon == Some([]) && outlineIcon == Some([])
    {
      id := sessionId;
      name, fullName, description, fullDescription, url := [], [], [], [], [];
      colorIcon, outlineIcon := Some([]), Some([]);
    }

    function Fields(): Form
      reads this
    {
      Manifests.Form(id, name, fullName, description, fullDescription, url)
    }

    /** A text input writes one field through `v-model`. */
    method Input(field: TextField, value: JsString)
      modifies this
      ensures Fields() == WithField(old(Fields()), field, value)
      ensures colorIcon == old(colorIcon) && outlineIcon == old(outlineIcon)
    {
      match field
      case Name => name := value;
      case FullName => fullName := value;
      case Description => description := value;
      case FullDescription => fullDescription := value;
      case Url => url := value;
    }

    /** An image input, or the default icon loaded at start, writes one icon through `v-model`. */
    method SetIcon(icon: IconField, value: Option<JsString>)
      modifies this
      ensures Fields() == old(Fields())
      ensures colorIcon == if icon == ColorIcon then value else old(colorIcon)
      ensures outlineIcon == if icon == OutlineIcon then value else old(outlineIcon)
    {
      match icon
      case ColorIcon => colorIcon := value;
      case OutlineIcon => outlineIcon := value;
    }

    /** `create`: the entries of the archive it would offer for download, or what it throws. */
    method Create() returns (r: Result<seq<Entry>, CreateError>)
      ensures r == ArchiveEntries(Fields(), colorIcon, outlineIcon)
    {
      var zip := new Zip();
      var manifest := ManifestOf(Fields());
      if manifest.Failure? {
        return Failure(BadUrl);
      }
      zip.File(ManifestFile, ManifestJson(manifest.value));
      if colorIcon.None? {
        return Failure(NullIcon);
      }
      zip.File(ColorFile, Base64Data(StripBase64Header(colorIcon.value)));
      if outlineIcon.None? {
        return Failure(NullIcon);
      }
      zip.File(OutlineFile, Base64Data(StripBase64Header(outlineIcon.value)));
      assert zip.entries == [
        Entry(ManifestFile, ManifestJson(manifest.value)),
        Entry(ColorFile, Base64Data(StripBase64Header(colorIcon.value))),
        Entry(OutlineFile, Base64Data(StripBase64Header(outlineIcon.value)))];
      r := Success(zip.entries);
    }
  }
}

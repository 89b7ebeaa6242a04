/** `getMimeType`: a constant table from file extensions to MIME types, read with a fallback to
    the table's `txt` entry. */
module Mime {
  import opened JsValues
  import opened JsStrings

  /** The own properties of the object `MimeMap`: each extension, without a leading dot and in
      lower case, with its MIME type, in the order of the object literal.  The object is a
      constant, so no operation changes it. */
  function OwnProperty(key: string): Option<string> {
    match key
    case "aac" => Some("audio/aac")
    case "avi" => Some("video/x-msvideo")
    case "avif" => Some("image/avif")
    case "av1" => Some("video/av1")
    case "bin" => Some("application/octet-stream")
    case "bmp" => Some("image/bmp")
    case "css" => Some("text/css")
    case "csv" => Some("text/csv")
    case "eot" => Some("application/vnd.ms-fontobject")
    case "epub" => Some("application/epub+zip")
    case "gif" => Some("image/gif")
    case "gz" => Some("application/gzip")
    case "htm" => Some("text/html")
    case "html" => Some("text/html")
    case "ico" => Some("image/x-icon")
    case "ics" => Some("text/calendar")
    case "jpeg" => Some("image/jpeg")
    case "jpg" => Some("image/jpeg")
    case "js" => Some("text/javascript")
    case "json" => Some("application/json")
    case "jsonld" => Some("application/ld+json")
    case "map" => Some("application/json")
    case "mid" => Some("audio/x-midi")
    case "midi" => Some("audio/x-midi")
    case "mjs" => Some("text/javascript")
    case "mp3" => Some("audio/mpeg")
    case "mp4" => Some("video/mp4")
    case "mpeg" => Some("video/mpeg")
    case "oga" => Some("audio/ogg")
    case "ogv" => Some("video/ogg")
    case "ogx" => Some("application/ogg")
    case "opus" => Some("audio/opus")
    case "otf" => Some("font/otf")
    case "pdf" => Some("application/pdf")
    case "png" => Some("image/png")
    case "rtf" => Some("application/rtf")
    case "svg" => Some("image/svg+xml")
    case "tif" => Some("image/tiff")
    case "tiff" => Some("image/tiff")
    case "ts" => Some("video/mp2t")
    case "ttf" => Some("font/ttf")
    case "txt" => Some("text/plain")
    case "wasm" => Some("application/wasm")
    case "webm" => Some("video/webm")
    case "weba" => Some("audio/webm")
    case "webp" => Some("image/webp")
    case "woff" => Some("font/woff")
    case "woff2" => Some("font/woff2")
    case "xhtml" => Some("application/xhtml+xml")
    case "xml" => Some("application/xml")
    case "zip" => Some("application/zip")
    case "3gp" => Some("video/3gpp")
    case "3g2" => Some("video/3gpp2")
    case "gltf" => Some("model/gltf+json")
    case "glb" => Some("model/gltf-binary")
    case _ => None
  }

  /** A MIME type the table lists for some extension. */
  ghost predicate IsTableValue(mime: string) {
    exists key :: OwnProperty(key) == Some(mime)
  }

  /** `DefaultMime` */
  const DefaultMime := "text/plain"

  /** The names an object literal inherits from `Object.prototype`.  Reading one of them from the
      table finds the inherited member, which is not nullish, so `??` keeps it. */
  const ObjectPrototypeMembers: set<string> := {
    "constructor", "hasOwnProperty", "isPrototypeOf", "propertyIsEnumerable", "toLocaleString",
    "toString", "valueOf", "__proto__", "__defineGetter__", "__defineSetter__",
    "__lookupGetter__", "__lookupSetter__"}

  /** What `getMimeType` returns: a MIME type, or the inherited member of that name. */
  datatype Lookup = MimeType(text: string) | InheritedMember(name: string)

  /** `MimeMap[extension] ?? MimeMap["txt"]`: an own property first, then an inherited one, and
      the `txt` entry when neither exists. */
  function GetMimeType(extension: string): (r: Lookup)
    ensures OwnProperty(extension).Some? ==> r == MimeType(OwnProperty(extension).value)
    ensures OwnProperty(extension).None? && extension !in ObjectPrototypeMembers ==> r == MimeType(DefaultMime)
    ensures r.MimeType? ==> IsTableValue(r.text)
    ensures r.InheritedMember? <==> extension in ObjectPrototypeMembers
  {
    KeysAreShort(extension);
    InheritedNamesAreLong(extension);
    DefaultIsTextEntry();
    match OwnProperty(extension)
    case Some(mime) => MimeType(mime)
    case None =>
      if extension in ObjectPrototypeMembers then InheritedMember(extension)
      else MimeType(OwnProperty("txt").value)
  }

  /** Every extension in the table has one to six characters. */
  lemma KeysAreShort(key: string)
    ensures OwnProperty(key).Some? ==> 1 <= |key| <= 6
  {
  }

  /** Every inherited name has at least seven characters, so none is shadowed by the table. */
  lemma InheritedNamesAreLong(name: string)
    ensures name in ObjectPrototypeMembers ==> |name| >= 7
  {
  }

  /** Every extension in the table starts with a lower-case letter or a digit. */
  lemma KeysStartLowerOrDigit(key: string)
    ensures OwnProperty(key).Some? ==> |key| > 0 && (IsLower(key[0]) || IsDigit(key[0]))
  {
  }

  /** The fallback is the table's own `txt` entry. */
  lemma DefaultIsTextEntry()
    ensures OwnProperty("txt") == Some(DefaultMime)
  {
  }

  /** "jpg" and "jpeg" name one type. */
  lemma JpegExtensions()
    ensures GetMimeType("jpg") == GetMimeType("jpeg") == MimeType("image/jpeg")
  {
  }

  /** "htm" and "html" name one type. */
  lemma HtmlExtensions()
    ensures GetMimeType("htm") == GetMimeType("html") == MimeType("text/html")
  {
  }

  /** "mid" and "midi" name one type. */
  lemma MidiExtensions()
    ensures GetMimeType("mid") == GetMimeType("midi") == MimeType("audio/x-midi")
  {
  }

  /** "tif" and "tiff" name one type. */
  lemma TiffExtensions()
    ensures GetMimeType("tif") == GetMimeType("tiff") == MimeType("image/tiff")
  {
  }

  /** The lookup neither changes case nor strips a leading dot: an extension in upper case or
      with a dot gets the default.  So does the empty extension. */
  lemma ExactKeyLookup(extension: string)
    requires |extension| > 0 && (IsUpper(extension[0]) || extension[0] == '.')
    ensures GetMimeType(extension) == MimeType(DefaultMime)
  {
    KeysStartLowerOrDigit(extension);
    InheritedNamesStartLower(extension);
  }

  /** Every inherited name starts with a lower-case letter or an underscore. */
  lemma InheritedNamesStartLower(name: string)
    ensures name in ObjectPrototypeMembers ==> IsLower(name[0]) || name[0] == '_'
  {
  }

  lemma EmptyExtension()
    ensures GetMimeType("") == MimeType(DefaultMime)
  {
  }

  /** The extensions of the upper-case and dotted forms above. */
  lemma UpperCaseAndDottedExamples()
    ensures GetMimeType("JPG") == MimeType(DefaultMime)
    ensures GetMimeType(".png") == MimeType(DefaultMime)
  {
    ExactKeyLookup("JPG");
    ExactKeyLookup(".png");
  }

  /** An inherited name comes back as itself: "constructor" yields `Object.prototype.constructor`
      and not "text/plain". */
  lemma InheritedNameExample()
    ensures GetMimeType("constructor") == InheritedMember("constructor")
  {
  }
}

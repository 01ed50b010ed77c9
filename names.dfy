/** The pure helpers of the popup script (app.js): the download-name
    sanitiser, the extension-to-MIME table, the "can a browser tab show this"
    test, the compression level chosen by the preset, the dispatch of a
    chosen archive by its extension, and the names extract-all gives to the
    files it writes. */
module Names {
  import opened Text
  import opened Web

  // ---------------------------------------------------------------------------
  // sanitizeName

  const DefaultArchiveName: string := "archive.zip"

  /** The characters that may not appear in a download name. */
  const Forbidden: set<char> := {'/', '\\', ':', '*', '?', '"', '<', '>', '|'}

  function ReplaceForbidden(s: string): string {
    seq(|s|, i requires 0 <= i < |s| => if s[i] in Forbidden then '_' else s[i])
  }

  /** `sanitizeName`: an empty name becomes `archive.zip`; every forbidden
      character becomes `_` and every other character stays where it was. */
  function SanitizeName(s: string): (r: string)
    ensures forall c :: c in r ==> c !in Forbidden
    ensures s == [] ==> r == DefaultArchiveName
    ensures s != [] ==> |r| == |s|
    ensures s != [] ==> forall i :: 0 <= i < |s| ==>
      r[i] == (if s[i] in Forbidden then '_' else s[i])
  {
    if s == [] then
      assert forall c :: c in DefaultArchiveName ==> c !in Forbidden;
      assert ReplaceForbidden(DefaultArchiveName) == DefaultArchiveName;
      DefaultArchiveName
    else ReplaceForbidden(s)
  }

  /** Sanitising a sanitised name changes nothing. */
  lemma SanitizeNameIdempotent(s: string)
    ensures SanitizeName(SanitizeName(s)) == SanitizeName(s)
  {
    var r := SanitizeName(s);
    assert r != [];
    assert forall i :: 0 <= i < |r| ==> r[i] !in Forbidden by {
      forall i | 0 <= i < |r| ensures r[i] !in Forbidden {
        assert r[i] in r;
      }
    }
  }

  // ---------------------------------------------------------------------------
  // extMime

  const OctetStream: string := "application/octet-stream"

  /** The extension a name is looked up by: the lower-cased text after its
      last `.`, or the whole lower-cased name when it has no `.`. */
  function ExtensionOf(name: string): string {
    ToLower(AfterLast(name, '.'))
  }

  /** The table of app.js:15-41. */
  function MimeFor(ext: string): Option<string> {
    match ext
    case "png" => Some("image/png")
    case "jpg" => Some("image/jpeg")
    case "jpeg" => Some("image/jpeg")
    case "gif" => Some("image/gif")
    case "webp" => Some("image/webp")
    case "svg" => Some("image/svg+xml")
    case "bmp" => Some("image/bmp")
    case "ico" => Some("image/x-icon")
    case "tiff" => Some("image/tiff")
    case "pdf" => Some("application/pdf")
    case "txt" => Some("text/plain")
    case "md" => Some("text/markdown")
    case "rtf" => Some("application/rtf")
    case "html" => Some("text/html")
    case "htm" => Some("text/html")
    case "xml" => Some("text/xml")
    case "css" => Some("text/css")
    case "js" => Some("text/javascript")
    case "json" => Some("application/json")
    case "csv" => Some("text/csv")
    case "log" => Some("text/plain")
    case "ini" => Some("text/plain")
    case "zip" => Some("application/zip")
    case "rar" => Some("application/x-rar-compressed")
    case "7z" => Some("application/x-7z-compressed")
    case "tar" => Some("application/x-tar")
    case "mp3" => Some("audio/mpeg")
    case "wav" => Some("audio/wav")
    case "mp4" => Some("video/mp4")
    case "avi" => Some("video/x-msvideo")
    case "mov" => Some("video/quicktime")
    case "wmv" => Some("video/x-ms-wmv")
    case "exe" => Some("application/x-msdownload")
    case "dll" => Some("application/x-msdownload")
    case "bat" => Some("text/plain")
    case "sh" => Some("text/plain")
    case "ps1" => Some("text/plain")
    case _ => None
  }

  /** The extensions the table knows, listed on their own. */
  const KnownExtensions: set<string> := {
    "png", "jpg", "jpeg", "gif", "webp", "svg", "bmp", "ico", "tiff",
    "pdf",
    "txt", "md", "rtf", "html", "htm", "xml", "css", "js", "json", "csv", "log", "ini",
    "zip", "rar", "7z", "tar",
    "mp3", "wav", "mp4", "avi", "mov", "wmv",
    "exe", "dll", "bat", "sh", "ps1"
  }

  /** The lookup of app.js:42 on an extension: the table's type, and
      `application/octet-stream` for an extension the table lacks. */
  function MimeOfExt(ext: string): (r: string)
    ensures ext in KnownExtensions <==> r != OctetStream
    ensures ext in KnownExtensions ==> Some(r) == MimeFor(ext)
  {
    match MimeFor(ext)
    case Some(m) => m
    case None => OctetStream
  }

  /** `extMime`, as corrected (see ExtMimeAsWritten): the table's type for the
      name's extension, and `application/octet-stream` for everything else. */
  function ExtMime(name: string): (r: string)
    ensures ExtensionOf(name) in KnownExtensions <==> r != OctetStream
    ensures ExtensionOf(name) in KnownExtensions ==> Some(r) == MimeFor(ExtensionOf(name))
  {
    MimeOfExt(ExtensionOf(name))
  }

  /** Case never matters: two names that differ only in the case of their
      letters get the same type. */
  lemma {:induction false} ExtMimeIgnoresCase(a: string, b: string)
    requires SameIgnoringCase(a, b)
    ensures ExtMime(a) == ExtMime(b)
  {
    AfterLastIgnoresCase(a, b);
  }

  lemma {:induction false} AfterLastIgnoresCase(a: string, b: string)
    requires SameIgnoringCase(a, b)
    ensures ToLower(AfterLast(a, '.')) == ToLower(AfterLast(b, '.'))
    decreases |a|
  {
    if |a| > 0 {
      var n := |a| - 1;
      var a', b' := a[..n], b[..n];
      assert a[n] == '.' <==> b[n] == '.' by {
        assert LowerChar(a[n]) == LowerChar(b[n]);
        OnlyDotFoldsToDot(a[n]);
        OnlyDotFoldsToDot(b[n]);
      }
      if a[n] != '.' {
        var x, y := AfterLast(a', '.'), AfterLast(b', '.');
        assert ToLower(x) == ToLower(y) by {
          forall i | 0 <= i < |a'| ensures LowerChar(a'[i]) == LowerChar(b'[i]) {
            assert a'[i] == a[i] && b'[i] == b[i];
          }
          AfterLastIgnoresCase(a', b');
        }
        assert AfterLast(a, '.') == x + [a[n]];
        assert AfterLast(b, '.') == y + [b[n]];
        ToLowerAppend(x, a[n]);
        ToLowerAppend(y, b[n]);
      }
    }
  }

  /** Folding case turns no other character into a `.`. */
  lemma OnlyDotFoldsToDot(c: char)
    ensures LowerChar(c) == '.' <==> c == '.'
  {
  }

  lemma ToLowerAppend(s: string, c: char)
    ensures ToLower(s + [c]) == ToLower(s) + [LowerChar(c)]
  {
  }

  /** Only the text after the last `.` matters: what comes before it never
      changes the type. */
  lemma ExtMimeDependsOnlyOnExtension(stem1: string, stem2: string, ext: string)
    requires '.' !in ext
    ensures ExtMime(stem1 + "." + ext) == ExtMime(stem2 + "." + ext)
  {
    AfterLastOfSuffix(stem1, ext);
    AfterLastOfSuffix(stem2, ext);
  }

  lemma {:induction false} AfterLastOfSuffix(stem: string, ext: string)
    requires '.' !in ext
    ensures AfterLast(stem + "." + ext, '.') == ext
    decreases |ext|
  {
    var s := stem + "." + ext;
    if ext == [] {
      assert s[|s| - 1] == '.';
    } else {
      var n := |ext| - 1;
      assert s[|s| - 1] == ext[n];
      assert ext[n] in ext;
      assert s[..|s| - 1] == stem + "." + ext[..n];
      AfterLastOfSuffix(stem, ext[..n]);
      assert ext == ext[..n] + [ext[n]];
    }
  }

  // ---------------------------------------------------------------------------
  // canOpenInBrowser

  /** `s.startsWith(prefix)`. */
  predicate StartsWith(s: string, prefix: string) {
    |prefix| <= |s| && s[..|prefix|] == prefix
  }

  lemma DiffersAt(s: string, prefix: string, k: nat)
    requires k < |prefix| && k < |s| && s[k] != prefix[k]
    ensures !StartsWith(s, prefix)
  {
  }

  /** `canOpenInBrowser`: the type starts with one of the listed prefixes. */
  predicate CanOpenInBrowser(mime: string) {
    || StartsWith(mime, "image/") || StartsWith(mime, "text/")
    || StartsWith(mime, "application/pdf") || StartsWith(mime, "application/json")
    || StartsWith(mime, "application/xml") || StartsWith(mime, "text/xml")
    || StartsWith(mime, "application/javascript") || StartsWith(mime, "text/javascript")
    || StartsWith(mime, "application/x-javascript")
  }

  /** The extensions whose type a browser tab shows. */
  const ViewableExtensions: set<string> := {
    "png", "jpg", "jpeg", "gif", "webp", "svg", "bmp", "ico", "tiff",
    "pdf",
    "txt", "md", "html", "htm", "xml", "css", "js", "json", "csv", "log", "ini",
    "bat", "sh", "ps1"
  }

  /** The types of the table that no prefix admits, and the fallback type. */
  const HiddenTypes: set<string> := {
    OctetStream, "application/rtf", "application/zip",
    "application/x-rar-compressed", "application/x-7z-compressed",
    "application/x-tar", "application/x-msdownload",
    "audio/mpeg", "audio/wav",
    "video/mp4", "video/x-msvideo", "video/quicktime", "video/x-ms-wmv"
  }

  /** An `application/` type is shown exactly when it starts with one of the
      five `application/` prefixes; the `image/` and `text/` prefixes never
      admit it. */
  lemma ApplicationTypeViewability(m: string)
    requires StartsWith(m, "application/")
    ensures CanOpenInBrowser(m) <==>
      || StartsWith(m, "application/pdf") || StartsWith(m, "application/json")
      || StartsWith(m, "application/xml") || StartsWith(m, "application/javascript")
      || StartsWith(m, "application/x-javascript")
  {
    assert m[0] == "application/"[0];
    DiffersAt(m, "image/", 0);
    DiffersAt(m, "text/", 0);
    DiffersAt(m, "text/xml", 0);
    DiffersAt(m, "text/javascript", 0);
  }

  /** An `application/` type whose subtype starts with `o`, `r` or `z`, or
      with `x-` not followed by `j`, passes no prefix. This covers every
      `application/` type of the extension table that is not shown. */
  lemma ApplicationTypeNotViewable(m: string)
    requires |m| > 14 && m[..12] == "application/"
    requires m[12] in {'o', 'r', 'z'} || (m[12] == 'x' && m[13] == '-' && m[14] != 'j')
    ensures !CanOpenInBrowser(m)
  {
    assert m[0] == 'a' && m[1] == 'p';
    DiffersAt(m, "image/", 0);
    DiffersAt(m, "text/", 0);
    DiffersAt(m, "text/xml", 0);
    DiffersAt(m, "text/javascript", 0);
    var x := m[12] == 'x';
    DiffersAt(m, "application/pdf", 12);
    DiffersAt(m, "application/json", 12);
    DiffersAt(m, "application/xml", if x then 13 else 12);
    DiffersAt(m, "application/javascript", 12);
    DiffersAt(m, "application/x-javascript", if x then 14 else 12);
  }

  /** Audio and video types pass no prefix. */
  lemma MediaTypeNotViewable(m: string)
    requires |m| > 1 && (m[0] == 'v' || (m[0] == 'a' && m[1] == 'u'))
    ensures !CanOpenInBrowser(m)
  {
    var k := if m[0] == 'v' then 0 else 1;
    DiffersAt(m, "image/", 0);
    DiffersAt(m, "text/", 0);
    DiffersAt(m, "text/xml", 0);
    DiffersAt(m, "text/javascript", 0);
    DiffersAt(m, "application/pdf", k);
    DiffersAt(m, "application/json", k);
    DiffersAt(m, "application/xml", k);
    DiffersAt(m, "application/javascript", k);
    DiffersAt(m, "application/x-javascript", k);
  }

  lemma HiddenTypeNotViewable(m: string)
    requires m in HiddenTypes
    ensures !CanOpenInBrowser(m)
  {
    if m[0] == 'a' && m[1] == 'p' {
      ApplicationTypeNotViewable(m);
    } else {
      MediaTypeNotViewable(m);
    }
  }

  /** The fallback type is never shown in a tab. */
  lemma OctetStreamNotViewable()
    ensures !CanOpenInBrowser(OctetStream)
  {
    HiddenTypeNotViewable(OctetStream);
  }

  /** The types of the table that some prefix admits. */
  const ShownTypes: set<string> := {
    "image/png", "image/jpeg", "image/gif", "image/webp", "image/svg+xml",
    "image/bmp", "image/x-icon", "image/tiff", "application/pdf",
    "text/plain", "text/markdown", "text/html", "text/xml", "text/css",
    "text/javascript", "application/json", "text/csv"
  }

  lemma ShownTypeViewable(m: string)
    requires m in ShownTypes
    ensures CanOpenInBrowser(m)
  {
  }

  /** Every extension of the table maps into the shown types exactly when it
      is a viewable one, and into the hidden types otherwise. */
  lemma TableSplitsByViewability(ext: string)
    requires ext in KnownExtensions
    ensures MimeFor(ext).Some?
    ensures ext in ViewableExtensions ==> MimeFor(ext).value in ShownTypes
    ensures ext !in ViewableExtensions ==> MimeFor(ext).value in HiddenTypes
  {
  }

  /** A name's entry opens in a tab exactly when its extension is an image,
      PDF, text or JSON one; archives, audio, video, executables, RTF and
      unknown extensions go to the download sink. */
  lemma ViewableByExtension(name: string)
    ensures CanOpenInBrowser(ExtMime(name)) <==> ExtensionOf(name) in ViewableExtensions
  {
    var ext := ExtensionOf(name);
    var m := ExtMime(name);
    if ext in KnownExtensions {
      TableSplitsByViewability(ext);
      if ext in ViewableExtensions {
        ShownTypeViewable(m);
      } else {
        HiddenTypeNotViewable(m);
      }
    } else {
      assert ext !in ViewableExtensions;
      HiddenTypeNotViewable(m);
    }
  }

  // ---------------------------------------------------------------------------
  // The compression level of the Compress button (app.js:348)

  /** `quick` packs fastest, `maximum` smallest, every other preset uses the
      middle level. */
  function LevelFromPreset(preset: string): (level: int)
    ensures preset == "quick" <==> level == 1
    ensures preset == "maximum" <==> level == 9
    ensures preset != "quick" && preset != "maximum" <==> level == 6
  {
    if preset == "quick" then 1 else if preset == "maximum" then 9 else 6
  }

  // ---------------------------------------------------------------------------
  // Dispatch of a chosen or dropped archive (app.js:407-419, 426-437)

  datatype ArchiveAction = OpenZip | PassToDownload | Reject

  function ArchiveActionFor(fileName: string): (a: ArchiveAction)
    ensures a == OpenZip <==> ExtensionOf(fileName) == "zip"
    ensures a == PassToDownload <==> ExtensionOf(fileName) in {"rar", "7z", "tar"}
    ensures a == Reject <==> ExtensionOf(fileName) !in {"zip", "rar", "7z", "tar"}
  {
    var ext := ExtensionOf(fileName);
    if ext in ["zip", "rar", "7z", "tar"] then
      if ext == "zip" then OpenZip else PassToDownload
    else Reject
  }

  // ---------------------------------------------------------------------------
  // Names given by extract-all (app.js:548, 557-559)

  /** The name ends in `.zip`, in any mix of case. */
  predicate HasZipSuffix(name: string) {
    |name| >= 4 && ToLower(name[|name| - 4..]) == ".zip"
  }

  /** `name.replace(/\.zip$/i, "")`. */
  function ExtractBase(name: string): (base: string)
    ensures |base| <= |name| && name[..|base|] == base
  {
    if HasZipSuffix(name) then name[..|name| - 4] else name
  }

  /** Exactly one trailing `.zip`, of whatever case, is removed. */
  lemma ExtractBaseStripsOneSuffix(stem: string, suffix: string)
    requires |suffix| == 4 && ToLower(suffix) == ".zip"
    ensures ExtractBase(stem + suffix) == stem
  {
    assert (stem + suffix)[|stem + suffix| - 4..] == suffix;
  }

  /** A name without the suffix is kept whole. */
  lemma ExtractBaseKeepsOtherNames(name: string)
    requires !HasZipSuffix(name)
    ensures ExtractBase(name) == name
  {
  }

  /** `name.split("\\").join("/")`. */
  function SafePath(name: string): (p: string)
    ensures '\\' !in p
    ensures |p| == |name|
    ensures forall i :: 0 <= i < |name| && name[i] != '\\' ==> p[i] == name[i]
    ensures forall i :: 0 <= i < |name| && name[i] == '\\' ==> p[i] == '/'
  {
    ReplaceChar(name, '\\', '/')
  }

  /** The download name of one extracted entry: `${base}/${safePath}`. */
  function ExtractFilename(base: string, name: string): (f: string)
    ensures |f| == |base| + 1 + |name|
    ensures f[..|base| + 1] == base + "/"
    ensures '\\' !in f[|base| + 1..]
    ensures f[|base| + 1..] == SafePath(name)
  {
    base + "/" + SafePath(name)
  }

  // ---------------------------------------------------------------------------
  // extMime as written

  /** The properties every object literal inherits whose names are all
      lower case, so that an extension can spell them. */
  const InheritedKeys: set<string> := {"constructor", "__proto__"}

  /** What `mimes[ext] || ...` yields: a string, or (for an inherited
      property name) an inherited member that is not a string at all. */
  datatype PropertyValue = MimeString(s: string) | InheritedMember(key: string)

  /** `mimes[ext] || ...` as written, on an extension: the lookup also
      finds the members the table object inherits, which are truthy and are
      returned. */
  function LookupAsWritten(ext: string): (r: PropertyValue)
    ensures r.InheritedMember? <==> ext in InheritedKeys
  {
    match MimeFor(ext)
    case Some(m) => MimeString(m)
    case None => if ext in InheritedKeys then InheritedMember(ext) else MimeString(OctetStream)
  }

  /** Away from the inherited names the written lookup and the corrected one
      agree. */
  lemma LookupAsWrittenCorrectsOnlyInherited(ext: string)
    ensures ext !in InheritedKeys ==> LookupAsWritten(ext) == MimeString(MimeOfExt(ext))
    ensures ext in InheritedKeys ==> MimeOfExt(ext) == OctetStream
  {
  }

  /** `extMime` as written. */
  function ExtMimeAsWritten(name: string): (r: PropertyValue)
    ensures r.InheritedMember? <==> ExtensionOf(name) in InheritedKeys
  {
    LookupAsWritten(ExtensionOf(name))
  }

  /** The inherited names are plain lower-case words: no `.`, nothing to fold. */
  lemma InheritedKeyIsLowerWord(key: string)
    requires key in InheritedKeys
    ensures '.' !in key && ToLower(key) == key
  {
  }

  /** A file named `notes.constructor`, or any other name ending in `.`
      followed by an inherited name, gets no MIME string at all. */
  lemma ExtMimeAsWrittenReturnsNonString(stem: string, key: string)
    requires key in InheritedKeys
    ensures ExtMimeAsWritten(stem + "." + key) == InheritedMember(key)
  {
    InheritedKeyIsLowerWord(key);
    AfterLastOfSuffix(stem, key);
  }

  /** Away from the inherited names the written lookup and the corrected one
      agree, and the corrected one always yields a MIME string. */
  lemma ExtMimeCorrectsOnlyInheritedNames(name: string)
    ensures ExtensionOf(name) !in InheritedKeys ==> ExtMimeAsWritten(name) == MimeString(ExtMime(name))
    ensures ExtensionOf(name) in InheritedKeys ==> ExtMime(name) == OctetStream
  {
    LookupAsWrittenCorrectsOnlyInherited(ExtensionOf(name));
  }
}

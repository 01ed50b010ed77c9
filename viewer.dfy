/** The web page script (public/main.js): a list of files to pack into one
    archive, and a viewer that lists the files of a chosen archive. The page
    keeps `filesToCompress` and `zipEntries` as mutable state; the MIME
    table, the level switch and the removal filter are pure. */
module Viewer {
  import opened Text
  import opened Web
  import Names

  // ---------------------------------------------------------------------------
  // MIME types (public/main.js:29-45)

  /** The page's own table: ten extensions. */
  function PageMimeFor(ext: string): Option<string> {
    match ext
    case "png" => Some("image/png")
    case "jpg" => Some("image/jpeg")
    case "jpeg" => Some("image/jpeg")
    case "gif" => Some("image/gif")
    case "pdf" => Some("application/pdf")
    case "txt" => Some("text/plain")
    case "html" => Some("text/html")
    case "js" => Some("text/javascript")
    case "css" => Some("text/css")
    case "json" => Some("application/json")
    case _ => None
  }

  const PageExtensions: set<string> := {
    "png", "jpg", "jpeg", "gif", "pdf", "txt", "html", "js", "css", "json"
  }

  /** The lookup of public/main.js:44 on an extension: the table's type,
      and `application/octet-stream` for an extension the table lacks. */
  function PageMimeOfExt(ext: string): (r: string)
    ensures ext in PageExtensions <==> r != Names.OctetStream
    ensures ext in PageExtensions ==> Some(r) == PageMimeFor(ext)
  {
    match PageMimeFor(ext)
    case Some(m) => m
    case None => Names.OctetStream
  }

  /** `getMimeType`, as corrected (see GetMimeTypeAsWritten): the type the
      table gives the lower-cased text after the last `.`, and
      `application/octet-stream` for anything else. */
  function GetMimeType(filename: string): (r: string)
    ensures Names.ExtensionOf(filename) in PageExtensions <==> r != Names.OctetStream
    ensures Names.ExtensionOf(filename) in PageExtensions ==>
      Some(r) == PageMimeFor(Names.ExtensionOf(filename))
  {
    PageMimeOfExt(Names.ExtensionOf(filename))
  }

  /** The page's table is a part of the popup's: a name the page knows a type
      for gets the same type in the popup. */
  lemma PageTableWithinPopupTable(ext: string)
    requires ext in PageExtensions
    ensures ext in Names.KnownExtensions
    ensures PageMimeFor(ext) == Names.MimeFor(ext)
  {
  }

  /** Every name gets either the popup's type or the generic one. */
  lemma GetMimeTypeAgreesWithPopup(filename: string)
    ensures GetMimeType(filename) == Names.ExtMime(filename) || GetMimeType(filename) == Names.OctetStream
    ensures Names.ExtensionOf(filename) in PageExtensions ==> GetMimeType(filename) == Names.ExtMime(filename)
  {
    var ext := Names.ExtensionOf(filename);
    if ext in PageExtensions {
      PageTableWithinPopupTable(ext);
    }
  }

  /** `mimeTypes[ext] || 'application/octet-stream'` as written, on an
      extension: an object literal also answers the names of the members
      every object inherits. */
  function PageLookupAsWritten(ext: string): (r: Names.PropertyValue)
    ensures r.InheritedMember? <==> ext in Names.InheritedKeys
  {
    match PageMimeFor(ext)
    case Some(m) => Names.MimeString(m)
    case None =>
      if ext in Names.InheritedKeys then Names.InheritedMember(ext) else Names.MimeString(Names.OctetStream)
  }

  /** Away from the inherited names the written lookup and the corrected one
      agree. */
  lemma PageLookupAsWrittenCorrectsOnlyInherited(ext: string)
    ensures ext !in Names.InheritedKeys ==>
      PageLookupAsWritten(ext) == Names.MimeString(PageMimeOfExt(ext))
  {
  }

  /** `getMimeType` as written. */
  function GetMimeTypeAsWritten(filename: string): (r: Names.PropertyValue)
    ensures r.InheritedMember? <==> Names.ExtensionOf(filename) in Names.InheritedKeys
  {
    PageLookupAsWritten(Names.ExtensionOf(filename))
  }

  /** A file whose name ends in `.__proto__` (`readme.__proto__` for one) or
      in `.constructor` gets no MIME string. */
  lemma GetMimeTypeAsWrittenReturnsNonString(stem: string, key: string)
    requires key in Names.InheritedKeys
    ensures GetMimeTypeAsWritten(stem + "." + key) == Names.InheritedMember(key)
  {
    Names.InheritedKeyIsLowerWord(key);
    Names.AfterLastOfSuffix(stem, key);
  }

  /** The corrected lookup differs from the code as written only on the
      inherited member names. */
  lemma GetMimeTypeCorrectsOnlyInheritedNames(filename: string)
    ensures Names.ExtensionOf(filename) !in Names.InheritedKeys ==>
      GetMimeTypeAsWritten(filename) == Names.MimeString(GetMimeType(filename))
  {
    PageLookupAsWrittenCorrectsOnlyInherited(Names.ExtensionOf(filename));
  }

  // ---------------------------------------------------------------------------
  // Compression level (public/main.js:119-125)

  /** The level `switch`: quick is 1, maximum is 9, optimal and everything
      else is 6. */
  function LevelFor(choice: string): (level: int)
    ensures level == 1 <==> choice == "quick"
    ensures level == 9 <==> choice == "maximum"
    ensures level == 6 <==> choice != "quick" && choice != "maximum"
  {
    match choice
    case "quick" => 1
    case "optimal" => 6
    case "maximum" => 9
    case _ => 6
  }

  /** The page and the popup map every preset to the same level. */
  lemma LevelForAgreesWithPopup(choice: string)
    ensures LevelFor(choice) == Names.LevelFromPreset(choice)
  {
  }

  // ---------------------------------------------------------------------------
  // Removal by identity (public/main.js:100)

  /** `list.filter(f => f !== file)`. */
  function Without(list: seq<BrowserFile>, file: BrowserFile): (r: seq<BrowserFile>)
    ensures |r| <= |list|
    ensures file !in r
  {
    if list == [] then []
    else (if list[0] == file then [] else [list[0]]) + Without(list[1..], file)
  }

  /** The filter removes every copy of the file and nothing else. */
  lemma {:induction false} WithoutRemovesEveryCopy(list: seq<BrowserFile>, file: BrowserFile)
    ensures multiset(Without(list, file)) == multiset(list)[file := 0]
  {
    if list != [] {
      WithoutRemovesEveryCopy(list[1..], file);
      assert list == [list[0]] + list[1..];
    }
  }

  /** Filtering keeps the relative order: it works piece by piece. */
  lemma {:induction false} WithoutAppend(a: seq<BrowserFile>, b: seq<BrowserFile>, file: BrowserFile)
    ensures Without(a + b, file) == Without(a, file) + Without(b, file)
  {
    if a != [] {
      assert (a + b)[0] == a[0];
      assert (a + b)[1..] == a[1..] + b;
      WithoutAppend(a[1..], b, file);
    } else {
      assert a + b == b;
    }
  }

  /** A list in which the clicked file occurs once loses exactly that
      element; the others keep their places in order. */
  lemma {:induction false} WithoutRemovesOnlyThatFile(list: seq<BrowserFile>, k: int)
    requires 0 <= k < |list|
    requires forall j :: 0 <= j < |list| && j != k ==> list[j] != list[k]
    ensures Without(list, list[k]) == list[..k] + list[k + 1..]
  {
    var f := list[k];
    var before, after := list[..k], list[k + 1..];
    assert list == before + ([f] + after);
    assert Without(before, f) == before by {
      forall j | 0 <= j < |before| ensures before[j] != f {
        assert before[j] == list[j];
      }
      WithoutAbsent(before, f);
    }
    assert Without([f] + after, f) == after by {
      forall j | 0 <= j < |after| ensures after[j] != f {
        assert after[j] == list[k + 1 + j];
      }
      WithoutAbsent(after, f);
      WithoutAppend([f], after, f);
      assert Without([f], f) == [] + Without([], f);
    }
    WithoutAppend(before, [f] + after, f);
  }

  /** Filtering out a file that is not there changes nothing. */
  lemma {:induction false} WithoutAbsent(list: seq<BrowserFile>, file: BrowserFile)
    requires file !in list
    ensures Without(list, file) == list
  {
    if list != [] {
      WithoutAbsent(list[1..], file);
    }
  }

  // ---------------------------------------------------------------------------
  // Listing an archive (public/main.js:185-230)

  /** One element of `zipEntries`: the name, the blob size and the blob's
      bytes and type. */
  datatype PageEntry = PageEntry(name: string, size: nat, content: Bytes, mime: string)

  /** What the archive table shows. */
  datatype Table = Blank | Loading | Listed(count: nat) | EmptyArchive | ReadError

  /** The element pushed for a file that was read; `mimeOf` types its blob
      (`getMimeType` on the page). */
  function EntryOf(name: string, content: Bytes, mimeOf: string -> string): (p: PageEntry)
    ensures p.name == name && p.size == |content| && p.content == content
  {
    PageEntry(name, |content|, content, mimeOf(name))
  }

  /** The loop of `loadZipFile` over entries in key order: directories are
      skipped, each file is read, and the first failed read ends it
      (`ok == false`). */
  function Collect(es: seq<ZipEntry>, mimeOf: string -> string): (r: (seq<PageEntry>, bool))
    ensures |r.0| <= |es|
  {
    if es == [] then ([], true)
    else if es[0].dir then Collect(es[1..], mimeOf)
    else
      match es[0].content
      case None => ([], false)
      case Some(b) =>
        var rest := Collect(es[1..], mimeOf);
        ([EntryOf(es[0].name, b, mimeOf)] + rest.0, rest.1)
  }

  /** The files of an archive, in key order. */
  function NonDirs(es: seq<ZipEntry>): (r: seq<ZipEntry>)
    ensures |r| <= |es|
    ensures forall i :: 0 <= i < |r| ==> !r[i].dir && r[i] in es
  {
    if es == [] then []
    else (if es[0].dir then [] else [es[0]]) + NonDirs(es[1..])
  }

  /** Every file of the archive can be read. */
  predicate AllFilesRead(es: seq<ZipEntry>) {
    forall e :: e in es && !e.dir ==> e.content.Some?
  }

  /** One element per file, each with its size equal to its content length. */
  function ListedEntries(fs: seq<ZipEntry>, mimeOf: string -> string): (r: seq<PageEntry>)
    requires forall i :: 0 <= i < |fs| ==> fs[i].content.Some?
    ensures |r| == |fs|
    ensures forall i :: 0 <= i < |fs| ==>
      r[i] == EntryOf(fs[i].name, fs[i].content.value, mimeOf) &&
      r[i].name == fs[i].name && r[i].size == |fs[i].content.value|
  {
    if fs == [] then [] else [EntryOf(fs[0].name, fs[0].content.value, mimeOf)] + ListedEntries(fs[1..], mimeOf)
  }

  /** One step of the loop: the entry at `i` and the ones after it. */
  lemma CollectStep(es: seq<ZipEntry>, i: int, mimeOf: string -> string)
    requires 0 <= i < |es|
    ensures Collect(es[i..], mimeOf) ==
      if es[i].dir then Collect(es[i + 1..], mimeOf)
      else if es[i].content.None? then ([], false)
      else ([EntryOf(es[i].name, es[i].content.value, mimeOf)] + Collect(es[i + 1..], mimeOf).0,
            Collect(es[i + 1..], mimeOf).1)
  {
    assert es[i..][0] == es[i];
    assert es[i..][1..] == es[i + 1..];
  }

  /** When every file reads, the listing holds exactly the archive's files,
      in key order, each with its size equal to its content length, and no
      directory. */
  lemma {:induction false} CollectListsEveryFile(es: seq<ZipEntry>, mimeOf: string -> string)
    requires AllFilesRead(es)
    ensures forall i :: 0 <= i < |NonDirs(es)| ==> NonDirs(es)[i].content.Some?
    ensures Collect(es, mimeOf) == (ListedEntries(NonDirs(es), mimeOf), true)
  {
    if es != [] {
      assert forall e :: e in es[1..] ==> e in es;
      CollectListsEveryFile(es[1..], mimeOf);
      var rest := NonDirs(es[1..]);
      if es[0].dir {
        assert NonDirs(es) == [] + rest == rest;
      } else {
        assert NonDirs(es) == [es[0]] + rest;
        assert NonDirs(es)[1..] == rest;
      }
    }
  }

  /** A failed read of a file ends the listing with an error. */
  lemma {:induction false} CollectStopsAtFailedRead(es: seq<ZipEntry>, k: int, mimeOf: string -> string)
    requires 0 <= k < |es| && !es[k].dir && es[k].content.None?
    ensures !Collect(es, mimeOf).1
  {
    if k > 0 {
      CollectStopsAtFailedRead(es[1..], k - 1, mimeOf);
    }
  }

  /** The drop guard: the lower-cased name ends in `.zip`. */
  predicate AcceptsDrop(name: string) {
    EndsWith(ToLower(name), ".zip")
  }

  /** The drop guard is the test `ExtractBase` strips a suffix by: a `.zip`
      ending of any case. */
  lemma AcceptsDropIffZipSuffix(name: string)
    ensures AcceptsDrop(name) <==> Names.HasZipSuffix(name)
  {
    if |name| >= 4 {
      var low := ToLower(name);
      assert low[|low| - 4..] == ToLower(name[|name| - 4..]);
    }
  }

  // ---------------------------------------------------------------------------
  // The page

  class ZBoostPage {
    var filesToCompress: seq<BrowserFile>
    var zipEntries: seq<PageEntry>
    /** The value of the level select. */
    var levelChoice: string
    var table: Table
    /** Everything downloaded. */
    var sink: seq<Delivery>

    constructor (levelChoice: string)
      ensures filesToCompress == [] && zipEntries == [] && this.levelChoice == levelChoice
      ensures table == Blank && sink == []
    {
      filesToCompress := [];
      zipEntries := [];
      this.levelChoice := levelChoice;
      table := Blank;
      sink := [];
    }

    /** The file dialog and the drop zone: a non-empty selection replaces
        the list. */
    method ChooseFiles(chosen: seq<BrowserFile>)
      modifies this`filesToCompress
      ensures filesToCompress == if |chosen| > 0 then chosen else old(filesToCompress)
    {
      if |chosen| > 0 {
        filesToCompress := chosen;
      }
    }

    /** The Remove button of the row of `file`. */
    method RemoveFile(file: BrowserFile)
      modifies this`filesToCompress
      ensures filesToCompress == Without(old(filesToCompress), file)
    {
      filesToCompress := Without(filesToCompress, file);
    }

    /** The Compress button: nothing without files; otherwise the archive
        packed at the selected level is downloaded as `ZBoost_archive.zip`. */
    method Compress(encode: Encoder) returns (built: bool)
      modifies this`sink
      ensures built <==> |filesToCompress| > 0 && encode(Members(filesToCompress), LevelFor(levelChoice)).Some?
      ensures built ==> sink == old(sink) + [Download("ZBoost_archive.zip",
        encode(Members(filesToCompress), LevelFor(levelChoice)).value, "application/zip")]
      ensures !built ==> sink == old(sink)
    {
      built := false;
      if |filesToCompress| == 0 {
        return;
      }
      var level := LevelFor(levelChoice);
      match encode(Members(filesToCompress), level)
      case None =>
      case Some(bytes) =>
        sink := sink + [Download("ZBoost_archive.zip", bytes, "application/zip")];
        built := true;
    }

    /** The page after loading archive bytes: bytes that do not decode
        leave no entries and the error row; otherwise the files are those
        collected in key order until a read fails, and the table shows the
        error, the empty-archive row or the listing. */
    predicate ShowsArchive(bytes: Bytes, decode: Decoder)
      reads this
    {
      && (decode(bytes).None? ==> zipEntries == [] && table == ReadError)
      && (decode(bytes).Some? ==>
            var r := Collect(decode(bytes).value.entries, GetMimeType);
            && zipEntries == r.0
            && table == (if !r.1 then ReadError else if r.0 == [] then EmptyArchive else Listed(|r.0|)))
    }

    /** `loadZipFile(file)`: the entries start empty; the files are
        collected in key order until a read fails. */
    method LoadZipFile(file: BrowserFile, decode: Decoder)
      modifies this`zipEntries, this`table
      ensures ShowsArchive(file.bytes, decode)
    {
      table := Loading;
      zipEntries := [];
      match decode(file.bytes)
      case None =>
        table := ReadError;
      case Some(zip) =>
        CollectEntries(zip.entries, GetMimeType);
    }

    /** The loop of `loadZipFile` over the entries `es` in key order, from an
        empty list: each file is read and pushed, typed with `mimeOf`; a
        failed read shows the error and ends the loop. */
    method CollectEntries(es: seq<ZipEntry>, mimeOf: string -> string)
      requires zipEntries == []
      modifies this`zipEntries, this`table
      ensures zipEntries == Collect(es, mimeOf).0
      ensures !Collect(es, mimeOf).1 ==> table == ReadError
      ensures Collect(es, mimeOf).1 ==>
        table == (if zipEntries == [] then EmptyArchive else Listed(|zipEntries|))
    {
      var i := 0;
      while i < |es|
        invariant 0 <= i <= |es|
        invariant zipEntries + Collect(es[i..], mimeOf).0 == Collect(es, mimeOf).0
        invariant Collect(es[i..], mimeOf).1 == Collect(es, mimeOf).1
      {
        var e := es[i];
        CollectStep(es, i, mimeOf);
        if !e.dir {
          match e.content
          case None =>
            // the read throws: the table shows the error
            assert zipEntries + [] == zipEntries;
            table := ReadError;
            return;
          case Some(b) =>
            var p := EntryOf(e.name, b, mimeOf);
            assert zipEntries + [p] + Collect(es[i + 1..], mimeOf).0
                == zipEntries + ([p] + Collect(es[i + 1..], mimeOf).0);
            zipEntries := zipEntries + [p];
        }
        i := i + 1;
      }
      assert es[i..] == [];
      table := if zipEntries == [] then EmptyArchive else Listed(|zipEntries|);
    }

    /** A drop on the archive zone: the first dropped file, when its name
        ends in `.zip` in any case. */
    method DropZip(dropped: seq<BrowserFile>, decode: Decoder)
      modifies this`zipEntries, this`table
      ensures |dropped| == 0 || !AcceptsDrop(dropped[0].name) ==>
        zipEntries == old(zipEntries) && table == old(table)
      ensures |dropped| > 0 && AcceptsDrop(dropped[0].name) ==> ShowsArchive(dropped[0].bytes, decode)
    {
      if |dropped| > 0 && AcceptsDrop(dropped[0].name) {
        LoadZipFile(dropped[0], decode);
      }
    }
  }
}

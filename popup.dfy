/** The popup script (app.js) as a stateful object: the module-level
    variables `files`, `currentZip` and `currentZipName`, the form fields,
    what the view shows, the extension store and the download sink, with
    one method per event handler or helper that changes them.

    Storage calls succeed or fail as their `ok` arguments say; a nested
    `activate` gets its own pair of flags in an `Activation`. The ZIP codec
    is a pair of function parameters. */
module Popup {
  import opened Text
  import opened Web
  import opened Names
  import opened Session
  import opened Restore

  /** Whether the load and the save inside one `activate` call succeed. */
  datatype Activation = Activation(loadOk: bool, saveOk: bool)

  /** The archive an open listing's Open and Download buttons close over:
      the chosen file's bytes and the sorted entry list. */
  datatype OpenedArchive = OpenedArchive(bytes: Bytes, entries: seq<string>)

  // ---------------------------------------------------------------------------
  // The staged list

  /** Where `splice(idx, 1)` starts on a list of `len` elements: a negative
      index counts from the end, and both ends are clamped. */
  function SpliceStart(len: nat, idx: int): (k: nat)
    ensures k <= len
  {
    if idx < 0 then (if len + idx < 0 then 0 else len + idx)
    else if idx > len then len
    else idx
  }

  /** The list after `list.splice(idx, 1)`. */
  function SpliceOne<T>(list: seq<T>, idx: int): seq<T> {
    var k := SpliceStart(|list|, idx);
    if k < |list| then list[..k] + list[k + 1..] else list
  }

  /** Removing an index in range deletes exactly that element and keeps the
      others in their order. */
  lemma SpliceRemovesIndex<T>(list: seq<T>, i: int)
    requires 0 <= i < |list|
    ensures |SpliceOne(list, i)| == |list| - 1
    ensures forall j :: 0 <= j < i ==> SpliceOne(list, i)[j] == list[j]
    ensures forall j :: i <= j < |list| - 1 ==> SpliceOne(list, i)[j] == list[j + 1]
    ensures multiset(SpliceOne(list, i)) + multiset{list[i]} == multiset(list)
  {
    assert list == list[..i] + [list[i]] + list[i + 1..];
  }

  /** An index past the end removes nothing; a negative one counts back from
      the end. */
  lemma SpliceOtherIndices<T>(list: seq<T>, i: int)
    ensures i >= |list| ==> SpliceOne(list, i) == list
    ensures -|list| <= i < 0 ==> SpliceOne(list, i) == SpliceOne(list, |list| + i)
    ensures i < -|list| && |list| > 0 ==> SpliceOne(list, i) == list[1..]
  {
  }

  /** The name of a staged file is kept with its bytes as numbers. */
  function StoredFileOf(f: BrowserFile): (s: StoredFile)
    ensures s.name == f.name && s.mime == f.mime
    ensures Uint8Array(s.data) == f.bytes
  {
    BytesRoundTrip(f.bytes);
    StoredFile(f.name, f.mime, ByteNumbers(f.bytes))
  }

  /** `new File([new Uint8Array(f.data)], f.name, { type: f.type })` for
      each stored file (app.js:199-202). */
  method ReviveFiles(stored: seq<StoredFile>) returns (fs: seq<BrowserFile>)
    ensures |fs| == |stored|
    ensures forall i :: 0 <= i < |stored| ==>
      fs[i].name == stored[i].name && fs[i].mime == stored[i].mime &&
      fs[i].bytes == Uint8Array(stored[i].data)
  {
    fs := [];
    for i := 0 to |stored|
      invariant |fs| == i
      invariant forall j :: 0 <= j < i ==>
        fs[j].name == stored[j].name && fs[j].mime == stored[j].mime &&
        fs[j].bytes == Uint8Array(stored[j].data)
    {
      var f := new BrowserFile(stored[i].name, stored[i].mime, Uint8Array(stored[i].data));
      fs := fs + [f];
    }
  }

  /** The staged files as the popup stores them on closing: one record per
      file, in order. */
  function StoredFilesOf(files: seq<BrowserFile>): (stored: seq<StoredFile>)
    ensures |stored| == |files|
    ensures forall i :: 0 <= i < |files| ==> stored[i] == StoredFileOf(files[i])
  {
    seq(|files|, i requires 0 <= i < |files| => StoredFileOf(files[i]))
  }

  /** The record the popup writes on closing while files are staged. */
  function StagedRecord(zipName: string, preset: string, files: seq<BrowserFile>): Obj {
    map["activeTab" := Str("compress"), "zipName" := Str(zipName),
        "preset" := Str(preset), "compressFiles" := StoredFiles(StoredFilesOf(files))]
  }

  /** Staged files stored on closing and revived on the next start-up keep
      their names, types and bytes. */
  lemma StagedFilesRoundTrip(files: seq<BrowserFile>, revived: seq<BrowserFile>)
    requires var stored := StoredFilesOf(files);
      |revived| == |stored| && forall i :: 0 <= i < |stored| ==>
        revived[i].name == stored[i].name && revived[i].mime == stored[i].mime &&
        revived[i].bytes == Uint8Array(stored[i].data)
    ensures forall i :: 0 <= i < |files| ==>
      revived[i].name == files[i].name && revived[i].mime == files[i].mime &&
      revived[i].bytes == files[i].bytes
  {
  }

  /** The record saved while an archive is open in the View tab. */
  function ViewRecord(name: string, entries: seq<string>, bytes: Bytes): Obj {
    map["currentZipName" := Str(name), "entries" := Paths(entries),
        "activeTab" := Str("view"), BlobKey := Blob(bytes)]
  }

  // ---------------------------------------------------------------------------
  // Extract all (app.js:543-568)

  predicate Readable(e: ZipEntry) {
    !e.dir && e.content.Some?
  }

  /** The entries extract-all can write: files whose bytes can be read, in
      archive order. */
  function ReadableFiles(es: seq<ZipEntry>): (r: seq<ZipEntry>)
    ensures |r| <= |es|
    ensures forall i :: 0 <= i < |r| ==> Readable(r[i]) && r[i] in es
  {
    if es == [] then []
    else (if Readable(es[0]) then [es[0]] else []) + ReadableFiles(es[1..])
  }

  /** The download extract-all makes of a readable entry; `mimeOf` gives the
      type of the file's blob (`extMime` in the popup). */
  function DeliveryFor(base: string, e: ZipEntry, mimeOf: string -> string): Delivery
    requires Readable(e)
  {
    Download(ExtractFilename(base, e.name), e.content.value, mimeOf(e.name))
  }

  /** What the loop hands the download sink for one entry. */
  function ExtractOne(base: string, e: ZipEntry, mimeOf: string -> string): seq<Delivery> {
    if Readable(e) then [DeliveryFor(base, e, mimeOf)] else []
  }

  /** What the loop hands the download sink for a run of entries. */
  function ExtractDeliveries(base: string, es: seq<ZipEntry>, mimeOf: string -> string): seq<Delivery> {
    if es == [] then [] else ExtractOne(base, es[0], mimeOf) + ExtractDeliveries(base, es[1..], mimeOf)
  }

  /** One download per entry of a list of readable entries. */
  function DeliveriesFor(base: string, rs: seq<ZipEntry>, mimeOf: string -> string): (d: seq<Delivery>)
    requires forall i :: 0 <= i < |rs| ==> Readable(rs[i])
    ensures |d| == |rs|
    ensures forall i :: 0 <= i < |rs| ==> d[i] == DeliveryFor(base, rs[i], mimeOf)
  {
    if rs == [] then [] else [DeliveryFor(base, rs[0], mimeOf)] + DeliveriesFor(base, rs[1..], mimeOf)
  }

  /** The entries are handled one by one: a failed read in one run of entries
      never stops the next run. */
  lemma {:induction false} ExtractDeliveriesAppend(base: string, a: seq<ZipEntry>, b: seq<ZipEntry>, mimeOf: string -> string)
    ensures ExtractDeliveries(base, a + b, mimeOf) == ExtractDeliveries(base, a, mimeOf) + ExtractDeliveries(base, b, mimeOf)
  {
    if a != [] {
      assert (a + b)[0] == a[0];
      assert (a + b)[1..] == a[1..] + b;
      ExtractDeliveriesAppend(base, a[1..], b, mimeOf);
    } else {
      assert a + b == b;
    }
  }

  /** Extending the handled prefix by one entry adds that entry's download,
      if any. */
  lemma ExtractStep(base: string, es: seq<ZipEntry>, i: int, mimeOf: string -> string)
    requires 0 <= i < |es|
    ensures ExtractDeliveries(base, es[..i + 1], mimeOf) == ExtractDeliveries(base, es[..i], mimeOf) + ExtractOne(base, es[i], mimeOf)
  {
    ExtractDeliveriesAppend(base, es[..i], [es[i]], mimeOf);
    assert es[..i + 1] == es[..i] + [es[i]];
    assert ExtractDeliveries(base, [es[i]], mimeOf) == ExtractOne(base, es[i], mimeOf) + ExtractDeliveries(base, [], mimeOf);
  }

  lemma {:induction false} ReadableFilesAppend(a: seq<ZipEntry>, b: seq<ZipEntry>)
    ensures ReadableFiles(a + b) == ReadableFiles(a) + ReadableFiles(b)
  {
    if a != [] {
      assert (a + b)[0] == a[0];
      assert (a + b)[1..] == a[1..] + b;
      ReadableFilesAppend(a[1..], b);
    } else {
      assert a + b == b;
    }
  }

  /** Extending the handled prefix by one entry counts that entry when it is
      readable. */
  lemma ReadableStep(es: seq<ZipEntry>, i: int)
    requires 0 <= i < |es|
    ensures |ReadableFiles(es[..i + 1])| == |ReadableFiles(es[..i])| + (if Readable(es[i]) then 1 else 0)
  {
    assert ReadableFiles(es[..i + 1]) == ReadableFiles(es[..i]) + ReadableFiles([es[i]]) by {
      ReadableFilesAppend(es[..i], [es[i]]);
      assert es[..i + 1] == es[..i] + [es[i]];
    }
    assert ReadableFiles([es[i]]) == (if Readable(es[i]) then [es[i]] else []) + ReadableFiles([]);
  }

  /** Exactly one download per readable file, in archive order, named
      `base/path` with backslashes turned into slashes; no directory and no
      unreadable entry is ever dispatched. */
  lemma {:induction false} ExtractDeliversReadableFiles(base: string, es: seq<ZipEntry>, mimeOf: string -> string)
    ensures ExtractDeliveries(base, es, mimeOf) == DeliveriesFor(base, ReadableFiles(es), mimeOf)
  {
    if es != [] {
      ExtractDeliversReadableFiles(base, es[1..], mimeOf);
    }
  }

  // ---------------------------------------------------------------------------
  // The popup

  class PopupSession {
    /** `chrome.storage.local`. */
    var store: Store
    /** Whether the ZIP library loaded (app.js:236-244). */
    const jszipOk: bool

    /** The files staged for the Compress tab. */
    var files: seq<BrowserFile>
    /** The archive open in the View tab. */
    var currentZip: Option<ZipArchive>
    var currentZipName: string

    /** The archive-name and preset fields of the Compress tab. */
    var zipName: string
    var preset: string

    /** Which section is active, and what the View tab shows. */
    var compressActive: bool
    var reopenShown: bool
    var extractShown: bool
    var rows: seq<Row>
    /** The archive the listing's Open and Download buttons act on, when the
        listing was built by `openZip`. */
    var boundListing: Option<OpenedArchive>

    /** Everything handed to the download sink or opened in a tab. */
    var sink: seq<Delivery>

    /** The popup as its script starts: nothing staged, no archive open. */
    constructor (store: Store, jszipOk: bool)
      ensures this.store == store && this.jszipOk == jszipOk
      ensures files == [] && currentZip == None && currentZipName == DefaultArchiveName
      ensures rows == [] && boundListing == None && sink == []
    {
      this.store := store;
      this.jszipOk := jszipOk;
      files := [];
      currentZip := None;
      currentZipName := DefaultArchiveName;
      zipName := "";
      preset := "";
      compressActive := true;
      reopenShown := false;
      extractShown := true;
      rows := [];
      boundListing := None;
      sink := [];
    }

    // -------------------------------------------------------------------------
    // Persistence (app.js:56-95, 175-184)

    /** `saveState(o)`: a failure leaves the store as it was and is not
        reported. */
    method SaveState(o: Obj, ok: bool)
      modifies this`store
      ensures store == SaveStore(old(store), ok, o)
    {
      if ok {
        match Serialize(o)
        case Some(s) =>
          store := store[StateKey := Record(StorableObj(s))];
        case None =>
      }
    }

    /** `loadState()`: `None` for a missing or null record and for a failed
        read. */
    method LoadState(ok: bool) returns (state: Option<Obj>)
      ensures state == LoadRecord(store, ok)
      ensures !ok || StateKey !in store || store[StateKey].NullRecord? ==> state.None?
    {
      if !ok || StateKey !in store {
        return None;
      }
      match store[StateKey]
      case NullRecord =>
        state := None;
      case Record(o) =>
        state := Some(Deserialize(o));
    }

    /** `clearState()`: the record becomes `null`. */
    method ClearState(ok: bool)
      modifies this`store
      ensures store == ClearStore(old(store), ok)
    {
      if ok {
        store := store[StateKey := NullRecord];
      }
    }

    /** `activate(section, tab)`: shows the section and merges its name into
        the stored record as `activeTab`. */
    method Activate(compress: bool, act: Activation)
      modifies this`store, this`compressActive
      ensures compressActive == compress
      ensures store == ActivatedStore(old(store), act.loadOk, act.saveOk, compress)
    {
      compressActive := compress;
      var current := LoadState(act.loadOk);
      SaveState(current.GetOr(map[])["activeTab" := Str(TabName(compress))], act.saveOk);
    }

    // -------------------------------------------------------------------------
    // Restoration (app.js:98-170, 189-208, 258-262)

    /** The popup after applying decision `d` of `Restore.RestoreZipState`:
        a declined record changes nothing; otherwise the View tab is
        activated, the restored rows replace the listing (unbound to an
        archive), a live restore opens the archive and a stale one offers
        Reopen instead of Extract. */
    twostate predicate ShowsDecision(d: Decision, act: Activation)
      reads this
    {
      && (d.Declined? ==>
            store == old(store) && compressActive == old(compressActive) &&
            currentZip == old(currentZip) && currentZipName == old(currentZipName) &&
            reopenShown == old(reopenShown) && extractShown == old(extractShown) &&
            rows == old(rows) && boundListing == old(boundListing))
      && (!d.Declined? ==>
            store == ActivatedStore(old(store), act.loadOk, act.saveOk, false) && !compressActive &&
            rows == (if d.rows.Some? then d.rows.value else old(rows)) &&
            boundListing == (if d.rows.Some? then None else old(boundListing)))
      && (d.Live? ==>
            currentZip == Some(d.zip) && currentZipName == d.name &&
            reopenShown == old(reopenShown) && extractShown == old(extractShown))
      && (d.Stale? ==>
            currentZip == old(currentZip) && currentZipName == old(currentZipName) &&
            reopenShown && !extractShown)
    }

    /** `restoreZipState(state)`, applying the decision of
        `Restore.RestoreZipState`; without the ZIP library saved bytes never
        decode. */
    method RestoreZipState(state: Option<Obj>, decode: Decoder, act: Activation) returns (restored: bool)
      modifies this`store, this`compressActive, this`currentZip, this`currentZipName,
               this`reopenShown, this`extractShown, this`rows, this`boundListing
      ensures restored == Restore.RestoreZipState(state, Loader(jszipOk, decode)).Restored()
      ensures ShowsDecision(Restore.RestoreZipState(state, Loader(jszipOk, decode)), act)
    {
      var d := Restore.RestoreZipState(state, Loader(jszipOk, decode));
      match d
      case Declined =>
        restored := false;
      case Live(zip, name, listing) =>
        currentZip := Some(zip);
        currentZipName := name;
        Activate(false, act);
        if listing.Some? {
          rows := listing.value;
          boundListing := None;
        }
        restored := listing.Some?;
      case Stale(name, listing) =>
        Activate(false, act);
        reopenShown := true;
        extractShown := false;
        if listing.Some? {
          rows := listing.value;
          boundListing := None;
        }
        restored := listing.Some?;
    }

    /** Restores the archive-name and preset fields (app.js:258-262). */
    method RestoreSettings(loadOk: bool)
      modifies this`zipName, this`preset
      ensures var s := LoadRecord(store, loadOk);
        && zipName == (if s.Some? && TextField(s.value, "zipName").Some? then TextField(s.value, "zipName").value else DefaultArchiveName)
        && preset == (if s.Some? && TextField(s.value, "preset").Some? then TextField(s.value, "preset").value else "optimal")
    {
      var s := LoadState(loadOk);
      zipName := if s.Some? && TextField(s.value, "zipName").Some? then TextField(s.value, "zipName").value else DefaultArchiveName;
      preset := if s.Some? && TextField(s.value, "preset").Some? then TextField(s.value, "preset").value else "optimal";
    }

    /** The compress branch of the start-up code: the saved archive name and
        preset replace the fields' values when they are set, then the staged
        files are revived and the Compress tab is shown. Staged files that
        are not an array stop the branch after the two fields, as the
        `map` call throws there. */
    method RestoreStaged(o: Obj, act: Activation)
      modifies this`store, this`compressActive, this`files, this`zipName, this`preset
      ensures zipName == (if TextField(o, "zipName").Some? then TextField(o, "zipName").value else old(zipName))
      ensures preset == (if TextField(o, "preset").Some? then TextField(o, "preset").value else old(preset))
      ensures "compressFiles" in o && o["compressFiles"].StoredFiles? ==>
        var stored := o["compressFiles"].files;
        && |files| == |stored|
        && (forall i :: 0 <= i < |stored| ==>
              files[i].name == stored[i].name && files[i].mime == stored[i].mime &&
              files[i].bytes == Uint8Array(stored[i].data))
        && compressActive && store == ActivatedStore(old(store), act.loadOk, act.saveOk, true)
      ensures !("compressFiles" in o && o["compressFiles"].StoredFiles?) ==>
        files == old(files) && compressActive == old(compressActive) && store == old(store)
    {
      if TextField(o, "zipName").Some? {
        zipName := TextField(o, "zipName").value;
      }
      if TextField(o, "preset").Some? {
        preset := TextField(o, "preset").value;
      }
      if "compressFiles" in o && o["compressFiles"].StoredFiles? {
        files := ReviveFiles(o["compressFiles"].files);
        Activate(true, act);
      }
    }

    /** The start-up code (app.js:189-208): the view is restored, or the
        staged files are revived, or the Compress tab is shown. Each branch
        leaves every field it does not name as it was. */
    method Start(decode: Decoder, loadOk: bool, act: Activation)
      modifies this`store, this`compressActive, this`currentZip, this`currentZipName,
               this`reopenShown, this`extractShown, this`rows, this`boundListing,
               this`files, this`zipName, this`preset
      ensures var saved := LoadRecord(old(store), loadOk);
        StartBranchFor(saved) == RestoreView ==>
          && ShowsDecision(Restore.RestoreZipState(saved, Loader(jszipOk, decode)), act)
          && files == old(files) && zipName == old(zipName) && preset == old(preset)
      ensures var saved := LoadRecord(old(store), loadOk);
        StartBranchFor(saved) == RestoreCompress ==>
          var o := saved.value;
          && zipName == (if TextField(o, "zipName").Some? then TextField(o, "zipName").value else old(zipName))
          && preset == (if TextField(o, "preset").Some? then TextField(o, "preset").value else old(preset))
          && (o["compressFiles"].StoredFiles? ==>
                var stored := o["compressFiles"].files;
                && |files| == |stored|
                && (forall i :: 0 <= i < |stored| ==>
                      files[i].name == stored[i].name && files[i].mime == stored[i].mime &&
                      files[i].bytes == Uint8Array(stored[i].data))
                && compressActive && store == ActivatedStore(old(store), act.loadOk, act.saveOk, true))
          && (!o["compressFiles"].StoredFiles? ==>
                files == old(files) && compressActive == old(compressActive) && store == old(store))
      ensures var saved := LoadRecord(old(store), loadOk);
        StartBranchFor(saved) == ShowCompress ==>
          && compressActive && store == ActivatedStore(old(store), act.loadOk, act.saveOk, true)
          && files == old(files) && zipName == old(zipName) && preset == old(preset)
      ensures var saved := LoadRecord(old(store), loadOk);
        StartBranchFor(saved) != RestoreView ==>
          && currentZip == old(currentZip) && currentZipName == old(currentZipName)
          && rows == old(rows) && boundListing == old(boundListing)
          && reopenShown == old(reopenShown) && extractShown == old(extractShown)
    {
      var saved := LoadState(loadOk);
      match StartBranchFor(saved)
      case RestoreView =>
        var _ := RestoreZipState(saved, decode, act);
      case RestoreCompress =>
        RestoreStaged(saved.value, act);
      case ShowCompress =>
        Activate(true, act);
    }

    /** The save on closing (app.js:211-232): the open archive, re-encoded,
        with its sorted entry list; or else the staged files and the form
        fields, written directly. */
    method SaveOnUnload(encode: ZipArchive -> Option<Bytes>, ok: bool)
      modifies this`store
      ensures currentZip.Some? && currentZipName != "" ==>
        store == (match encode(currentZip.value)
                  case None => old(store)
                  case Some(bytes) => SaveStore(old(store), ok,
                    ViewRecord(currentZipName, SortPaths(Keys(currentZip.value.entries)), bytes)))
      ensures !(currentZip.Some? && currentZipName != "") && |files| > 0 && ok ==>
        store == old(store)[StateKey := Record(StagedRecord(zipName, preset, files))]
      ensures !(currentZip.Some? && currentZipName != "") && (|files| == 0 || !ok) ==> store == old(store)
    {
      if currentZip.Some? && currentZipName != "" {
        var entries := SortPaths(Keys(currentZip.value.entries));
        match encode(currentZip.value)
        case None =>
        case Some(bytes) =>
          SaveState(ViewRecord(currentZipName, entries, bytes), ok);
      } else if |files| > 0 {
        var compressFiles: seq<StoredFile> := [];
        for i := 0 to |files|
          invariant |compressFiles| == i
          invariant forall j :: 0 <= j < i ==> compressFiles[j] == StoredFileOf(files[j])
        {
          compressFiles := compressFiles + [StoredFileOf(files[i])];
        }
        assert compressFiles == StoredFilesOf(files);
        if ok {
          store := store[StateKey := Record(map["activeTab" := Str("compress"), "zipName" := Str(zipName),
                                                "preset" := Str(preset), "compressFiles" := StoredFiles(compressFiles)])];
        }
      }
    }

    // -------------------------------------------------------------------------
    // The Compress tab (app.js:278-380)

    /** The Remove button of the row `data-i` (`None` when it reads as NaN). */
    method RemoveStagedAt(idx: Option<int>)
      modifies this`files
      ensures files == (if idx.Some? then SpliceOne(old(files), idx.value) else old(files))
    {
      if idx.Some? {
        files := SpliceOne(files, idx.value);
      }
    }

    /** A drop on the Compress zone: dropped files are appended; a dropped
        link is appended as the one file the fetch returned, if any. */
    method DropOnCompress(dropped: seq<BrowserFile>, url: string, fetched: Option<BrowserFile>)
      modifies this`files
      ensures |dropped| > 0 ==> files == old(files) + dropped
      ensures |dropped| == 0 && url != "" && fetched.Some? ==> files == old(files) + [fetched.value]
      ensures |dropped| == 0 && (url == "" || fetched.None?) ==> files == old(files)
    {
      if |dropped| > 0 {
        files := files + dropped;
      } else if url != "" && fetched.Some? {
        files := files + [fetched.value];
      }
    }

    /** The file dialog: a non-empty selection replaces the staged list. */
    method ChooseFiles(chosen: seq<BrowserFile>)
      modifies this`files
      ensures files == if |chosen| > 0 then chosen else old(files)
    {
      if |chosen| > 0 {
        files := chosen;
      }
    }

    /** The Compress button: with the library loaded and files staged, the
        settings are merged into the stored record and the archive, packed
        at the preset's level, goes to the download sink under the sanitised
        name. A failed settings write is not reported (the promise around the
        store call resolves either way), so packing goes on after it. */
    method Compress(encode: Encoder, loadOk: bool, setOk: bool) returns (built: bool)
      modifies this`store, this`sink
      ensures !jszipOk || |files| == 0 ==> store == old(store) && sink == old(sink) && !built
      ensures jszipOk && |files| > 0 ==>
        store == CompressSettingsStore(old(store), loadOk, setOk, zipName, preset)
      ensures built <==>
        (jszipOk && |files| > 0 && encode(Members(files), LevelFromPreset(preset)).Some?)
      ensures built ==> sink == old(sink) + [Download(
        SanitizeName(if zipName == "" then DefaultArchiveName else zipName), encode(Members(files), LevelFromPreset(preset)).value, "application/zip")]
      ensures !built ==> sink == old(sink)
    {
      built := false;
      if !jszipOk || |files| == 0 {
        return;
      }
      var loaded := LoadState(loadOk);
      SaveState(CompressSettings(loaded, zipName, preset), setOk);
      var level := LevelFromPreset(preset);
      var name := SanitizeName(if zipName == "" then DefaultArchiveName else zipName);
      match encode(Members(files), level)
      case None =>
      case Some(bytes) =>
        sink := sink + [Download(name, bytes, "application/zip")];
        built := true;
    }

    // -------------------------------------------------------------------------
    // The View tab (app.js:402-583)

    /** The View tab's state (which tab shows, the open archive, its
        listing and buttons) is as it was. */
    twostate predicate ViewUnchanged()
      reads this
    {
      && compressActive == old(compressActive)
      && currentZip == old(currentZip) && currentZipName == old(currentZipName)
      && reopenShown == old(reopenShown) && extractShown == old(extractShown)
      && rows == old(rows) && boundListing == old(boundListing)
    }

    /** The popup after `openZip(file)`: without the ZIP library nothing
        changes; otherwise the saved session is cleared, and when the bytes
        decode, the archive becomes the open one, its sorted entry list is
        listed and saved with the bytes, and the View tab is shown. Bytes
        that do not decode leave the View tab as it was. */
    twostate predicate OpensZip(file: BrowserFile, decode: Decoder, clearOk: bool, saveOk: bool, act: Activation)
      reads this
    {
      && (!jszipOk ==> store == old(store) && ViewUnchanged())
      && (jszipOk && decode(file.bytes).None? ==>
            store == ClearStore(old(store), clearOk) && ViewUnchanged())
      && (jszipOk && decode(file.bytes).Some? ==>
            var zip := decode(file.bytes).value;
            var entries := SortPaths(Keys(zip.entries));
            && currentZip == Some(zip) && currentZipName == file.name
            && LiveRows(zip.entries, entries).Some? && rows == LiveRows(zip.entries, entries).value
            && store == ActivatedStore(
                 SaveStore(ClearStore(old(store), clearOk), saveOk, ViewRecord(file.name, entries, file.bytes)),
                 act.loadOk, act.saveOk, false)
            && !compressActive && !reopenShown && extractShown
            && boundListing == Some(OpenedArchive(file.bytes, entries)))
    }

    /** `openZip(file)`. */
    method OpenZip(file: BrowserFile, decode: Decoder, clearOk: bool, saveOk: bool, act: Activation)
      modifies this`store, this`compressActive, this`currentZip, this`currentZipName,
               this`reopenShown, this`extractShown, this`rows, this`boundListing
      ensures OpensZip(file, decode, clearOk, saveOk, act)
    {
      if !jszipOk {
        return;
      }
      ClearState(clearOk);
      match decode(file.bytes)
      case None =>
      case Some(zip) =>
        ShowArchive(file, zip, saveOk, act);
    }

    /** The part of `openZip` after the bytes decoded. */
    method ShowArchive(file: BrowserFile, zip: ZipArchive, saveOk: bool, act: Activation)
      modifies this`store, this`compressActive, this`currentZip, this`currentZipName,
               this`reopenShown, this`extractShown, this`rows, this`boundListing
      ensures var entries := SortPaths(Keys(zip.entries));
        && currentZip == Some(zip) && currentZipName == file.name
        && LiveRows(zip.entries, entries).Some? && rows == LiveRows(zip.entries, entries).value
        && store == ActivatedStore(SaveStore(old(store), saveOk, ViewRecord(file.name, entries, file.bytes)),
                                   act.loadOk, act.saveOk, false)
        && !compressActive && !reopenShown && extractShown
        && boundListing == Some(OpenedArchive(file.bytes, entries))
    {
      currentZip := Some(zip);
      currentZipName := file.name;
      var entries := SortPaths(Keys(zip.entries));
      SortedKeysListed(zip.entries);
      rows := LiveRows(zip.entries, entries).value;
      SaveState(ViewRecord(file.name, entries, file.bytes), saveOk);
      Activate(false, act);
      reopenShown := false;
      extractShown := true;
      boundListing := Some(OpenedArchive(file.bytes, entries));
    }

    /** The popup after a chosen or dropped archive is dispatched by its
        extension: a ZIP is opened, a RAR, 7Z or TAR file goes straight to
        the download sink, and anything else is refused. Only the opened
        ZIP touches the store and the View tab. */
    twostate predicate DispatchesArchive(file: BrowserFile, decode: Decoder, clearOk: bool, saveOk: bool, act: Activation)
      reads this
    {
      && (ArchiveActionFor(file.name).OpenZip? ==>
            OpensZip(file, decode, clearOk, saveOk, act) && sink == old(sink))
      && (ArchiveActionFor(file.name) == PassToDownload ==>
            sink == old(sink) + [Download(file.name, file.bytes, file.mime)])
      && (ArchiveActionFor(file.name) == Reject ==> sink == old(sink))
      && (!ArchiveActionFor(file.name).OpenZip? ==> store == old(store) && ViewUnchanged())
    }

    /** The `change` handler of the View tab's file input (app.js:423-440). */
    method DispatchArchive(file: BrowserFile, decode: Decoder, clearOk: bool, saveOk: bool, act: Activation)
      modifies this`store, this`compressActive, this`currentZip, this`currentZipName,
               this`reopenShown, this`extractShown, this`rows, this`boundListing, this`sink
      ensures DispatchesArchive(file, decode, clearOk, saveOk, act)
    {
      match ArchiveActionFor(file.name)
      case OpenZip =>
        OpenZip(file, decode, clearOk, saveOk, act);
      case PassToDownload =>
        sink := sink + [Download(file.name, file.bytes, file.mime)];
      case Reject =>
    }

    /** A drop on the View zone: only the first dropped file counts, and an
        empty drop changes nothing. */
    method DropArchive(dropped: seq<BrowserFile>, decode: Decoder, clearOk: bool, saveOk: bool, act: Activation)
      modifies this`store, this`compressActive, this`currentZip, this`currentZipName,
               this`reopenShown, this`extractShown, this`rows, this`boundListing, this`sink
      ensures |dropped| == 0 ==> store == old(store) && sink == old(sink) && ViewUnchanged()
      ensures |dropped| > 0 ==> DispatchesArchive(dropped[0], decode, clearOk, saveOk, act)
    {
      if |dropped| > 0 {
        DispatchArchive(dropped[0], decode, clearOk, saveOk, act);
      }
    }

    /** The Open or Download button of one listed entry (app.js:486-534). */
    method EntryAction(path: string, open: bool, saveOk: bool)
      modifies this`store, this`sink
      ensures var e := if currentZip.Some? then Lookup(currentZip.value.entries, path) else None;
        if boundListing.Some? && e.Some? && Readable(e.value) then
          var bytes := e.value.content.value;
          var mime := ExtMime(path);
          && store == (if open then SaveStore(old(store), saveOk,
                         ViewRecord(currentZipName, boundListing.value.entries, boundListing.value.bytes)
                           ["lastOpenedFile" := Str(path)]) else old(store))
          && sink == old(sink) + [if open && CanOpenInBrowser(mime) then OpenInTab(bytes, mime)
                                  else Download(path, bytes, mime)]
        else store == old(store) && sink == old(sink)
    {
      if boundListing.None? || currentZip.None? {
        return;
      }
      var e := Lookup(currentZip.value.entries, path);
      if e.None? || e.value.dir || e.value.content.None? {
        return;
      }
      var bytes := e.value.content.value;
      var mime := ExtMime(path);
      if open {
        SaveState(ViewRecord(currentZipName, boundListing.value.entries, boundListing.value.bytes)
                    ["lastOpenedFile" := Str(path)], saveOk);
        if CanOpenInBrowser(mime) {
          sink := sink + [OpenInTab(bytes, mime)];
        } else {
          sink := sink + [Download(path, bytes, mime)];
        }
      } else {
        sink := sink + [Download(path, bytes, mime)];
      }
    }

    /** The Extract button: every readable file of the open archive goes to
        the download sink under `base/path`; the count of those dispatched
        is returned. Without an open archive nothing happens. */
    method ExtractAll() returns (count: nat)
      modifies this`sink
      ensures currentZip.None? ==> sink == old(sink) && count == 0
      ensures currentZip.Some? ==>
        && sink == old(sink) + ExtractDeliveries(ExtractBase(currentZipName), currentZip.value.entries, ExtMime)
        && count == |ReadableFiles(currentZip.value.entries)|
    {
      count := 0;
      if currentZip.None? {
        return;
      }
      count := ExtractEntries(ExtractBase(currentZipName), currentZip.value.entries, ExtMime);
    }

    /** The loop of the Extract button, over the entries `es` in key order,
        typing each download with `mimeOf`. */
    method ExtractEntries(base: string, es: seq<ZipEntry>, mimeOf: string -> string) returns (count: nat)
      modifies this`sink
      ensures sink == old(sink) + ExtractDeliveries(base, es, mimeOf)
      ensures count == |ReadableFiles(es)|
    {
      count := 0;
      for i := 0 to |es|
        invariant sink == old(sink) + ExtractDeliveries(base, es[..i], mimeOf)
        invariant count == |ReadableFiles(es[..i])|
      {
        var e := es[i];
        ExtractStep(base, es, i, mimeOf);
        ReadableStep(es, i);
        // a directory is skipped; a failed read is reported and skipped
        if !e.dir && e.content.Some? {
          sink := sink + ExtractOne(base, e, mimeOf);
          count := count + 1;
        }
      }
      assert es[..|es|] == es;
    }

    /** The Clear button: the saved session is cleared, no archive is open
        and the Compress tab is shown. */
    method Clear(clearOk: bool, act: Activation)
      modifies this`store, this`compressActive, this`currentZip, this`currentZipName,
               this`reopenShown, this`extractShown, this`rows, this`boundListing
      ensures currentZip == None && currentZipName == DefaultArchiveName
      ensures rows == [] && boundListing == None && !reopenShown && extractShown && compressActive
      ensures store == ActivatedStore(ClearStore(old(store), clearOk), act.loadOk, act.saveOk, true)
      ensures clearOk && act.saveOk ==>
        store[StateKey] == Record(map["activeTab" := Str("compress")])
    {
      ClearState(clearOk);
      currentZip := None;
      currentZipName := DefaultArchiveName;
      rows := [];
      boundListing := None;
      reopenShown := false;
      extractShown := true;
      Activate(true, act);
      if clearOk && act.saveOk {
        if act.loadOk {
          ActivateStartsRecord(ClearStore(old(store), true), true);
        } else {
          ActivateAfterFailedReadKeepsOnlyTab(ClearStore(old(store), true), true);
        }
      }
    }
  }

  /** Every entry name of an archive, sorted, is found in the archive, so the
      listing `openZip` builds never throws. */
  lemma SortedKeysListed(es: seq<ZipEntry>)
    ensures LiveRows(es, SortPaths(Keys(es))).Some?
  {
    var entries := SortPaths(Keys(es));
    forall i | 0 <= i < |entries|
      ensures entries[i] in Keys(es)
    {
      assert entries[i] in multiset(entries);
    }
  }

}

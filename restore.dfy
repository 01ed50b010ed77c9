/** The restoration decision of the popup (app.js:98-170 and the start-up
    branch of app.js:189-208): given the record loaded from the store, which
    view the popup comes back to. The popup class applies the decision; here
    it is a value, so that what each kind of record leads to can be stated
    once for every record. */
module Restore {
  import opened Text
  import opened Web
  import opened Session

  /** One line of the archive listing: a live row comes with Open and
      Download buttons unless it is a directory; a stale row only offers to
      reopen the archive. */
  datatype Row = LiveRow(path: string, isDir: bool) | StaleRow(path: string, isFolder: bool)

  /** What `restoreZipState` does. `rows == None` means building the listing
      threw after the steps before it had run, and the call returns `false`. */
  datatype Decision =
    | Declined
    | Live(zip: ZipArchive, name: string, rows: Option<seq<Row>>)
    | Stale(name: string, rows: Option<seq<Row>>)
  {
    /** The value `restoreZipState` returns. */
    predicate Restored() {
      !Declined? && rows.Some?
    }
  }

  /** The listing of a live restore: each saved path looked up in the
      decoded archive; a path the archive lacks makes `entry.dir` throw. */
  function LiveRows(es: seq<ZipEntry>, paths: seq<string>): (r: Option<seq<Row>>)
    ensures r.Some? <==> forall i :: 0 <= i < |paths| ==> paths[i] in Keys(es)
    ensures r.Some? ==> |r.value| == |paths| && forall i :: 0 <= i < |paths| ==>
      r.value[i] == LiveRow(paths[i], Lookup(es, paths[i]).value.dir)
  {
    if paths == [] then Some([])
    else
      match Lookup(es, paths[0])
      case None => None
      case Some(e) =>
        match LiveRows(es, paths[1..])
        case None => None
        case Some(rest) => Some([LiveRow(paths[0], e.dir)] + rest)
  }

  /** The listing of a stale restore: a path is a folder when it ends in `/`. */
  function StaleRows(paths: seq<string>): seq<Row> {
    seq(|paths|, i requires 0 <= i < |paths| => StaleRow(paths[i], EndsWith(paths[i], "/")))
  }

  /** The saved entry list, when it is an array. */
  function EntryPaths(state: Obj): Option<seq<string>> {
    if "entries" in state && state["entries"].Paths? then Some(state["entries"].paths) else None
  }

  /** `restoreZipFromState(state)`. */
  function RestoreFromBlob(state: Obj, decode: Decoder): Decision {
    match TextField(state, "currentZipName")
    case None => Declined
    case Some(name) =>
      if !Has(state, "entries") || !Has(state, BlobKey) then Declined
      else
        match state[BlobKey]
        case Blob(bytes) =>
          (match decode(bytes)
           case None => Declined
           case Some(zip) =>
             var rows := match EntryPaths(state)
                         case Some(paths) => LiveRows(zip.entries, paths)
                         case None => None;
             Live(zip, name, rows))
        case _ => Declined
  }

  /** `restoreZipState(state)`. */
  function RestoreZipState(state: Option<Obj>, decode: Decoder): Decision {
    match state
    case None => Declined
    case Some(o) =>
      match TextField(o, "currentZipName")
      case None => Declined
      case Some(name) =>
        if !Has(o, "entries") then Declined
        else if Has(o, BlobKey) then RestoreFromBlob(o, decode)
        else
          var rows := match EntryPaths(o)
                      case Some(paths) => Some(StaleRows(paths))
                      case None => None;
          Stale(name, rows)
  }

  /** No record, no archive name or no entry list: nothing is restored and
      nothing is touched. */
  lemma IncompleteRecordDeclined(state: Option<Obj>, decode: Decoder)
    requires state.None? || TextField(state.value, "currentZipName").None? || !Has(state.value, "entries")
    ensures RestoreZipState(state, decode) == Declined
    ensures !RestoreZipState(state, decode).Restored()
  {
  }

  /** A record with archive bytes comes back live exactly when the bytes
      decode and every saved path is in the decoded archive; bytes that do
      not decode give `false` with nothing touched. */
  lemma RecordWithBytesRestoresLive(o: Obj, decode: Decoder, bytes: Bytes)
    requires TextField(o, "currentZipName").Some?
    requires "entries" in o && o["entries"].Paths?
    requires BlobKey in o && o[BlobKey] == Blob(bytes)
    ensures decode(bytes).None? ==> RestoreZipState(Some(o), decode) == Declined
    ensures RestoreZipState(Some(o), decode).Restored() <==>
      decode(bytes).Some? &&
      forall p :: p in o["entries"].paths ==> p in Keys(decode(bytes).value.entries)
    ensures decode(bytes).Some? ==>
              RestoreZipState(Some(o), decode) ==
              Live(decode(bytes).value, TextField(o, "currentZipName").value,
                   LiveRows(decode(bytes).value.entries, o["entries"].paths))
  {
    var d := RestoreZipState(Some(o), decode);
    var paths := o["entries"].paths;
    if decode(bytes).Some? {
      var es := decode(bytes).value.entries;
      if d.Restored() {
        forall p | p in paths ensures p in Keys(es) {
          var i :| 0 <= i < |paths| && paths[i] == p;
        }
      }
    }
  }

  /** A record whose saved `currentZipBlob` is truthy but not a Blob (such as
      the empty object the store leaves of one) is not restored at all, not
      even as a stale list. */
  lemma NonBlobBytesDeclined(o: Obj, decode: Decoder)
    requires Has(o, BlobKey) && !o[BlobKey].Blob?
    ensures RestoreZipState(Some(o), decode) == Declined
  {
  }

  /** Without the ZIP library, saved archive bytes are never restored: the
      call that reads them throws and the result is `false`. */
  lemma SavedBytesNeedLibrary(o: Obj, decode: Decoder)
    requires Has(o, BlobKey)
    ensures RestoreZipState(Some(o), Loader(false, decode)) == Declined
  {
  }

  /** A record without archive bytes is always restored, as a stale list in
      which exactly the paths ending in `/` are shown as folders. */
  lemma RecordWithoutBytesRestoresStale(o: Obj, decode: Decoder)
    requires TextField(o, "currentZipName").Some?
    requires "entries" in o && o["entries"].Paths?
    requires !Has(o, BlobKey)
    ensures RestoreZipState(Some(o), decode).Stale?
    ensures RestoreZipState(Some(o), decode).Restored()
    ensures var rows := RestoreZipState(Some(o), decode).rows.value;
      && |rows| == |o["entries"].paths|
      && forall i :: 0 <= i < |rows| ==>
           rows[i].path == o["entries"].paths[i] &&
           (rows[i].isFolder <==> |rows[i].path| > 0 && rows[i].path[|rows[i].path| - 1] == '/')
  {
    var rows := RestoreZipState(Some(o), decode).rows.value;
    forall i | 0 <= i < |rows|
      ensures rows[i].isFolder <==> |rows[i].path| > 0 && rows[i].path[|rows[i].path| - 1] == '/'
    {
      var p := rows[i].path;
      if |p| > 0 && p[|p| - 1] == '/' {
        assert p[|p| - 1..] == "/";
      }
    }
  }

  /** After the Compress button, as written, ran while an archive was
      saved, a restore of the session record declines it, and start-up does
      not even try one: the record's tab is now `compress`, so start-up
      shows the Compress tab (or revives staged files, if the record held
      any). */
  lemma ArchiveUnrecoverableAfterCompressAsWritten(store: Store, zipName: string, preset: string, decode: Decoder)
    requires SavesArchive(store)
    ensures var after := CompressSettingsStoreAsWritten(store, true, true, zipName, preset);
            RestoreZipState(LoadRecord(after, true), decode) == Declined
    ensures var after := CompressSettingsStoreAsWritten(store, true, true, zipName, preset);
            StartBranchFor(LoadRecord(after, true)) != RestoreView
    ensures var after := CompressSettingsStoreAsWritten(store, true, true, zipName, preset);
            !Has(store[StateKey].fields, "compressFiles") ==>
              StartBranchFor(LoadRecord(after, true)) == ShowCompress
  {
    CompressSettingsAsWrittenLosesArchive(store, zipName, preset);
    var after := CompressSettingsStoreAsWritten(store, true, true, zipName, preset);
    var loaded := LoadRecord(after, true).value;
    NonBlobBytesDeclined(loaded, decode);
    assert TabIs(loaded, "compress") by {
      assert "activeTab" != BlobKey && "activeTab" != DataKey;
    }
    assert Has(loaded, "compressFiles") == Has(store[StateKey].fields, "compressFiles") by {
      assert "compressFiles" != BlobKey && "compressFiles" != DataKey;
      assert "compressFiles" != "zipName" && "compressFiles" != "preset" && "compressFiles" != "activeTab";
    }
  }

  // ---------------------------------------------------------------------------
  // The start-up branch (app.js:189-208)

  datatype StartBranch = RestoreView | RestoreCompress | ShowCompress

  /** `state.activeTab === tab`. */
  predicate TabIs(o: Obj, tab: string) {
    "activeTab" in o && o["activeTab"] == Str(tab)
  }

  /** Which branch the start-up code takes for the loaded record. */
  function StartBranchFor(saved: Option<Obj>): (b: StartBranch)
    ensures b == RestoreView <==>
      saved.Some? && TabIs(saved.value, "view") && Has(saved.value, "currentZipName")
    ensures b == RestoreCompress <==>
      saved.Some? && TabIs(saved.value, "compress") && Has(saved.value, "compressFiles")
    ensures b == ShowCompress <==>
      || saved.None?
      || (!(TabIs(saved.value, "view") && Has(saved.value, "currentZipName")) &&
          !(TabIs(saved.value, "compress") && Has(saved.value, "compressFiles")))
  {
    match saved
    case None => ShowCompress
    case Some(o) =>
      if TabIs(o, "view") && Has(o, "currentZipName") then RestoreView
      else if TabIs(o, "compress") && Has(o, "compressFiles") then RestoreCompress
      else ShowCompress
  }
}

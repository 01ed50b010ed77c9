/** The persistence gateway of the popup (app.js:52-95): the session record
    kept under one key of the extension's local store, the transform that
    turns the open archive's Blob into a plain array of byte values on the
    way in and back into a Blob on the way out, and the read-modify-write
    merges built on it.

    The store is a map from keys to slots. Each storage call either succeeds
    or fails, as its `ok` argument says; a failure is swallowed by the
    operation, which then leaves the store as it was. Writing to the store
    keeps what the extension store keeps of a value: a Blob is not an array
    or a primitive, so it is stored as an empty object. */
module Session {
  import opened Web

  const StateKey: string := "zipboost_state"
  const BlobKey: string := "currentZipBlob"
  const DataKey: string := "currentZipData"

  datatype Slot = NullRecord | Record(fields: Obj)

  type Store = map<string, Slot>

  /** What the store keeps of a value written to it. */
  function Storable(v: Value): Value {
    if v.Blob? then EmptyObject else v
  }

  function StorableObj(o: Obj): (r: Obj)
    ensures r.Keys == o.Keys
    ensures forall k :: k in o ==> r[k] == Storable(o[k])
  {
    map k | k in o :: Storable(o[k])
  }

  /** The bytes `new Uint8Array(state.currentZipData)` makes of a stored
      value; the code only ever stores an array of numbers there. */
  function Uint8From(v: Value): Bytes {
    if v.ByteArray? then Uint8Array(v.data) else []
  }

  /** The first half of `saveState`: a truthy `currentZipBlob` is replaced
      by `currentZipData`, the plain array of its bytes. `None` when that
      field holds something truthy that is not a Blob: reading its bytes
      throws, and nothing is saved. */
  function Serialize(o: Obj): (r: Option<Obj>)
    ensures r.None? <==> Has(o, BlobKey) && !o[BlobKey].Blob?
    ensures r.Some? && Has(o, BlobKey) ==>
      && BlobKey !in r.value && DataKey in r.value
      && r.value[DataKey] == ByteArray(ByteNumbers(o[BlobKey].bytes))
    ensures r.Some? && !Has(o, BlobKey) ==> r.value == o
    ensures r.Some? ==> forall k :: k != BlobKey && k != DataKey ==>
      (k in r.value <==> k in o) && (k in o ==> r.value[k] == o[k])
  {
    if Has(o, BlobKey) then
      match o[BlobKey]
      case Blob(b) => Some((o - {BlobKey})[DataKey := ByteArray(ByteNumbers(b))])
      case _ => None
    else Some(o)
  }

  /** The transform of `loadState`: a truthy `currentZipData` is replaced by
      `currentZipBlob`, a Blob of those bytes. */
  function Deserialize(o: Obj): (r: Obj)
    ensures Has(o, DataKey) ==> DataKey !in r && BlobKey in r && r[BlobKey] == Blob(Uint8From(o[DataKey]))
    ensures !Has(o, DataKey) ==> r == o
    ensures forall k :: k != BlobKey && k != DataKey ==>
      (k in r <==> k in o) && (k in o ==> r[k] == o[k])
  {
    if Has(o, DataKey) then (o - {DataKey})[BlobKey := Blob(Uint8From(o[DataKey]))] else o
  }

  /** No field other than `currentZipBlob` holds binary data. */
  predicate OnlyZipIsBinary(o: Obj) {
    forall k :: k in o && k != BlobKey ==> !o[k].Blob?
  }

  /** Saving and then loading a state object gives it back: the archive
      bytes byte for byte, every other field unchanged, and no trace of the
      intermediate `currentZipData`. */
  lemma PersistRoundTrip(o: Obj)
    requires DataKey !in o
    requires OnlyZipIsBinary(o)
    requires Serialize(o).Some?
    ensures Deserialize(StorableObj(Serialize(o).value)) == o
  {
    var s := StorableObj(Serialize(o).value);
    if Has(o, BlobKey) {
      var b := o[BlobKey].bytes;
      BytesRoundTrip(b);
      assert Has(s, DataKey);
      assert Deserialize(s)[BlobKey] == o[BlobKey];
    } else {
      assert s == o;
    }
  }

  // ---------------------------------------------------------------------------
  // The store as the three operations leave it

  /** The store after `saveState(o)`. */
  function SaveStore(store: Store, ok: bool, o: Obj): (r: Store)
    ensures !ok ==> r == store
    ensures forall k :: k != StateKey ==> (k in r <==> k in store)
    ensures forall k :: k in store && k != StateKey ==> r[k] == store[k]
    ensures Serialize(o).None? ==> r == store
    ensures ok && Serialize(o).Some? ==> StateKey in r && r[StateKey] == Record(StorableObj(Serialize(o).value))
  {
    if ok then
      match Serialize(o)
      case Some(s) => store[StateKey := Record(StorableObj(s))]
      case None => store
    else store
  }

  /** What `loadState()` returns; `None` stands for `null`. */
  function LoadRecord(store: Store, ok: bool): (r: Option<Obj>)
    ensures !ok ==> r.None?
    ensures ok && StateKey in store && store[StateKey].Record? ==>
      r == Some(Deserialize(store[StateKey].fields))
    ensures StateKey !in store || store[StateKey].NullRecord? ==> r.None?
  {
    if !ok || StateKey !in store then None
    else
      match store[StateKey]
      case NullRecord => None
      case Record(o) => Some(Deserialize(o))
  }

  /** The store after `clearState()`. */
  function ClearStore(store: Store, ok: bool): (r: Store)
    ensures ok ==> LoadRecord(r, true).None?
    ensures !ok ==> r == store
    ensures forall k :: k in store && k != StateKey ==> k in r && r[k] == store[k]
  {
    if ok then store[StateKey := NullRecord] else store
  }

  /** `loadState()` after a successful `saveState(o)` returns `o`. */
  lemma SaveThenLoad(store: Store, o: Obj)
    requires DataKey !in o
    requires OnlyZipIsBinary(o)
    requires Serialize(o).Some?
    ensures LoadRecord(SaveStore(store, true, o), true) == Some(o)
  {
    PersistRoundTrip(o);
  }

  /** A failed save, load or clear never disturbs the store, and a failed
      load reads as `null`. */
  lemma FailuresAreSwallowed(store: Store, o: Obj)
    ensures SaveStore(store, false, o) == store
    ensures ClearStore(store, false) == store
    ensures LoadRecord(store, false) == None
  {
  }

  // ---------------------------------------------------------------------------
  // activate(): the read-modify-write of `activeTab` (app.js:181-183)

  function TabName(compress: bool): string {
    if compress then "compress" else "view"
  }

  /** The store after `activate`: the record loaded (or `{}` when there is
      none) with `activeTab` overwritten, saved back. */
  function ActivatedStore(store: Store, loadOk: bool, saveOk: bool, compress: bool): Store {
    var current := LoadRecord(store, loadOk).GetOr(map[]);
    SaveStore(store, saveOk, current["activeTab" := Str(TabName(compress))])
  }

  /** A record as `saveState` leaves it in the store: the archive bytes (if
      any) as an array of byte values and no binary data anywhere. */
  predicate WellStored(o: Obj) {
    && BlobKey !in o
    && (forall k :: k in o ==> !o[k].Blob? && o[k] != EmptyObject)
    && (DataKey in o ==> o[DataKey].ByteArray? && InByteRange(o[DataKey].data))
  }

  /** Fields a merge may add to a stored record: plain, non-binary values
      under keys other than the two the transform uses. */
  predicate PlainFields(extra: Obj) {
    forall k :: k in extra ==> k != BlobKey && k != DataKey && !extra[k].Blob? && extra[k] != EmptyObject
  }

  /** Loading a record, merging plain fields into it and saving it back
      stores the record with just those fields merged in. */
  lemma {:induction false} StoredRecordSurvivesReload(r: Obj, extra: Obj)
    requires WellStored(r)
    requires PlainFields(extra)
    ensures Serialize(Deserialize(r) + extra).Some?
    ensures StorableObj(Serialize(Deserialize(r) + extra).value) == r + extra
  {
    var d := Deserialize(r) + extra;
    if DataKey in r {
      NumbersRoundTrip(r[DataKey].data);
      assert d[BlobKey] == Blob(Uint8Array(r[DataKey].data));
      var s := Serialize(d).value;
      assert s[DataKey] == r[DataKey];
      assert s == r + extra;
    } else {
      assert d == r + extra;
    }
  }

  /** `activate` changes exactly `activeTab` of a record the popup saved;
      with no record it starts one that holds only `activeTab`. */
  lemma ActivateMerges(store: Store, compress: bool)
    ensures StateKey in store && store[StateKey].Record? && WellStored(store[StateKey].fields) ==>
      ActivatedStore(store, true, true, compress) ==
        store[StateKey := Record(store[StateKey].fields + map["activeTab" := Str(TabName(compress))])]
    ensures StateKey !in store || store[StateKey].NullRecord? ==>
      ActivatedStore(store, true, true, compress) ==
        store[StateKey := Record(map["activeTab" := Str(TabName(compress))])]
  {
    if StateKey in store && store[StateKey].Record? && WellStored(store[StateKey].fields) {
      ActivateMergesSaved(store, compress);
    } else if StateKey !in store || store[StateKey].NullRecord? {
      ActivateStartsRecord(store, compress);
    }
  }

  lemma ActivateMergesSaved(store: Store, compress: bool)
    requires StateKey in store && store[StateKey].Record? && WellStored(store[StateKey].fields)
    ensures ActivatedStore(store, true, true, compress) ==
      store[StateKey := Record(store[StateKey].fields + map["activeTab" := Str(TabName(compress))])]
  {
    var tab := map["activeTab" := Str(TabName(compress))];
    ActivateWritesMerge(store, compress);
    StoredRecordSurvivesReload(store[StateKey].fields, tab);
  }

  /** What `activate` writes over a saved record: the loaded record with
      `activeTab` merged in. */
  lemma ActivateWritesMerge(store: Store, compress: bool)
    requires StateKey in store && store[StateKey].Record?
    ensures ActivatedStore(store, true, true, compress) ==
      SaveStore(store, true, Deserialize(store[StateKey].fields) + map["activeTab" := Str(TabName(compress))])
  {
    var loaded := Deserialize(store[StateKey].fields);
    var t := Str(TabName(compress));
    assert loaded["activeTab" := t] == loaded + map["activeTab" := t];
  }

  lemma ActivateStartsRecord(store: Store, compress: bool)
    requires StateKey !in store || store[StateKey].NullRecord?
    ensures ActivatedStore(store, true, true, compress) ==
      store[StateKey := Record(map["activeTab" := Str(TabName(compress))])]
  {
    var tab := map["activeTab" := Str(TabName(compress))];
    assert LoadRecord(store, true).GetOr(map[]) == map[];
    assert StorableObj(tab) == tab;
  }

  /** A read failure inside `activate` is swallowed like any other, so the
      save that follows replaces the whole record by `activeTab` alone. */
  lemma ActivateAfterFailedReadKeepsOnlyTab(store: Store, compress: bool)
    ensures ActivatedStore(store, false, true, compress) ==
      store[StateKey := Record(map["activeTab" := Str(TabName(compress))])]
  {
    var o := map["activeTab" := Str(TabName(compress))];
    assert StorableObj(o) == o;
  }

  // ---------------------------------------------------------------------------
  // Archive settings saved by the Compress button (app.js:346)

  /** The record the Compress button means to store: the loaded record with
      the archive name, the preset and `activeTab: 'compress'` merged in. */
  function CompressSettings(loaded: Option<Obj>, zipName: string, preset: string): Obj {
    loaded.GetOr(map[]) + map["zipName" := Str(zipName), "preset" := Str(preset), "activeTab" := Str("compress")]
  }

  /** As written: the merged record goes straight to `storageSet`, without
      the Blob-to-bytes step of `saveState`. */
  function CompressSettingsStoreAsWritten(store: Store, loadOk: bool, setOk: bool, zipName: string, preset: string): Store {
    if setOk then store[StateKey := Record(StorableObj(CompressSettings(LoadRecord(store, loadOk), zipName, preset)))]
    else store
  }

  /** Corrected: the merged record is written through `saveState`. */
  function CompressSettingsStore(store: Store, loadOk: bool, setOk: bool, zipName: string, preset: string): Store {
    SaveStore(store, setOk, CompressSettings(LoadRecord(store, loadOk), zipName, preset))
  }

  /** A stored session record that holds archive bytes. */
  predicate SavesArchive(store: Store) {
    StateKey in store && store[StateKey].Record? && Has(store[StateKey].fields, DataKey)
  }

  /** As written, pressing Compress while an archive is saved replaces its
      bytes by an empty object: the store keeps no `currentZipData`, and the
      next load finds a truthy `currentZipBlob` that is not a Blob. */
  lemma CompressSettingsAsWrittenLosesArchive(store: Store, zipName: string, preset: string)
    requires SavesArchive(store)
    ensures var after := CompressSettingsStoreAsWritten(store, true, true, zipName, preset);
            && StateKey in after && after[StateKey].Record?
            && DataKey !in after[StateKey].fields
            && BlobKey in after[StateKey].fields && after[StateKey].fields[BlobKey] == EmptyObject
            && LoadRecord(after, true).Some?
            && BlobKey in LoadRecord(after, true).value
            && LoadRecord(after, true).value[BlobKey] == EmptyObject
  {
    var loaded := Deserialize(store[StateKey].fields);
    assert LoadRecord(store, true) == Some(loaded);
    assert "zipName" != BlobKey && "preset" != BlobKey && "activeTab" != BlobKey;
    assert "zipName" != DataKey && "preset" != DataKey && "activeTab" != DataKey;
    var merged := CompressSettings(Some(loaded), zipName, preset);
    assert merged[BlobKey] == loaded[BlobKey];
    assert DataKey !in merged;
    var after := CompressSettingsStoreAsWritten(store, true, true, zipName, preset);
    assert after[StateKey].fields == StorableObj(merged);
    assert !Has(after[StateKey].fields, DataKey);
  }

  /** As written, the record left by the Compress button can no longer be
      saved through `saveState`: switching tabs afterwards stores nothing. */
  lemma ActivateStuckAfterCompressAsWritten(store: Store, zipName: string, preset: string, compress: bool)
    requires SavesArchive(store)
    ensures var after := CompressSettingsStoreAsWritten(store, true, true, zipName, preset);
            ActivatedStore(after, true, true, compress) == after
  {
    var after := CompressSettingsStoreAsWritten(store, true, true, zipName, preset);
    CompressSettingsAsWrittenLosesArchive(store, zipName, preset);
    var merged := LoadRecord(after, true).value["activeTab" := Str(TabName(compress))];
    assert Serialize(merged).None? by {
      assert merged[BlobKey] == EmptyObject;
    }
  }

  /** Corrected, the settings are merged into a record the popup saved and
      nothing else changes: in particular the archive bytes stay. */
  lemma CompressSettingsKeepArchive(store: Store, zipName: string, preset: string)
    requires StateKey in store && store[StateKey].Record? && WellStored(store[StateKey].fields)
    ensures CompressSettingsStore(store, true, true, zipName, preset) ==
      store[StateKey := Record(store[StateKey].fields +
        map["zipName" := Str(zipName), "preset" := Str(preset), "activeTab" := Str("compress")])]
  {
    StoredRecordSurvivesReload(store[StateKey].fields,
      map["zipName" := Str(zipName), "preset" := Str(preset), "activeTab" := Str("compress")]);
  }
}

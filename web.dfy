/** The browser-side values both scripts work with: JavaScript values as they
    appear in the persisted session record, `File` objects, archives as the
    ZIP codec hands them over, and what goes to the download sink.

    The ZIP codec (JSZip) is not part of this model: decoding is a function
    parameter `Decoder` that may fail, and reading one entry's bytes may fail
    too (`ZipEntry.content == None`). */
module Web {

  datatype Option<+T> = None | Some(value: T) {
    function GetOr(default: T): T {
      match this
      case Some(v) => v
      case None => default
    }
  }

  /** One byte, as a `Uint8Array` element holds it. */
  newtype Byte = b: int | 0 <= b < 256

  type Bytes = seq<Byte>

  /** `Array.from(new Uint8Array(buffer))`: the bytes as plain numbers. */
  function ByteNumbers(b: Bytes): (r: seq<int>)
    ensures |r| == |b|
    ensures forall i :: 0 <= i < |b| ==> 0 <= r[i] < 256
  {
    seq(|b|, i requires 0 <= i < |b| => b[i] as int)
  }

  /** The ToUint8 conversion `new Uint8Array(numbers)` applies to each number. */
  function ToUint8(n: int): Byte {
    (n % 256) as Byte
  }

  /** `new Uint8Array(numbers)`. */
  function Uint8Array(d: seq<int>): (r: Bytes)
    ensures |r| == |d|
  {
    seq(|d|, i requires 0 <= i < |d| => ToUint8(d[i]))
  }

  predicate InByteRange(d: seq<int>) {
    forall i :: 0 <= i < |d| ==> 0 <= d[i] < 256
  }

  /** Bytes written out as numbers and read back are the same bytes. */
  lemma BytesRoundTrip(b: Bytes)
    ensures Uint8Array(ByteNumbers(b)) == b
  {
    var d := ByteNumbers(b);
    forall i | 0 <= i < |b|
      ensures Uint8Array(d)[i] == b[i]
    {
      assert d[i] == b[i] as int;
    }
  }

  /** Numbers in 0..255 read as bytes and written out again are unchanged. */
  lemma NumbersRoundTrip(d: seq<int>)
    requires InByteRange(d)
    ensures ByteNumbers(Uint8Array(d)) == d
  {
  }

  /** A staged file as the popup stores it before it closes. */
  datatype StoredFile = StoredFile(name: string, mime: string, data: seq<int>)

  /** The JavaScript values that occur in the session record. `EmptyObject`
      is what the extension store keeps of an object that is neither an array
      nor a primitive (a Blob, for one). */
  datatype Value =
    | Null
    | Str(s: string)
    | Paths(paths: seq<string>)
    | Blob(bytes: Bytes)
    | ByteArray(data: seq<int>)
    | StoredFiles(files: seq<StoredFile>)
    | EmptyObject

  /** A plain JavaScript object; a key that is absent reads as `undefined`. */
  type Obj = map<string, Value>

  predicate Truthy(v: Value) {
    !(v.Null? || v == Str(""))
  }

  /** `o[key]` is present and truthy. */
  predicate Has(o: Obj, key: string) {
    key in o && Truthy(o[key])
  }

  /** `o[key]` as a non-empty string, if it is one. */
  function TextField(o: Obj, key: string): (r: Option<string>)
    ensures r.Some? <==> key in o && o[key].Str? && o[key].s != ""
    ensures r.Some? ==> Has(o, key) && r.value == o[key].s
  {
    if key in o && o[key].Str? && o[key].s != "" then Some(o[key].s) else None
  }

  /** A browser `File`: its identity is the object itself. */
  class BrowserFile {
    const name: string
    const mime: string
    const bytes: Bytes

    constructor (name: string, mime: string, bytes: Bytes)
      ensures this.name == name && this.mime == mime && this.bytes == bytes
    {
      this.name := name;
      this.mime := mime;
      this.bytes := bytes;
    }
  }

  /** The staged files as the codec receives them: `zip.file(f.name, f)` for each one. */
  function Members(files: seq<BrowserFile>): (m: seq<(string, Bytes)>)
    ensures |m| == |files|
    ensures forall i :: 0 <= i < |files| ==> m[i] == (files[i].name, files[i].bytes)
  {
    seq(|files|, i requires 0 <= i < |files| => (files[i].name, files[i].bytes))
  }

  /** One member of a decoded archive; `content == None` when reading its
      bytes fails. */
  datatype ZipEntry = ZipEntry(name: string, dir: bool, content: Option<Bytes>)

  /** A decoded archive: its members in the key order of `zip.files`. */
  datatype ZipArchive = ZipArchive(entries: seq<ZipEntry>)

  type Decoder = Bytes -> Option<ZipArchive>

  /** `JSZip.loadAsync` as the popup calls it: `decode` when the library
      loaded, and otherwise a call that throws on every input. */
  function Loader(jszipOk: bool, decode: Decoder): (load: Decoder)
    ensures jszipOk ==> load == decode
    ensures !jszipOk ==> forall b :: load(b).None?
  {
    if jszipOk then decode else b => None
  }

  /** `zip.generateAsync(...)` over named files at a compression level; `None`
      when the codec fails. */
  type Encoder = (seq<(string, Bytes)>, int) -> Option<Bytes>

  /** `Object.keys(zip.files)`. */
  function Keys(es: seq<ZipEntry>): (r: seq<string>)
    ensures |r| == |es|
    ensures forall i :: 0 <= i < |es| ==> r[i] == es[i].name
  {
    seq(|es|, i requires 0 <= i < |es| => es[i].name)
  }

  /** `zip.files[name]`. */
  function Lookup(es: seq<ZipEntry>, name: string): (r: Option<ZipEntry>)
    ensures r.Some? <==> name in Keys(es)
    ensures r.Some? ==> r.value in es && r.value.name == name
  {
    if es == [] then None
    else if es[0].name == name then Some(es[0])
    else Lookup(es[1..], name)
  }

  /** What is handed to the download sink or to a new browser tab. */
  datatype Delivery =
    | Download(filename: string, bytes: Bytes, mime: string)
    | OpenInTab(bytes: Bytes, mime: string)
}

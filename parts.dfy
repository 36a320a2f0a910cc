/** The records the encoder keeps (index.ts:16-22) and the pure rules it
    applies when it adds them: the query-key suffix, the MIME-type fallback
    and the default file name. */
module Parts {
  import opened Wrappers
  import opened Utf8

  /** One `field(name, value)` entry; the value is already a string. */
  datatype Field = Field(name: string, value: string)

  /** Where a file part's body comes from: a path checked at insertion time,
      or bytes handed over by `fileData`. */
  datatype Source = OnDisk(path: string) | InMemory(data: seq<byte>)

  datatype FilePart = FilePart(name: string, source: Source, fileName: string, mimeType: string)

  /** A query value: a scalar, or an array (or typed array). */
  datatype QueryValue = Scalar(text: string) | Sequence(items: seq<string>)

  /** The two errors the encoder raises: `file()` on a path that does not
      exist, and `toStream()` on an on-disk part it cannot open. */
  datatype Error = FileNotFound(path: string) | FileReadError(path: string)
  {
    /** The message `file()` throws, `file_not_found:<path>`. */
    function Message(): string
      requires FileNotFound?
    {
      "file_not_found:" + path
    }
  }

  /** The file system as the encoder sees it at one moment: the paths
      `fs.exists` reports, and the contents of those `fs.openFile` can read. */
  datatype FileSystem = FileSystem(existing: set<string>, readable: map<string, seq<byte>>)

  /** `mime_types.lookup`: a MIME type for a name, or nothing. */
  type Lookup = string -> Option<string>

  const OctetStream: string := "application/octet-stream"

  /** JavaScript truthiness of a string-or-nothing: present and not empty. */
  predicate Truthy(o: Option<string>)
  {
    o.Some? && o.value != ""
  }

  predicate EndsWithBrackets(name: string)
  {
    |name| >= 2 && name[|name| - 2..] == "[]"
  }

  /** The key `query(name, value)` stores under (index.ts:64-66). */
  function QueryKey(name: string, value: QueryValue): (key: string)
    ensures value.Sequence? ==> EndsWithBrackets(key)
    ensures value.Scalar? || EndsWithBrackets(name) <==> key == name
    ensures key == name || key == name + "[]"
  {
    if value.Sequence? && !EndsWithBrackets(name) then name + "[]" else name
  }

  /** The suffix is added at most once: a key already produced for a value
      is its own key. */
  lemma QueryKeyIdempotent(name: string, value: QueryValue)
    ensures QueryKey(QueryKey(name, value), value) == QueryKey(name, value)
  {
  }

  /** The query map after `query(name, value)`: one key written, every other
      key as before. */
  function StoreQuery(querys: map<string, QueryValue>, name: string, value: QueryValue): (r: map<string, QueryValue>)
    ensures r.Keys == querys.Keys + {QueryKey(name, value)}
    ensures r[QueryKey(name, value)] == value
    ensures forall k :: k in querys && k != QueryKey(name, value) ==> k in r && r[k] == querys[k]
  {
    querys[QueryKey(name, value) := value]
  }

  /** Storing the same array twice under the same name, or under the name
      already suffixed, leaves one key `name[]` and never makes `name[][]`. */
  lemma {:induction false} StoreQueryTwice(querys: map<string, QueryValue>, name: string, items: seq<string>)
    requires !EndsWithBrackets(name) && name + "[][]" !in querys
    ensures var once := StoreQuery(querys, name, Sequence(items));
      && StoreQuery(once, name, Sequence(items)) == once
      && StoreQuery(once, name + "[]", Sequence(items)) == once
      && (name + "[]") in once && name + "[][]" !in once
      && once.Keys == querys.Keys + {name + "[]"}
  {
    var key := name + "[]";
    assert key[|key| - 2..] == "[]";
    assert QueryKey(key, Sequence(items)) == key;
    var bad := name + "[][]";
    assert bad != key by { assert |bad| != |key|; }
  }

  /** `getMimeType(name, default)`: the lookup when it is truthy, else the
      default (index.ts:164-166). */
  function GetMimeType(lookup: Lookup, name: string, default: Option<string>): Option<string>
  {
    if Truthy(lookup(name)) then lookup(name) else default
  }

  /** The answer is usable exactly when the lookup or the default is, a
      usable default guarantees a usable answer, and a usable lookup wins
      over the default. */
  lemma GetMimeTypeFallback(lookup: Lookup, name: string, default: Option<string>)
    ensures Truthy(lookup(name)) ==> GetMimeType(lookup, name, default) == lookup(name)
    ensures Truthy(GetMimeType(lookup, name, default)) <==> Truthy(lookup(name)) || Truthy(default)
    ensures Truthy(default) ==> Truthy(GetMimeType(lookup, name, default))
    ensures GetMimeType(lookup, name, default) in {lookup(name), default}
  {
  }

  /** The MIME type `file()` records: the lookup of the path, else the
      lookup of the file name, else `application/octet-stream` (index.ts:93). */
  function FileMimeType(lookup: Lookup, filePath: string, fileName: string): (mime: string)
    ensures mime != ""
    ensures Truthy(lookup(filePath)) ==> mime == lookup(filePath).value
    ensures !Truthy(lookup(filePath)) && Truthy(lookup(fileName)) ==> mime == lookup(fileName).value
    ensures !Truthy(lookup(filePath)) && !Truthy(lookup(fileName)) ==> mime == OctetStream
  {
    var byPath := GetMimeType(lookup, filePath, None);
    if Truthy(byPath) then byPath.value
    else GetMimeType(lookup, fileName, Some(OctetStream)).value
  }

  /** The MIME type `fileData()` records: the lookup of the file name, else
      `application/octet-stream` (index.ts:104). */
  function DataMimeType(lookup: Lookup, fileName: string): (mime: string)
    ensures mime != ""
    ensures Truthy(lookup(fileName)) ==> mime == lookup(fileName).value
    ensures !Truthy(lookup(fileName)) ==> mime == OctetStream
  {
    GetMimeType(lookup, fileName, Some(OctetStream)).value
  }

  /** `p` without its trailing `/` characters. */
  function StripTrailingSlashes(p: string): string
    decreases |p|
  {
    if p != [] && p[|p| - 1] == '/' then StripTrailingSlashes(p[..|p| - 1]) else p
  }

  /** The characters of `p` after its last `/`. */
  function AfterLastSlash(p: string): string
    decreases |p|
  {
    if p == [] || p[|p| - 1] == '/' then []
    else AfterLastSlash(p[..|p| - 1]) + [p[|p| - 1]]
  }

  /** `path.basename` on a POSIX path: the characters after the last `/`
      once trailing `/` characters are dropped. */
  function Basename(p: string): string
  {
    AfterLastSlash(StripTrailingSlashes(p))
  }

  /** Stripping keeps a prefix that does not end in `/` and drops only `/`. */
  lemma {:induction false} StripTrailingSlashesSpec(p: string)
    ensures var r := StripTrailingSlashes(p);
      && r <= p
      && (r == [] || r[|r| - 1] != '/')
      && forall k :: |r| <= k < |p| ==> p[k] == '/'
    decreases |p|
  {
    if p != [] && p[|p| - 1] == '/' {
      StripTrailingSlashesSpec(p[..|p| - 1]);
    }
  }

  /** What follows the last `/` is a suffix with no `/`, preceded by a `/`
      unless it is the whole text. */
  lemma {:induction false} AfterLastSlashSpec(p: string)
    ensures var r := AfterLastSlash(p);
      && '/' !in r
      && |r| <= |p| && r == p[|p| - |r|..]
      && (|r| == |p| || p[|p| - |r| - 1] == '/')
    decreases |p|
  {
    if p != [] && p[|p| - 1] != '/' {
      AfterLastSlashSpec(p[..|p| - 1]);
    }
  }

  /** The basename is the last run of non-separator characters of the path:
      it has no `/`, starts at the beginning or after a `/`, and only `/`
      follow it. */
  lemma BasenameIsLastSegment(p: string)
    ensures '/' !in Basename(p)
    ensures exists i, j ::
              && 0 <= i <= j <= |p| && Basename(p) == p[i..j] && (i == 0 || p[i - 1] == '/')
              && (forall k :: j <= k < |p| ==> p[k] == '/') && (j == 0 || p[j - 1] != '/')
  {
    var q := StripTrailingSlashes(p);
    var r := AfterLastSlash(q);
    StripTrailingSlashesSpec(p);
    AfterLastSlashSpec(q);
    assert r == p[|q| - |r|..|q|];
  }

  /** The file name `file()` records: the one given when truthy, else the
      basename of the path (index.ts:90-92). */
  function DefaultFileName(filePath: string, fileName: Option<string>): string
  {
    if Truthy(fileName) then fileName.value else Basename(filePath)
  }

  /** A given non-empty name is kept as it is; otherwise the recorded name
      is the last segment of the path, with no `/` in it. */
  lemma DefaultFileNameFromPath(filePath: string, fileName: Option<string>)
    ensures Truthy(fileName) ==> DefaultFileName(filePath, fileName) == fileName.value
    ensures !Truthy(fileName) ==>
              && '/' !in DefaultFileName(filePath, fileName)
              && exists i, j ::
                   && 0 <= i <= j <= |filePath| && DefaultFileName(filePath, fileName) == filePath[i..j]
                   && (i == 0 || filePath[i - 1] == '/') && (forall k :: j <= k < |filePath| ==> filePath[k] == '/')
                   && (j == 0 || filePath[j - 1] != '/')
  {
    BasenameIsLastSegment(filePath);
  }
}

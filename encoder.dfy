/** The `Multipart` class of index.ts: a registry of fields, files, headers
    and query parameters with one boundary fixed at construction, and the
    assembler that writes the registry into a memory stream. */
module Encoder {
  import opened Wrappers
  import Utf8
  import opened Boundary
  import opened Parts
  import opened Framing
  import opened MemoryStreams

  /** `String(undefined)`, the value the constructor records for every
      `post` key (index.ts:39, 44). */
  const Undefined: string := "undefined"

  const ContentTypeHeader: string := "Content-Type"

  /** The request's content type, naming the body's boundary (section 4.1
      of RFC 7578). */
  function ContentTypeValue(boundary: string): string
  {
    "multipart/form-data; boundary=" + boundary
  }

  /** What `toOpts()` hands to the HTTP client. */
  datatype Options = Options(headers: map<string, string>, query: map<string, QueryValue>, body: MemoryStream)

  class Multipart {
    var fields: seq<Field>
    var files: seq<FilePart>
    var querys: map<string, QueryValue>
    var headers: map<string, string>
    const boundary: string
    const partBoundary: string
    const endBoundary: string

    /** The boundary has the generated shape and both delimiters are built
        from it; all three are constants, so every encode uses them. */
    predicate Valid()
    {
      IsBoundary(boundary) && partBoundary == PartDelimiter(boundary) && endBoundary == EndDelimiter(boundary)
    }

    /** `new Multipart({get, post, headers})`, with the 16 values
        `Math.random()` returns while the boundary is generated. As written
        the post loop reads `this.fields[k]` rather than `post[k]`, so every
        key becomes a plain field whose value is "undefined" and no `@path`
        entry is ever attached as a file (index.ts:28-47). */
    constructor (random: seq<real>, get: map<string, QueryValue>, post: seq<(string, string)>, headers: map<string, string>)
      requires |random| == 16 && IsRandomDraws(random)
      ensures Valid()
      ensures forall i :: 0 <= i < 16 ==> boundary[24 + i] == HexDigit(Digit(random[i]))
      ensures this.headers == headers && querys == get && files == []
      ensures |fields| == |post| && forall i :: 0 <= i < |post| ==> fields[i] == Parts.Field(post[i].0, Undefined)
    {
      var b := GenerateBoundary(random);
      boundary := b;
      partBoundary := "--" + b + CRLF;
      endBoundary := "--" + b + "--" + CRLF;
      fields := [];
      files := [];
      this.headers := headers;
      querys := get;
      new;
      for i := 0 to |post|
        invariant |fields| == i && forall k :: 0 <= k < i ==> fields[k] == Parts.Field(post[k].0, Undefined)
        invariant files == [] && this.headers == headers && querys == get
      {
        var self := Field(post[i].0, Undefined);
      }
    }

    /** `header(name, value)`: sets one header (index.ts:54-57). */
    method Header(name: string, value: string) returns (self: Multipart)
      modifies this
      ensures self == this
      ensures headers == old(headers)[name := value]
      ensures fields == old(fields) && files == old(files) && querys == old(querys)
    {
      headers := headers[name := value];
      self := this;
    }

    /** `query(name, value)`: stores an array under `name[]` unless the name
        already ends so, anything else under `name` (index.ts:63-69). */
    method Query(name: string, value: QueryValue) returns (self: Multipart)
      modifies this
      ensures self == this
      ensures querys == StoreQuery(old(querys), name, value)
      ensures fields == old(fields) && files == old(files) && headers == old(headers)
    {
      var key := name;
      if value.Sequence? && !EndsWithBrackets(name) {
        key := name + "[]";
      }
      querys := querys[key := value];
      self := this;
    }

    /** `field(name, value)`: appends one field; repeated names are kept
        (index.ts:75-78). */
    method Field(name: string, value: string) returns (self: Multipart)
      modifies this
      ensures self == this
      ensures fields == old(fields) + [Parts.Field(name, value)]
      ensures files == old(files) && headers == old(headers) && querys == old(querys)
    {
      fields := fields + [Parts.Field(name, value)];
      self := this;
    }

    /** `file(name, filePath, fileName?)`: fails with `FileNotFound`, whose
        `Message()` is the text thrown, and changes nothing when the path
        does not exist; otherwise appends one
        on-disk part (index.ts:86-96). */
    method File(name: string, filePath: string, fileName: Option<string>, fs: FileSystem, lookup: Lookup)
      returns (r: Result<Multipart, Error>)
      modifies this
      ensures filePath !in fs.existing ==> r == Failure(FileNotFound(filePath)) && unchanged(this)
      ensures filePath in fs.existing ==>
                var name' := DefaultFileName(filePath, fileName);
                && r == Success(this)
                && files == old(files) + [FilePart(name, OnDisk(filePath), name', FileMimeType(lookup, filePath, name'))]
                && fields == old(fields) && headers == old(headers) && querys == old(querys)
    {
      if filePath !in fs.existing {
        return Failure(FileNotFound(filePath));
      }
      var chosen := DefaultFileName(filePath, fileName);
      var mimeType := FileMimeType(lookup, filePath, chosen);
      files := files + [FilePart(name, OnDisk(filePath), chosen, mimeType)];
      r := Success(this);
    }

    /** `fileData(name, data, fileName)`: appends one in-memory part
        (index.ts:103-107). */
    method FileData(name: string, data: seq<Utf8.byte>, fileName: string, lookup: Lookup) returns (self: Multipart)
      modifies this
      ensures self == this
      ensures files == old(files) + [FilePart(name, InMemory(data), fileName, DataMimeType(lookup, fileName))]
      ensures fields == old(fields) && headers == old(headers) && querys == old(querys)
    {
      var mimeType := DataMimeType(lookup, fileName);
      files := files + [FilePart(name, InMemory(data), fileName, mimeType)];
      self := this;
    }

    /** `toStream()`: a fresh stream holding exactly `Encode` of the current
        registry, positioned at its first byte; or the error of the first
        on-disk part that cannot be opened. The registry is not changed
        (index.ts:119-140). */
    method ToStream(fs: FileSystem) returns (r: Result<MemoryStream, Error>)
      requires Valid()
      ensures Encode(boundary, fields, files, fs).Failure? ==> r == Failure(Encode(boundary, fields, files, fs).error)
      ensures Encode(boundary, fields, files, fs).Success? ==>
                && r.Success? && fresh(r.value) && r.value.Valid()
                && r.value.data == Encode(boundary, fields, files, fs).value && r.value.pos == 0
    {
      ghost var fieldBytes := EncodeFields(partBoundary, fields);
      ghost var fileBytes := EncodeFiles(partBoundary, files, fs);
      var mbs := new MemoryStream();
      WriteFields(mbs);
      assert mbs.data == fieldBytes;
      var failed := WriteFiles(mbs, fs);
      if failed.Some? {
        return Failure(failed.value);
      }
      assert mbs.data == fieldBytes + fileBytes.value;
      mbs.Write(Utf8.Encode(endBoundary));
      assert mbs.data == fieldBytes + fileBytes.value + Utf8.Encode(endBoundary);
      mbs.Rewind();
      r := Success(mbs);
    }

    /** The loop over the fields (index.ts:121-123): one chunk per field,
        in order. */
    method WriteFields(mbs: MemoryStream)
      requires Valid() && mbs.Valid() && mbs.pos == |mbs.data|
      modifies mbs
      ensures mbs.Valid() && mbs.pos == |mbs.data|
      ensures mbs.data == old(mbs.data) + EncodeFields(partBoundary, fields)
    {
      for i := 0 to |fields|
        invariant mbs.Valid() && mbs.pos == |mbs.data|
        invariant mbs.data == old(mbs.data) + EncodeFields(partBoundary, fields[..i])
      {
        mbs.Write(Utf8.Encode(FieldText(partBoundary, fields[i])));
        FieldsStep(partBoundary, fields, i);
      }
      assert fields[..|fields|] == fields;
    }

    /** The loop over the file parts (index.ts:124-135): stops at the
        first part that cannot be opened, with that part's error. */
    method WriteFiles(mbs: MemoryStream, fs: FileSystem) returns (failed: Option<Error>)
      requires Valid() && mbs.Valid() && mbs.pos == |mbs.data|
      modifies mbs
      ensures mbs.Valid() && mbs.pos == |mbs.data|
      ensures failed.Some? <==> EncodeFiles(partBoundary, files, fs).Failure?
      ensures failed.Some? ==> failed.value == EncodeFiles(partBoundary, files, fs).error
      ensures failed.None? ==> mbs.data == old(mbs.data) + EncodeFiles(partBoundary, files, fs).value
    {
      for j := 0 to |files|
        invariant mbs.Valid() && mbs.pos == |mbs.data|
        invariant EncodeFiles(partBoundary, files[..j], fs).Success?
        invariant mbs.data == old(mbs.data) + EncodeFiles(partBoundary, files[..j], fs).value
      {
        failed := WriteFilePart(mbs, files[j], fs);
        if failed.Some? {
          FirstUnreadable(partBoundary, files, fs, j);
          return;
        }
        FilesStep(partBoundary, files, fs, j);
      }
      assert files[..|files|] == files;
      failed := None;
    }

    /** The `forEach` callback for one file part: header, body, CRLF
        (index.ts:124-135). Opening a path that cannot be read fails. */
    method WriteFilePart(mbs: MemoryStream, e: FilePart, fs: FileSystem) returns (failed: Option<Error>)
      requires Valid() && mbs.Valid() && mbs.pos == |mbs.data|
      modifies mbs
      ensures mbs.Valid() && mbs.pos == |mbs.data|
      ensures failed.Some? <==> Unreadable(e, fs)
      ensures failed.Some? ==> failed.value == FileReadError(e.source.path)
      ensures failed.None? ==> mbs.data == old(mbs.data) + FileChunk(partBoundary, e, fs).value
    {
      ghost var before := mbs.data;
      var header := Utf8.Encode(FileHeaderText(partBoundary, e));
      mbs.Write(header);
      if e.source.OnDisk? {
        if e.source.path !in fs.readable {
          return Some(FileReadError(e.source.path));
        }
        mbs.Write(fs.readable[e.source.path]);
      } else {
        mbs.Write(e.source.data);
      }
      mbs.Write(Utf8.Encode(CRLF));
      assert mbs.data == before + header + Body(e, fs).value + Utf8.Encode(CRLF);
      failed := None;
    }

    /** `toBuffer()`: all bytes of a fresh stream, which are `Encode` of
        the registry, so two calls with an unchanged registry agree
        (index.ts:112-114). */
    method ToBuffer(fs: FileSystem) returns (r: Result<seq<Utf8.byte>, Error>)
      requires Valid()
      ensures r == Encode(boundary, fields, files, fs)
    {
      var stream := ToStream(fs);
      match stream {
        case Failure(e) =>
          r := Failure(e);
        case Success(mbs) =>
          var bytes := mbs.ReadAll();
          r := Success(bytes);
      }
    }

    /** `toOpts()`: sets the Content-Type header first (so also when the
        body then fails), and returns the headers, the query map and a
        fresh body stream (index.ts:145-153). */
    method ToOpts(fs: FileSystem) returns (r: Result<Options, Error>)
      requires Valid()
      modifies this
      ensures headers == old(headers)[ContentTypeHeader := ContentTypeValue(boundary)]
      ensures fields == old(fields) && files == old(files) && querys == old(querys)
      ensures Encode(boundary, fields, files, fs).Failure? ==> r == Failure(Encode(boundary, fields, files, fs).error)
      ensures Encode(boundary, fields, files, fs).Success? ==>
                && r.Success? && r.value.headers == headers && r.value.query == querys
                && fresh(r.value.body) && r.value.body.data == Encode(boundary, fields, files, fs).value
                && r.value.body.pos == 0
    {
      headers := headers[ContentTypeHeader := ContentTypeValue(boundary)];
      var body := ToStream(fs);
      match body {
        case Failure(e) =>
          r := Failure(e);
        case Success(mbs) =>
          r := Success(Options(headers, querys, mbs));
      }
    }
  }
}

/** The byte-exact body that `toStream()` assembles (index.ts:119-140), as a
    pure function of the boundary, the registry and the file system. Each
    part is framed as section 4.2 of RFC 7578 describes, with the delimiters
    of section 5.1.1 of RFC 2046; names, values and bodies are written
    verbatim, with no escaping and no check that the boundary is absent. */
module Framing {
  import opened Wrappers
  import Utf8
  import opened Boundary
  import opened Parts

  type Bytes = seq<Utf8.byte>

  /** The text written for one field (index.ts:122). */
  function FieldText(delimiter: string, f: Field): string
  {
    delimiter + ("Content-Disposition: form-data; name=\"" + f.name + "\"" + CRLF + CRLF + f.value + CRLF)
  }

  /** The header text written before one file body (index.ts:125). */
  function FileHeaderText(delimiter: string, p: FilePart): string
  {
    delimiter + ("Content-Disposition: form-data; name=\"" + p.name + "\"; filename=\"" + p.fileName + "\""
                 + CRLF + "Content-Type: " + p.mimeType + CRLF + CRLF)
  }

  /** An on-disk part whose file can no longer be opened. */
  predicate Unreadable(p: FilePart, fs: FileSystem)
  {
    p.source.OnDisk? && p.source.path !in fs.readable
  }

  /** The body bytes of a part: the file's contents, or the data given
      (index.ts:127-133). */
  function Body(p: FilePart, fs: FileSystem): Result<Bytes, Error>
  {
    match p.source
    case OnDisk(path) => if path in fs.readable then Success(fs.readable[path]) else Failure(FileReadError(path))
    case InMemory(data) => Success(data)
  }

  /** All bytes written for one file part: header, body, CRLF. */
  function FileChunk(delimiter: string, p: FilePart, fs: FileSystem): Result<Bytes, Error>
  {
    match Body(p, fs)
    case Failure(e) => Failure(e)
    case Success(b) => Success(Utf8.Encode(FileHeaderText(delimiter, p)) + b + Utf8.Encode(CRLF))
  }

  /** Sequencing of two encodings: the first error wins. */
  function Then(a: Result<Bytes, Error>, b: Result<Bytes, Error>): Result<Bytes, Error>
  {
    if a.Failure? then a else if b.Failure? then b else Success(a.value + b.value)
  }

  function EncodeFields(delimiter: string, fields: seq<Field>): Bytes
  {
    if fields == [] then [] else Utf8.Encode(FieldText(delimiter, fields[0])) + EncodeFields(delimiter, fields[1..])
  }

  function EncodeFiles(delimiter: string, files: seq<FilePart>, fs: FileSystem): Result<Bytes, Error>
  {
    if files == [] then Success([])
    else Then(FileChunk(delimiter, files[0], fs), EncodeFiles(delimiter, files[1..], fs))
  }

  /** The whole body: every field, then every file, then the close
      delimiter; or the error of the first file that cannot be read. */
  function Encode(boundary: string, fields: seq<Field>, files: seq<FilePart>, fs: FileSystem): Result<Bytes, Error>
  {
    var delimiter := PartDelimiter(boundary);
    match EncodeFiles(delimiter, files, fs)
    case Failure(e) => Failure(e)
    case Success(fileBytes) => Success(EncodeFields(delimiter, fields) + fileBytes + Utf8.Encode(EndDelimiter(boundary)))
  }

  /** Encoding the fields one list after another is encoding them together. */
  lemma {:induction false} EncodeFieldsAppend(delimiter: string, a: seq<Field>, b: seq<Field>)
    ensures EncodeFields(delimiter, a + b) == EncodeFields(delimiter, a) + EncodeFields(delimiter, b)
  {
    if a == [] {
      assert a + b == b;
    } else {
      assert (a + b)[0] == a[0];
      assert (a + b)[1..] == a[1..] + b;
      EncodeFieldsAppend(delimiter, a[1..], b);
    }
  }

  lemma ThenAssociative(a: Result<Bytes, Error>, b: Result<Bytes, Error>, c: Result<Bytes, Error>)
    ensures Then(Then(a, b), c) == Then(a, Then(b, c))
  {
    if a.Success? && b.Success? && c.Success? {
      assert (a.value + b.value) + c.value == a.value + (b.value + c.value);
    }
  }

  /** Encoding the files one list after another is encoding them together,
      and the first unreadable file decides the error. */
  lemma {:induction false} EncodeFilesAppend(delimiter: string, a: seq<FilePart>, b: seq<FilePart>, fs: FileSystem)
    ensures EncodeFiles(delimiter, a + b, fs) == Then(EncodeFiles(delimiter, a, fs), EncodeFiles(delimiter, b, fs))
  {
    if a == [] {
      assert a + b == b;
      var r := EncodeFiles(delimiter, b, fs);
      assert r.Success? ==> [] + r.value == r.value;
    } else {
      assert (a + b)[0] == a[0];
      assert (a + b)[1..] == a[1..] + b;
      EncodeFilesAppend(delimiter, a[1..], b, fs);
      ThenAssociative(FileChunk(delimiter, a[0], fs), EncodeFiles(delimiter, a[1..], fs), EncodeFiles(delimiter, b, fs));
    }
  }

  /** The file parts fail to encode exactly when one of them is unreadable,
      and then with the error naming the first such path. */
  lemma {:induction false} EncodeFilesFailure(delimiter: string, files: seq<FilePart>, fs: FileSystem)
    ensures EncodeFiles(delimiter, files, fs).Failure? <==> exists i :: 0 <= i < |files| && Unreadable(files[i], fs)
    ensures EncodeFiles(delimiter, files, fs).Failure? ==>
              exists i :: && 0 <= i < |files| && Unreadable(files[i], fs)
                          && EncodeFiles(delimiter, files, fs).error == FileReadError(files[i].source.path)
                          && forall k :: 0 <= k < i ==> !Unreadable(files[k], fs)
  {
    if files != [] {
      EncodeFilesFailure(delimiter, files[1..], fs);
      if !Unreadable(files[0], fs) {
        if EncodeFiles(delimiter, files, fs).Failure? {
          var j :| && 0 <= j < |files[1..]| && Unreadable(files[1..][j], fs)
                   && EncodeFiles(delimiter, files[1..], fs).error == FileReadError(files[1..][j].source.path)
                   && forall k :: 0 <= k < j ==> !Unreadable(files[1..][k], fs);
          assert forall k :: 0 <= k < j + 1 ==> !Unreadable(files[k], fs) by {
            forall k | 1 <= k < j + 1 ensures !Unreadable(files[k], fs) {
              assert files[k] == files[1..][k - 1];
            }
          }
        }
        forall i | 0 <= i < |files| && Unreadable(files[i], fs)
          ensures EncodeFiles(delimiter, files, fs).Failure?
        {
          assert files[i] == files[1..][i - 1];
        }
      }
    }
  }

  /** The body fails exactly when some on-disk part is unreadable at
      encode time, with the error of the first one; no part is skipped. */
  lemma EncodeFailure(boundary: string, fields: seq<Field>, files: seq<FilePart>, fs: FileSystem)
    ensures Encode(boundary, fields, files, fs).Failure? <==> exists i :: 0 <= i < |files| && Unreadable(files[i], fs)
    ensures Encode(boundary, fields, files, fs).Failure? ==>
              exists i :: && 0 <= i < |files| && Unreadable(files[i], fs)
                          && Encode(boundary, fields, files, fs).error == FileReadError(files[i].source.path)
                          && forall k :: 0 <= k < i ==> !Unreadable(files[k], fs)
  {
    EncodeFilesFailure(PartDelimiter(boundary), files, fs);
  }

  /** Field `i` is written whole, after the fields before it and before
      anything else: one part per `field()` call, in insertion order. */
  lemma FieldAt(boundary: string, fields: seq<Field>, files: seq<FilePart>, fs: FileSystem, i: nat)
    requires i < |fields| && Encode(boundary, fields, files, fs).Success?
    ensures var out := Encode(boundary, fields, files, fs).value;
      var before := EncodeFields(PartDelimiter(boundary), fields[..i]);
      var part := Utf8.Encode(FieldText(PartDelimiter(boundary), fields[i]));
      && |before| + |part| <= |out|
      && out[..|before|] == before
      && out[|before|..|before| + |part|] == part
  {
    var d := PartDelimiter(boundary);
    var before := EncodeFields(d, fields[..i]);
    var part := Utf8.Encode(FieldText(d, fields[i]));
    var after := EncodeFields(d, fields[i + 1..]);
    var rest := EncodeFiles(d, files, fs).value + Utf8.Encode(EndDelimiter(boundary));
    EncodeShape(boundary, fields, files, fs);
    FieldsSplit(d, fields, i);
    RegroupTail(before, part, after, rest);
    SliceMiddle(before, part, after + rest);
  }

  /** A successful body is the fields, then the file parts, then the close
      delimiter. */
  lemma EncodeShape(boundary: string, fields: seq<Field>, files: seq<FilePart>, fs: FileSystem)
    requires Encode(boundary, fields, files, fs).Success?
    ensures EncodeFiles(PartDelimiter(boundary), files, fs).Success?
    ensures Encode(boundary, fields, files, fs).value
      == EncodeFields(PartDelimiter(boundary), fields)
       + (EncodeFiles(PartDelimiter(boundary), files, fs).value + Utf8.Encode(EndDelimiter(boundary)))
  {
    var d := PartDelimiter(boundary);
    Regroup(EncodeFields(d, fields), EncodeFiles(d, files, fs).value, Utf8.Encode(EndDelimiter(boundary)));
  }

  lemma Regroup(a: Bytes, b: Bytes, c: Bytes)
    ensures a + b + c == a + (b + c)
  {
  }

  lemma RegroupTail(a: Bytes, b: Bytes, c: Bytes, e: Bytes)
    ensures (a + b + c) + e == a + b + (c + e)
  {
  }

  /** Splitting the field encoding around field `i`. */
  lemma FieldsSplit(d: string, fields: seq<Field>, i: nat)
    requires i < |fields|
    ensures EncodeFields(d, fields)
      == EncodeFields(d, fields[..i]) + Utf8.Encode(FieldText(d, fields[i])) + EncodeFields(d, fields[i + 1..])
  {
    assert fields == fields[..i] + ([fields[i]] + fields[i + 1..]);
    EncodeFieldsAppend(d, fields[..i], [fields[i]] + fields[i + 1..]);
    assert ([fields[i]] + fields[i + 1..])[1..] == fields[i + 1..];
  }

  /** Where the bytes of file part `i` start in the body: after every
      field, the file parts before it and its own header. */
  function BodyOffset(boundary: string, fields: seq<Field>, files: seq<FilePart>, fs: FileSystem, i: nat): nat
    requires i < |files| && EncodeFiles(PartDelimiter(boundary), files[..i], fs).Success?
  {
    var d := PartDelimiter(boundary);
    |EncodeFields(d, fields)| + |EncodeFiles(d, files[..i], fs).value| + |Utf8.Encode(FileHeaderText(d, files[i]))|
  }

  /** The body of file part `i` appears in the output byte for byte: the
      file's contents for an on-disk part, the given data otherwise. */
  lemma FileBodyVerbatim(boundary: string, fields: seq<Field>, files: seq<FilePart>, fs: FileSystem, i: nat)
    requires i < |files| && Encode(boundary, fields, files, fs).Success?
    ensures !Unreadable(files[i], fs)
    ensures EncodeFiles(PartDelimiter(boundary), files[..i], fs).Success?
    ensures var out := Encode(boundary, fields, files, fs).value;
      var at := BodyOffset(boundary, fields, files, fs, i);
      var body := match files[i].source
        case OnDisk(path) => fs.readable[path]
        case InMemory(data) => data;
      && at + |body| <= |out|
      && out[at..at + |body|] == body
  {
    var d := PartDelimiter(boundary);
    var fileResult := EncodeFiles(d, files, fs);
    assert fileResult.Success?;
    FilesSplit(d, files, fs, i);
    var before := EncodeFiles(d, files[..i], fs).value;
    var after := EncodeFiles(d, files[i + 1..], fs).value;
    var body := Body(files[i], fs).value;
    var header := Utf8.Encode(FileHeaderText(d, files[i]));
    var fieldBytes := EncodeFields(d, fields);
    var close := Utf8.Encode(EndDelimiter(boundary));
    var rest := Utf8.Encode(CRLF) + after + close;
    var out := Encode(boundary, fields, files, fs).value;
    assert out == fieldBytes + fileResult.value + close;
    assert FileChunk(d, files[i], fs).value == header + body + Utf8.Encode(CRLF);
    var lead := fieldBytes + before + header;
    assert out == lead + body + rest by {
      assert fileResult.value == before + (header + body + Utf8.Encode(CRLF)) + after;
      SplitAssoc(fieldBytes, before, header, body, Utf8.Encode(CRLF), after, close);
    }
    assert BodyOffset(boundary, fields, files, fs, i) == |lead|;
    SliceMiddle(lead, body, rest);
  }

  lemma SplitAssoc(a: Bytes, b: Bytes, c: Bytes, d: Bytes, e: Bytes, f: Bytes, g: Bytes)
    ensures a + (b + (c + d + e) + f) + g == (a + b + c) + d + (e + f + g)
  {
  }

  /** Splitting a successful file encoding around part `i`. */
  lemma FilesSplit(d: string, files: seq<FilePart>, fs: FileSystem, i: nat)
    requires i < |files| && EncodeFiles(d, files, fs).Success?
    ensures EncodeFiles(d, files[..i], fs).Success?
    ensures FileChunk(d, files[i], fs).Success?
    ensures EncodeFiles(d, files[i + 1..], fs).Success?
    ensures EncodeFiles(d, files, fs).value
      == EncodeFiles(d, files[..i], fs).value + FileChunk(d, files[i], fs).value + EncodeFiles(d, files[i + 1..], fs).value
  {
    var prefix, tail := files[..i], files[i + 1..];
    var suffix := [files[i]] + tail;
    assert files == prefix + suffix;
    EncodeFilesAppend(d, prefix, suffix, fs);
    assert suffix[0] == files[i] && suffix[1..] == tail;
    assert EncodeFiles(d, suffix, fs) == Then(FileChunk(d, files[i], fs), EncodeFiles(d, tail, fs));
    ThenSuccess(EncodeFiles(d, prefix, fs), EncodeFiles(d, suffix, fs));
    ThenSuccess(FileChunk(d, files[i], fs), EncodeFiles(d, tail, fs));
  }

  /** One more field extends the encoding of the fields before it. */
  lemma FieldsStep(d: string, fields: seq<Field>, i: nat)
    requires i < |fields|
    ensures EncodeFields(d, fields[..i + 1]) == EncodeFields(d, fields[..i]) + Utf8.Encode(FieldText(d, fields[i]))
  {
    assert fields[..i + 1] == fields[..i] + [fields[i]];
    EncodeFieldsAppend(d, fields[..i], [fields[i]]);
  }

  /** One more readable file part extends the encoding of the parts before
      it by its header, its body and a CRLF. */
  lemma FilesStep(d: string, files: seq<FilePart>, fs: FileSystem, j: nat)
    requires j < |files| && EncodeFiles(d, files[..j], fs).Success? && !Unreadable(files[j], fs)
    ensures EncodeFiles(d, files[..j + 1], fs).Success?
    ensures FileChunk(d, files[j], fs).Success?
    ensures EncodeFiles(d, files[..j + 1], fs).value == EncodeFiles(d, files[..j], fs).value + FileChunk(d, files[j], fs).value
  {
    assert files[..j + 1] == files[..j] + [files[j]];
    EncodeFilesAppend(d, files[..j], [files[j]], fs);
    assert [files[j]][1..] == [];
    var chunk := FileChunk(d, files[j], fs);
    assert EncodeFiles(d, [files[j]], fs) == Then(chunk, Success([]));
    assert chunk.value + [] == chunk.value;
  }

  /** A file that cannot be read, after file parts that can, decides the
      error of the whole file encoding. */
  lemma FirstUnreadable(d: string, files: seq<FilePart>, fs: FileSystem, j: nat)
    requires j < |files| && EncodeFiles(d, files[..j], fs).Success? && Unreadable(files[j], fs)
    ensures EncodeFiles(d, files, fs) == Failure(FileReadError(files[j].source.path))
  {
    var prefix, suffix := files[..j], files[j..];
    assert files == prefix + suffix;
    EncodeFilesAppend(d, prefix, suffix, fs);
    assert suffix[0] == files[j];
  }

  lemma ThenSuccess(a: Result<Bytes, Error>, b: Result<Bytes, Error>)
    requires Then(a, b).Success?
    ensures a.Success? && b.Success? && Then(a, b).value == a.value + b.value
  {
  }

  lemma SliceMiddle(x: Bytes, y: Bytes, z: Bytes)
    ensures (x + y + z)[..|x|] == x
    ensures (x + y + z)[|x|..|x| + |y|] == y
  {
  }

  /** The body always ends with the close delimiter, and starts with a part
      delimiter unless the registry is empty, in which case it is only the
      close delimiter. */
  lemma Delimited(boundary: string, fields: seq<Field>, files: seq<FilePart>, fs: FileSystem)
    requires Encode(boundary, fields, files, fs).Success?
    ensures var out := Encode(boundary, fields, files, fs).value;
      var close := Utf8.Encode(EndDelimiter(boundary));
      var open := Utf8.Encode(PartDelimiter(boundary));
      && |close| <= |out| && out[|out| - |close|..] == close
      && (fields != [] || files != [] ==> |open| <= |out| && out[..|open|] == open)
      && (fields == [] && files == [] ==> out == close)
  {
    var d := PartDelimiter(boundary);
    var fieldBytes := EncodeFields(d, fields);
    var fileBytes := EncodeFiles(d, files, fs).value;
    var out := Encode(boundary, fields, files, fs).value;
    assert out == (fieldBytes + fileBytes) + Utf8.Encode(EndDelimiter(boundary));
    if fields != [] {
      FieldsStartWithDelimiter(d, fields);
    } else if files != [] {
      FilesStartWithDelimiter(d, files, fs);
    }
  }

  lemma FieldsStartWithDelimiter(d: string, fields: seq<Field>)
    requires fields != []
    ensures Utf8.Encode(d) <= EncodeFields(d, fields)
  {
    var f := fields[0];
    StartsWithDelimiter(d, FieldText(d, f), "Content-Disposition: form-data; name=\"" + f.name + "\"" + CRLF + CRLF + f.value + CRLF);
  }

  lemma FilesStartWithDelimiter(d: string, files: seq<FilePart>, fs: FileSystem)
    requires files != [] && EncodeFiles(d, files, fs).Success?
    ensures Utf8.Encode(d) <= EncodeFiles(d, files, fs).value
  {
    var chunk := FileChunk(d, files[0], fs);
    var rest := EncodeFiles(d, files[1..], fs);
    ThenSuccess(chunk, rest);
    ChunkStartsWithDelimiter(d, files[0], fs);
    PrefixConcat(Utf8.Encode(d), chunk.value, rest.value);
  }

  lemma ChunkStartsWithDelimiter(d: string, p: FilePart, fs: FileSystem)
    requires FileChunk(d, p, fs).Success?
    ensures Utf8.Encode(d) <= FileChunk(d, p, fs).value
  {
    var header := FileHeaderText(d, p);
    StartsWithDelimiter(d, header, "Content-Disposition: form-data; name=\"" + p.name + "\"; filename=\"" + p.fileName + "\""
      + CRLF + "Content-Type: " + p.mimeType + CRLF + CRLF);
    var headerBytes, body, crlf := Utf8.Encode(header), Body(p, fs).value, Utf8.Encode(CRLF);
    assert FileChunk(d, p, fs).value == headerBytes + body + crlf;
    Regroup(headerBytes, body, crlf);
    PrefixConcat(Utf8.Encode(d), headerBytes, body + crlf);
  }

  lemma PrefixConcat(a: Bytes, b: Bytes, c: Bytes)
    requires a <= b
    ensures a <= b + c
  {
    assert (b + c)[..|a|] == b[..|a|];
  }

  /** A text that starts with the delimiter encodes to bytes that start
      with the delimiter's bytes. */
  lemma StartsWithDelimiter(d: string, text: string, tail: string)
    requires text == d + tail
    ensures Utf8.Encode(d) <= Utf8.Encode(text)
  {
    Utf8.EncodeConcat(d, tail);
  }

  /** One field and one in-memory file give exactly the expected bytes,
      with the file's MIME type taken from its name. */
  lemma WireFormatExample(boundary: string, fs: FileSystem, lookup: Lookup)
    requires lookup("hello.txt") == Some("text/plain")
    ensures Encode(boundary, [Field("a", "1")],
                   [FilePart("f", InMemory(Utf8.Encode("hello")), "hello.txt", DataMimeType(lookup, "hello.txt"))], fs)
         == Success(Utf8.Encode(
                ("--" + boundary + "\r\n" + "Content-Disposition: form-data; name=\"a\"\r\n" + "\r\n" + "1\r\n")
              + ("--" + boundary + "\r\n" + "Content-Disposition: form-data; name=\"f\"; filename=\"hello.txt\"\r\n"
                 + "Content-Type: text/plain\r\n" + "\r\n")
              + "hello\r\n"
              + ("--" + boundary + "--\r\n")))
  {
    var d := PartDelimiter(boundary);
    var part := FilePart("f", InMemory(Utf8.Encode("hello")), "hello.txt", DataMimeType(lookup, "hello.txt"));
    OneFieldOneData(boundary, Field("a", "1"), part, "hello", fs);
    ExampleFieldText(d);
    ExampleHeaderText(d, part);
    var text := FieldText(d, Field("a", "1")) + FileHeaderText(d, part) + "hello" + CRLF + EndDelimiter(boundary);
    assert "hello" + CRLF == "hello\r\n";
    assert text == FieldText(d, Field("a", "1")) + FileHeaderText(d, part) + ("hello" + CRLF) + EndDelimiter(boundary);
    assert EndDelimiter(boundary) == "--" + boundary + "--\r\n" by {
      assert "--" + CRLF == "--\r\n";
    }
  }

  /** The body for one field and one in-memory file whose data is the
      encoding of a text is the encoding of the texts written in order. */
  lemma OneFieldOneData(boundary: string, field: Field, part: FilePart, text: string, fs: FileSystem)
    requires part.source == InMemory(Utf8.Encode(text))
    ensures var d := PartDelimiter(boundary);
      Encode(boundary, [field], [part], fs)
        == Success(Utf8.Encode(FieldText(d, field) + FileHeaderText(d, part) + text + CRLF + EndDelimiter(boundary)))
  {
    var d := PartDelimiter(boundary);
    var fieldText, header, close := FieldText(d, field), FileHeaderText(d, part), EndDelimiter(boundary);
    var chunk := Utf8.Encode(header) + Utf8.Encode(text) + Utf8.Encode(CRLF);
    assert EncodeFields(d, [field]) == Utf8.Encode(fieldText) + EncodeFields(d, []);
    assert EncodeFiles(d, [part], fs) == Success(chunk) by {
      assert FileChunk(d, part, fs) == Success(chunk);
      assert [part][1..] == [];
      AppendEmpty(chunk);
    }
    AppendEmpty(Utf8.Encode(fieldText));
    EncodeConcat5(fieldText, header, text, CRLF, close);
  }

  lemma AppendEmpty(a: Bytes)
    ensures a + [] == a
  {
  }

  /** Five texts written one after another, grouped as the encoder writes
      them: a field, then a file part, then the close delimiter. */
  lemma EncodeConcat5(a: string, b: string, c: string, e: string, g: string)
    ensures Utf8.Encode(a + b + c + e + g)
         == Utf8.Encode(a) + (Utf8.Encode(b) + Utf8.Encode(c) + Utf8.Encode(e)) + Utf8.Encode(g)
  {
    Utf8.EncodeConcat(a + b + c + e, g);
    Utf8.EncodeConcat(a + b + c, e);
    Utf8.EncodeConcat(a + b, c);
    Utf8.EncodeConcat(a, b);
    Assoc5(Utf8.Encode(a), Utf8.Encode(b), Utf8.Encode(c), Utf8.Encode(e), Utf8.Encode(g));
  }

  lemma Assoc5<T>(a: seq<T>, b: seq<T>, c: seq<T>, e: seq<T>, g: seq<T>)
    ensures a + b + c + e + g == a + (b + c + e) + g
  {
  }

  lemma ExampleFieldText(d: string)
    ensures FieldText(d, Field("a", "1")) == d + "Content-Disposition: form-data; name=\"a\"\r\n" + "\r\n" + "1\r\n"
  {
    assert "Content-Disposition: form-data; name=\"" + "a" + "\"" + CRLF == "Content-Disposition: form-data; name=\"a\"\r\n";
    assert CRLF + "1" + CRLF == "\r\n" + "1\r\n";
  }

  lemma ExampleHeaderText(d: string, part: FilePart)
    requires part.name == "f" && part.fileName == "hello.txt" && part.mimeType == "text/plain"
    ensures FileHeaderText(d, part)
         == d + "Content-Disposition: form-data; name=\"f\"; filename=\"hello.txt\"\r\n" + "Content-Type: text/plain\r\n" + "\r\n"
  {
    var disposition := "Content-Disposition: form-data; name=\"" + "f" + "\"; filename=\"" + "hello.txt" + "\"";
    ExampleDisposition();
    ExampleContentType();
    assert FileHeaderText(d, part) == d + (disposition + CRLF) + ("Content-Type: " + "text/plain" + CRLF) + CRLF;
  }

  lemma ExampleDisposition()
    ensures "Content-Disposition: form-data; name=\"" + "f" + "\"; filename=\"" + "hello.txt" + "\"" + CRLF
         == "Content-Disposition: form-data; name=\"f\"; filename=\"hello.txt\"\r\n"
  {
  }

  lemma ExampleContentType()
    ensures "Content-Type: " + "text/plain" + CRLF == "Content-Type: text/plain\r\n"
  {
  }
}

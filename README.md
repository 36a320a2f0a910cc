# fibjs http-form `Multipart`, modelled in Dafny

This project models the `Multipart` class of `src/index.ts`. The class is a
`multipart/form-data` request builder for the fibjs runtime. Its parts are:

- a registry of text fields, file parts (a path on disk, or a buffer), query
  parameters and headers;
- one boundary, generated at construction from sixteen `Math.random()` draws;
- `toStream()`, which writes every field, then every file part, then the close
  delimiter into a fresh memory stream;
- `toBuffer()`, which reads that stream out;
- `toOpts()`, which sets the `Content-Type` header and bundles the headers,
  the query map and the stream for an HTTP client.

The modules follow the program's structure:

- `Wrappers`: `Option` and `Result`.
- `Utf8`: what `Buffer.from(string)` does. This is UTF-8 encoding of the
  text, with a strict decoder: decoding undoes encoding.
- `Boundary`: `generateBoundary` as a loop over the draws, and the two
  delimiters built from the boundary.
- `Parts`: the stored records. It also holds the pure rules the adders apply:
  the `[]` suffix of array query keys, the MIME-type fallbacks, and
  `path.basename` for the default file name.
- `Framing`: the exact bytes `toStream()` produces, as a pure function
  `Encode` of the boundary, the registry and the file system. The lemmas
  about the wire format are stated on this function.
- `MemoryStreams`: the part of `io.MemoryStream` the encoder uses. It is a
  class with a byte sequence and a position.
- `Encoder`: the class `Multipart`. Its fields are updated in place by
  methods that return `this` for chaining. `ToStream` is a real loop over
  the fields and the file parts. It is proved to leave in the stream exactly
  `Encode` of the registry, positioned at its first byte.

The file system is a value `FileSystem(existing, readable)`. It is passed to
`file()`, which checks `fs.exists`, and to `toStream()`, which opens the
files. A file can exist when it is added and be unreadable when the body is
written; `toStream()` then fails with the first such part's path. The MIME
database (`mime_types.lookup`) is a function parameter of type `Lookup`.

Where the code does something other than what it evidently sets out to do,
the model follows the code:

- The constructor's `post` option reads `this.fields[k]` instead of
  `post[k]`. So every key becomes a field with the value `"undefined"`, and
  the `@path` rule of index.ts:40-42 (a value `@p` that names an existing
  file attaches that file) never fires. The constructor is modelled as
  written.
- The `Content-Type` header is set only by `toOpts()`. `toStream()` and
  `toBuffer()` leave the headers alone.
- A file that `toStream()` cannot open is modelled as the error
  `FileReadError(path)`. The code does not name that error.

## Model

| member | source | states |
|---|---|---|
| Utf8.EncodeChar | src/index.ts:122 | each character becomes 1 to 4 bytes; exactly the characters below 0x80 become one byte, equal to the character |
| Utf8.EncodeConcat | src/index.ts:122-136 | encoding a concatenation is the concatenation of the encodings, so writing texts one after another gives the bytes of the joined text |
| Utf8.EncodeAscii | src/index.ts:9-10 | an ASCII text encodes to bytes equal to its characters, one byte each |
| Utf8.DecodeEncode | src/index.ts:122 | decoding the bytes `Buffer.from` produces gives back the text: no text is lost or changed on the wire |
| Boundary.Digit | src/index.ts:170 | `Math.floor(Math.random() * 10)` is a digit below 10 |
| Boundary.GenerateBoundary | src/index.ts:167-173 | the boundary is 24 dashes and then 16 characters, character `i` being the base-16 rendering of draw `i`; all 16 are decimal digits, 40 characters in all |
| Boundary.DelimiterBytes | src/index.ts:29-31 | for a generated boundary, the part delimiter `--b CRLF` and the close delimiter `--b-- CRLF` are ASCII and 44 and 46 bytes long |
| Parts.QueryKey | src/index.ts:64-66 | an array value gets a key ending in `[]`; the key is the name itself exactly when the value is not an array or the name already ends in `[]`; otherwise it is the name plus `[]` |
| Parts.QueryKeyIdempotent | src/index.ts:64-66 | a key already produced is its own key, so the suffix is never doubled |
| Parts.StoreQuery | src/index.ts:63-69 | the query map gains exactly that key, holding the value; every other key keeps its value |
| Parts.StoreQueryTwice | src/index.ts:63-69 | storing an array under `name` once more, or under `name[]`, changes nothing; the only new key is `name[]`, never `name[][]` |
| Parts.GetMimeTypeFallback | src/index.ts:164-166 | the answer is the lookup's or the default; it is a non-empty string exactly when one of the two is, so a non-empty default always yields a usable MIME type; a non-empty lookup answer wins over the default (the full order of each call site is in the FileMimeType and DataMimeType rows) |
| Parts.FileMimeType | src/index.ts:93 | `file()`'s MIME type: the path's lookup if non-empty, else the file name's lookup if non-empty, else `application/octet-stream`; never empty |
| Parts.DataMimeType | src/index.ts:104 | `fileData()`'s MIME type: the file name's lookup if non-empty, else `application/octet-stream`; never empty |
| Parts.StripTrailingSlashesSpec | src/index.ts:91 | dropping trailing slashes keeps a prefix that does not end in `/`; only `/` characters are dropped |
| Parts.AfterLastSlashSpec | src/index.ts:91 | the text after the last `/` is a suffix with no `/`, and a `/` comes before it unless it is the whole text |
| Parts.BasenameIsLastSegment | src/index.ts:91 | `path.basename` returns the last run of characters between separators: no `/` in it, it starts at the beginning or after a `/`, and only `/` follow it |
| Parts.DefaultFileNameFromPath | src/index.ts:90-92 | a non-empty given name is kept; otherwise the recorded name is the last `/`-free segment `filePath[i..j]` of the path, starting at the beginning or after a `/`, ending at a non-`/` character (or at the start), and followed only by `/` |
| Framing.EncodeFieldsAppend | src/index.ts:121-123 | the field chunks of two lists written in turn are the chunks of the joined list |
| Framing.EncodeFilesAppend | src/index.ts:124-135 | the file chunks of two lists written in turn are those of the joined list, and the first list's error wins |
| Framing.EncodeFilesFailure | src/index.ts:124-135 | the file parts fail exactly when some on-disk part is unreadable; the error names the first such part's path |
| Framing.EncodeFailure | src/index.ts:119-140 | the body fails exactly when some on-disk part cannot be opened, with the error of the first one |
| Framing.FieldAt | src/index.ts:121-123 | field `i`'s chunk comes right after the chunks of fields `0..i-1` at the start of the body: one chunk per stored field, in order |
| Framing.FileBodyVerbatim | src/index.ts:124-135 | the bytes of file part `i` (the file's contents, or the given buffer) appear unchanged, right after all the fields, the earlier file parts and its own header |
| Framing.Delimited | src/index.ts:121-136 | the body ends with the close delimiter; it starts with a part delimiter when anything is registered, and is only the close delimiter otherwise |
| Framing.WireFormatExample | src/index.ts:119-140 | one field `a=1` and one buffer `hello` named `hello.txt` give exactly the expected bytes, with `Content-Type: text/plain` taken from the lookup |
| MemoryStreams.MemoryStream.constructor | src/index.ts:120 | a new stream is empty and at position 0 |
| MemoryStreams.MemoryStream.Write | src/index.ts:122 | writing at the end appends; writing inside overwrites; the position moves past the bytes written |
| MemoryStreams.MemoryStream.Rewind | src/index.ts:137 | the position returns to 0; the contents are kept |
| MemoryStreams.MemoryStream.ReadAll | src/index.ts:113 | returns everything from the position to the end, and leaves the position at the end |
| Encoder.Multipart.constructor | src/index.ts:28-47 | the boundary is generated from the draws, with both delimiters derived from it; headers and query map are the options given; no files; one field `(k, "undefined")` per `post` key, in order |
| Encoder.Multipart.Header | src/index.ts:54-57 | sets one header and changes nothing else; returns the same object |
| Encoder.Multipart.Query | src/index.ts:63-69 | the query map becomes `StoreQuery` of the old one; nothing else changes; returns the same object |
| Encoder.Multipart.Field | src/index.ts:75-78 | appends one field at the end, keeping repeated names; nothing else changes |
| Encoder.Multipart.File | src/index.ts:86-96 | a missing path fails with `FileNotFound(path)` and changes nothing; otherwise appends one on-disk part with the default file name and the file MIME type |
| Encoder.Multipart.FileData | src/index.ts:103-107 | appends one in-memory part holding the given bytes and the data MIME type; nothing else changes |
| Encoder.Multipart.WriteFields | src/index.ts:121-123 | the fields loop appends exactly the field chunks of the registry, in order |
| Encoder.Multipart.WriteFiles | src/index.ts:124-135 | the files loop appends exactly the file chunks, or stops with the error of the first part that cannot be opened |
| Encoder.Multipart.WriteFilePart | src/index.ts:124-135 | one file part appends its header, its body and a CRLF; it fails exactly when the part is on disk and unreadable |
| Encoder.Multipart.ToStream | src/index.ts:119-140 | a fresh stream holding exactly `Encode` of the registry, at position 0; or `Encode`'s error |
| Encoder.Multipart.ToBuffer | src/index.ts:112-114 | the bytes are exactly `Encode` of the registry, and the error cases are the same |
| Encoder.Multipart.ToOpts | src/index.ts:145-153 | first sets `Content-Type: multipart/form-data; boundary=<b>`, even when the body then fails; returns the headers, the query map and a fresh stream holding `Encode` of the registry |

## Left out

- `post(url)`: it hands `toOpts()` to the fibjs HTTP client, which is outside this model.
- File system effects: `fs.exists` and `fs.openFile` are read from a `FileSystem` value. Errors from `copyTo` and `close` are not modelled, and neither is a file changing while it is copied.
- `mime_types.lookup`: its database is a function parameter; nothing is assumed about its answers.
- `Math.random()`: its sixteen values are passed to the constructor as reals in `[0, 1)`.
- Boundary.Digit: `r * 10` is computed in exact reals, not rounded to an IEEE double before `Math.floor`. For a draw just below a tenth, such as the double nearest 0.7, JavaScript's rounded product is 7 while the exact product floors to 6; so `GenerateBoundary`'s per-character clause can differ from the code for such draws. The 24-dashes-and-16-digits shape does not depend on this.
- `String(value)` coercion in `header()` and `field()`: the model takes values that are already strings.
- `util.isArray` and `util.isTypedArray`: an array or typed array is the `Sequence` variant of `QueryValue`, and its elements are strings.
- Encoder.Multipart.constructor: `post` is an ordered list of keys, in JavaScript's enumeration order. Keys that name array properties (`length`, `push`, …) would read those properties instead of `undefined`; the model gives every key the value `"undefined"`.
- Encoder.Multipart.FileData: the buffer is held as a value. index.ts:105 keeps the caller's `Buffer` by reference and index.ts:132 writes it at encode time, so writes through the caller's reference after `fileData()` change the body in the code but not in the model.
- Aliasing: the `headers` and `get` objects are copied into the class as values. Later changes made through the caller's references are not modelled, and neither are changes made to the maps `toOpts()` returns.
- `path.basename` is modelled for `/` separators only (POSIX). Windows separators are not modelled.
- Parts.Source: an on-disk part with an empty path would take the `e.data` branch in `toStream()`, because the empty string is falsy. In the model an on-disk part always reads its path.
- No escaping of quotes or CRLF in names, values or file names, and no check that the boundary does not occur in a body; the model writes them verbatim, as the code does, and claims nothing about parsing the result back.
- Utf8.Encode: a lone UTF-16 surrogate, which `Buffer.from` replaces with U+FFFD, cannot occur, because a Dafny `char` is a Unicode scalar value.
- MemoryStreams.MemoryStream: only write, rewind and readAll are modelled; its other methods and its internal buffering are not.

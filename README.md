# A verified model of the akyoto/json streaming decoder

This project models the decode engine of the Go package `github.com/akyoto/json`. It is written in Dafny, and every contract in it is proved.

The engine has two parts:

- **The `Decode` scanning loop** (`Decoder.go`). It reads the input in chunks into a fixed read buffer and reacts to the quote byte only. Each pair of quotes captures one string token, the bytes strictly between them, with no escape processing. The captured tokens alternate between two roles:
  - a *field name*, looked up in the destination type's name-to-index map. An unknown name ends decoding with the error `Field does not exist: <name>`.
  - the *value* of the field just named. It is copied into a growable string buffer (`strings` / `stringsLength`) and stored in that field.

  At EOF, `Decode` returns nil.
- **The field-name map builders** with their per-decoder cache, in two snapshots:
  - `fieldIndices` (`Decoder.go`) maps each field's *wire name* to its index. The wire name is the `json` tag up to its first comma, or the Go field name when the tag is empty.
  - `fieldIndexMap` (`fieldIndexMap.go`) maps the wire name to the field's descriptor, and gives a nil map for a type that is not a struct.

## How the model is organised

- `base.dfy` (module `Base`): bytes, `strings.Index` for one byte (`IndexByte`), and small sequence facts.
- `reflect.dfy` (module `Reflect`): what reflection tells the decoder.
  - A type is `Struct(name, fields) | NonStruct(name)`.
  - A field is its Go name plus the value of `Tag.Get("json")`.
  - `WireName` is the tag rule.
- `scanner.dfy` (module `Scanner`): the meaning of the scanning loop, as functions of the input bytes.
  - `Lex` gives the tokens closed so far and where the open token starts.
  - `Interpret` applies the tokens to the destination's fields: name, value, name, value, and so on.
  - `Decoding(fields, init, input)` is the outcome of decoding `input`. It gives the field values, the field waiting for its value, and the error.
- `decoder.dfy` (module `Decoder`): the `decoder` struct as a class.
  - Its fields are `buffer`, `strings`, `stringsLength` and the `types` cache.
  - `FieldIndices` loops over the fields and fills the cache.
  - `StoreString` is the copy-and-grow step of the string buffer.
  - `Decode` has the loop over reads, and `ScanRead` holds the loop over one read's bytes. `OnString` handles a closed string.
  - Each method is proved against the functions above. `Decode` ensures that its result and the destination it leaves are exactly `Decoding` of the concatenated reads.
- `documents.dfy` (module `Documents`): flat objects `{"n":"v",...}` whose members are all strings, with what decoding makes of them. A field gets the value of the last member naming it. An unknown name stops decoding and leaves the earlier fields set.
- `field_index_map.dfy` (module `FieldIndexMap`): the later snapshot, with its own decoder class and cache. A proved lemma relates its map to the earlier one.
- `movie.dfy` (module `Movie`): the `Movie` struct and document of the decoding test.

The reader is a parameter: `chunks` is the sequence of byte slices its successive `Read` calls return, and the last one comes with `io.EOF`. The destination struct is an array of its string fields. The Go parameter `object` is renamed `dest`, because `object` is a Dafny keyword.

Three behaviours of the code shape the model:

- `Decode` never resets `stringsLength`. Values keep being appended after those of earlier calls on the same decoder. `OnString`, `ScanByte`, `ScanRead` and `Decode` each ensure the same bound on the string buffer (the predicate `StringsSince`). While the buffer is the one in use at the start, the bytes in use then keep their contents, and at most as many bytes as the input holds follow them. The buffer is replaced by a fresh one only when those bytes overflow it.
- A value that does not fit after the bytes in use gets a fresh buffer of `max(4096, len(captured))` bytes, and the copy goes to its start (Decoder.go:70-79). Nothing doubles the buffer or caps its size.
- `captureStart` survives from one read to the next (Decoder.go:51), but it is used to slice the *current* read buffer (Decoder.go:65). When a later read closes a string opened in an earlier one, the code therefore takes wrong bytes or panics on the slice. `Decode` requires that no read but the last ends inside a string (`NoTokenSpansReads`: every read but the last holds an even number of quotes). This also excludes some inputs the code handles well (see "## Left out"). No chunk-size independence is claimed.

## Model

| member | source | states |
|---|---|---|
| Base.IndexByte | Decoder.go:122 | The result is -1 exactly when the byte does not occur. Otherwise it is the position of the byte's first occurrence. |
| Reflect.WireName | Decoder.go:119-131 | Empty tag: the Go field name. Non-empty tag: its prefix up to the first comma, which holds no comma. With no comma it is the whole tag. A tag starting with a comma gives the empty name, not the Go name. |
| Decoder.IndexMap | Decoder.go:115-132 | Every index in the map lies in `[0, NumField)`. |
| Decoder.IndexMapKeys | Decoder.go:117-132 | The map's keys are exactly the wire names of the fields: each field contributes its wire name as a key. |
| Decoder.IndexMapLastWins | Decoder.go:117-132 | A name maps to a field with that wire name, and no later field has it: a later duplicate overwrites an earlier one. |
| Decoder.Decoder.constructor | Decoder.go:19-25 | A new decoder has a 4096-byte read buffer, a 4096-byte string buffer with nothing in use, and an empty cache. |
| Decoder.Decoder.FieldIndices | Decoder.go:108-136 | Returns `IndexMap` of the type's fields. On a cache hit it returns the stored map and leaves the cache unchanged. On a miss it stores the map under the type. Either way the cache afterwards maps the type to that map, so a second call returns the same map. |
| Decoder.Decoder.StoreString | Decoder.go:68-83 | Afterwards `strings[start..stringsLength]` is the captured value and `stringsLength <= len(strings)`. If the value fits after the bytes in use, the same buffer is used, the copy starts at the old `stringsLength`, and the bytes in use keep their contents. Otherwise the copy starts at 0 in a fresh buffer of `max(4096, len(captured))` bytes. |
| Decoder.Decoder.Read | Decoder.go:57 | The read's `n` bytes land at the start of the read buffer. |
| Decoder.Decoder.OnString | Decoder.go:65-92 | A closed string is one `Interpret` step. With a field pending, the string is copied into the string buffer and stored in that field: the field holds the last `len(captured)` bytes in use. If the value fits, the same buffer is used, `stringsLength` grows by its length, and the bytes in use before keep their contents. Otherwise a fresh buffer of `max(4096, len(captured))` bytes holds just the value. The next string is again a name. With no field pending, the string is looked up and the string buffer is left alone: a known name makes its field pending, and an unknown name is the error carrying it. Over a run of strings, the bytes in use at its start are kept, at most the copied bytes follow them, and the buffer is replaced only when those overflow it. |
| Decoder.Decoder.ScanByte | Decoder.go:60-97 | One byte of a read is one `Lex` step. A non-quote changes nothing. A quote with a string open hands the string to `OnString`, and one with none open starts a string right after it. The destination and pending field stay `Interpret` of the strings closed so far, and an error is the outcome of decoding the whole input. At most the bytes scanned so far have been copied into the string buffer, which is replaced only when they overflow it. |
| Decoder.Decoder.ScanRead | Decoder.go:59-99 | After scanning one read, the destination and the pending field are `Decoding` of all the bytes read so far. On an error, they are that outcome and the error. The string buffer is the old one or a fresh one. While it is the old one, the bytes in use before are untouched and at most the read's `n` bytes follow them. It is replaced only when those bytes overflow it. |
| Decoder.Decoder.Decode | Decoder.go:47-105 | The error returned and the destination's fields are those of `Decoding` the concatenated reads into the old field values, with the type's field map. At EOF the result is no error. The read buffer stays and the cache gains the type's map. `stringsLength` is not reset. The string buffer is the old one or a fresh one. While it is the old one, the values of earlier calls keep their bytes and at most the input's bytes follow them. A fresh buffer comes only when the old bytes in use plus the input's bytes exceed the old buffer's size. |
| Decoder.ErrorEndsRead | Decoder.go:86-91 | After an unknown name, the rest of the read does not change the outcome. |
| Decoder.ReadsEndAt | Decoder.go:86-91 | After an unknown name, the later reads do not change the outcome. |
| Scanner.Lex | Decoder.go:59-97 | Defines the scan of the bytes read so far: only a quote acts, closing the open string or opening one right after it. The result is the strings closed so far and where the open one starts, or -1. Its own ensures only bound that start by the input's length; what the scan means is proved by the `Lex…` lemmas below. |
| Scanner.LexStep | Decoder.go:62-97 | Bytes other than a quote change nothing. A quote with a token open closes it: the token is every byte after the opening quote, and the start goes back to -1. A quote with none open starts a token right after it. |
| Scanner.LexReadStep | Decoder.go:60-65 | The same step in the coordinates of the current read. This is the relation the loop over `buffer[i]` keeps with `captureStart`. |
| Scanner.LexIgnoresNonQuotes | Decoder.go:62-63 | Appending quote-free bytes leaves the scan unchanged. |
| Scanner.LexTokensHaveNoQuote | Decoder.go:64-65 | No token contains a quote. An open token starts right after a quote and has no quote after its start. |
| Scanner.LexToken | Decoder.go:64-65 | After a closed prefix, a quote-free `b` between two quotes yields exactly the one token `b`, and nothing is left open. |
| Scanner.LexOpenIffOddQuotes | Decoder.go:64-96 | A token is open exactly when the input holds an odd number of quotes: quotes alternate between opening and closing. |
| Scanner.LexAppend | Decoder.go:56-59 | After a closed prefix, the tokens of a concatenation are those of the prefix followed by those of the rest. |
| Scanner.LexPrefix | Decoder.go:59-99 | Scanning more bytes only adds tokens. |
| Scanner.Interpret | Decoder.go:67-92 | The destination keeps its number of fields, a pending field is a field of the struct, and after an error no field is pending and the error carries a string that is not a field name. |
| Scanner.InterpretStep | Decoder.go:67-92 | One more token. With a field pending, the token is assigned to it and the pending field is cleared. Otherwise a known name becomes pending, and an unknown name gives `FieldDoesNotExist(name)` with the fields unchanged. |
| Scanner.InterpretStopsAtError | Decoder.go:89-91 | After an error, later tokens change nothing. |
| Scanner.Decoding | Decoder.go:47-105 | Defines the outcome of decoding some input: `Interpret` of the strings `Lex` closes. Its ensures: the destination keeps its number of fields, a pending field is one of them, and an error leaves no field pending and carries a string that is not a field name. |
| Scanner.DecodingStopsAtError | Decoder.go:89-91 | Once decoding a prefix gives an error, decoding any extension gives the same outcome. |
| Scanner.LexReads | Decoder.go:51-59 | When no read but the last ends inside a string, the tokens of all reads are those of the earlier reads followed by those of the last. A token is open at the end exactly when one is open in the last read. |
| Scanner.ClosedAfterReads | Decoder.go:51-59 | After reads that each hold an even number of quotes, no token is open. |
| Documents.AssignLastWins | Decoder.go:84-85 | After storing the members, a field no member names keeps its value, and a field holds the value of the last member naming it. |
| Documents.LexMembers | Decoder.go:59-97 | After a closed prefix, the members `"n":"v"` separated by commas scan to their names and values in order, with nothing left open. |
| Documents.LexObject | Decoder.go:59-97 | The tokens of `{"n":"v",...}` are its names and values in document order. |
| Documents.InterpretMembers | Decoder.go:67-92 | Interpreting the names and values of known fields stores each value in its field, with no field pending and no error. |
| Documents.DecodeObject | Decoder.go:47-105 | Decoding an object whose names are all known succeeds. Each field holds the value of the last member naming it, and a field no member names keeps its old value. |
| Documents.DecodeObjectUnknownName | Decoder.go:86-91 | Decoding an object stops at the first unknown name with `FieldDoesNotExist(name)`. The members before it have been stored, and those after it have not. |
| FieldIndexMap.DescriptorMap | fieldIndexMap.go:23-40 | Every descriptor in the map is the field at its own index, and that index lies in `[0, NumField)`. |
| FieldIndexMap.DescriptorMapAgreesWithIndexMap | fieldIndexMap.go:25-40 | The descriptor map has the same keys as the index map of `Decoder.go`. A name's descriptor is the field at the index that map gives. |
| FieldIndexMap.DescriptorMapLastWins | fieldIndexMap.go:25-40 | The keys are exactly the wire names. A name maps to the descriptor of a field with that wire name, and no later field has it. |
| FieldIndexMap.Decoder.constructor | Decoder.go:19-25 | A new decoder's cache is empty. |
| FieldIndexMap.Decoder.FieldIndexMap | fieldIndexMap.go:12-44 | A non-struct type gives nil and leaves the cache untouched. A cache hit returns the stored map unchanged. A miss builds `DescriptorMap` of the fields, stores it under the type, and returns it. |
| Movie.MovieIndexMap | Decode_test.go:20-23 | The `Movie` fields are found under `title` (index 0) and `director` (index 1). |
| Movie.DecodeMovie | Decode_test.go:15-43 | Decoding `{"title":"…","director":"…"}` into a `Movie` sets Title and Director to the two values, without error. This holds for any quote-free values, including the test's "The Last Samurai" and "Edward Zwick". |
| Movie.MovieReadsSplit | Decode_test.go:15 | The document split after `"title":"…",` into two reads gives back the document, and no string spans the two reads. |
| Movie.TestDecode | Decode_test.go:25-44 | A new decoder's `Decode` of the document, read in one go, into a zero `Movie` returns no error and leaves Title and Director holding the two values. |
| Movie.TestDecodeSplit | Decode_test.go:25-44 | The same outcome when the document arrives in two reads. |

## Left out

- `NewDecoder`, `Close` and the `sync.Pool` of decoders (Decoder.go:18-26, 38-44, 138-142), plus `Unmarshal.go` and its reader pool: this is allocation-avoiding reuse across goroutines. A decoder here is made by its constructor.
- `unsafe.go`, `unsafe.BytesToString` and `reflect.Value.Field(i).SetString` (Decoder.go:84): the model assigns the copied bytes to field `i` as a value. Which Go strings alias which part of the string buffer is not modelled.
- Decoder.Decoder.Decode: requires every field of the destination to be a string and the type to be a struct. In Go, `SetString` panics on any other field kind, and `fieldIndices` panics on a non-struct type through `NumField`.
- Decoder.Decoder.Decode: requires that no read but the last ends inside a string. As written, the code takes wrong bytes or panics on the slice when a later read closes such a string (see above). The requirement also excludes two kinds of input that the code handles without either:
  - a string left open at the end of a read and never closed afterwards. An example is a truncated document `{"a":"b` followed by an empty read that carries `io.EOF`, as `os.File` and `bytes.Reader` deliver it. Go returns nil, with the open string dropped (Decoder.go:101-102).
  - a read with an odd number of quotes that also holds an unknown name. Decoding ends at that name with its error (Decoder.go:90), and the reads after it are never made.

  The model promises nothing about these inputs.
- Decoder.Decoder.Read: the reader is the sequence of chunks it returns. The bytes it delivers arrive with no error, and the last chunk with `io.EOF`. Read errors other than `io.EOF` make the Go loop read again (Decoder.go:101); they are not modelled.
- String escapes (section 7 of RFC 8259), numbers, literals, arrays and nested objects: this version of `Decode` skips every byte but the quote, and the model does the same. The number, float and array tests in `Decoder_test.go` belong to a different version and are not modelled.
- `Encoder.go`: it is entirely commented out.
- Pointer identity of the `*reflect.StructField` values in `fieldIndexMap.go`: a descriptor is modelled as the field and its index.
- The `reflect.Type` identity of cache keys: a type is compared by its name and its fields.
- `testdata/movie-simple.json`, the file `TestDecode` opens, is not part of this model. The tests here decode the document `jsonString` of Decode_test.go:15 in its place, for any quote-free title and director. Both test methods require the document to fit in one 4096-byte read.

/**
 * The decoder of `Decoder.go`: a read buffer the reader fills, a growable
 * buffer that owns copies of the string values, and a per-decoder cache of
 * field-name maps, one per destination struct type.
 *
 * `Decode` scans each read for quotes; the bytes between a pair of quotes form
 * a token, and tokens alternate between field names and field values (see
 * module Scanner). Its result and the destination it leaves are proved equal
 * to `Decoding` of the concatenated reads.
 */
module Decoder {
  import opened Base
  import opened Reflect
  import opened Scanner

  const ReadBufferSize: nat := 4096
  const StringBufferSize: nat := 4096

  /** The name-to-index map `fieldIndices` builds: each field under its wire name, later fields overwriting earlier ones. */
  function IndexMap(fs: seq<Field>): (m: map<Bytes, int>)
    ensures IndicesBelow(m, |fs|)
    decreases |fs|
  {
    if fs == [] then map[]
    else IndexMap(fs[..|fs| - 1])[WireName(fs[|fs| - 1]) := |fs| - 1]
  }

  /** Adding one more field to the map. */
  lemma IndexMapStep(fs: seq<Field>, i: nat)
    requires i < |fs|
    ensures IndexMap(fs[..i + 1]) == IndexMap(fs[..i])[WireName(fs[i]) := i]
  {
    assert fs[..i + 1][..i] == fs[..i];
  }

  /** The keys of the map are exactly the wire names of the fields. */
  lemma {:induction false} IndexMapKeys(fs: seq<Field>)
    ensures IndexMap(fs).Keys == set j | 0 <= j < |fs| :: WireName(fs[j])
    decreases |fs|
  {
    if fs != [] {
      var fs' := fs[..|fs| - 1];
      IndexMapKeys(fs');
      assert forall j | 0 <= j < |fs'| :: fs'[j] == fs[j];
      assert (set j | 0 <= j < |fs| :: WireName(fs[j])) ==
        (set j | 0 <= j < |fs'| :: WireName(fs'[j])) + {WireName(fs[|fs| - 1])};
    }
  }

  /** A name maps to the last field carrying it as its wire name. */
  lemma {:induction false} IndexMapLastWins(fs: seq<Field>)
    ensures forall k | k in IndexMap(fs) ::
      WireName(fs[IndexMap(fs)[k]]) == k && forall j | IndexMap(fs)[k] < j < |fs| :: WireName(fs[j]) != k
    decreases |fs|
  {
    if fs != [] {
      var fs' := fs[..|fs| - 1];
      var m := IndexMap(fs);
      IndexMapLastWins(fs');
      forall k | k in m
        ensures WireName(fs[m[k]]) == k && forall j | m[k] < j < |fs| :: WireName(fs[j]) != k
      {
        if k != WireName(fs[|fs| - 1]) {
          var i := IndexMap(fs')[k];
          assert m[k] == i && fs'[i] == fs[i];
          forall j | i < j < |fs| ensures WireName(fs[j]) != k {
            if j < |fs| - 1 {
              assert fs'[j] == fs[j];
            }
          }
        }
      }
    }
  }

  /** Only struct types are cached, each with the map its fields call for. */
  ghost predicate CacheValid(types: map<Type, map<Bytes, int>>) {
    forall t | t in types :: t.Struct? && types[t] == IndexMap(t.fields)
  }

  class Decoder {
    /** Where each read of the reader lands. */
    var buffer: array<byte>
    /** Owns the bytes of the string values stored so far; `strings[..stringsLength]` is in use. */
    var strings: array<byte>
    var stringsLength: nat
    /** The cache: the name-to-index map of every struct type met so far. */
    var types: map<Type, map<Bytes, int>>

    /** The buffers have their sizes and every cached map is the one its type calls for. */
    ghost predicate Valid()
      reads this
    {
      BuffersValid() && CacheValid(types)
    }

    /** The read buffer has its size, and the string buffer its minimum size and a length in range. */
    ghost predicate BuffersValid()
      reads this
    {
      && buffer.Length == ReadBufferSize
      && StringBufferSize <= strings.Length
      && stringsLength <= strings.Length
      && buffer != strings
    }

    /**
     * Since the string buffer was `s0` with the bytes `kept` in use, at most
     * `copied` bytes have been put in it: while it is still `s0`, the bytes
     * `kept` are untouched and at most `copied` follow them; a new buffer
     * replaces it only when those bytes overflow it.
     */
    ghost predicate StringsSince(s0: array<byte>, kept: seq<byte>, copied: int)
      reads this, strings
    {
      if strings == s0 then
        |kept| <= stringsLength <= |kept| + copied && stringsLength <= strings.Length && strings[..|kept|] == kept
      else
        |kept| + copied > s0.Length
    }

    /** Fewer bytes copied is a stronger promise. */
    lemma StringsSinceMore(s0: array<byte>, kept: seq<byte>, copied: int, more: int)
      requires StringsSince(s0, kept, copied) && copied <= more
      ensures StringsSince(s0, kept, more)
    {
    }

    /** A decoder as the pool makes it. */
    constructor ()
      ensures Valid() && fresh(buffer) && fresh(strings)
      ensures strings.Length == StringBufferSize && stringsLength == 0 && types == map[]
    {
      buffer := new byte[ReadBufferSize];
      strings := new byte[StringBufferSize];
      stringsLength := 0;
      types := map[];
    }

    /**
     * The name-to-index map of a struct type: the cached one when there is
     * one, else a new one, which is cached. Either way it is `IndexMap` of the
     * type's fields, so a second call returns the same map.
     */
    method FieldIndices(t: Type) returns (fields: map<Bytes, int>)
      requires Valid() && t.Struct?
      modifies this
      ensures Valid()
      ensures fields == IndexMap(t.fields)
      ensures t in old(types) ==> fields == old(types)[t] && types == old(types)
      ensures types == old(types)[t := fields]
      ensures buffer == old(buffer) && strings == old(strings) && stringsLength == old(stringsLength)
    {
      if t in types {
        fields := types[t];
        assert types[t := fields] == types;
        return;
      }
      fields := map[];
      var i := 0;
      while i < |t.fields|
        invariant 0 <= i <= |t.fields|
        invariant fields == IndexMap(t.fields[..i])
        invariant unchanged(this)
      {
        var field := t.fields[i];
        var jsonName := field.jsonTag;
        IndexMapStep(t.fields, i);
        if jsonName != [] {
          var comma := IndexByte(jsonName, Comma);
          if comma != -1 {
            jsonName := jsonName[..comma];
          }
          fields := fields[jsonName := i];
        } else {
          fields := fields[field.name := i];
        }
        i := i + 1;
      }
      assert t.fields[..|t.fields|] == t.fields;
      types := types[t := fields];
    }

    /**
     * Copies a captured value into the string buffer (Decoder.go:68-83). When
     * it does not fit after the bytes in use, a new buffer of
     * `max(StringBufferSize, |captured|)` bytes replaces the old one and the
     * copy goes to its start; otherwise it goes right after the bytes in use,
     * which keep their contents. Returns where the copy starts.
     */
    method StoreString(captured: Bytes) returns (start: nat)
      requires BuffersValid()
      modifies this, strings
      ensures BuffersValid()
      ensures buffer == old(buffer) && types == old(types)
      ensures stringsLength == start + |captured| && strings[start..stringsLength] == captured
      ensures old(stringsLength) + |captured| <= old(strings.Length) ==>
        strings == old(strings) && start == old(stringsLength) && strings[..start] == old(strings[..stringsLength])
      ensures old(stringsLength) + |captured| > old(strings.Length) ==>
        fresh(strings) && strings.Length == Max(StringBufferSize, |captured|) && start == 0
    {
      if stringsLength + |captured| > strings.Length {
        var newBufferLength := StringBufferSize;
        if newBufferLength < |captured| {
          newBufferLength := |captured|;
        }
        strings := new byte[newBufferLength];
        stringsLength := 0;
      }
      start := stringsLength;
      var j := 0;
      while j < |captured|
        modifies strings
        invariant 0 <= j <= |captured|
        invariant forall p | 0 <= p < j :: strings[start + p] == captured[p]
        invariant forall p | 0 <= p < start :: strings[p] == old(strings[p])
      {
        strings[start + j] := captured[j];
        j := j + 1;
      }
      stringsLength := start + |captured|;
    }

    /** What the reader's `Read(decoder.buffer)` does: the next chunk lands at the start of the read buffer. */
    method Read(chunk: Bytes) returns (n: nat)
      requires BuffersValid() && |chunk| <= buffer.Length
      modifies buffer
      ensures n == |chunk| && buffer[..n] == chunk
    {
      n := 0;
      while n < |chunk|
        invariant 0 <= n <= |chunk|
        invariant forall p | 0 <= p < n :: buffer[p] == chunk[p]
      {
        buffer[n] := chunk[n];
        n := n + 1;
      }
    }

    /**
     * What `Decode` does with a quoted string it has just closed
     * (Decoder.go:65-92): a value goes, through the string buffer, into the
     * field its name selected; a name selects the field it is the wire name
     * of, and an unknown name is an error that carries it. Either way the
     * outcome is one more step of `Interpret` over the strings scanned so far.
     */
    method OnString(captured: Bytes, ghost tokens: seq<Bytes>, fieldIndices: map<Bytes, int>, ghost init: seq<Bytes>,
                    dest: array<Bytes>, fieldIndex: int, fieldExists: bool,
                    ghost s0: array<byte>, ghost kept: seq<byte>, ghost copied: nat)
      returns (fieldIndex': int, fieldExists': bool, err: Option<Error>)
      requires BuffersValid() && IndicesBelow(fieldIndices, |init|) && |init| == dest.Length
      requires StringsSince(s0, kept, copied)
      requires Interpret(fieldIndices, init, tokens)
        == Outcome(dest[..], if fieldExists then Some(fieldIndex) else None, None)
      modifies this, strings, dest
      ensures BuffersValid() && buffer == old(buffer) && types == old(types)
      ensures strings == old(strings) || fresh(strings)
      ensures Interpret(fieldIndices, init, tokens + [captured])
        == Outcome(dest[..], if fieldExists' then Some(fieldIndex') else None, err)
      ensures err.Some? ==> !fieldExists'
      // the bytes in use keep their contents unless a fresh buffer replaces them
      ensures strings == old(strings) ==>
        old(stringsLength) <= stringsLength && strings[..old(stringsLength)] == old(strings[..stringsLength])
      // a value is the copy the string buffer now ends with, after the old bytes or at the start of a fresh buffer
      ensures fieldExists ==>
        |captured| <= stringsLength && dest[fieldIndex] == strings[stringsLength - |captured|..stringsLength]
      ensures fieldExists ==>
        if old(stringsLength) + |captured| <= old(strings.Length) then
          strings == old(strings) && stringsLength == old(stringsLength) + |captured|
        else
          fresh(strings) && strings.Length == Max(StringBufferSize, |captured|) && stringsLength == |captured|
      ensures StringsSince(s0, kept, if fieldExists then copied + |captured| else copied)
      // a name leaves the string buffer alone
      ensures !fieldExists ==>
        strings == old(strings) && stringsLength == old(stringsLength) && strings[..] == old(strings[..])
    {
      InterpretStep(fieldIndices, init, tokens, captured);
      if fieldExists {
        var start := StoreString(captured);
        dest[fieldIndex] := strings[start..stringsLength];
        if strings == s0 {
          PrefixKept(kept, old(strings[..]), strings[..], |kept|, old(stringsLength));
        }
        fieldIndex', fieldExists', err := fieldIndex, false, None;
      } else {
        if captured in fieldIndices {
          fieldIndex', fieldExists' := fieldIndices[captured], true;
        } else {
          fieldIndex', fieldExists' := 0, false;
        }
        err := if fieldExists' then None else Some(FieldDoesNotExist(captured));
      }
    }

    /**
     * The byte `buffer[i]` of a read of `n` bytes, `chunk`, that follows the
     * earlier reads `read` (Decoder.go:60-97). Only a quote acts: with a
     * string open since `captureStart`, it closes it and the string goes to
     * `OnString`; otherwise it opens a string right after it. The destination
     * and the pending field follow the scan one byte further, and an unknown
     * name fixes the outcome of the whole read.
     */
    method ScanByte(i: nat, n: nat, ghost chunk: Bytes, ghost read: Bytes, captureStart: int,
                   fieldIndices: map<Bytes, int>, ghost init: seq<Bytes>, dest: array<Bytes>, fieldIndex: int, fieldExists: bool,
                   ghost s0: array<byte>, ghost kept: seq<byte>, ghost copied: nat)
      returns (captureStart': int, fieldIndex': int, fieldExists': bool, err: Option<Error>)
      requires BuffersValid() && n == |chunk| <= buffer.Length && buffer[..n] == chunk
      requires i < n && -1 <= captureStart <= i
      requires IndicesBelow(fieldIndices, |init|) && |init| == dest.Length
      requires Lex(read + chunk[..i]).captureStart == if captureStart >= 0 then |read| + captureStart else -1
      requires Interpret(fieldIndices, init, Lex(read + chunk[..i]).tokens)
        == Outcome(dest[..], if fieldExists then Some(fieldIndex) else None, None)
      requires StringsSince(s0, kept, copied + if captureStart >= 0 then captureStart else i)
      modifies this, strings, dest
      ensures BuffersValid() && buffer == old(buffer) && types == old(types)
      ensures strings == old(strings) || fresh(strings)
      ensures -1 <= captureStart' <= i + 1
      ensures StringsSince(s0, kept, copied + if captureStart' >= 0 then captureStart' else i + 1)
      ensures Lex(read + chunk[..i + 1]).captureStart == if captureStart' >= 0 then |read| + captureStart' else -1
      ensures err.None? ==>
        Interpret(fieldIndices, init, Lex(read + chunk[..i + 1]).tokens)
          == Outcome(dest[..], if fieldExists' then Some(fieldIndex') else None, None)
      ensures err.Some? ==> Decoding(fieldIndices, init, read + chunk) == Outcome(dest[..], None, err)
    {
      var c := buffer[i];
      assert c == chunk[i];
      LexReadStep(read, chunk, i, captureStart);
      if c != Quote {
        captureStart', fieldIndex', fieldExists', err := captureStart, fieldIndex, fieldExists, None;
        if captureStart < 0 {
          StringsSinceMore(s0, kept, copied + i, copied + i + 1);
        }
      } else if captureStart >= 0 {
        var captured := buffer[captureStart..i];
        SliceOfPrefix(buffer[..], n, captureStart, i);
        ghost var tokens := Lex(read + chunk[..i]).tokens;
        fieldIndex', fieldExists', err := OnString(captured, tokens, fieldIndices, init, dest, fieldIndex, fieldExists,
                                                   s0, kept, copied + captureStart);
        StringsSinceMore(s0, kept, if fieldExists then copied + i else copied + captureStart, copied + i + 1);
        if err.Some? {
          ErrorEndsRead(fieldIndices, init, read, chunk, i + 1, tokens + [captured]);
        }
        captureStart' := -1;
      } else {
        fieldIndex', fieldExists', err := fieldIndex, fieldExists, None;
        captureStart' := i + 1;
        StringsSinceMore(s0, kept, copied + i, copied + i + 1);
      }
    }

    /**
     * Scans one read of `n` bytes, `chunk`, that follows the earlier reads
     * `read` (Decoder.go:59-99). Every quote opens or closes a string, and
     * each closed string is handed to `OnString`. Without an error, the
     * destination and the pending field are those `Interpret` gives for the
     * strings of all reads so far; on an error, they are the outcome of
     * `Decoding` those reads.
     */
    method ScanRead(n: nat, ghost chunk: Bytes, ghost read: Bytes, fieldIndices: map<Bytes, int>, ghost init: seq<Bytes>,
                    dest: array<Bytes>, fieldIndex: int, fieldExists: bool,
                    ghost s0: array<byte>, ghost kept: seq<byte>, ghost copied: nat)
      returns (fieldIndex': int, fieldExists': bool, err: Option<Error>)
      requires BuffersValid() && n == |chunk| <= buffer.Length && buffer[..n] == chunk
      requires StringsSince(s0, kept, copied)
      requires IndicesBelow(fieldIndices, |init|) && |init| == dest.Length
      requires Lex(read).captureStart == -1
      requires Decoding(fieldIndices, init, read)
        == Outcome(dest[..], if fieldExists then Some(fieldIndex) else None, None)
      modifies this, strings, dest
      ensures BuffersValid() && buffer == old(buffer) && types == old(types)
      ensures strings == old(strings) || fresh(strings)
      // only bytes of the read are copied, and the buffer is replaced only when they overflow it
      ensures StringsSince(s0, kept, copied + n)
      ensures err.None? ==>
        Decoding(fieldIndices, init, read + chunk)
          == Outcome(dest[..], if fieldExists' then Some(fieldIndex') else None, None)
      ensures err.Some? ==> Decoding(fieldIndices, init, read + chunk) == Outcome(dest[..], None, err)
    {
      // No earlier read ends inside a string, so none is open when a read starts.
      var captureStart := -1;
      fieldIndex', fieldExists' := fieldIndex, fieldExists;
      assert read + chunk[..0] == read;

      for i := 0 to n
        invariant BuffersValid() && buffer == old(buffer) && types == old(types)
        invariant strings == old(strings) || fresh(strings)
        invariant StringsSince(s0, kept, copied + if captureStart >= 0 then captureStart else i)
        invariant -1 <= captureStart <= i
        invariant Lex(read + chunk[..i]).captureStart == if captureStart >= 0 then |read| + captureStart else -1
        invariant Interpret(fieldIndices, init, Lex(read + chunk[..i]).tokens)
          == Outcome(dest[..], if fieldExists' then Some(fieldIndex') else None, None)
      {
        captureStart, fieldIndex', fieldExists', err :=
          ScanByte(i, n, chunk, read, captureStart, fieldIndices, init, dest, fieldIndex', fieldExists', s0, kept, copied);
        if err.Some? {
          return;
        }
      }
      assert chunk[..n] == chunk;
      err := None;
    }

    /**
     * Decodes the reads `chunks` (the last one comes with io.EOF) into the
     * struct `dest` (Go's `object`) of type `t`, whose fields are all strings.
     *
     * The result and the fields left in `dest` are those of `Decoding` the
     * concatenated reads: on an unknown name the error carries it and the
     * fields stored before it keep their new values; at EOF the result is no
     * error, also when the last read ends inside a string (a document
     * truncated in its last read).
     */
    method Decode(chunks: seq<Bytes>, t: Type, dest: array<Bytes>) returns (err: Option<Error>)
      requires Valid()
      requires t.Struct? && dest.Length == |t.fields|
      requires |chunks| > 0 && forall k | 0 <= k < |chunks| :: |chunks[k]| <= ReadBufferSize
      requires NoTokenSpansReads(chunks)
      modifies this, buffer, strings, dest
      ensures Valid() && buffer == old(buffer)
      ensures types == old(types)[t := IndexMap(t.fields)]
      // the values of earlier calls stay in the string buffer until it is replaced
      ensures strings == old(strings) || fresh(strings)
      // the values of earlier calls keep their bytes, only bytes of the input are copied,
      // and the buffer is replaced only when they overflow it
      ensures StringsSince(old(strings), old(strings[..stringsLength]), |Flatten(chunks)|)
      ensures var out := Decoding(IndexMap(t.fields), old(dest[..]), Flatten(chunks));
        err == out.err && dest[..] == out.values
    {
      var fieldIndices := FieldIndices(t);
      var fieldIndex := 0;
      var fieldExists := false;
      ghost var init := dest[..];
      ghost var read: Bytes := [];  // the bytes of the earlier reads
      ghost var s0, kept := strings, strings[..stringsLength];
      var k := 0;

      while true
        invariant 0 <= k < |chunks|
        invariant BuffersValid() && buffer == old(buffer) && (strings == old(strings) || fresh(strings))
        invariant s0 == old(strings) && kept == old(strings[..stringsLength]) && StringsSince(s0, kept, |read|)
        invariant types == old(types)[t := fieldIndices] && CacheValid(types)
        invariant fieldIndices == IndexMap(t.fields) && |init| == dest.Length
        invariant read == Flatten(chunks[..k]) && Lex(read).captureStart == -1
        invariant Decoding(fieldIndices, init, read)
          == Outcome(dest[..], if fieldExists then Some(fieldIndex) else None, None)
        decreases |chunks| - k
      {
        var n := Read(chunks[k]);
        ghost var chunk := chunks[k];
        fieldIndex, fieldExists, err := ScanRead(n, chunk, read, fieldIndices, init, dest, fieldIndex, fieldExists,
                                                 s0, kept, |read|);
        NextRead(chunks, k);
        FlattenPrefixLength(chunks, k + 1);
        StringsSinceMore(s0, kept, |read| + n, |Flatten(chunks)|);
        if err.Some? {
          ReadsEndAt(fieldIndices, init, chunks, k);
          break;
        }
        if k == |chunks| - 1 {
          break;
        }

        read := read + chunk;
        k := k + 1;
      }
    }
  }

  /** An error raised after `i` bytes of a read is the outcome of decoding the whole read. */
  lemma ErrorEndsRead(fields: map<Bytes, int>, init: seq<Bytes>, read: Bytes, chunk: Bytes, i: nat, tokens: seq<Bytes>)
    requires IndicesBelow(fields, |init|)
    requires i <= |chunk| && Lex(read + chunk[..i]).tokens == tokens && Interpret(fields, init, tokens).err.Some?
    ensures Decoding(fields, init, read + chunk) == Interpret(fields, init, tokens)
  {
    assert (read + chunk[..i]) + chunk[i..] == read + chunk by {
      assert chunk == chunk[..i] + chunk[i..];
    }
    DecodingStopsAtError(fields, init, read + chunk[..i], chunk[i..]);
  }

  /** Read `k` extends the earlier ones; unless it is the last, it leaves no string open. */
  lemma NextRead(chunks: seq<Bytes>, k: nat)
    requires k < |chunks| && NoTokenSpansReads(chunks)
    ensures Flatten(chunks[..k + 1]) == Flatten(chunks[..k]) + chunks[k]
    ensures k < |chunks| - 1 ==> Lex(Flatten(chunks[..k + 1])).captureStart == -1
    ensures k == |chunks| - 1 ==> chunks[..k + 1] == chunks
  {
    assert chunks[..k + 1][..k] == chunks[..k];
    if k < |chunks| - 1 {
      ClosedAfterReads(chunks[..k + 1]);
    }
  }

  /** The first `k` reads hold no more bytes than all of them. */
  lemma FlattenPrefixLength(chunks: seq<Bytes>, k: nat)
    requires k <= |chunks|
    ensures |Flatten(chunks[..k])| <= |Flatten(chunks)|
  {
    assert chunks == chunks[..k] + chunks[k..];
    FlattenAppend(chunks[..k], chunks[k..]);
  }

  /** An error raised in read `k` is the outcome of decoding all the reads. */
  lemma ReadsEndAt(fields: map<Bytes, int>, init: seq<Bytes>, chunks: seq<Bytes>, k: nat)
    requires IndicesBelow(fields, |init|)
    requires k < |chunks| && Decoding(fields, init, Flatten(chunks[..k + 1])).err.Some?
    ensures Decoding(fields, init, Flatten(chunks)) == Decoding(fields, init, Flatten(chunks[..k + 1]))
  {
    assert chunks == chunks[..k + 1] + chunks[k + 1..];
    FlattenAppend(chunks[..k + 1], chunks[k + 1..]);
    DecodingStopsAtError(fields, init, Flatten(chunks[..k + 1]), Flatten(chunks[k + 1..]));
  }
}

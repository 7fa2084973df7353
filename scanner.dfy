/**
 * The scanning loop of `Decode` as functions of the input bytes.
 *
 * The loop reacts to the quote byte only. Quotes alternate between opening a
 * token (the capture starts after the quote) and closing it (the token is
 * every byte strictly between the two quotes, with no escape processing).
 * `Lex` gives the tokens closed so far and where the open token starts.
 * The closed tokens then alternate between two roles: a field name, looked up
 * in the type's field map, and the value of that field. `Interpret` gives the
 * destination's field values, the field waiting for its value and the error.
 */
module Scanner {
  import opened Base

  /** The lexical state after some input: the closed tokens, and the start of the open one or -1. */
  datatype Lexer = Lexer(tokens: seq<Bytes>, captureStart: int)

  /** The tokens of `s`, scanned byte by byte from the start. */
  function Lex(s: Bytes): (r: Lexer)
    ensures -1 <= r.captureStart <= |s|
    decreases |s|
  {
    if s == [] then Lexer([], -1)
    else
      var i := |s| - 1;
      var prev := Lex(s[..i]);
      if s[i] != Quote then prev
      else if prev.captureStart >= 0 then Lexer(prev.tokens + [s[prev.captureStart..i]], -1)
      else Lexer(prev.tokens, i + 1)
  }

  /** One more byte: only a quote does anything, closing the open token or opening one. */
  lemma LexStep(pre: Bytes, c: byte)
    ensures Lex(pre + [c]) ==
      if c != Quote then Lex(pre)
      else if Lex(pre).captureStart >= 0 then Lexer(Lex(pre).tokens + [pre[Lex(pre).captureStart..]], -1)
      else Lexer(Lex(pre).tokens, |pre| + 1)
  {
    assert (pre + [c])[..|pre|] == pre;
    var cs := Lex(pre).captureStart;
    if cs >= 0 {
      assert (pre + [c])[cs..|pre|] == pre[cs..];
    }
  }

  /**
   * One byte of a read, scanned after the bytes of the earlier reads (`read`)
   * and the first `i` bytes of this one, where `cs` is where the open token
   * starts in this read, or -1: the step of `Lex`, in the read's coordinates.
   */
  lemma LexReadStep(read: Bytes, chunk: Bytes, i: nat, cs: int)
    requires -1 <= cs <= i < |chunk|
    requires Lex(read + chunk[..i]).captureStart == if cs >= 0 then |read| + cs else -1
    ensures chunk[i] != Quote ==> Lex(read + chunk[..i + 1]) == Lex(read + chunk[..i])
    ensures chunk[i] == Quote && cs >= 0 ==>
      Lex(read + chunk[..i + 1]) == Lexer(Lex(read + chunk[..i]).tokens + [chunk[cs..i]], -1)
    ensures chunk[i] == Quote && cs < 0 ==>
      Lex(read + chunk[..i + 1]) == Lexer(Lex(read + chunk[..i]).tokens, |read| + i + 1)
  {
    AppendStep(read, chunk, i);
    LexStep(read + chunk[..i], chunk[i]);
    if cs >= 0 {
      SliceAfter(read, chunk, i, cs);
    }
  }

  /** Bytes other than the quote leave the scanner exactly as it was. */
  lemma {:induction false} LexIgnoresNonQuotes(a: Bytes, b: Bytes)
    requires Quote !in b
    ensures Lex(a + b) == Lex(a)
    decreases |b|
  {
    if b != [] {
      var b' := b[..|b| - 1];
      assert b == b' + [b[|b| - 1]];
      assert Quote !in b';
      LexIgnoresNonQuotes(a, b');
      var s := a + b;
      assert s[..|s| - 1] == a + b';
      assert s[|s| - 1] == b[|b| - 1] != Quote;
    } else {
      assert a + b == a;
    }
  }

  /**
   * An open token starts right after a quote and has met no quote since, and
   * no closed token holds a quote: a backslash does not escape anything.
   */
  lemma {:induction false} LexTokensHaveNoQuote(s: Bytes)
    ensures Lex(s).captureStart >= 0 ==>
      1 <= Lex(s).captureStart && s[Lex(s).captureStart - 1] == Quote && Quote !in s[Lex(s).captureStart..]
    ensures forall t | t in Lex(s).tokens :: Quote !in t
    decreases |s|
  {
    if s != [] {
      var i := |s| - 1;
      var p := s[..i];
      LexTokensHaveNoQuote(p);
      var prev := Lex(p);
      if s[i] != Quote {
        if prev.captureStart >= 0 {
          assert s[prev.captureStart..] == p[prev.captureStart..] + [s[i]];
        }
      } else if prev.captureStart >= 0 {
        assert s[prev.captureStart..i] == p[prev.captureStart..];
      }
    }
  }

  /** A token is exactly the bytes between a pair of quotes. */
  lemma LexToken(a: Bytes, b: Bytes)
    requires Lex(a).captureStart == -1
    requires Quote !in b
    ensures Lex(a + [Quote] + b + [Quote]) == Lexer(Lex(a).tokens + [b], -1)
  {
    var s := a + [Quote] + b + [Quote];
    assert (a + [Quote])[..|a|] == a;
    assert Lex(a + [Quote]) == Lexer(Lex(a).tokens, |a| + 1);
    LexIgnoresNonQuotes(a + [Quote], b);
    assert s[..|s| - 1] == a + [Quote] + b;
    assert s[|a| + 1..|s| - 1] == b;
  }

  /** A token is open exactly after an odd number of quotes. */
  lemma {:induction false} LexOpenIffOddQuotes(s: Bytes)
    ensures Lex(s).captureStart >= 0 <==> Count(s, Quote) % 2 == 1
    decreases |s|
  {
    if s != [] {
      LexOpenIffOddQuotes(s[..|s| - 1]);
    }
  }

  /**
   * Scanning `b` after a prefix that leaves no token open: the tokens of the
   * two pieces concatenate and the open token of `b` is shifted by `|a|`.
   */
  lemma {:induction false} LexAppend(a: Bytes, b: Bytes)
    requires Lex(a).captureStart == -1
    ensures Lex(a + b).tokens == Lex(a).tokens + Lex(b).tokens
    ensures Lex(a + b).captureStart == if Lex(b).captureStart >= 0 then |a| + Lex(b).captureStart else -1
    decreases |b|
  {
    if b == [] {
      assert a + b == a;
    } else {
      var b' := b[..|b| - 1];
      assert (a + b)[..|a + b| - 1] == a + b';
      LexAppend(a, b');
      var cs := Lex(b').captureStart;
      if b[|b| - 1] == Quote && cs >= 0 {
        assert (a + b)[|a| + cs..|a + b| - 1] == b[cs..|b| - 1];
      }
    }
  }

  /** More input never takes back a token: the tokens of a prefix start the tokens of the whole. */
  lemma {:induction false} LexPrefix(a: Bytes, b: Bytes)
    ensures Lex(a).tokens <= Lex(a + b).tokens
    decreases |b|
  {
    if b == [] {
      assert a + b == a;
    } else {
      var b' := b[..|b| - 1];
      assert (a + b)[..|a + b| - 1] == a + b';
      LexPrefix(a, b');
    }
  }

  /** The error `Decode` returns for an unknown name: "Field does not exist: <name>". */
  datatype Error = FieldDoesNotExist(name: Bytes)

  /**
   * The decode state after some tokens: the destination's field values, the
   * field whose value is awaited (Go's `fieldIndex` while `fieldExists`), and
   * the error that stopped decoding, if any.
   */
  datatype Outcome = Outcome(values: seq<Bytes>, pending: Option<int>, err: Option<Error>)

  /** Every index the field map gives names a field of a struct with `n` fields. */
  predicate IndicesBelow(fields: map<Bytes, int>, n: int) {
    forall k | k in fields :: 0 <= fields[k] < n
  }

  /**
   * The tokens applied one after the other to a destination whose fields
   * start as `init`: a token with no field pending is a name, looked up in
   * `fields` (an unknown name stops everything with an error); the next token
   * is the value of that field.
   */
  function Interpret(fields: map<Bytes, int>, init: seq<Bytes>, tokens: seq<Bytes>): (r: Outcome)
    requires IndicesBelow(fields, |init|)
    ensures |r.values| == |init|
    ensures r.pending.Some? ==> 0 <= r.pending.value < |init|
    ensures r.err.Some? ==> r.pending.None? && r.err.value.name !in fields
    decreases |tokens|
  {
    if tokens == [] then Outcome(init, None, None)
    else
      var prev := Interpret(fields, init, tokens[..|tokens| - 1]);
      var token := tokens[|tokens| - 1];
      if prev.err.Some? then prev
      else match prev.pending
        case Some(i) => Outcome(prev.values[i := token], None, None)
        case None =>
          if token in fields then Outcome(prev.values, Some(fields[token]), None)
          else Outcome(prev.values, None, Some(FieldDoesNotExist(token)))
  }

  /** One more token: a value for the pending field, or else a name to look up. */
  lemma InterpretStep(fields: map<Bytes, int>, init: seq<Bytes>, tokens: seq<Bytes>, token: Bytes)
    requires IndicesBelow(fields, |init|)
    ensures var prev := Interpret(fields, init, tokens);
      prev.err.None? && prev.pending.Some? ==>
        Interpret(fields, init, tokens + [token]) == Outcome(prev.values[prev.pending.value := token], None, None)
    ensures var prev := Interpret(fields, init, tokens);
      prev.err.None? && prev.pending.None? && token in fields ==>
        Interpret(fields, init, tokens + [token]) == Outcome(prev.values, Some(fields[token]), None)
    ensures var prev := Interpret(fields, init, tokens);
      prev.err.None? && prev.pending.None? && token !in fields ==>
        Interpret(fields, init, tokens + [token]) == Outcome(prev.values, None, Some(FieldDoesNotExist(token)))
  {
    assert (tokens + [token])[..|tokens|] == tokens;
  }

  /** Once an error is raised, later tokens change nothing. */
  lemma {:induction false} InterpretStopsAtError(fields: map<Bytes, int>, init: seq<Bytes>, tokens: seq<Bytes>, more: seq<Bytes>)
    requires IndicesBelow(fields, |init|)
    requires Interpret(fields, init, tokens).err.Some?
    ensures Interpret(fields, init, tokens + more) == Interpret(fields, init, tokens)
    decreases |more|
  {
    if more == [] {
      assert tokens + more == tokens;
    } else {
      var more' := more[..|more| - 1];
      assert (tokens + more)[..|tokens + more| - 1] == tokens + more';
      InterpretStopsAtError(fields, init, tokens, more');
    }
  }

  /**
   * What decoding `input` into a destination whose fields start as `init`
   * yields: the strings the scan closes, interpreted as names and values.
   * The destination keeps its fields, a pending field is one of them, and an
   * error leaves none pending and names a string that is not a field name.
   */
  function Decoding(fields: map<Bytes, int>, init: seq<Bytes>, input: Bytes): (r: Outcome)
    requires IndicesBelow(fields, |init|)
    ensures |r.values| == |init|
    ensures r.pending.Some? ==> 0 <= r.pending.value < |init|
    ensures r.err.Some? ==> r.pending.None? && r.err.value.name !in fields
  {
    Interpret(fields, init, Lex(input).tokens)
  }

  /** Decoding returns at the first error: whatever follows is never looked at. */
  lemma DecodingStopsAtError(fields: map<Bytes, int>, init: seq<Bytes>, a: Bytes, b: Bytes)
    requires IndicesBelow(fields, |init|)
    requires Decoding(fields, init, a).err.Some?
    ensures Decoding(fields, init, a + b) == Decoding(fields, init, a)
  {
    var ta := Lex(a).tokens;
    var tab := Lex(a + b).tokens;
    LexPrefix(a, b);
    assert tab == ta + tab[|ta|..];
    InterpretStopsAtError(fields, init, ta, tab[|ta|..]);
  }

  /** The bytes of successive reads, in order. */
  function Flatten(chunks: seq<Bytes>): (r: Bytes)
    decreases |chunks|
  {
    if chunks == [] then [] else Flatten(chunks[..|chunks| - 1]) + chunks[|chunks| - 1]
  }

  lemma {:induction false} FlattenAppend(a: seq<Bytes>, b: seq<Bytes>)
    ensures Flatten(a + b) == Flatten(a) + Flatten(b)
    decreases |b|
  {
    if b == [] {
      assert a + b == a;
    } else {
      var b' := b[..|b| - 1];
      assert (a + b)[..|a + b| - 1] == a + b';
      FlattenAppend(a, b');
    }
  }

  /**
   * No read but the last ends inside a string: each holds an even number of
   * quotes. `Decode` keeps the capture start across reads but slices the
   * current read buffer with it, so a string closed in a later read than the
   * one that opened it would be taken wrongly.
   */
  predicate NoTokenSpansReads(chunks: seq<Bytes>) {
    forall k | 0 <= k < |chunks| - 1 :: Count(chunks[k], Quote) % 2 == 0
  }

  /**
   * When no read but the last ends inside a string, the reads can be scanned one by one: the
   * tokens of the whole input are those of each read, in order.
   */
  lemma {:induction false} LexReads(chunks: seq<Bytes>)
    requires NoTokenSpansReads(chunks)
    ensures |chunks| > 0 ==> Lex(Flatten(chunks)).tokens == Lex(Flatten(chunks[..|chunks| - 1])).tokens + Lex(chunks[|chunks| - 1]).tokens
    ensures |chunks| > 0 ==> (Lex(Flatten(chunks)).captureStart >= 0 <==> Lex(chunks[|chunks| - 1]).captureStart >= 0)
    decreases |chunks|
  {
    if |chunks| > 0 {
      var init := chunks[..|chunks| - 1];
      assert NoTokenSpansReads(init);
      LexReads(init);
      ClosedAfterReads(init);
      LexAppend(Flatten(init), chunks[|chunks| - 1]);
    }
  }

  /** After reads that each hold an even number of quotes, no token is open. */
  lemma {:induction false} ClosedAfterReads(chunks: seq<Bytes>)
    requires forall k | 0 <= k < |chunks| :: Count(chunks[k], Quote) % 2 == 0
    ensures Lex(Flatten(chunks)).captureStart == -1
    decreases |chunks|
  {
    if chunks != [] {
      var init := chunks[..|chunks| - 1];
      ClosedAfterReads(init);
      LexOpenIffOddQuotes(chunks[|chunks| - 1]);
      LexAppend(Flatten(init), chunks[|chunks| - 1]);
    }
  }
}

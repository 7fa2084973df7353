/**
 * Flat JSON objects whose members are all strings, `{"name":"value",...}`,
 * and what the scan of `Decode` makes of them: each name selects a field and
 * the value after it is stored in that field, in document order.
 */
module Documents {
  import opened Base
  import opened Scanner

  /** One object member: its name and its string value, both without quotes. */
  type Member = (Bytes, Bytes)

  /** `"name":"value"` */
  function MemberText(m: Member): Bytes {
    [Quote] + m.0 + [Quote, Colon, Quote] + m.1 + [Quote]
  }

  /** The members separated by commas. */
  function MembersText(ms: seq<Member>): Bytes
    decreases |ms|
  {
    if ms == [] then []
    else MembersText(ms[..|ms| - 1]) + (if |ms| > 1 then [Comma] else []) + MemberText(ms[|ms| - 1])
  }

  /** `{"name":"value",...}` */
  function Object(ms: seq<Member>): Bytes {
    [OpenBrace] + MembersText(ms) + [CloseBrace]
  }

  /** Names and values in document order: name, value, name, value, ... */
  function Tokens(ms: seq<Member>): (r: seq<Bytes>)
    decreases |ms|
  {
    if ms == [] then [] else Tokens(ms[..|ms| - 1]) + [ms[|ms| - 1].0, ms[|ms| - 1].1]
  }

  /** Names and values hold no quote (the scanner has no escapes). */
  predicate QuoteFree(ms: seq<Member>) {
    forall i | 0 <= i < |ms| :: Quote !in ms[i].0 && Quote !in ms[i].1
  }

  /** Every member names a field of the destination. */
  predicate Known(fields: map<Bytes, int>, ms: seq<Member>) {
    forall i | 0 <= i < |ms| :: ms[i].0 in fields
  }

  /** The destination after storing each member's value in its field, in order. */
  function Assign(fields: map<Bytes, int>, init: seq<Bytes>, ms: seq<Member>): (r: seq<Bytes>)
    requires IndicesBelow(fields, |init|) && Known(fields, ms)
    ensures |r| == |init|
    decreases |ms|
  {
    if ms == [] then init
    else
      var last := ms[|ms| - 1];
      Assign(fields, init, ms[..|ms| - 1])[fields[last.0] := last.1]
  }

  /**
   * After the assignments, a field no member names keeps its value, and a
   * field holds the value of the last member that names it.
   */
  lemma {:induction false} AssignLastWins(fields: map<Bytes, int>, init: seq<Bytes>, ms: seq<Member>)
    requires IndicesBelow(fields, |init|) && Known(fields, ms)
    ensures forall j | 0 <= j < |init| && (forall i | 0 <= i < |ms| :: fields[ms[i].0] != j) ::
      Assign(fields, init, ms)[j] == init[j]
    ensures forall i | 0 <= i < |ms| && (forall i' | i < i' < |ms| :: fields[ms[i'].0] != fields[ms[i].0]) ::
      Assign(fields, init, ms)[fields[ms[i].0]] == ms[i].1
    decreases |ms|
  {
    if ms != [] {
      var ms' := ms[..|ms| - 1];
      assert Known(fields, ms');
      AssignLastWins(fields, init, ms');
      var r := Assign(fields, init, ms);
      forall j | 0 <= j < |init| && (forall i | 0 <= i < |ms| :: fields[ms[i].0] != j)
        ensures r[j] == init[j]
      {
        assert forall i | 0 <= i < |ms'| :: fields[ms'[i].0] != j by {
          forall i | 0 <= i < |ms'| ensures fields[ms'[i].0] != j {
            assert ms'[i] == ms[i];
          }
        }
        assert fields[ms[|ms| - 1].0] != j;
      }
      forall i | 0 <= i < |ms| && (forall i' | i < i' < |ms| :: fields[ms[i'].0] != fields[ms[i].0])
        ensures r[fields[ms[i].0]] == ms[i].1
      {
        if i < |ms| - 1 {
          assert ms'[i] == ms[i];
          assert forall i' | i < i' < |ms'| :: fields[ms'[i'].0] != fields[ms'[i].0] by {
            forall i' | i < i' < |ms'| ensures fields[ms'[i'].0] != fields[ms'[i].0] {
              assert ms'[i'] == ms[i'];
            }
          }
        }
      }
    }
  }

  /** The text of a member after `a`, as the pieces the scanner meets. */
  lemma MemberTextPieces(a: Bytes, m: Member)
    ensures a + MemberText(m) == ((a + [Quote] + m.0 + [Quote]) + [Colon]) + [Quote] + m.1 + [Quote]
  {
  }

  /** Scanning one member after a closed prefix adds its name and its value as two tokens. */
  lemma LexMember(a: Bytes, m: Member)
    requires Lex(a).captureStart == -1
    requires Quote !in m.0 && Quote !in m.1
    ensures Lex(a + MemberText(m)) == Lexer(Lex(a).tokens + [m.0, m.1], -1)
  {
    var a1 := a + [Quote] + m.0 + [Quote];
    var a2 := a1 + [Colon];
    MemberTextPieces(a, m);
    LexToken(a, m.0);
    LexIgnoresNonQuotes(a1, [Colon]);
    LexToken(a2, m.1);
    assert Lex(a).tokens + [m.0] + [m.1] == Lex(a).tokens + [m.0, m.1];
  }

  lemma {:induction false} LexMembers(a: Bytes, ms: seq<Member>)
    requires Lex(a).captureStart == -1
    requires QuoteFree(ms)
    ensures Lex(a + MembersText(ms)) == Lexer(Lex(a).tokens + Tokens(ms), -1)
    decreases |ms|
  {
    if ms == [] {
      assert a + MembersText(ms) == a;
      assert Lex(a).tokens + Tokens(ms) == Lex(a).tokens;
    } else {
      var ms' := ms[..|ms| - 1];
      var last := ms[|ms| - 1];
      var before := Lex(a).tokens;
      var sep: Bytes := if |ms| > 1 then [Comma] else [];
      var a1 := a + MembersText(ms');
      var a2 := a1 + sep;
      assert a + MembersText(ms) == a2 + MemberText(last) by {
        assert MembersText(ms) == MembersText(ms') + sep + MemberText(last);
      }
      assert QuoteFree(ms') by {
        forall i | 0 <= i < |ms'| ensures Quote !in ms'[i].0 && Quote !in ms'[i].1 {
          assert ms'[i] == ms[i];
        }
      }
      LexMembers(a, ms');
      assert Quote !in sep;
      LexIgnoresNonQuotes(a1, sep);
      LexMember(a2, last);
      assert Tokens(ms) == Tokens(ms') + [last.0, last.1];
      ConcatAssoc(before, Tokens(ms'), [last.0, last.1]);
    }
  }

  /** The tokens of an object are its names and values, in order; nothing is left open. */
  lemma LexObject(ms: seq<Member>)
    requires QuoteFree(ms)
    ensures Lex(Object(ms)) == Lexer(Tokens(ms), -1)
  {
    LexIgnoresNonQuotes([], [OpenBrace]);
    assert [] + [OpenBrace] == [OpenBrace];
    LexMembers([OpenBrace], ms);
    LexIgnoresNonQuotes([OpenBrace] + MembersText(ms), [CloseBrace]);
  }

  /** Interpreting names and values of known fields stores each value, with nothing pending. */
  lemma {:induction false} InterpretMembers(fields: map<Bytes, int>, init: seq<Bytes>, ms: seq<Member>)
    requires IndicesBelow(fields, |init|) && Known(fields, ms)
    ensures Interpret(fields, init, Tokens(ms)) == Outcome(Assign(fields, init, ms), None, None)
    decreases |ms|
  {
    if ms != [] {
      var ms' := ms[..|ms| - 1];
      var last := ms[|ms| - 1];
      assert Known(fields, ms');
      InterpretMembers(fields, init, ms');
      var t := Tokens(ms');
      assert (t + [last.0, last.1])[..|t| + 1] == t + [last.0];
      assert (t + [last.0])[..|t|] == t;
    }
  }

  /** The tokens of the members before `i` followed by those of the members from `i` on. */
  lemma {:induction false} TokensSplit(ms: seq<Member>, i: nat)
    requires i <= |ms|
    ensures Tokens(ms) == Tokens(ms[..i]) + Tokens(ms[i..])
    decreases |ms|
  {
    if i == |ms| {
      assert ms[..i] == ms && ms[i..] == [];
    } else {
      var ms' := ms[..|ms| - 1];
      TokensSplit(ms', i);
      assert ms'[..i] == ms[..i];
      assert ms[i..][..|ms[i..]| - 1] == ms'[i..];
    }
  }

  /**
   * Decoding an object whose names are all known succeeds; afterwards a field
   * holds the value of the last member naming it, and a field no member names
   * keeps the value it had.
   */
  lemma DecodeObject(fields: map<Bytes, int>, init: seq<Bytes>, ms: seq<Member>)
    requires IndicesBelow(fields, |init|)
    requires QuoteFree(ms) && Known(fields, ms)
    ensures Decoding(fields, init, Object(ms)) == Outcome(Assign(fields, init, ms), None, None)
    ensures forall j | 0 <= j < |init| && (forall i | 0 <= i < |ms| :: fields[ms[i].0] != j) ::
      Decoding(fields, init, Object(ms)).values[j] == init[j]
    ensures forall i | 0 <= i < |ms| && (forall i' | i < i' < |ms| :: fields[ms[i'].0] != fields[ms[i].0]) ::
      Decoding(fields, init, Object(ms)).values[fields[ms[i].0]] == ms[i].1
  {
    LexObject(ms);
    InterpretMembers(fields, init, ms);
    AssignLastWins(fields, init, ms);
  }

  /** The tokens of the members before member `m`, its name, then its value and the tokens after it. */
  lemma TokensAround(ms: seq<Member>, m: nat)
    requires m < |ms|
    ensures Tokens(ms) == (Tokens(ms[..m]) + [ms[m].0]) + ([ms[m].1] + Tokens(ms[m + 1..]))
  {
    TokensSplit(ms, m + 1);
    assert ms[..m + 1][..m] == ms[..m];
    Regroup(Tokens(ms[..m]), ms[m].0, ms[m].1, Tokens(ms[m + 1..]));
  }

  /**
   * Decoding an object stops at the first unknown name with an error that
   * carries it; the members before it have been stored, nothing after it is.
   */
  lemma DecodeObjectUnknownName(fields: map<Bytes, int>, init: seq<Bytes>, ms: seq<Member>, m: nat)
    requires IndicesBelow(fields, |init|)
    requires QuoteFree(ms)
    requires m < |ms| && Known(fields, ms[..m]) && ms[m].0 !in fields
    ensures Decoding(fields, init, Object(ms)) == Outcome(Assign(fields, init, ms[..m]), None, Some(FieldDoesNotExist(ms[m].0)))
  {
    var t := Tokens(ms[..m]);
    var name := ms[m].0;
    var rest := [ms[m].1] + Tokens(ms[m + 1..]);
    TokensAround(ms, m);
    LexObject(ms);
    InterpretMembers(fields, init, ms[..m]);
    assert (t + [name])[..|t|] == t;
    InterpretStopsAtError(fields, init, t + [name], rest);
  }
}

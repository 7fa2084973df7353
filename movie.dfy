/**
 * The struct and the document of the decoding test in `Decode_test.go`:
 * `{"title":"The Last Samurai","director":"Edward Zwick"}` into
 * `Movie{Title string `json:"title"`; Director string `json:"director"`}`.
 */
module Movie {
  import opened Base
  import opened Reflect
  import opened Scanner
  import opened Documents
  import opened Decoder

  const MovieName: Bytes := [77, 111, 118, 105, 101]                   // "Movie"
  const TitleName: Bytes := [84, 105, 116, 108, 101]                   // "Title"
  const TitleTag: Bytes := [116, 105, 116, 108, 101]                   // "title"
  const DirectorName: Bytes := [68, 105, 114, 101, 99, 116, 111, 114]  // "Director"
  const DirectorTag: Bytes := [100, 105, 114, 101, 99, 116, 111, 114]  // "director"

  /** The fields of `Movie`, in declaration order. */
  const MovieFields: seq<Field> := [Field(TitleName, TitleTag), Field(DirectorName, DirectorTag)]

  /** The type `Movie`. */
  const MovieType: Type := Struct(MovieName, MovieFields)

  /** `{"title":"<title>","director":"<director>"}` */
  function MovieDocument(title: Bytes, director: Bytes): Bytes {
    Object(MovieMembers(title, director))
  }

  /** The two tags are plain names: different, with no comma and no quote. */
  lemma TagsArePlain()
    ensures TitleTag != DirectorTag
    ensures Comma !in TitleTag && Comma !in DirectorTag
    ensures Quote !in TitleTag && Quote !in DirectorTag
  {
    assert TitleTag[0] != DirectorTag[0];
  }

  /** The movie's fields are found under their tags. */
  lemma MovieIndexMap()
    ensures IndexMap(MovieFields) == map[TitleTag := 0, DirectorTag := 1]
  {
    TagsArePlain();
    var fs := MovieFields;
    assert fs[..1][..0] == [] && fs[..2] == fs;
    assert IndexMap(fs[..1]) == map[TitleTag := 0];
  }

  /** The members of the test document. */
  function MovieMembers(title: Bytes, director: Bytes): seq<Member> {
    [(TitleTag, title), (DirectorTag, director)]
  }

  /** Storing the two members fills the title, then the director. */
  lemma MovieAssign(init: seq<Bytes>, title: Bytes, director: Bytes)
    requires |init| == 2
    ensures IndicesBelow(map[TitleTag := 0, DirectorTag := 1], 2)
    ensures Known(map[TitleTag := 0, DirectorTag := 1], MovieMembers(title, director))
    ensures Assign(map[TitleTag := 0, DirectorTag := 1], init, MovieMembers(title, director)) == [title, director]
  {
    TagsArePlain();
    var m := map[TitleTag := 0, DirectorTag := 1];
    var ms := MovieMembers(title, director);
    assert ms[..1][..0] == [] && ms[..2] == ms;
    assert Assign(m, init, ms[..1]) == [title, init[1]];
  }

  /**
   * Decoding the test document fills in both fields of the struct, without
   * error, whatever the quote-free title and director are (the test uses
   * "The Last Samurai" and "Edward Zwick").
   */
  lemma DecodeMovie(init: seq<Bytes>, title: Bytes, director: Bytes)
    requires |init| == 2 && Quote !in title && Quote !in director
    ensures Decoding(IndexMap(MovieFields), init, MovieDocument(title, director)) == Outcome([title, director], None, None)
  {
    MovieIndexMap();
    TagsArePlain();
    MovieAssign(init, title, director);
    var ms := MovieMembers(title, director);
    assert QuoteFree(ms);
    DecodeObject(map[TitleTag := 0, DirectorTag := 1], init, ms);
  }

  /** The test document delivered in two reads, split after `"title":"<title>",`. */
  function MovieReads(title: Bytes, director: Bytes): seq<Bytes> {
    [[OpenBrace] + MemberText((TitleTag, title)) + [Comma], MemberText((DirectorTag, director)) + [CloseBrace]]
  }

  /** The bytes of one read, and of two. */
  lemma FlattenFew(a: Bytes, b: Bytes)
    ensures Flatten([a]) == a
    ensures Flatten([a, b]) == a + b
  {
    assert [a][..0] == [] && [a, b][..1] == [a];
  }

  /** An object of two members, split after the first member's comma. */
  lemma ObjectOfTwo(m0: Member, m1: Member)
    ensures Object([m0, m1]) == ([OpenBrace] + MemberText(m0) + [Comma]) + (MemberText(m1) + [CloseBrace])
  {
    assert [m0, m1][..1] == [m0] && [m0][..0] == [];
    assert MembersText([m0]) == MemberText(m0);
  }

  /** Up to and including the comma after it, the first member leaves no string open. */
  lemma FirstMemberClosed(m0: Member)
    requires Quote !in m0.0 && Quote !in m0.1
    ensures Count([OpenBrace] + MemberText(m0) + [Comma], Quote) % 2 == 0
  {
    LexIgnoresNonQuotes([], [OpenBrace]);
    assert [] + [OpenBrace] == [OpenBrace];
    LexMember([OpenBrace], m0);
    LexIgnoresNonQuotes([OpenBrace] + MemberText(m0), [Comma]);
    LexOpenIffOddQuotes([OpenBrace] + MemberText(m0) + [Comma]);
  }

  /** The two reads make up the document, and the first leaves no string open. */
  lemma MovieReadsSplit(title: Bytes, director: Bytes)
    requires Quote !in title && Quote !in director
    ensures Flatten(MovieReads(title, director)) == MovieDocument(title, director)
    ensures NoTokenSpansReads(MovieReads(title, director))
  {
    var m0, m1 := (TitleTag, title), (DirectorTag, director);
    FlattenFew([OpenBrace] + MemberText(m0) + [Comma], MemberText(m1) + [CloseBrace]);
    ObjectOfTwo(m0, m1);
    TagsArePlain();
    FirstMemberClosed(m0);
  }

  /**
   * `TestDecode`: a new decoder decodes the test document, read in one go,
   * into a zero `Movie`, which then holds the title and the director.
   */
  method TestDecode(title: Bytes, director: Bytes) returns (err: Option<Error>, movie: seq<Bytes>)
    requires Quote !in title && Quote !in director
    requires |MovieDocument(title, director)| <= ReadBufferSize
    ensures err.None? && movie == [title, director]
  {
    var decoder := new Decoder();
    var dest := new Bytes[2];
    DecodeMovie(dest[..], title, director);
    FlattenFew(MovieDocument(title, director), []);
    err := decoder.Decode([MovieDocument(title, director)], MovieType, dest);
    movie := dest[..];
  }

  /** The same, with the document arriving in two reads. */
  method TestDecodeSplit(title: Bytes, director: Bytes) returns (err: Option<Error>, movie: seq<Bytes>)
    requires Quote !in title && Quote !in director
    requires |MovieDocument(title, director)| <= ReadBufferSize
    ensures err.None? && movie == [title, director]
  {
    var decoder := new Decoder();
    var dest := new Bytes[2];
    DecodeMovie(dest[..], title, director);
    MovieReadsSplit(title, director);
    err := decoder.Decode(MovieReads(title, director), MovieType, dest);
    movie := dest[..];
  }
}

/**
 * Building the model objects from the parsed JSON catalog: validation of
 * each book record, find-or-create of authors and tags by name, the BookTag
 * join rows, and the list loop that skips bad records and then adds the
 * favorites tag.
 */
module JsonProcessing {
  import opened Wrappers
  import opened Errors
  import opened Text
  import opened Model

  /** A parsed JSON value; only strings matter to the decoder. */
  datatype JsonValue =
    | JString(str: string)
    | JNumber(num: int)
    | JBool(b: bool)
    | JNull
    | JArray(items: seq<JsonValue>)
    | JObject(members: seq<(string, JsonValue)>)

  type JsonDictionary = map<string, JsonValue>
  type JsonList = seq<JsonDictionary>

  /** The fields of a valid book record, with authors and tags already split. */
  datatype BookFields = BookFields(
    title: string,
    imageUrl: string,
    pdfUrl: string,
    authors: seq<string>,
    tags: seq<string>)

  /** `key` is present in the record and holds a string. */
  predicate HasString(json: JsonDictionary, key: string) {
    key in json && json[key].JString?
  }

  // ---------------------------------------------------------------------------
  // Validation of one record
  // ---------------------------------------------------------------------------

  /**
   * The seven checks of a book record, in the order the decoder makes them:
   * title, image field, image URL, pdf field, pdf URL, authors, tags.
   * A URL check passes vacuously when its field is missing (the field check fails first).
   */
  function Checks(json: JsonDictionary, validUrl: string -> bool): (cs: seq<bool>)
    ensures |cs| == 7
  {
    [ HasString(json, "title"),
      HasString(json, "image_url"),
      !HasString(json, "image_url") || validUrl(json["image_url"].str),
      HasString(json, "pdf_url"),
      !HasString(json, "pdf_url") || validUrl(json["pdf_url"].str),
      HasString(json, "authors"),
      HasString(json, "tags") ]
  }

  /** The error each check reports when it fails. */
  const CheckErrors: seq<JsonError> := [
    WrongJSONFormat, WrongJSONFormat, WrongURLFormatForJSONResource,
    WrongJSONFormat, WrongURLFormatForJSONResource,
    WrongJSONFormat, WrongJSONFormat ]

  /** Check `i` is the first one that fails. */
  predicate FirstFailing(cs: seq<bool>, i: int) {
    0 <= i < |cs| && !cs[i] && forall j :: 0 <= j < i ==> cs[j]
  }

  /**
   * The guards of the decoder: the record is accepted exactly when every
   * check passes, and a rejected record reports the error of its first
   * failing check.
   */
  function ExtractFields(json: JsonDictionary, validUrl: string -> bool): (r: Result<BookFields, JsonError>) {
    if !HasString(json, "title") then Failure(WrongJSONFormat)
    else if !HasString(json, "image_url") then Failure(WrongJSONFormat)
    else if !validUrl(json["image_url"].str) then Failure(WrongURLFormatForJSONResource)
    else if !HasString(json, "pdf_url") then Failure(WrongJSONFormat)
    else if !validUrl(json["pdf_url"].str) then Failure(WrongURLFormatForJSONResource)
    else if !HasString(json, "authors") then Failure(WrongJSONFormat)
    else if !HasString(json, "tags") then Failure(WrongJSONFormat)
    else
      Success(BookFields(
        json["title"].str, json["image_url"].str, json["pdf_url"].str,
        Split(json["authors"].str), Split(json["tags"].str)))
  }

  /**
   * The guards of the decoder: a record is accepted exactly when every check
   * passes, and a rejected record reports the error of its first failing check.
   */
  lemma ExtractFieldsChecks(json: JsonDictionary, validUrl: string -> bool)
    ensures ExtractFields(json, validUrl).Success? <==> false !in Checks(json, validUrl)
    ensures forall i :: FirstFailing(Checks(json, validUrl), i) ==>
      ExtractFields(json, validUrl) == Failure(CheckErrors[i])
  {
    var cs := Checks(json, validUrl);
    forall i | FirstFailing(cs, i)
      ensures ExtractFields(json, validUrl) == Failure(CheckErrors[i])
    {
      if i > 0 { assert cs[0]; }
      if i > 1 { assert cs[1]; }
      if i > 2 { assert cs[2]; }
      if i > 3 { assert cs[3]; }
      if i > 4 { assert cs[4]; }
      if i > 5 { assert cs[5]; }
    }
  }

  /**
   * An accepted record keeps its title and URLs, and its author and tag lists
   * are separator-free pieces that join back to the original fields.
   */
  lemma ExtractFieldsRoundTrip(json: JsonDictionary, validUrl: string -> bool)
    requires ExtractFields(json, validUrl).Success?
    ensures var f := ExtractFields(json, validUrl).value;
      && json["title"] == JString(f.title)
      && json["image_url"] == JString(f.imageUrl) && validUrl(f.imageUrl)
      && json["pdf_url"] == JString(f.pdfUrl) && validUrl(f.pdfUrl)
      && json["authors"] == JString(Join(f.authors)) && |f.authors| >= 1
      && json["tags"] == JString(Join(f.tags)) && |f.tags| >= 1
      && (forall a <- f.authors :: NoSep(a)) && (forall t <- f.tags :: NoSep(t))
  {
    JoinSplit(json["authors"].str);
    JoinSplit(json["tags"].str);
    SplitPiecesNoSep(json["authors"].str);
    SplitPiecesNoSep(json["tags"].str);
  }

  // ---------------------------------------------------------------------------
  // Find-or-create by name
  // ---------------------------------------------------------------------------

  /**
   * The names in a table after find-or-create of each piece in turn: a piece
   * already present is reused, a missing one is appended.
   */
  function AddNames(t: seq<string>, ps: seq<string>): (r: seq<string>)
    ensures |t| <= |r| && r[..|t|] == t
    ensures forall p <- ps :: p in r
    decreases |ps|
  {
    if ps == [] then t
    else
      var u := AddNames(t, ps[..|ps| - 1]);
      var p := ps[|ps| - 1];
      assert forall q <- ps :: q in ps[..|ps| - 1] || q == p;
      if p in u then u else u + [p]
  }

  /** Find-or-create appends only names of pieces that were missing. */
  lemma {:induction false} AddNamesOnlyMissing(t: seq<string>, ps: seq<string>)
    ensures forall k :: |t| <= k < |AddNames(t, ps)| ==>
      AddNames(t, ps)[k] in ps && AddNames(t, ps)[k] !in t
    decreases |ps|
  {
    if ps != [] {
      var init := ps[..|ps| - 1];
      AddNamesOnlyMissing(t, init);
      assert forall q <- init :: q in ps;
    }
  }

  /** Find-or-create never introduces a second object with the same name. */
  lemma {:induction false} AddNamesUnique(t: seq<string>, ps: seq<string>)
    requires Unique(t)
    ensures Unique(AddNames(t, ps))
    decreases |ps|
  {
    if ps != [] {
      AddNamesUnique(t, ps[..|ps| - 1]);
    }
  }

  /** The author table after find-or-create of each author name. */
  function AddAuthors(authors: seq<Author>, ps: seq<string>): (r: seq<Author>)
    ensures AuthorNames(r) == AddNames(AuthorNames(authors), ps)
    ensures |authors| <= |r| && r[..|authors|] == authors
    decreases |ps|
  {
    if ps == [] then authors
    else
      var u := AddAuthors(authors, ps[..|ps| - 1]);
      var p := ps[|ps| - 1];
      if p in AuthorNames(u) then u
      else
        assert AuthorNames(u + [Author(p)]) == AuthorNames(u) + [p];
        u + [Author(p)]
  }

  /**
   * The tag table after find-or-create of each tag name; a created tag sorts
   * by its own name.
   */
  function AddTags(tags: seq<Tag>, ps: seq<string>): (r: seq<Tag>)
    ensures TagNames(r) == AddNames(TagNames(tags), ps)
    ensures |tags| <= |r| && r[..|tags|] == tags
    ensures forall k :: |tags| <= k < |r| ==> r[k] == Tag(r[k].name, r[k].name)
    decreases |ps|
  {
    if ps == [] then tags
    else
      var u := AddTags(tags, ps[..|ps| - 1]);
      var p := ps[|ps| - 1];
      if p in TagNames(u) then u
      else
        assert TagNames(u + [Tag(p, p)]) == TagNames(u) + [p];
        u + [Tag(p, p)]
  }

  /** The authors a book is linked to: for each name, the first author with that name. */
  function AuthorIds(names: seq<string>, ps: seq<string>): (r: set<nat>)
    requires forall p <- ps :: p in names
    ensures forall a <- r :: a < |names|
    decreases |ps|
  {
    if ps == [] then {}
    else AuthorIds(names, ps[..|ps| - 1]) + {IndexOf(names, ps[|ps| - 1])}
  }

  /** Appending authors does not change which ones a book's names resolve to. */
  lemma {:induction false} AuthorIdsStable(names: seq<string>, extra: seq<string>, ps: seq<string>)
    requires forall p <- ps :: p in names
    ensures AuthorIds(names + extra, ps) == AuthorIds(names, ps)
    decreases |ps|
  {
    if ps != [] {
      AuthorIdsStable(names, extra, ps[..|ps| - 1]);
      IndexOfStable(names, extra, ps[|ps| - 1]);
    }
  }

  /** With unique names, a book's authors are exactly the authors named in its record. */
  lemma {:induction false} AuthorIdsExact(names: seq<string>, ps: seq<string>)
    requires Unique(names)
    requires forall p <- ps :: p in names
    ensures forall a: nat :: a in AuthorIds(names, ps) <==> a < |names| && names[a] in ps
    decreases |ps|
  {
    if ps != [] {
      var init := ps[..|ps| - 1];
      var p := ps[|ps| - 1];
      AuthorIdsExact(names, init);
      assert forall q :: q in ps <==> q in init || q == p;
    }
  }

  /** One BookTag per tag piece, in order, linking `book` to the tag with that name. */
  function Links(book: nat, names: seq<string>, ps: seq<string>): (r: seq<BookTag>)
    requires forall p <- ps :: p in names
    ensures |r| == |ps|
    ensures forall k :: 0 <= k < |ps| ==>
      r[k].book == book && r[k].tag < |names| && names[r[k].tag] == ps[k]
    decreases |ps|
  {
    if ps == [] then []
    else Links(book, names, ps[..|ps| - 1]) + [BookTag(book, IndexOf(names, ps[|ps| - 1]))]
  }

  /** The k-th link points at the first tag named by the k-th piece. */
  lemma {:induction false} LinksAt(book: nat, names: seq<string>, ps: seq<string>, k: nat)
    requires forall p <- ps :: p in names
    requires k < |ps|
    ensures Links(book, names, ps)[k] == BookTag(book, IndexOf(names, ps[k]))
    decreases |ps|
  {
    var init := ps[..|ps| - 1];
    if k < |init| {
      assert forall p <- init :: p in names;
      LinksAt(book, names, init, k);
    }
  }

  /** Appending tags does not change which tags earlier links resolve to. */
  lemma {:induction false} LinksStable(book: nat, names: seq<string>, extra: seq<string>, ps: seq<string>)
    requires forall p <- ps :: p in names
    ensures Links(book, names + extra, ps) == Links(book, names, ps)
    decreases |ps|
  {
    if ps != [] {
      LinksStable(book, names, extra, ps[..|ps| - 1]);
      IndexOfStable(names, extra, ps[|ps| - 1]);
    }
  }

  // ---------------------------------------------------------------------------
  // The effect of decoding one accepted record
  // ---------------------------------------------------------------------------

  /**
   * The store after decoding an accepted record: a new Cover, Pdf and Book,
   * the book's authors found or created, its tags found or created, and one
   * BookTag per tag piece.
   */
  function Decoded(s: Store, f: BookFields): (r: Store) {
    var authors' := AddAuthors(s.authors, f.authors);
    var tags' := AddTags(s.tags, f.tags);
    Store(
      s.covers + [Cover(f.imageUrl)],
      s.pdfs + [Pdf(f.pdfUrl)],
      s.books + [Book(f.title, |s.covers|, |s.pdfs|, AuthorIds(AuthorNames(authors'), f.authors))],
      authors',
      tags',
      s.bookTags + Links(|s.books|, TagNames(tags'), f.tags))
  }

  /**
   * Decoding a record adds exactly one Cover, Pdf and Book, the book pointing
   * at the new Cover and Pdf; keeps every existing object; and adds one BookTag
   * per tag piece linking the new book to the first tag of that name. Created
   * tags sort by their own name.
   */
  lemma DecodedAdds(s: Store, f: BookFields)
    ensures var d := Decoded(s, f);
      && d.covers == s.covers + [Cover(f.imageUrl)]
      && d.pdfs == s.pdfs + [Pdf(f.pdfUrl)]
      && |d.books| == |s.books| + 1 && d.books[..|s.books|] == s.books
      && d.books[|s.books|].title == f.title
      && d.books[|s.books|].cover == |s.covers| && d.books[|s.books|].pdf == |s.pdfs|
      && d.covers[d.books[|s.books|].cover] == Cover(f.imageUrl)
      && d.pdfs[d.books[|s.books|].pdf] == Pdf(f.pdfUrl)
      && |s.authors| <= |d.authors| && d.authors[..|s.authors|] == s.authors
      && (forall a <- f.authors :: a in AuthorNames(d.authors))
      && |s.tags| <= |d.tags| && d.tags[..|s.tags|] == s.tags
      && (forall k :: |s.tags| <= k < |d.tags| ==> d.tags[k].proxyForSorting == d.tags[k].name)
      && |d.bookTags| == |s.bookTags| + |f.tags| && d.bookTags[..|s.bookTags|] == s.bookTags
      && (forall k :: 0 <= k < |f.tags| ==>
            var bt := d.bookTags[|s.bookTags| + k];
            && bt.book == |s.books| && bt.tag < |d.tags| && d.tags[bt.tag].name == f.tags[k]
            && f.tags[k] in TagNames(d.tags) && bt.tag == IndexOf(TagNames(d.tags), f.tags[k]))
  {
    DecodedLinks(s, f);
  }

  /** The BookTags a decode adds, one per tag piece, each to the first tag of that name. */
  lemma DecodedLinks(s: Store, f: BookFields)
    ensures var d := Decoded(s, f);
      forall k :: 0 <= k < |f.tags| ==>
        var bt := d.bookTags[|s.bookTags| + k];
        && bt.book == |s.books| && bt.tag < |d.tags| && d.tags[bt.tag].name == f.tags[k]
        && f.tags[k] in TagNames(d.tags) && bt.tag == IndexOf(TagNames(d.tags), f.tags[k])
  {
    var d := Decoded(s, f);
    var names := TagNames(d.tags);
    var ls := Links(|s.books|, names, f.tags);
    assert d.bookTags == s.bookTags + ls;
    TagNamesAt(d.tags);
    forall k | 0 <= k < |f.tags|
      ensures var bt := d.bookTags[|s.bookTags| + k];
        && bt.book == |s.books| && bt.tag < |d.tags| && d.tags[bt.tag].name == f.tags[k]
        && f.tags[k] in names && bt.tag == IndexOf(names, f.tags[k])
    {
      assert d.bookTags[|s.bookTags| + k] == ls[k];
      LinksAt(|s.books|, names, f.tags, k);
    }
  }

  /** Decoding a record keeps every relationship pointing inside the store. */
  lemma DecodedValid(s: Store, f: BookFields)
    requires ValidStore(s)
    ensures ValidStore(Decoded(s, f))
  {
    var d := Decoded(s, f);
    assert d.books == s.books + [d.books[|s.books|]];
    forall b <- d.books
      ensures b.cover < |d.covers| && b.pdf < |d.pdfs|
      ensures forall a <- b.authors :: a < |d.authors|
    {
      var k :| 0 <= k < |d.books| && d.books[k] == b;
      if k < |s.books| {
        assert b == s.books[k];
      }
    }
    DecodedBookTagsValid(s, f);
  }

  /** Every BookTag after a decode, old or new, points at an existing book and tag. */
  lemma DecodedBookTagsValid(s: Store, f: BookFields)
    requires ValidStore(s)
    ensures var d := Decoded(s, f);
      forall bt <- d.bookTags :: bt.book < |d.books| && bt.tag < |d.tags|
  {
    var d := Decoded(s, f);
    DecodedAdds(s, f);
    forall bt <- d.bookTags
      ensures bt.book < |d.books| && bt.tag < |d.tags|
    {
      var k :| 0 <= k < |d.bookTags| && d.bookTags[k] == bt;
      if k < |s.bookTags| {
        assert bt == s.bookTags[k];
      } else {
        assert bt == d.bookTags[|s.bookTags| + (k - |s.bookTags|)];
      }
    }
  }

  /**
   * Decoding a record never creates a second author or tag with a name
   * already in use, and with unique author names the new book's authors are
   * exactly the authors named in the record.
   */
  lemma DecodedUnique(s: Store, f: BookFields)
    ensures var d := Decoded(s, f);
      && (Unique(TagNames(s.tags)) ==> Unique(TagNames(d.tags)))
      && (Unique(AuthorNames(s.authors)) ==>
            && Unique(AuthorNames(d.authors))
            && forall a: nat :: a in d.books[|s.books|].authors <==>
                 a < |d.authors| && d.authors[a].name in f.authors)
  {
    var d := Decoded(s, f);
    if Unique(TagNames(s.tags)) {
      AddNamesUnique(TagNames(s.tags), f.tags);
    }
    if Unique(AuthorNames(s.authors)) {
      AddNamesUnique(AuthorNames(s.authors), f.authors);
      AuthorIdsExact(AuthorNames(d.authors), f.authors);
      AuthorNamesAt(d.authors);
    }
  }

  // ---------------------------------------------------------------------------
  // The list
  // ---------------------------------------------------------------------------

  /** One element of the list: an accepted record is decoded, a rejected one changes nothing. */
  function DecodeStep(s: Store, json: JsonDictionary, validUrl: string -> bool): (r: Store) {
    match ExtractFields(json, validUrl)
    case Success(f) => Decoded(s, f)
    case Failure(_) => s
  }

  /** Every element of the list, in order. */
  function DecodeAll(s: Store, list: JsonList, validUrl: string -> bool): (r: Store)
    decreases |list|
  {
    if list == [] then s
    else DecodeStep(DecodeAll(s, list[..|list| - 1], validUrl), list[|list| - 1], validUrl)
  }

  /** The whole catalog: every element, then the favorites tag. */
  function DecodeList(s: Store, list: JsonList, validUrl: string -> bool): (r: Store) {
    var d := DecodeAll(s, list, validUrl);
    d.(tags := d.tags + [Tag(FavoritesName, FavoritesProxy)])
  }

  /** The fields of the accepted elements, in list order. */
  function Accepted(list: JsonList, validUrl: string -> bool): (r: seq<BookFields>)
    ensures |r| <= |list|
    decreases |list|
  {
    if list == [] then []
    else
      var init := Accepted(list[..|list| - 1], validUrl);
      match ExtractFields(list[|list| - 1], validUrl)
      case Success(f) => init + [f]
      case Failure(_) => init
  }

  /**
   * Decoding the list adds one book per accepted element, in list order and
   * titled by it, and no book for a rejected element: a bad element does not
   * stop the ones after it.
   */
  lemma {:induction false} DecodeAllBooks(s: Store, list: JsonList, validUrl: string -> bool)
    ensures var d := DecodeAll(s, list, validUrl);
      var acc := Accepted(list, validUrl);
      && |d.books| == |s.books| + |acc|
      && d.books[..|s.books|] == s.books
      && forall k :: 0 <= k < |acc| ==> d.books[|s.books| + k].title == acc[k].title
    decreases |list|
  {
    if list != [] {
      var init := list[..|list| - 1];
      DecodeAllBooks(s, init, validUrl);
      var d0 := DecodeAll(s, init, validUrl);
      match ExtractFields(list[|list| - 1], validUrl)
      case Success(f) =>
        assert DecodeAll(s, list, validUrl).books == Decoded(d0, f).books;
        assert Accepted(list, validUrl) == Accepted(init, validUrl) + [f];
        DecodedBooks(d0, f);
      case Failure(_) =>
    }
  }

  /** Decoding one record appends one book, titled by it. */
  lemma DecodedBooks(s: Store, f: BookFields)
    ensures var b := Decoded(s, f).books;
      |b| == |s.books| + 1 && b[..|s.books|] == s.books && b[|s.books|].title == f.title
  {
  }

  /** Decoding the list keeps every relationship pointing inside the store. */
  lemma {:induction false} DecodeListValid(s: Store, list: JsonList, validUrl: string -> bool)
    requires ValidStore(s)
    ensures ValidStore(DecodeAll(s, list, validUrl))
    ensures ValidStore(DecodeList(s, list, validUrl))
    decreases |list|
  {
    if list != [] {
      var init := list[..|list| - 1];
      DecodeListValid(s, init, validUrl);
      var d0 := DecodeAll(s, init, validUrl);
      match ExtractFields(list[|list| - 1], validUrl)
      case Success(f) =>
        DecodedValid(d0, f);
      case Failure(_) =>
    }
  }

  /**
   * Decoding the list shares one author, and one tag, per name across all its
   * books: unique names stay unique however many records are decoded.
   */
  lemma {:induction false} DecodeAllUnique(s: Store, list: JsonList, validUrl: string -> bool)
    ensures Unique(AuthorNames(s.authors)) ==> Unique(AuthorNames(DecodeAll(s, list, validUrl).authors))
    ensures Unique(TagNames(s.tags)) ==> Unique(TagNames(DecodeAll(s, list, validUrl).tags))
    decreases |list|
  {
    if list != [] {
      var init := list[..|list| - 1];
      DecodeAllUnique(s, init, validUrl);
      var d0 := DecodeAll(s, init, validUrl);
      match ExtractFields(list[|list| - 1], validUrl)
      case Success(f) =>
        DecodedUnique(d0, f);
      case Failure(_) =>
    }
  }

  /** The accepted records of a list include those of its prefix without the last element. */
  lemma AcceptedInit(list: JsonList, validUrl: string -> bool)
    requires list != []
    ensures forall f <- Accepted(list[..|list| - 1], validUrl) :: f in Accepted(list, validUrl)
  {
  }

  /** A name in a prefix of a table is in the table. */
  lemma InPrefix(t: seq<string>, r: seq<string>, p: string)
    requires |t| <= |r| && r[..|t|] == t && p in t
    ensures p in r
  {
    var k :| 0 <= k < |t| && t[k] == p;
    assert r[k] == p;
  }

  /** The accepted records of a list are those of its prefix and, if accepted, its last element. */
  lemma AcceptedLast(list: JsonList, validUrl: string -> bool)
    requires list != []
    ensures forall g <- Accepted(list, validUrl) ::
      g in Accepted(list[..|list| - 1], validUrl) || ExtractFields(list[|list| - 1], validUrl) == Success(g)
  {
  }

  /** Decoding a record keeps every tag name and adds the record's tag pieces. */
  lemma DecodedTagNames(s: Store, f: BookFields)
    ensures var names := TagNames(Decoded(s, f).tags);
      && (forall p <- TagNames(s.tags) :: p in names)
      && (forall p <- f.tags :: p in names)
  {
    var t := TagNames(s.tags);
    var names := TagNames(Decoded(s, f).tags);
    assert names == AddNames(t, f.tags);
    forall p <- t
      ensures p in names
    {
      InPrefix(t, names, p);
    }
  }

  /**
   * Every tag piece of every accepted record names a tag once the list is
   * decoded; find-or-create keeps every existing tag.
   */
  lemma {:induction false} DecodeAllHasTagNames(s: Store, list: JsonList, validUrl: string -> bool)
    ensures forall f <- Accepted(list, validUrl) :: forall p <- f.tags ::
      p in TagNames(DecodeAll(s, list, validUrl).tags)
    decreases |list|
  {
    if list != [] {
      var init := list[..|list| - 1];
      DecodeAllHasTagNames(s, init, validUrl);
      AcceptedLast(list, validUrl);
      var d0 := DecodeAll(s, init, validUrl);
      var r := ExtractFields(list[|list| - 1], validUrl);
      if r.Success? {
        assert DecodeAll(s, list, validUrl) == Decoded(d0, r.value);
        DecodedTagNames(d0, r.value);
      } else {
        assert DecodeAll(s, list, validUrl) == d0;
        assert Accepted(list, validUrl) == Accepted(init, validUrl);
      }
    }
  }

  /**
   * A tag name that the store lacks and no accepted record names is still
   * missing after the list is decoded: find-or-create only adds names of pieces.
   */
  lemma {:induction false} DecodeAllTagNameAbsent(s: Store, list: JsonList, validUrl: string -> bool, p: string)
    requires p !in TagNames(s.tags)
    requires forall f <- Accepted(list, validUrl) :: p !in f.tags
    ensures p !in TagNames(DecodeAll(s, list, validUrl).tags)
    decreases |list|
  {
    if list != [] {
      var init := list[..|list| - 1];
      AcceptedInit(list, validUrl);
      DecodeAllTagNameAbsent(s, init, validUrl, p);
      var d0 := DecodeAll(s, init, validUrl);
      match ExtractFields(list[|list| - 1], validUrl)
      case Success(f) =>
        var t := TagNames(d0.tags);
        var names := AddNames(t, f.tags);
        AddNamesOnlyMissing(t, f.tags);
        assert f in Accepted(list, validUrl);
        forall k | 0 <= k < |names|
          ensures names[k] != p
        {
          if k < |t| {
            assert names[k] == t[k];
          }
        }
      case Failure(_) =>
    }
  }

  /**
   * The whole catalog keeps author names unique. Tag names stay unique only
   * when "My Favorites" is not already a tag name: the favorites tag is
   * created without a fetch by name.
   */
  lemma DecodeListUnique(s: Store, list: JsonList, validUrl: string -> bool)
    ensures Unique(AuthorNames(s.authors)) ==> Unique(AuthorNames(DecodeList(s, list, validUrl).authors))
    ensures && Unique(TagNames(s.tags))
            && FavoritesName !in TagNames(s.tags)
            && (forall f <- Accepted(list, validUrl) :: FavoritesName !in f.tags)
            ==> Unique(TagNames(DecodeList(s, list, validUrl).tags))
  {
    DecodeAllUnique(s, list, validUrl);
    var d := DecodeAll(s, list, validUrl);
    var fav := Tag(FavoritesName, FavoritesProxy);
    assert (d.tags + [fav])[..|d.tags|] == d.tags;
    assert TagNames(d.tags + [fav]) == TagNames(d.tags) + [FavoritesName];
    if && FavoritesName !in TagNames(s.tags)
       && (forall f <- Accepted(list, validUrl) :: FavoritesName !in f.tags) {
      DecodeAllTagNameAbsent(s, list, validUrl, FavoritesName);
    }
  }

  /**
   * A catalog record with a "My Favorites" tag ends up next to the favorites
   * tag the list adds: two tags with that name, one sorting by its name and
   * one by "_favorites".
   */
  lemma FavoritesNameClash(s: Store, list: JsonList, validUrl: string -> bool, f: BookFields)
    requires f in Accepted(list, validUrl) && FavoritesName in f.tags
    ensures !Unique(TagNames(DecodeList(s, list, validUrl).tags))
    ensures var n := TagNames(DecodeList(s, list, validUrl).tags);
      exists i, j :: 0 <= i < j < |n| && n[i] == FavoritesName && n[j] == FavoritesName
  {
    DecodeAllHasTagNames(s, list, validUrl);
    var d := DecodeAll(s, list, validUrl);
    var names := TagNames(d.tags);
    var fav := Tag(FavoritesName, FavoritesProxy);
    assert (d.tags + [fav])[..|d.tags|] == d.tags;
    assert TagNames(d.tags + [fav]) == names + [FavoritesName];
    var k :| 0 <= k < |names| && names[k] == FavoritesName;
    assert (names + [FavoritesName])[k] == (names + [FavoritesName])[|names|];
  }

  // ---------------------------------------------------------------------------
  // The decoder, updating the context in place
  // ---------------------------------------------------------------------------

  /**
   * Decodes one record into the context. A rejected record throws the error
   * of its first failing check and inserts nothing; an accepted one is
   * inserted by `InsertBook`.
   */
  method DecodeBook(json: JsonDictionary, context: Context, validUrl: string -> bool)
    returns (outcome: Outcome<JsonError>)
    modifies context
    ensures ExtractFields(json, validUrl).Failure? ==>
      && outcome == Fail(ExtractFields(json, validUrl).error)
      && context.Snapshot() == old(context.Snapshot())
    ensures ExtractFields(json, validUrl).Success? ==>
      && outcome == Pass
      && context.Snapshot() == Decoded(old(context.Snapshot()), ExtractFields(json, validUrl).value)
    ensures old(context.Valid()) ==> context.Valid()
  {
    var fields := ExtractFields(json, validUrl);
    if fields.Failure? {
      return Fail(fields.error);
    }
    InsertBook(context, fields.value);
    outcome := Pass;
  }

  /**
   * The insertions of an accepted record: the cover, pdf and book, then each
   * author and each tag found or created by name, with a new BookTag linking
   * each tag to the book.
   */
  method InsertBook(context: Context, f: BookFields)
    modifies context
    ensures context.Snapshot() == Decoded(old(context.Snapshot()), f)
    ensures old(context.Valid()) ==> context.Valid()
  {
    ghost var s0 := context.Snapshot();

    context.covers := context.covers + [Cover(f.imageUrl)];
    var bookCover := |context.covers| - 1;
    context.pdfs := context.pdfs + [Pdf(f.pdfUrl)];
    var bookPdf := |context.pdfs| - 1;
    context.books := context.books + [Book(f.title, bookCover, bookPdf, {})];
    var newBook := |context.books| - 1;

    ghost var d := Decoded(s0, f);
    ghost var added := Book(f.title, bookCover, bookPdf, {});
    LinkAuthors(context, newBook, f.authors);
    assert {} + d.books[newBook].authors == d.books[newBook].authors;
    UpdateLast(s0.books, added, d.books[newBook]);
    LinkTags(context, newBook, f.tags);

    if ValidStore(s0) {
      DecodedValid(s0, f);
    }
  }

  /** Updating the element just appended is appending the updated one. */
  lemma UpdateLast<T>(xs: seq<T>, x: T, y: T)
    ensures (xs + [x])[|xs| := y] == xs + [y]
  {
  }

  /** A second update of the same position overrides the first. */
  lemma UpdateTwice<T>(xs: seq<T>, k: nat, x: T, y: T)
    requires k < |xs|
    ensures xs[k := x][k := y] == xs[k := y]
  {
  }

  /** Appending is associative. */
  lemma AppendAssoc<T>(a: seq<T>, b: seq<T>, c: seq<T>)
    ensures a + b + c == a + (b + c)
  {
  }

  /** The author loop's step: the table and the book's author set after name `i`. */
  lemma AddAuthorsStep(authors: seq<Author>, names: seq<string>, i: nat)
    requires i < |names|
    ensures var u := AddAuthors(authors, names[..i]);
      var u' := AddAuthors(authors, names[..i + 1]);
      var p := names[i];
      && u' == (if p in AuthorNames(u) then u else u + [Author(p)])
      && IndexOf(AuthorNames(u'), p) == (if p in AuthorNames(u) then IndexOf(AuthorNames(u), p) else |u|)
      && AuthorIds(AuthorNames(u'), names[..i + 1])
         == AuthorIds(AuthorNames(u), names[..i]) + {IndexOf(AuthorNames(u'), p)}
  {
    var ps, p := names[..i], names[i];
    assert names[..i + 1][..i] == ps;
    var u := AddAuthors(authors, ps);
    if p !in AuthorNames(u) {
      assert AuthorNames(u + [Author(p)]) == AuthorNames(u) + [p];
      AuthorIdsStable(AuthorNames(u), [p], ps);
    }
  }

  /** The tag loop's step: the table and the links after name `j`. */
  lemma AddTagsStep(book: nat, tags: seq<Tag>, names: seq<string>, j: nat)
    requires j < |names|
    ensures var u := AddTags(tags, names[..j]);
      var u' := AddTags(tags, names[..j + 1]);
      var p := names[j];
      && u' == (if p in TagNames(u) then u else u + [Tag(p, p)])
      && IndexOf(TagNames(u'), p) == (if p in TagNames(u) then IndexOf(TagNames(u), p) else |u|)
      && Links(book, TagNames(u'), names[..j + 1])
         == Links(book, TagNames(u), names[..j]) + [BookTag(book, IndexOf(TagNames(u'), p))]
  {
    var ps, p := names[..j], names[j];
    assert names[..j + 1][..j] == ps;
    var u := AddTags(tags, ps);
    if p !in TagNames(u) {
      assert TagNames(u + [Tag(p, p)]) == TagNames(u) + [p];
      LinksStable(book, TagNames(u), [p], ps);
    }
  }

  /**
   * One turn of the author loop, on the loop's own state: what the fetch
   * finds or the insert creates is the author the next prefix resolves to.
   */
  lemma AuthorLoopStep(authors0: seq<Author>, names: seq<string>, i: nat,
                       ids0: set<nat>, authors: seq<Author>, ids: set<nat>)
    returns (authors': seq<Author>, id: nat)
    requires i < |names|
    requires authors == AddAuthors(authors0, names[..i])
    requires ids == ids0 + AuthorIds(AuthorNames(authors), names[..i])
    ensures FetchByName(AuthorNames(authors), names[i]).None? ==>
      authors' == authors + [Author(names[i])] && id == |authors|
    ensures FetchByName(AuthorNames(authors), names[i]).Some? ==>
      authors' == authors && id == FetchByName(AuthorNames(authors), names[i]).value
    ensures authors' == AddAuthors(authors0, names[..i + 1])
    ensures ids + {id} == ids0 + AuthorIds(AuthorNames(authors'), names[..i + 1])
  {
    AddAuthorsStep(authors0, names, i);
    var p := names[i];
    if p in AuthorNames(authors) {
      authors', id := authors, IndexOf(AuthorNames(authors), p);
    } else {
      authors', id := authors + [Author(p)], |authors|;
    }
    var before := AuthorIds(AuthorNames(authors), names[..i]);
    assert AuthorIds(AuthorNames(authors'), names[..i + 1]) == before + {id};
    UnionAssoc(ids0, before, {id});
  }

  /** Set union is associative. */
  lemma UnionAssoc<T>(a: set<T>, b: set<T>, c: set<T>)
    ensures a + b + c == a + (b + c)
  {
  }

  /** One turn of the tag loop, on the loop's own state. */
  lemma TagLoopStep(book: nat, tags0: seq<Tag>, names: seq<string>, j: nat,
                    bookTags0: seq<BookTag>, tags: seq<Tag>, bookTags: seq<BookTag>)
    returns (tags': seq<Tag>, id: nat)
    requires j < |names|
    requires tags == AddTags(tags0, names[..j])
    requires bookTags == bookTags0 + Links(book, TagNames(tags), names[..j])
    ensures FetchByName(TagNames(tags), names[j]).None? ==>
      tags' == tags + [Tag(names[j], names[j])] && id == |tags|
    ensures FetchByName(TagNames(tags), names[j]).Some? ==>
      tags' == tags && id == FetchByName(TagNames(tags), names[j]).value
    ensures tags' == AddTags(tags0, names[..j + 1])
    ensures bookTags + [BookTag(book, id)] == bookTags0 + Links(book, TagNames(tags'), names[..j + 1])
  {
    AddTagsStep(book, tags0, names, j);
    var p := names[j];
    tags' := if p in TagNames(tags) then tags else tags + [Tag(p, p)];
    id := if p in TagNames(tags) then IndexOf(TagNames(tags), p) else |tags|;
    AppendAssoc(bookTags0, Links(book, TagNames(tags), names[..j]), [BookTag(book, id)]);
  }

  /**
   * The author loop of the decoder: for each name in turn, the first author
   * with that name, created if there is none, is added to the book's authors.
   */
  method LinkAuthors(context: Context, book: nat, names: seq<string>)
    requires book < |context.books|
    modifies context`authors, context`books
    ensures context.authors == AddAuthors(old(context.authors), names)
    ensures context.books == old(context.books)[book :=
      old(context.books)[book].(authors := old(context.books)[book].authors
                                           + AuthorIds(AuthorNames(context.authors), names))]
  {
    ghost var authors0 := context.authors;
    ghost var book0 := context.books[book];
    ghost var books0 := context.books;
    ghost var ids := book0.authors;
    assert names[..0] == [];
    assert books0 == books0[book := book0.(authors := ids)];
    for i := 0 to |names|
      invariant context.authors == AddAuthors(authors0, names[..i])
      invariant ids == book0.authors + AuthorIds(AuthorNames(context.authors), names[..i])
      invariant context.books == books0[book := book0.(authors := ids)]
    {
      ghost var next, id := AuthorLoopStep(authors0, names, i, book0.authors, context.authors, ids);
      var authorName := names[i];
      var result := FetchByName(AuthorNames(context.authors), authorName);
      var thisAuthor: nat;
      if result.None? {
        context.authors := context.authors + [Author(authorName)];
        thisAuthor := |context.authors| - 1;
      } else {
        thisAuthor := result.value;
      }
      assert context.authors == next && thisAuthor == id;
      ghost var updated := book0.(authors := ids + {id});
      assert context.books[book].(authors := context.books[book].authors + {thisAuthor}) == updated;
      UpdateTwice(books0, book, book0.(authors := ids), updated);
      context.books := context.books[book := context.books[book].(authors := context.books[book].authors + {thisAuthor})];
      ids := ids + {id};
    }
    assert names[..|names|] == names;
  }

  /**
   * The tag loop of the decoder: for each name in turn, the first tag with
   * that name, created sorting by its own name if there is none, is linked to
   * the book by a new BookTag.
   */
  method LinkTags(context: Context, book: nat, names: seq<string>)
    modifies context`tags, context`bookTags
    ensures context.tags == AddTags(old(context.tags), names)
    ensures context.bookTags == old(context.bookTags) + Links(book, TagNames(context.tags), names)
  {
    ghost var tags0 := context.tags;
    ghost var bookTags0 := context.bookTags;
    assert names[..0] == [];
    for j := 0 to |names|
      invariant context.tags == AddTags(tags0, names[..j])
      invariant context.bookTags == bookTags0 + Links(book, TagNames(context.tags), names[..j])
    {
      ghost var next, id := TagLoopStep(book, tags0, names, j, bookTags0, context.tags, context.bookTags);
      var tagName := names[j];
      var result := FetchByName(TagNames(context.tags), tagName);
      var thisTag: nat;
      if result.None? {
        context.tags := context.tags + [Tag(tagName, tagName)];
        thisTag := |context.tags| - 1;
      } else {
        thisTag := result.value;
      }
      assert context.tags == next && thisTag == id;
      context.bookTags := context.bookTags + [BookTag(book, thisTag)];
    }
    assert names[..|names|] == names;
  }

  /**
   * Decodes every element of the list in order; an element that throws is
   * skipped and the rest go on. Afterwards the "My Favorites" tag, sorted by
   * "_favorites", is added unconditionally.
   */
  method DecodeBookList(list: JsonList, context: Context, validUrl: string -> bool)
    modifies context
    ensures context.Snapshot() == DecodeList(old(context.Snapshot()), list, validUrl)
    ensures old(context.Valid()) ==> context.Valid()
  {
    ghost var s0 := context.Snapshot();
    for i := 0 to |list|
      invariant context.Snapshot() == DecodeAll(s0, list[..i], validUrl)
    {
      assert list[..i + 1][..i] == list[..i];
      var outcome := DecodeBook(list[i], context, validUrl);
    }
    assert list[..|list|] == list;
    context.tags := context.tags + [Tag(FavoritesName, FavoritesProxy)];
    if ValidStore(s0) {
      DecodeListValid(s0, list, validUrl);
    }
  }
}

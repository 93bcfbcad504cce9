/**
 * The two labels a book shows: its authors and its tags, each joined with
 * ", ". A book's to-many relationship is an unordered set; the model is given
 * its members as a sequence in the order the set happens to iterate them, and
 * `None` when the relationship is nil.
 */
module BookLabels {
  import opened Wrappers
  import opened Text
  import opened Model
  import JsonProcessing

  /** The authors label of a book whose authors relationship is nil. */
  const NoAuthorsText: string := "<This book has no authors>"

  /** The tags label of a book whose tags relationship is nil or empty. */
  const NoTagsText: string := "<This book has no tags>"

  // ---------------------------------------------------------------------------
  // Authors
  // ---------------------------------------------------------------------------

  /**
   * The authors label. Each name is followed by the separator while fewer
   * names than the set holds have been written, so the label is the names
   * joined, with no separator at either end. An empty (non-nil) set gives the
   * empty string, not the placeholder.
   */
  method AuthorsToString(authors: Option<seq<Author>>) returns (r: string)
    ensures authors.None? ==> r == NoAuthorsText
    ensures authors.Some? ==> r == Join(AuthorNames(authors.value))
  {
    if authors.None? {
      return NoAuthorsText;
    }
    var all := authors.value;
    ghost var names := AuthorNames(all);
    AuthorNamesAt(all);
    var bookAuths := "";
    var i := 0;
    for k := 0 to |all|
      invariant i == k
      invariant bookAuths == Join(names[..k]) + (if 0 < k < |all| then Sep else "")
    {
      var authorName := all[k].name;
      JoinSnoc(names[..k], authorName);
      assert names[..k + 1] == names[..k] + [authorName];
      bookAuths := bookAuths + authorName;
      i := i + 1;
      if i < |all| {
        bookAuths := bookAuths + Sep;
      }
    }
    assert names[..|all|] == names;
    r := bookAuths;
  }

  /**
   * Appending one more name: the name alone after none, else the label so
   * far, the separator and the name.
   */
  lemma JoinSnoc(xs: seq<string>, x: string)
    ensures Join(xs + [x]) == (if xs == [] then x else Join(xs) + Sep + x)
  {
    assert (xs + [x])[..|xs|] == xs;
  }

  /**
   * The authors label of a non-empty set lists exactly its names: split at
   * the separator, it gives them back one by one, provided no name contains
   * the separator.
   */
  lemma AuthorsLabelRoundTrip(authors: seq<Author>)
    requires |authors| >= 1
    requires forall a <- authors :: NoSep(a.name)
    ensures Split(Join(AuthorNames(authors))) == AuthorNames(authors)
  {
    AuthorNamesAt(authors);
    var names := AuthorNames(authors);
    forall x <- names
      ensures NoSep(x)
    {
      var k :| 0 <= k < |names| && names[k] == x;
      assert authors[k] in authors;
    }
    SplitJoin(names);
  }

  /** `order` lists the members of `members`, each exactly once: one way a set can iterate. */
  predicate IterationOrder(order: seq<nat>, members: set<nat>) {
    && (forall i, j :: 0 <= i < j < |order| ==> order[i] != order[j])
    && (forall k <- order :: k in members)
    && (forall k <- members :: k in order)
  }

  /**
   * The rows of `table` at the positions `order` lists. Its ensures only
   * re-index the table for callers; the properties of an iteration order are
   * stated by `IterationOrder` and the lemmas on it.
   */
  function InOrder<T>(table: seq<T>, order: seq<nat>): (r: seq<T>)
    requires forall i :: 0 <= i < |order| ==> order[i] < |table|
    ensures |r| == |order|
    ensures forall i :: 0 <= i < |order| ==> r[i] == table[order[i]]
  {
    seq(|order|, i requires 0 <= i < |order| => table[order[i]])
  }

  /**
   * The authors label of a book just decoded from a record, whatever order
   * its author set iterates in, splits back into the record's author names:
   * each of them once, and nothing else. This needs author names unique
   * beforehand (which decoding preserves) and pieces free of the separator
   * (which splitting guarantees).
   */
  lemma DecodedAuthorsLabel(s: Store, f: JsonProcessing.BookFields, order: seq<nat>)
    requires Unique(AuthorNames(s.authors))
    requires |f.authors| >= 1 && forall a <- f.authors :: NoSep(a)
    requires IterationOrder(order, JsonProcessing.Decoded(s, f).books[|s.books|].authors)
    ensures var d := JsonProcessing.Decoded(s, f);
      && (forall i :: 0 <= i < |order| ==> order[i] < |d.authors|)
      && var pieces := Split(Join(AuthorNames(InOrder(d.authors, order))));
      && (forall x <- pieces :: x in f.authors)
      && (forall p <- f.authors :: p in pieces)
      && (forall i, j :: 0 <= i < j < |pieces| ==> pieces[i] != pieces[j])
  {
    var d := JsonProcessing.Decoded(s, f);
    JsonProcessing.DecodedAdds(s, f);
    JsonProcessing.DecodedUnique(s, f);
    LabelOfNamedAuthors(d.authors, d.books[|s.books|].authors, order, f.authors);
  }

  /**
   * The step of DecodedAuthorsLabel on the tables alone: a set holding
   * exactly the authors whose names are listed, in a table of unique names
   * that holds every listed name.
   */
  lemma LabelOfNamedAuthors(table: seq<Author>, members: set<nat>, order: seq<nat>, ps: seq<string>)
    requires Unique(AuthorNames(table))
    requires forall a: nat :: a in members <==> a < |table| && table[a].name in ps
    requires forall p <- ps :: p in AuthorNames(table)
    requires |ps| >= 1 && forall p <- ps :: NoSep(p)
    requires IterationOrder(order, members)
    ensures forall i :: 0 <= i < |order| ==> order[i] < |table|
    ensures var pieces := Split(Join(AuthorNames(InOrder(table, order))));
      && (forall x <- pieces :: x in ps)
      && (forall p <- ps :: p in pieces)
      && (forall i, j :: 0 <= i < j < |pieces| ==> pieces[i] != pieces[j])
  {
    forall i | 0 <= i < |order|
      ensures order[i] < |table| && table[order[i]].name in ps
    {
      assert order[i] in order;
    }
    var names := AuthorNames(InOrder(table, order));
    NamesInOrderAt(table, order);
    forall p <- ps
      ensures p in names
    {
      AuthorNamesAt(table);
      var k :| 0 <= k < |table| && AuthorNames(table)[k] == p;
      assert k in members;
      var i :| 0 <= i < |order| && order[i] == k;
      assert names[i] == p;
    }
    assert ps[0] in names;
    assert forall x <- names :: x in ps;
    SplitJoin(names);
    DistinctNamesInOrder(table, order);
  }

  /** The names of the rows at the listed positions are those rows' names. */
  lemma NamesInOrderAt(table: seq<Author>, order: seq<nat>)
    requires forall i :: 0 <= i < |order| ==> order[i] < |table|
    ensures var names := AuthorNames(InOrder(table, order));
      |names| == |order| && forall i :: 0 <= i < |order| ==> names[i] == table[order[i]].name
  {
    AuthorNamesAt(InOrder(table, order));
  }

  /** Distinct rows of a table of unique names have distinct names. */
  lemma DistinctNamesInOrder(table: seq<Author>, order: seq<nat>)
    requires Unique(AuthorNames(table))
    requires forall i :: 0 <= i < |order| ==> order[i] < |table|
    requires forall i, j :: 0 <= i < j < |order| ==> order[i] != order[j]
    ensures var names := AuthorNames(InOrder(table, order));
      forall i, j :: 0 <= i < j < |names| ==> names[i] != names[j]
  {
    var names := AuthorNames(InOrder(table, order));
    AuthorNamesAt(table);
    NamesInOrderAt(table, order);
    forall i, j | 0 <= i < j < |names|
      ensures names[i] != names[j]
    {
      var a, b := order[i], order[j];
      assert a in order && b in order;
      assert |names| == |order|;
      assert names[i] == AuthorNames(table)[a];
      assert names[j] == AuthorNames(table)[b];
    }
  }

  // ---------------------------------------------------------------------------
  // Tags
  // ---------------------------------------------------------------------------

  /** The name of the last favorites row in iteration order, or "" if none. */
  function FavoriteName(tags: seq<Tag>): (r: string)
    decreases |tags|
  {
    if tags == [] then ""
    else if IsFavorite(tags[|tags| - 1]) then tags[|tags| - 1].name
    else FavoriteName(tags[..|tags| - 1])
  }

  /** The names of the rows that are not the favorites tag, in iteration order. */
  function OtherTagNames(tags: seq<Tag>): (r: seq<string>)
    ensures |r| <= |tags|
    decreases |tags|
  {
    if tags == [] then []
    else
      var init := OtherTagNames(tags[..|tags| - 1]);
      if IsFavorite(tags[|tags| - 1]) then init else init + [tags[|tags| - 1].name]
  }

  /** The names of the favorites rows, in iteration order. */
  function FavoriteRowNames(tags: seq<Tag>): (r: seq<string>)
    decreases |tags|
  {
    if tags == [] then []
    else
      var init := FavoriteRowNames(tags[..|tags| - 1]);
      if IsFavorite(tags[|tags| - 1]) then init + [tags[|tags| - 1].name] else init
  }

  /**
   * Every row's name goes to exactly one of the two lists: the other names
   * hold each non-favorites row once, in order, and nothing else.
   */
  lemma {:induction false} TagRowsPartition(tags: seq<Tag>)
    ensures multiset(OtherTagNames(tags)) + multiset(FavoriteRowNames(tags)) == multiset(TagNames(tags))
    ensures FavoriteName(tags) != "" ==> FavoriteName(tags) in FavoriteRowNames(tags)
    decreases |tags|
  {
    if tags != [] {
      TagRowsPartition(tags[..|tags| - 1]);
    }
  }

  /**
   * The list of other names as the label loop writes it: the k-th name
   * (counting from 1) is followed by the separator when k is below `total`,
   * the number of rows of the whole relationship, favorites included.
   */
  function Listing(names: seq<string>, total: nat): (r: string)
    decreases |names|
  {
    if names == [] then ""
    else Listing(names[..|names| - 1], total) + names[|names| - 1]
         + (if |names| < total then Sep else "")
  }

  /** What one more row adds to the favorites name and to the other names. */
  lemma TagRowSnoc(seen: seq<Tag>, t: Tag)
    ensures FavoriteName(seen + [t]) == (if IsFavorite(t) then t.name else FavoriteName(seen))
    ensures OtherTagNames(seen + [t]) ==
      (if IsFavorite(t) then OtherTagNames(seen) else OtherTagNames(seen) + [t.name])
  {
    assert (seen + [t])[..|seen|] == seen;
  }

  /** The same step, on a prefix of the rows. */
  lemma TagRowStep(tags: seq<Tag>, k: nat)
    requires k < |tags|
    ensures FavoriteName(tags[..k + 1]) ==
      (if IsFavorite(tags[k]) then tags[k].name else FavoriteName(tags[..k]))
    ensures OtherTagNames(tags[..k + 1]) ==
      (if IsFavorite(tags[k]) then OtherTagNames(tags[..k]) else OtherTagNames(tags[..k]) + [tags[k].name])
  {
    assert tags[..k + 1] == tags[..k] + [tags[k]];
    TagRowSnoc(tags[..k], tags[k]);
  }

  /** Listing one more name appends it, followed by the separator if still below `total`. */
  lemma ListingSnoc(names: seq<string>, x: string, total: nat)
    ensures Listing(names + [x], total) ==
      Listing(names, total) + x + (if |names| + 1 < total then Sep else "")
  {
    assert (names + [x])[..|names|] == names;
  }

  /**
   * The tags label, as written: the placeholder for a nil or empty
   * relationship; otherwise the favorites name, if any, goes first, followed
   * by the separator and the other names when there are some.
   */
  function TagLabel(bookTags: Option<seq<Tag>>): (r: string) {
    if bookTags.None? || bookTags.value == [] then NoTagsText
    else
      var tags := bookTags.value;
      var fav := FavoriteName(tags);
      var others := OtherTagNames(tags);
      var body := Listing(others, |tags|);
      if fav != "" then (if others != [] then fav + Sep + body else fav)
      else body
  }

  /**
   * The tags label. The loop remembers the favorites name and writes every
   * other name followed by the separator while the count of names written is
   * below the size of the whole relationship; the favorites name is then put
   * in front.
   */
  method TagsToString(bookTags: Option<seq<Tag>>) returns (r: string)
    ensures r == TagLabel(bookTags)
  {
    if bookTags.None? || |bookTags.value| == 0 {
      return NoTagsText;
    }
    var tags := bookTags.value;
    var favTagName := "";
    var tagString := "";
    var tagCounter := 0;
    ghost var seen: seq<Tag> := [];
    ghost var others: seq<string> := [];
    for k := 0 to |tags|
      invariant seen == tags[..k]
      invariant others == OtherTagNames(seen)
      invariant favTagName == FavoriteName(seen)
      invariant tagCounter == |others|
      invariant tagString == Listing(others, |tags|)
    {
      var bookTag := tags[k];
      TagRowSnoc(seen, bookTag);
      if bookTag.proxyForSorting == FavoritesProxy {
        favTagName := bookTag.name;
      } else {
        ListingSnoc(others, bookTag.name, |tags|);
        tagString := tagString + bookTag.name;
        tagCounter := tagCounter + 1;
        if tagCounter < |tags| {
          tagString := tagString + Sep;
        }
        others := others + [bookTag.name];
      }
      seen := seen + [bookTag];
    }
    assert seen == tags;
    TagLabelOfLoop(tags, favTagName, tagString, tagCounter);
    if favTagName != "" {
      if tagCounter > 0 {
        tagString := favTagName + Sep + tagString;
      } else {
        tagString := favTagName;
      }
    }
    r := tagString;
  }

  /** What the label loop leaves behind, put together as the label. */
  lemma TagLabelOfLoop(tags: seq<Tag>, fav: string, listing: string, count: nat)
    requires tags != []
    requires fav == FavoriteName(tags) && count == |OtherTagNames(tags)|
    requires listing == Listing(OtherTagNames(tags), |tags|)
    ensures TagLabel(Some(tags)) ==
      if fav == "" then listing else if count > 0 then fav + Sep + listing else fav
  {
  }

  /**
   * While fewer names are listed than `total`, every listed name is
   * followed by the separator; listing all of them (no favorites row) puts
   * separators only between names.
   */
  lemma {:induction false} ListingJoin(names: seq<string>, total: nat)
    requires |names| <= total
    ensures names != [] && |names| < total ==> Listing(names, total) == Join(names) + Sep
    ensures |names| == total ==> Listing(names, total) == Join(names)
    decreases |names|
  {
    if names != [] {
      var init := names[..|names| - 1];
      var last := names[|names| - 1];
      assert names == init + [last];
      ListingJoin(init, total);
      JoinSnoc(init, last);
      if init != [] {
        Regroup(Join(init), Sep, last, if |names| < total then Sep else "");
      }
    }
  }

  /** Without a favorites row, every row is another name. */
  lemma {:induction false} NoFavoriteNames(tags: seq<Tag>)
    requires forall t <- tags :: !IsFavorite(t)
    ensures FavoriteName(tags) == ""
    ensures OtherTagNames(tags) == TagNames(tags)
    decreases |tags|
  {
    if tags != [] {
      var init := tags[..|tags| - 1];
      assert forall t <- init :: t in tags;
      NoFavoriteNames(init);
    }
  }

  /** A book that is not a favorite: its tags label is its tag names joined. */
  lemma TagLabelNoFavorite(tags: seq<Tag>)
    requires tags != []
    requires forall t <- tags :: !IsFavorite(t)
    ensures TagLabel(Some(tags)) == Join(TagNames(tags))
  {
    NoFavoriteNames(tags);
    ListingJoin(TagNames(tags), |tags|);
  }

  /**
   * A favorite book with other tags, as written: the favorites name first,
   * then the other names, and a separator left dangling at the end.
   */
  lemma TagLabelFavoriteWithOthers(tags: seq<Tag>)
    requires FavoriteName(tags) != "" && OtherTagNames(tags) != []
    ensures TagLabel(Some(tags)) == FavoriteName(tags) + Sep + Join(OtherTagNames(tags)) + Sep
  {
    var others := OtherTagNames(tags);
    FavoriteRowCounted(tags);
    ListingJoin(others, |tags|);
    assert Listing(others, |tags|) == Join(others) + Sep;
    Regroup(FavoriteName(tags), Sep, Join(others), Sep);
  }

  /** A favorite book with no other tag: the label is the favorites name alone. */
  lemma TagLabelFavoriteOnly(tags: seq<Tag>)
    requires FavoriteName(tags) != "" && OtherTagNames(tags) == []
    ensures TagLabel(Some(tags)) == FavoriteName(tags)
  {
    FavoriteRowCounted(tags);
  }

  /**
   * A non-empty favorites name comes from a favorites row, which is not
   * among the other names: the other names are fewer than the rows.
   */
  lemma {:induction false} FavoriteRowCounted(tags: seq<Tag>)
    requires FavoriteName(tags) != ""
    ensures tags != [] && |OtherTagNames(tags)| < |tags|
    decreases |tags|
  {
    if !IsFavorite(tags[|tags| - 1]) {
      FavoriteRowCounted(tags[..|tags| - 1]);
    }
  }

  /**
   * The dangling separator splits off as an empty trailing piece: a reader
   * splitting the label at ", " gets a tag with no name after the real ones.
   */
  lemma TagLabelFavoriteWithOthersSplit(tags: seq<Tag>)
    requires FavoriteName(tags) != "" && OtherTagNames(tags) != []
    requires NoSep(FavoriteName(tags)) && forall n <- OtherTagNames(tags) :: NoSep(n)
    ensures Split(TagLabel(Some(tags))) == [FavoriteName(tags)] + OtherTagNames(tags) + [""]
  {
    var fav, others := FavoriteName(tags), OtherTagNames(tags);
    TagLabelFavoriteWithOthers(tags);
    var xs := [fav] + others;
    JoinCons(fav, others);
    JoinSnoc(xs, "");
    assert Join(xs + [""]) == fav + Sep + Join(others) + Sep;
    assert forall x <- xs + [""] :: NoSep(x);
    SplitJoin(xs + [""]);
  }

  /** A concrete book in the favorites with one other tag, "Swift". */
  lemma TagLabelTrailingSeparator()
    ensures TagLabel(Some([Tag(FavoritesName, FavoritesProxy), Tag("Swift", "Swift")]))
            == "My Favorites, Swift, "
  {
    var tags := [Tag(FavoritesName, FavoritesProxy), Tag("Swift", "Swift")];
    assert tags[..1] == [Tag(FavoritesName, FavoritesProxy)];
    assert FavoriteName(tags) == FavoritesName;
    assert OtherTagNames(tags) == ["Swift"];
    TagLabelFavoriteWithOthers(tags);
  }

  // ---------------------------------------------------------------------------
  // The tags label of a book just decoded
  // ---------------------------------------------------------------------------

  /** The tags of a table of BookTags split in two are those of each part. */
  lemma {:induction false} BookTagsOfConcat(tags: seq<Tag>, a: seq<BookTag>, b: seq<BookTag>, book: nat)
    requires forall bt <- a + b :: bt.tag < |tags|
    ensures BookTagsOf(tags, a + b, book) == BookTagsOf(tags, a, book) + BookTagsOf(tags, b, book)
    decreases |b|
  {
    if b == [] {
      assert a + b == a;
    } else {
      var init := b[..|b| - 1];
      assert (a + b)[..|a + b| - 1] == a + init;
      BookTagsOfConcat(tags, a, init, book);
    }
  }

  /** A book no row links to has no tags. */
  lemma {:induction false} BookTagsOfNone(tags: seq<Tag>, bookTags: seq<BookTag>, book: nat)
    requires forall bt <- bookTags :: bt.tag < |tags| && bt.book != book
    ensures BookTagsOf(tags, bookTags, book) == []
    decreases |bookTags|
  {
    if bookTags != [] {
      var init := bookTags[..|bookTags| - 1];
      assert forall bt <- init :: bt in bookTags;
      BookTagsOfNone(tags, init, book);
    }
  }

  /** One more row of the book adds its tag at the end. */
  lemma BookTagsOfSnoc(tags: seq<Tag>, bookTags: seq<BookTag>, bt: BookTag, book: nat)
    requires forall x <- bookTags + [bt] :: x.tag < |tags|
    requires bt.book == book
    ensures BookTagsOf(tags, bookTags + [bt], book) == BookTagsOf(tags, bookTags, book) + [tags[bt.tag]]
  {
    assert (bookTags + [bt])[..|bookTags|] == bookTags;
  }

  /** One more tag adds its name at the end. */
  lemma TagNamesSnoc(ts: seq<Tag>, t: Tag)
    ensures TagNames(ts + [t]) == TagNames(ts) + [t.name]
  {
    assert (ts + [t])[..|ts|] == ts;
  }

  /** The links of a record point inside the tag table. */
  lemma LinksInRange(tags: seq<Tag>, book: nat, ps: seq<string>)
    requires forall p <- ps :: p in TagNames(tags)
    ensures forall bt <- JsonProcessing.Links(book, TagNames(tags), ps) :: bt.tag < |tags|
  {
    var links := JsonProcessing.Links(book, TagNames(tags), ps);
    forall bt <- links
      ensures bt.tag < |tags|
    {
      var k :| 0 <= k < |links| && links[k] == bt;
    }
  }

  /** The tags the links of a record lead to carry the record's tag pieces, in order. */
  lemma {:induction false} BookTagsOfLinks(tags: seq<Tag>, book: nat, ps: seq<string>)
    requires forall p <- ps :: p in TagNames(tags)
    ensures var links := JsonProcessing.Links(book, TagNames(tags), ps);
      && (forall bt <- links :: bt.tag < |tags|)
      && TagNames(BookTagsOf(tags, links, book)) == ps
    decreases |ps|
  {
    LinksInRange(tags, book, ps);
    if ps != [] {
      var names := TagNames(tags);
      var init := ps[..|ps| - 1];
      var p := ps[|ps| - 1];
      assert ps == init + [p];
      var front := JsonProcessing.Links(book, names, init);
      var k := IndexOf(names, p);
      assert JsonProcessing.Links(book, names, ps) == front + [BookTag(book, k)];
      calc {
        TagNames(BookTagsOf(tags, JsonProcessing.Links(book, names, ps), book));
        TagNames(BookTagsOf(tags, front + [BookTag(book, k)], book));
        { BookTagsOfSnoc(tags, front, BookTag(book, k), book); }
        TagNames(BookTagsOf(tags, front, book) + [tags[k]]);
        { TagNamesSnoc(BookTagsOf(tags, front, book), tags[k]); }
        TagNames(BookTagsOf(tags, front, book)) + [tags[k].name];
        { assert forall q <- init :: q in ps;
          BookTagsOfLinks(tags, book, init);
          TagNamesAt(tags); }
        init + [p];
      }
    }
  }

  /**
   * The BookTags of a book just decoded lead, in table order, to tags named
   * exactly by the record's tag pieces.
   */
  lemma DecodedBookTags(s: Store, f: JsonProcessing.BookFields)
    requires ValidStore(s)
    ensures var d := JsonProcessing.Decoded(s, f);
      && (forall bt <- d.bookTags :: bt.tag < |d.tags|)
      && TagNames(BookTagsOf(d.tags, d.bookTags, |s.books|)) == f.tags
  {
    var d := JsonProcessing.Decoded(s, f);
    JsonProcessing.DecodedValid(s, f);
    JsonProcessing.DecodedAdds(s, f);
    var links := JsonProcessing.Links(|s.books|, TagNames(d.tags), f.tags);
    assert d.bookTags == s.bookTags + links;
    assert forall bt <- s.bookTags :: bt.tag < |d.tags| && bt.book != |s.books|;
    BookTagsOfConcat(d.tags, s.bookTags, links, |s.books|);
    BookTagsOfNone(d.tags, s.bookTags, |s.books|);
    BookTagsOfLinks(d.tags, |s.books|, f.tags);
    assert [] + BookTagsOf(d.tags, links, |s.books|) == BookTagsOf(d.tags, links, |s.books|);
  }

  /** Find-or-create adds no favorites tag unless a piece is named like the favorites proxy. */
  lemma AddTagsNoFavorite(tags: seq<Tag>, ps: seq<string>)
    requires forall t <- tags :: !IsFavorite(t)
    ensures forall t <- JsonProcessing.AddTags(tags, ps) :: !IsFavorite(t) || t.name == FavoritesProxy
  {
    var r := JsonProcessing.AddTags(tags, ps);
    forall t <- r
      ensures !IsFavorite(t) || t.name == FavoritesProxy
    {
      var k :| 0 <= k < |r| && r[k] == t;
      if k < |tags| {
        assert r[..|tags|][k] == tags[k];
        assert tags[k] in tags;
      }
    }
  }

  /**
   * The tags label of a book just decoded, its BookTags taken in table order,
   * when the store has no favorites tag and no piece is named like its proxy:
   * the record's tag pieces joined.
   */
  lemma DecodedTagsLabelJoin(s: Store, f: JsonProcessing.BookFields)
    requires ValidStore(s)
    requires f.tags != []
    requires forall t <- s.tags :: !IsFavorite(t)
    requires FavoritesProxy !in f.tags
    ensures var d := JsonProcessing.Decoded(s, f);
      && (forall bt <- d.bookTags :: bt.tag < |d.tags|)
      && TagLabel(Some(BookTagsOf(d.tags, d.bookTags, |s.books|))) == Join(f.tags)
  {
    var d := JsonProcessing.Decoded(s, f);
    DecodedBookTags(s, f);
    AddTagsNoFavorite(s.tags, f.tags);
    LinkedNoFavorite(d.tags, d.bookTags, |s.books|);
    TagLabelNoFavorite(BookTagsOf(d.tags, d.bookTags, |s.books|));
  }

  /**
   * A book whose tags are none named like the favorites proxy, in a table
   * whose only favorites tags would carry that name, has no favorites tag.
   */
  lemma LinkedNoFavorite(tags: seq<Tag>, bookTags: seq<BookTag>, book: nat)
    requires forall bt <- bookTags :: bt.tag < |tags|
    requires forall t <- tags :: !IsFavorite(t) || t.name == FavoritesProxy
    requires FavoritesProxy !in TagNames(BookTagsOf(tags, bookTags, book))
    ensures forall t <- BookTagsOf(tags, bookTags, book) :: !IsFavorite(t)
  {
    var bts := BookTagsOf(tags, bookTags, book);
    TagNamesAt(bts);
    forall t <- bts
      ensures !IsFavorite(t)
    {
      var i :| 0 <= i < |bts| && bts[i] == t;
      assert TagNames(bts)[i] == t.name;
      BookTagsOfMember(tags, bookTags, book, t);
    }
  }

  /**
   * The same label read against the record: it is the record's `tags` field
   * itself, as parsed.
   */
  lemma DecodedTagsLabel(s: Store, json: JsonProcessing.JsonDictionary, validUrl: string -> bool)
    requires ValidStore(s)
    requires JsonProcessing.ExtractFields(json, validUrl).Success?
    requires forall t <- s.tags :: !IsFavorite(t)
    requires FavoritesProxy !in JsonProcessing.ExtractFields(json, validUrl).value.tags
    ensures var f := JsonProcessing.ExtractFields(json, validUrl).value;
      var d := JsonProcessing.Decoded(s, f);
      && (forall bt <- d.bookTags :: bt.tag < |d.tags|)
      && JsonProcessing.JString(TagLabel(Some(BookTagsOf(d.tags, d.bookTags, |s.books|)))) == json["tags"]
  {
    var f := JsonProcessing.ExtractFields(json, validUrl).value;
    JsonProcessing.ExtractFieldsRoundTrip(json, validUrl);
    DecodedTagsLabelJoin(s, f);
  }

  /** Every tag a book is linked to is a tag of the table. */
  lemma {:induction false} BookTagsOfMember(tags: seq<Tag>, bookTags: seq<BookTag>, book: nat, t: Tag)
    requires forall bt <- bookTags :: bt.tag < |tags|
    requires t in BookTagsOf(tags, bookTags, book)
    ensures t in tags
    decreases |bookTags|
  {
    var init := bookTags[..|bookTags| - 1];
    assert forall bt <- init :: bt in bookTags;
    if t in BookTagsOf(tags, init, book) {
      BookTagsOfMember(tags, init, book, t);
    }
  }

  /**
   * The tags label as evidently intended: the favorites name first, then the
   * other names, with separators only between neighbours.
   */
  function IntendedTagLabel(bookTags: Option<seq<Tag>>): (r: string) {
    if bookTags.None? || bookTags.value == [] then NoTagsText
    else
      var fav := FavoriteName(bookTags.value);
      var others := OtherTagNames(bookTags.value);
      if fav != "" then Join([fav] + others) else Join(others)
  }

  /**
   * The corrected loop: the separator is written before every other name but
   * the first, so no count of the whole relationship is needed.
   */
  method TagsToStringCorrected(bookTags: Option<seq<Tag>>) returns (r: string)
    ensures r == IntendedTagLabel(bookTags)
  {
    if bookTags.None? || |bookTags.value| == 0 {
      return NoTagsText;
    }
    var tags := bookTags.value;
    var favTagName := "";
    var tagString := "";
    var tagCounter := 0;
    for k := 0 to |tags|
      invariant favTagName == FavoriteName(tags[..k])
      invariant tagCounter == |OtherTagNames(tags[..k])|
      invariant tagString == Join(OtherTagNames(tags[..k]))
    {
      TagRowStep(tags, k);
      var bookTag := tags[k];
      if bookTag.proxyForSorting == FavoritesProxy {
        favTagName := bookTag.name;
      } else {
        JoinSnoc(OtherTagNames(tags[..k]), bookTag.name);
        if tagCounter > 0 {
          tagString := tagString + Sep;
        }
        tagString := tagString + bookTag.name;
        tagCounter := tagCounter + 1;
      }
    }
    assert tags[..|tags|] == tags;
    if favTagName != "" {
      if tagCounter > 0 {
        JoinCons(favTagName, OtherTagNames(tags));
        tagString := favTagName + Sep + tagString;
      } else {
        tagString := favTagName;
      }
    }
    r := tagString;
  }

  /**
   * The corrected label splits back into the favorites name and the other
   * names, with no empty piece.
   */
  lemma IntendedTagLabelSplit(tags: seq<Tag>)
    requires FavoriteName(tags) != ""
    requires NoSep(FavoriteName(tags)) && forall n <- OtherTagNames(tags) :: NoSep(n)
    ensures Split(IntendedTagLabel(Some(tags))) == [FavoriteName(tags)] + OtherTagNames(tags)
  {
    FavoriteRowCounted(tags);
    var xs := [FavoriteName(tags)] + OtherTagNames(tags);
    assert forall x <- xs :: NoSep(x);
    SplitJoin(xs);
  }

  /** Without a favorites row the written and the intended labels agree. */
  lemma TagLabelAgreesWithoutFavorite(tags: seq<Tag>)
    requires forall t <- tags :: !IsFavorite(t)
    ensures TagLabel(Some(tags)) == IntendedTagLabel(Some(tags))
  {
    if tags != [] {
      TagLabelNoFavorite(tags);
      NoFavoriteNames(tags);
    }
  }
}

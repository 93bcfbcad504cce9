/**
 * The persistent object graph of the library: Cover, Pdf, Book, Author, Tag
 * and BookTag entities, held by a managed-object context.
 *
 * The context is a set of in-memory tables; an object is identified by its
 * index in its entity's table, and a to-one relationship holds that index.
 * Book.authors is a to-many relationship, so it is a set of author indices.
 * Inverse relationships (Author.books, Book.bookTags, Tag.bookTags) are not
 * stored: they are read off the tables.
 */
module Model {
  import opened Wrappers

  /** Name and sorting proxy of the special tag that collects favorite books. */
  const FavoritesName: string := "My Favorites"
  const FavoritesProxy: string := "_favorites"

  datatype Cover = Cover(url: string)
  datatype Pdf = Pdf(url: string)
  datatype Author = Author(name: string)
  datatype Tag = Tag(name: string, proxyForSorting: string)

  /** The favorites tag is recognised by its sorting proxy, not by its name. */
  predicate IsFavorite(t: Tag) {
    t.proxyForSorting == FavoritesProxy
  }

  /** A book; `cover` and `pdf` index the cover and pdf tables, `authors` the author table. */
  datatype Book = Book(title: string, cover: nat, pdf: nat, authors: set<nat>)
  /** The join row that links a book to one of its tags. */
  datatype BookTag = BookTag(book: nat, tag: nat)

  /** The contents of a context, as a value. */
  datatype Store = Store(
    covers: seq<Cover>,
    pdfs: seq<Pdf>,
    books: seq<Book>,
    authors: seq<Author>,
    tags: seq<Tag>,
    bookTags: seq<BookTag>)

  /** Every relationship of every object points at an object of the store. */
  predicate ValidStore(s: Store) {
    && (forall b <- s.books :: b.cover < |s.covers| && b.pdf < |s.pdfs|)
    && (forall b <- s.books :: forall a <- b.authors :: a < |s.authors|)
    && (forall bt <- s.bookTags :: bt.book < |s.books| && bt.tag < |s.tags|)
  }

  /** No name occurs twice. */
  predicate Unique(names: seq<string>) {
    forall i, j :: 0 <= i < j < |names| ==> names[i] != names[j]
  }

  /** The names of the authors, in table order. */
  function AuthorNames(authors: seq<Author>): (r: seq<string>)
    ensures |r| == |authors|
  {
    if authors == [] then []
    else AuthorNames(authors[..|authors| - 1]) + [authors[|authors| - 1].name]
  }

  /** The names of the tags, in table order. */
  function TagNames(tags: seq<Tag>): (r: seq<string>)
    ensures |r| == |tags|
  {
    if tags == [] then []
    else TagNames(tags[..|tags| - 1]) + [tags[|tags| - 1].name]
  }

  /**
   * The inverse relationship Book.bookTags, followed to the tags: the tag of
   * every BookTag row of `book`, in table order.
   */
  function BookTagsOf(tags: seq<Tag>, bookTags: seq<BookTag>, book: nat): (r: seq<Tag>)
    requires forall bt <- bookTags :: bt.tag < |tags|
    ensures |r| <= |bookTags|
    decreases |bookTags|
  {
    if bookTags == [] then []
    else
      var last := bookTags[|bookTags| - 1];
      BookTagsOf(tags, bookTags[..|bookTags| - 1], book) + (if last.book == book then [tags[last.tag]] else [])
  }

  /** The k-th name is the name of the k-th author. */
  lemma {:induction false} AuthorNamesAt(authors: seq<Author>)
    ensures forall k :: 0 <= k < |authors| ==> AuthorNames(authors)[k] == authors[k].name
    decreases |authors|
  {
    if authors != [] {
      var init := authors[..|authors| - 1];
      AuthorNamesAt(init);
      assert forall k :: 0 <= k < |init| ==> authors[k] == init[k];
    }
  }

  /** The k-th name is the name of the k-th tag. */
  lemma {:induction false} TagNamesAt(tags: seq<Tag>)
    ensures forall k :: 0 <= k < |tags| ==> TagNames(tags)[k] == tags[k].name
    decreases |tags|
  {
    if tags != [] {
      var init := tags[..|tags| - 1];
      TagNamesAt(init);
      assert forall k :: 0 <= k < |init| ==> tags[k] == init[k];
    }
  }

  /**
   * The object a fetch by name returns first: the lowest index holding `p`.
   */
  function IndexOf(names: seq<string>, p: string): (k: nat)
    requires p in names
    ensures k < |names| && names[k] == p
    ensures forall j :: 0 <= j < k ==> names[j] != p
  {
    if names[0] == p then 0 else 1 + IndexOf(names[1..], p)
  }

  /** A fetch by name: the first object with that name, or none. */
  function FetchByName(names: seq<string>, p: string): (r: Option<nat>)
  {
    if p in names then Some(IndexOf(names, p)) else None
  }

  /** Appending objects to a table does not change which object a fetch finds first. */
  lemma IndexOfStable(names: seq<string>, extra: seq<string>, p: string)
    requires p in names
    ensures IndexOf(names + extra, p) == IndexOf(names, p)
  {
    var k := IndexOf(names, p);
    var k' := IndexOf(names + extra, p);
    assert (names + extra)[k] == p;
  }

  /**
   * The managed-object context: one table per entity, updated in place as
   * objects are inserted and deleted.
   */
  class Context {
    var covers: seq<Cover>
    var pdfs: seq<Pdf>
    var books: seq<Book>
    var authors: seq<Author>
    var tags: seq<Tag>
    var bookTags: seq<BookTag>

    /** An empty context. */
    constructor ()
      ensures Snapshot() == Store([], [], [], [], [], [])
      ensures Valid()
    {
      covers, pdfs, books := [], [], [];
      authors, tags, bookTags := [], [], [];
    }

    /** The current contents of every table. */
    function Snapshot(): (r: Store)
      reads this
    {
      Store(covers, pdfs, books, authors, tags, bookTags)
    }

    predicate Valid()
      reads this
    {
      ValidStore(Snapshot())
    }
  }
}

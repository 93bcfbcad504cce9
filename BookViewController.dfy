/**
 * The favorite button of the book screen. A book is a favorite when a
 * BookTag links it to the favorites tag; pressing the button creates that
 * link when there is none, and otherwise deletes the first one found.
 */
module BookViewController {
  import opened Model
  import JsonProcessing

  /** A BookTag linking `book` to a tag whose sorting proxy marks favorites. */
  predicate IsFavoriteLink(tags: seq<Tag>, bt: BookTag, book: nat) {
    bt.book == book && bt.tag < |tags| && IsFavorite(tags[bt.tag])
  }

  /**
   * The fetch of the favorites tag: the indices of the tags whose sorting
   * proxy marks favorites, in table order.
   */
  function FavoriteTags(tags: seq<Tag>): (r: seq<nat>)
    ensures forall i :: 0 <= i < |r| ==> r[i] < |tags| && IsFavorite(tags[r[i]])
    ensures forall k :: 0 <= k < |tags| && IsFavorite(tags[k]) ==> k in r
    ensures forall i, j :: 0 <= i < j < |r| ==> r[i] < r[j]
    decreases |tags|
  {
    if tags == [] then []
    else
      var init := FavoriteTags(tags[..|tags| - 1]);
      if IsFavorite(tags[|tags| - 1]) then init + [|tags| - 1] else init
  }

  /**
   * The fetch of the book's favorites links: the indices of the BookTags
   * that link `book` to a favorites tag, in table order.
   */
  function FavoriteLinks(tags: seq<Tag>, bookTags: seq<BookTag>, book: nat): (r: seq<nat>)
    ensures forall i :: 0 <= i < |r| ==> r[i] < |bookTags| && IsFavoriteLink(tags, bookTags[r[i]], book)
    ensures forall k :: 0 <= k < |bookTags| && IsFavoriteLink(tags, bookTags[k], book) ==> k in r
    ensures forall i, j :: 0 <= i < j < |r| ==> r[i] < r[j]
    decreases |bookTags|
  {
    if bookTags == [] then []
    else
      var init := FavoriteLinks(tags, bookTags[..|bookTags| - 1], book);
      if IsFavoriteLink(tags, bookTags[|bookTags| - 1], book) then init + [|bookTags| - 1] else init
  }

  /** How many favorites links `book` has. */
  function FavoriteCount(s: Store, book: nat): (r: nat) {
    |FavoriteLinks(s.tags, s.bookTags, book)|
  }

  /** The table without its k-th row: what deleting that object leaves. */
  function RemoveAt<T>(xs: seq<T>, k: nat): (r: seq<T>)
    requires k < |xs|
    ensures |r| == |xs| - 1
    ensures multiset(r) + multiset{xs[k]} == multiset(xs)
  {
    assert xs == xs[..k] + [xs[k]] + xs[k + 1..];
    xs[..k] + xs[k + 1..]
  }

  /**
   * The store after the button is pressed once. With no favorites link the
   * book is linked to the first favorites tag (which must exist); otherwise
   * the first favorites link is deleted. Nothing else changes.
   */
  function Toggled(s: Store, book: nat): (r: Store)
    requires FavoriteLinks(s.tags, s.bookTags, book) == [] ==> FavoriteTags(s.tags) != []
  {
    var res := FavoriteLinks(s.tags, s.bookTags, book);
    if res == [] then s.(bookTags := s.bookTags + [BookTag(book, FavoriteTags(s.tags)[0])])
    else s.(bookTags := RemoveAt(s.bookTags, res[0]))
  }

  /**
   * The favorite button. The two fetches are filters over the context's
   * tables; the subsequent saves are not modelled.
   */
  method ToggleFavorite(context: Context, currentBook: nat)
    requires FavoriteLinks(context.tags, context.bookTags, currentBook) == [] ==>
      FavoriteTags(context.tags) != []
    modifies context`bookTags
    ensures context.Snapshot() == Toggled(old(context.Snapshot()), currentBook)
    ensures old(FavoriteCount(context.Snapshot(), currentBook)) == 0 ==>
      FavoriteCount(context.Snapshot(), currentBook) == 1
    ensures old(FavoriteCount(context.Snapshot(), currentBook)) > 0 ==>
      FavoriteCount(context.Snapshot(), currentBook) == old(FavoriteCount(context.Snapshot(), currentBook)) - 1
    ensures old(context.Valid()) && currentBook < |context.books| ==> context.Valid()
  {
    ghost var s0 := context.Snapshot();
    var res := FavoriteLinks(context.tags, context.bookTags, currentBook);
    if |res| == 0 {
      var res1 := FavoriteTags(context.tags);
      var favoritesTag := res1[0];
      context.bookTags := context.bookTags + [BookTag(currentBook, favoritesTag)];
    } else {
      context.bookTags := RemoveAt(context.bookTags, res[0]);
    }
    assert context.Snapshot() == Toggled(s0, currentBook);
    ToggledFlips(s0, currentBook);
    if ValidStore(s0) && currentBook < |s0.books| {
      ToggledValid(s0, currentBook);
    }
  }

  /** The favorites links of two tables one after the other add up. */
  lemma {:induction false} FavoriteLinksConcat(tags: seq<Tag>, a: seq<BookTag>, b: seq<BookTag>, book: nat)
    ensures |FavoriteLinks(tags, a + b, book)| == |FavoriteLinks(tags, a, book)| + |FavoriteLinks(tags, b, book)|
    decreases |b|
  {
    if b == [] {
      assert a + b == a;
    } else {
      var init := b[..|b| - 1];
      assert (a + b)[..|a + b| - 1] == a + init;
      FavoriteLinksConcat(tags, a, init, book);
    }
  }

  /** Appending a favorites link of the book adds one to its count. */
  lemma AppendedLinkCounted(tags: seq<Tag>, xs: seq<BookTag>, bt: BookTag, book: nat)
    requires IsFavoriteLink(tags, bt, book)
    ensures |FavoriteLinks(tags, xs + [bt], book)| == |FavoriteLinks(tags, xs, book)| + 1
  {
    assert (xs + [bt])[..|xs|] == xs;
  }

  /** Deleting a favorites link of the book takes one from its count. */
  lemma RemovedLinkCounted(tags: seq<Tag>, xs: seq<BookTag>, k: nat, book: nat)
    requires k < |xs| && IsFavoriteLink(tags, xs[k], book)
    ensures |FavoriteLinks(tags, RemoveAt(xs, k), book)| + 1 == |FavoriteLinks(tags, xs, book)|
  {
    var front, back := xs[..k], xs[k + 1..];
    assert xs == front + ([xs[k]] + back);
    assert RemoveAt(xs, k) == front + back;
    FavoriteLinksConcat(tags, front, [xs[k]] + back, book);
    FavoriteLinksConcat(tags, [xs[k]], back, book);
    FavoriteLinksConcat(tags, front, back, book);
    assert [xs[k]][..0] == [];
    assert |FavoriteLinks(tags, [xs[k]], book)| == 1;
  }

  /**
   * Pressing the button makes a book with no favorites link a favorite
   * (exactly one link) and takes one link away from a book that has some.
   */
  lemma ToggledFlips(s: Store, book: nat)
    requires FavoriteLinks(s.tags, s.bookTags, book) == [] ==> FavoriteTags(s.tags) != []
    ensures FavoriteCount(s, book) == 0 ==> FavoriteCount(Toggled(s, book), book) == 1
    ensures FavoriteCount(s, book) > 0 ==> FavoriteCount(Toggled(s, book), book) == FavoriteCount(s, book) - 1
  {
    var res := FavoriteLinks(s.tags, s.bookTags, book);
    var t := Toggled(s, book);
    if res == [] {
      var bt := BookTag(book, FavoriteTags(s.tags)[0]);
      assert t.bookTags == s.bookTags + [bt];
      AppendedLinkCounted(s.tags, s.bookTags, bt, book);
    } else {
      assert t.bookTags == RemoveAt(s.bookTags, res[0]);
      RemovedLinkCounted(s.tags, s.bookTags, res[0], book);
    }
  }

  /**
   * Pressing the button changes only the BookTag table, and there only a
   * favorites link of this book: every other row keeps its multiplicity.
   */
  lemma ToggledFrame(s: Store, book: nat)
    requires FavoriteLinks(s.tags, s.bookTags, book) == [] ==> FavoriteTags(s.tags) != []
    ensures var t := Toggled(s, book);
      && t.covers == s.covers && t.pdfs == s.pdfs && t.books == s.books
      && t.authors == s.authors && t.tags == s.tags
      && forall bt :: !IsFavoriteLink(s.tags, bt, book) ==>
           multiset(t.bookTags)[bt] == multiset(s.bookTags)[bt]
  {
    var res := FavoriteLinks(s.tags, s.bookTags, book);
    if res == [] {
      var ft := FavoriteTags(s.tags)[0];
      assert IsFavoriteLink(s.tags, BookTag(book, ft), book);
    }
  }

  /** Pressing the button keeps every relationship pointing inside the store. */
  lemma ToggledValid(s: Store, book: nat)
    requires ValidStore(s) && book < |s.books|
    requires FavoriteLinks(s.tags, s.bookTags, book) == [] ==> FavoriteTags(s.tags) != []
    ensures ValidStore(Toggled(s, book))
  {
    var res := FavoriteLinks(s.tags, s.bookTags, book);
    var t := Toggled(s, book);
    if res != [] {
      var removed := s.bookTags[res[0]];
      assert multiset(t.bookTags) + multiset{removed} == multiset(s.bookTags);
      forall bt <- t.bookTags
        ensures bt.book < |t.books| && bt.tag < |t.tags|
      {
        assert bt in multiset(t.bookTags);
        assert bt in s.bookTags;
      }
    }
  }

  /**
   * Pressing the button twice on a book that is not a favorite restores the
   * store exactly: the link just created is the last row, and the only one.
   */
  lemma ToggledTwiceFromNone(s: Store, book: nat)
    requires FavoriteCount(s, book) == 0 && FavoriteTags(s.tags) != []
    ensures FavoriteCount(Toggled(s, book), book) == 1
    ensures Toggled(Toggled(s, book), book) == s
  {
    ToggledFlips(s, book);
    var t := Toggled(s, book);
    var n := |s.bookTags|;
    assert t.bookTags[n] == BookTag(book, FavoriteTags(s.tags)[0]);
    var res := FavoriteLinks(t.tags, t.bookTags, book);
    assert n in res;
    assert res[0] == n;
    assert t.bookTags[..n] == s.bookTags;
  }

  /**
   * Pressing the button twice on a book with exactly one favorites link, when
   * there is exactly one favorites tag, restores the same rows, though the
   * link moves to the end of the table.
   */
  lemma ToggledTwiceFromOne(s: Store, book: nat)
    requires FavoriteCount(s, book) == 1 && |FavoriteTags(s.tags)| == 1
    ensures FavoriteCount(Toggled(s, book), book) == 0
    ensures var u := Toggled(Toggled(s, book), book);
      u.(bookTags := s.bookTags) == s && multiset(u.bookTags) == multiset(s.bookTags)
  {
    ToggledFlips(s, book);
    var k := FavoriteLinks(s.tags, s.bookTags, book)[0];
    var ft := FavoriteTags(s.tags)[0];
    var bt := s.bookTags[k];
    assert bt.tag in FavoriteTags(s.tags);
    assert bt == BookTag(book, ft);
  }

  /**
   * Decoding a catalog always leaves a favorites tag in the store, so the
   * button's forced fetch of that tag cannot come back empty afterwards.
   */
  lemma DecodeListEnablesToggle(s: Store, list: JsonProcessing.JsonList, validUrl: string -> bool)
    ensures FavoriteTags(JsonProcessing.DecodeList(s, list, validUrl).tags) != []
  {
    var tags := JsonProcessing.DecodeList(s, list, validUrl).tags;
    assert IsFavorite(tags[|tags| - 1]);
  }
}

# HackerBooksPro catalog, labels and favorites — a Dafny model

HackerBooksPro is an iOS library app. It downloads a JSON catalog of books
and stores it as a Core Data object graph of Cover, Pdf, Book, Author, Tag and
BookTag entities. It shows each book with an authors label and a tags label,
and lets the user mark a book as a favorite. This project models three parts
of it and proves properties about them:

- **The catalog decoder** (`decodeBookList`, `decodeBook`). Each record is
  validated by seven checks in a fixed order, and the first failing check
  throws its typed error. The `authors` and `tags` fields are split on `", "`.
  Authors and tags are found or created by name, and one BookTag join row
  links the book to each tag piece. A bad record is skipped. At the end a
  "My Favorites" tag, sorted by `_favorites`, is added.
- **The label builders** (`Book.authorsToString`, `Book.tagsToString`). They
  join names with `", "`, show a placeholder when there is nothing to show,
  and put the favorites tag first.
- **The favorite button** (`toggleFavorite`). It inserts a BookTag linking the
  book to the favorites tag when there is none. Otherwise it deletes the first
  such link.

The managed-object context is the class `Model.Context`. It holds one
sequence per entity, and an object is its index in that sequence. Its
`Snapshot()` is a `Store` value, which the specification functions work on.
The decoder's methods (`DecodeBookList`, `DecodeBook`, `InsertBook`,
`LinkAuthors`, `LinkTags`) and `ToggleFavorite` update those sequences in
place. Each one is proved against a function of the old snapshot.

The label builders are methods with the source's loops and counters. Each is
proved against a function of its input. A to-many relationship (an `NSSet`)
reaches them as a sequence in the set's iteration order, and as `None` when
it is nil.

Modules: `Wrappers` (Option/Result/Outcome), `Errors` (the JSON error enum),
`Text` (join and split on `", "`), `Model` (entities, store, context),
`JsonProcessing`, `BookLabels`, `BookViewController`.

## Model

| member | source | states |
|---|---|---|
| Text.Split | HackerBooksPro/JsonProcessing.swift:140 | Splitting on `", "` always yields at least one piece. The empty string gives one empty piece. |
| Text.JoinSplit | HackerBooksPro/JsonProcessing.swift:139-144 | Joining the pieces of a split with `", "` gives back exactly the original field. No trimming happens. |
| Text.SplitPiecesNoSep | HackerBooksPro/JsonProcessing.swift:140 | No piece of a split contains the separator. |
| Text.SplitJoin | HackerBooksPro/JsonProcessing.swift:140 | Splitting the join of a non-empty list of separator-free names gives back that list. |
| Text.JoinCons | HackerBooksPro/Model/Book+CoreDataClass.swift:97-98 | Putting a name in front of a non-empty list adds the name and one separator before the rest. |
| Text.SplitPrefix | HackerBooksPro/JsonProcessing.swift:140 | A separator-free prefix merges into the first piece of what follows it. |
| Text.SplitHeadIsPrefix | HackerBooksPro/JsonProcessing.swift:140 | The first piece is a prefix of the field. |
| Model.IndexOf | HackerBooksPro/JsonProcessing.swift:165-171 | A fetch by name returns, as `first`, an object with that name that no earlier object in the table shares. |
| Model.IndexOfStable | HackerBooksPro/JsonProcessing.swift:165-171 | Inserting objects later does not change which object a fetch by name finds first. |
| Model.AuthorNamesAt | HackerBooksPro/JsonProcessing.swift:165 | The k-th author's name is the k-th entry of the names the fetch compares. |
| Model.TagNamesAt | HackerBooksPro/JsonProcessing.swift:188 | The k-th tag's name is the k-th entry of the names the fetch compares. |
| JsonProcessing.Checks | HackerBooksPro/JsonProcessing.swift:128-143 | There are exactly seven checks, in source order. |
| JsonProcessing.ExtractFieldsChecks | HackerBooksPro/JsonProcessing.swift:128-143 | A record is accepted if and only if all seven checks pass. A rejected record throws the error of its first failing check: `wrongJSONFormat` for a missing or non-string field, `wrongURLFormatForJSONResource` for an invalid URL. |
| JsonProcessing.ExtractFieldsRoundTrip | HackerBooksPro/JsonProcessing.swift:128-144 | An accepted record keeps its title and URLs, and both URLs are valid. Its author and tag pieces are non-empty lists of separator-free strings that join back to the original fields. |
| JsonProcessing.AddNames | HackerBooksPro/JsonProcessing.swift:160-171 | Find-or-create keeps every existing object in place, and afterwards every piece names some object. |
| JsonProcessing.AddNamesOnlyMissing | HackerBooksPro/JsonProcessing.swift:170 | A new object is created only for a piece whose name no existing object had. |
| JsonProcessing.AddNamesUnique | HackerBooksPro/JsonProcessing.swift:165-171 | Find-or-create never creates a second object with a name already in use. |
| JsonProcessing.AddAuthors | HackerBooksPro/JsonProcessing.swift:160-171 | The author table after find-or-create: existing authors are kept, and the names follow find-or-create. |
| JsonProcessing.AddTags | HackerBooksPro/JsonProcessing.swift:183-194 | The tag table after find-or-create: existing tags are kept. Every created tag sorts by its own name. |
| JsonProcessing.AuthorIds | HackerBooksPro/JsonProcessing.swift:173 | Every author added to the book exists in the author table. |
| JsonProcessing.AuthorIdsStable | HackerBooksPro/JsonProcessing.swift:165-173 | Inserting authors later does not change which authors the earlier pieces resolved to. |
| JsonProcessing.AuthorIdsExact | HackerBooksPro/JsonProcessing.swift:160-174 | With unique author names, the book's authors are exactly the authors named by some piece. |
| JsonProcessing.Links | HackerBooksPro/JsonProcessing.swift:196 | There is one BookTag per tag piece, in order. Each links the book to a tag whose name is that piece. |
| JsonProcessing.LinksAt | HackerBooksPro/JsonProcessing.swift:182-196 | The k-th link points the book at the first tag named by the k-th piece. |
| JsonProcessing.LinksStable | HackerBooksPro/JsonProcessing.swift:188-196 | Inserting tags later does not change which tag the earlier BookTags point to. |
| JsonProcessing.DecodedAdds | HackerBooksPro/JsonProcessing.swift:147-197 | Decoding a record adds exactly one Cover, Pdf and Book. The book is titled as the record and points at the Cover and Pdf just created: the new last rows, carrying the record's URLs. Decoding keeps every existing object, makes every author piece name an author, and gives created tags their own name as sort key. It adds exactly one BookTag per tag piece, linking the new book to the first tag of that name. |
| JsonProcessing.DecodedLinks | HackerBooksPro/JsonProcessing.swift:182-196 | The k-th BookTag a decode adds links the new book to the tag the name fetch finds for the k-th piece: the first tag of the table with that name. |
| JsonProcessing.DecodedValid | HackerBooksPro/JsonProcessing.swift:147-197 | Decoding a record keeps every relationship pointing at an existing object. |
| JsonProcessing.DecodedUnique | HackerBooksPro/JsonProcessing.swift:158-197 | Decoding keeps author names unique and tag names unique. With unique author names, the new book's authors are exactly those named in the record. |
| JsonProcessing.Accepted | HackerBooksPro/JsonProcessing.swift:106-114 | At most one accepted record per list element. |
| JsonProcessing.DecodeAllBooks | HackerBooksPro/JsonProcessing.swift:106-114 | The list loop adds one book per accepted element, in list order and titled by it, and none for a rejected element. A failing element does not stop the rest. |
| JsonProcessing.DecodeListValid | HackerBooksPro/JsonProcessing.swift:102-119 | Decoding a whole list, favorites tag included, keeps every relationship pointing at an existing object. |
| JsonProcessing.DecodeAllUnique | HackerBooksPro/JsonProcessing.swift:106-114 | Decoding every record of the list keeps author names unique and tag names unique, so books of the same catalog share one author or tag per name. |
| JsonProcessing.DecodeAllHasTagNames | HackerBooksPro/JsonProcessing.swift:106-114 | After the list is decoded, every tag piece of every accepted record names a tag. |
| JsonProcessing.DecodeAllTagNameAbsent | HackerBooksPro/JsonProcessing.swift:106-114 | A tag name that the store lacks and no accepted record names is still missing after the list is decoded. |
| JsonProcessing.DecodeListUnique | HackerBooksPro/JsonProcessing.swift:102-119 | The whole catalog keeps author names unique. It keeps tag names unique when "My Favorites" was not already a tag name and no accepted record names that tag. |
| JsonProcessing.FavoritesNameClash | HackerBooksPro/JsonProcessing.swift:116-118 | If an accepted record has a "My Favorites" tag, tag names are no longer unique: the catalog ends with two tags named "My Favorites". The favorites tag is created without a fetch by name. |
| JsonProcessing.DecodeBook | HackerBooksPro/JsonProcessing.swift:123-198 | A rejected record throws its first failing check's error and leaves the context unchanged. An accepted record changes the context exactly as decoding it specifies. Validity of the context is preserved. |
| JsonProcessing.InsertBook | HackerBooksPro/JsonProcessing.swift:147-197 | The inserts of an accepted record turn the context into the decoded store. Validity is preserved. |
| JsonProcessing.LinkAuthors | HackerBooksPro/JsonProcessing.swift:158-174 | The author loop leaves the author table as find-or-create specifies. It adds to the book, and to no other book, exactly the authors its pieces resolve to. |
| JsonProcessing.LinkTags | HackerBooksPro/JsonProcessing.swift:179-197 | The tag loop leaves the tag table as find-or-create specifies and appends exactly the BookTags the pieces specify. |
| JsonProcessing.AuthorLoopStep | HackerBooksPro/JsonProcessing.swift:165-173 | One author-loop pass: an empty fetch creates the author at the end of the table, and a non-empty fetch reuses its first result. Either way the table and the book's author set are those of the next prefix of pieces. |
| JsonProcessing.TagLoopStep | HackerBooksPro/JsonProcessing.swift:188-196 | One tag-loop pass: an empty fetch creates a tag sorting by its own name, and a non-empty fetch reuses its first result. Either way the tag table and the BookTags are those of the next prefix of pieces. |
| JsonProcessing.AddAuthorsStep | HackerBooksPro/JsonProcessing.swift:170-173 | Find-or-create of one more author name, and which author it resolves to. |
| JsonProcessing.AddTagsStep | HackerBooksPro/JsonProcessing.swift:193-196 | Find-or-create of one more tag name, and the BookTag it adds. |
| JsonProcessing.DecodeBookList | HackerBooksPro/JsonProcessing.swift:102-119 | The context afterwards is every element decoded in order, rejected ones skipped, followed by one "My Favorites" tag sorting by `_favorites`. Validity is preserved. |
| BookLabels.AuthorsToString | HackerBooksPro/Model/Book+CoreDataClass.swift:42-64 | A nil author set gives `<This book has no authors>`. Otherwise the result is the author names in iteration order, joined by `", "` with no separator at either end. An empty set gives `""`. |
| BookLabels.AuthorsLabelRoundTrip | HackerBooksPro/Model/Book+CoreDataClass.swift:52-61 | Splitting a non-empty authors label at `", "` gives back the author names one by one, as long as none contains the separator. |
| BookLabels.DecodedAuthorsLabel | HackerBooksPro/Model/Book+CoreDataClass.swift:42-64 | Take a book just decoded, with author names unique beforehand. Its authors label, in any iteration order of its author set, splits into the record's author names: each one once, and nothing else. |
| BookLabels.LabelOfNamedAuthors | HackerBooksPro/Model/Book+CoreDataClass.swift:52-61 | Take a set holding exactly the authors whose names are listed, from a table of unique names. Its label splits into the listed names, each once. |
| BookLabels.DistinctNamesInOrder | HackerBooksPro/Model/Book+CoreDataClass.swift:52-55 | Iterating a set of authors with unique names never yields a name twice. |
| BookLabels.OtherTagNames | HackerBooksPro/Model/Book+CoreDataClass.swift:86-90 | There are no more other names than rows. |
| BookLabels.TagRowsPartition | HackerBooksPro/Model/Book+CoreDataClass.swift:80-95 | Every row's name goes to exactly one of the favorites rows and the other names. The remembered favorites name is that of a favorites row. |
| BookLabels.TagRowSnoc | HackerBooksPro/Model/Book+CoreDataClass.swift:80-90 | One more row, seen in iteration order: a favorites row becomes the favorites name, and any other row appends its name to the other names. |
| BookLabels.TagRowStep | HackerBooksPro/Model/Book+CoreDataClass.swift:80-94 | One loop pass: a favorites row replaces the remembered favorites name, and any other row appends its name. |
| BookLabels.ListingSnoc | HackerBooksPro/Model/Book+CoreDataClass.swift:88-93 | Writing one more name appends it, followed by `", "` exactly when the count so far is below the size of the relationship. |
| BookLabels.TagsToString | HackerBooksPro/Model/Book+CoreDataClass.swift:69-103 | The result is the tags label as written: the placeholder for a nil or empty relationship. Otherwise the favorites name goes first, followed by `", "` and the listed other names when there are some. |
| BookLabels.ListingJoin | HackerBooksPro/Model/Book+CoreDataClass.swift:91-93 | If all rows are other names, the listing has separators only between names. If fewer are, every listed name is followed by `", "`, including the last. |
| BookLabels.NoFavoriteNames | HackerBooksPro/Model/Book+CoreDataClass.swift:80-90 | Without a favorites row there is no favorites name, and every row's name is listed. |
| BookLabels.TagLabelNoFavorite | HackerBooksPro/Model/Book+CoreDataClass.swift:80-95 | A book with tags and no favorites row is labelled with its tag names joined by `", "`, with no trailing separator. |
| BookLabels.TagLabelFavoriteOnly | HackerBooksPro/Model/Book+CoreDataClass.swift:97-100 | A favorite book with no other tag is labelled with exactly the favorites name. |
| BookLabels.TagLabelFavoriteWithOthers | HackerBooksPro/Model/Book+CoreDataClass.swift:91-100 | A favorite book with other tags is labelled: favorites name, `", "`, the other names joined, then a trailing `", "`. |
| BookLabels.FavoriteRowCounted | HackerBooksPro/Model/Book+CoreDataClass.swift:82-93 | A non-empty favorites name means a favorites row exists, so fewer names are listed than the relationship holds. |
| BookLabels.TagLabelFavoriteWithOthersSplit | HackerBooksPro/Model/Book+CoreDataClass.swift:91-93 | Splitting that label at `", "` gives the favorites name, the other names and an extra empty piece. |
| BookLabels.TagLabelTrailingSeparator | HackerBooksPro/Model/Book+CoreDataClass.swift:91-93 | The favorites tag plus a "Swift" tag is labelled `My Favorites, Swift, `. |
| BookLabels.BookTagsOfLinks | HackerBooksPro/JsonProcessing.swift:182-196 | The BookTags created for a record's tag pieces point inside the tag table, and the tags they lead to are named by the pieces, one for one, in order. |
| BookLabels.DecodedBookTags | HackerBooksPro/JsonProcessing.swift:176-196 | After decoding a record, the book's BookTags, in table order, lead to tags named exactly by the record's tag pieces. |
| BookLabels.LinkedNoFavorite | HackerBooksPro/Model/Book+CoreDataClass.swift:86 | A book linked to no tag named like the favorites proxy, in a table whose only favorites tags carry that name, has no favorites row. |
| BookLabels.DecodedTagsLabelJoin | HackerBooksPro/Model/Book+CoreDataClass.swift:69-103 | A book just decoded, in a store without a favorites tag and with no piece named `_favorites`, is labelled with its record's tag pieces joined by `", "`. |
| BookLabels.DecodedTagsLabel | HackerBooksPro/JsonProcessing.swift:142-144 | Under the same conditions, the tags label of the decoded book is the record's `tags` string itself. |
| BookLabels.TagsToStringCorrected | HackerBooksPro/Model/Book+CoreDataClass.swift:69-103 | With the separator written before every other name but the first, the label is the favorites name, if any, followed by the other names, with separators only between neighbours. |
| BookLabels.IntendedTagLabelSplit | HackerBooksPro/Model/Book+CoreDataClass.swift:69-103 | The corrected label of a favorite book splits back into the favorites name and the other names, with no empty piece. |
| BookLabels.TagLabelAgreesWithoutFavorite | HackerBooksPro/Model/Book+CoreDataClass.swift:91-93 | Without a favorites row, the label as written and the corrected label agree. |
| BookViewController.FavoriteTags | HackerBooksPro/Controllers/BookViewController.swift:102-105 | The favorites-tag fetch returns, in table order, exactly the tags whose sorting proxy is `_favorites`. |
| BookViewController.FavoriteLinks | HackerBooksPro/Controllers/BookViewController.swift:91-95 | The link fetch returns, in table order, exactly the BookTags linking the book to a tag sorting by `_favorites`. |
| BookViewController.RemoveAt | HackerBooksPro/Controllers/BookViewController.swift:116 | Deleting a row removes exactly that row: one row fewer, and the same rows otherwise. |
| BookViewController.ToggleFavorite | HackerBooksPro/Controllers/BookViewController.swift:88-122 | With no favorites link, a link to the first favorites tag is inserted, so the count goes from 0 to 1. Otherwise the first link is deleted, so the count drops by one. Only the BookTag table changes. Validity is preserved. |
| BookViewController.FavoriteLinksConcat | HackerBooksPro/Controllers/BookViewController.swift:91-95 | The link fetch over two parts of a table returns as many links as over each part, added up. |
| BookViewController.AppendedLinkCounted | HackerBooksPro/Controllers/BookViewController.swift:91-95 | Inserting a favorites link of the book adds one to what the link fetch returns. |
| BookViewController.RemovedLinkCounted | HackerBooksPro/Controllers/BookViewController.swift:91-95 | Deleting a favorites link of the book takes one from what the link fetch returns. |
| BookViewController.ToggledFlips | HackerBooksPro/Controllers/BookViewController.swift:97-118 | A press makes a book with no favorites link have exactly one, and takes one link from a book that has some. |
| BookViewController.ToggledFrame | HackerBooksPro/Controllers/BookViewController.swift:97-118 | A press changes only the BookTag table. Every BookTag other than a favorites link of this book keeps its multiplicity. |
| BookViewController.ToggledValid | HackerBooksPro/Controllers/BookViewController.swift:97-118 | A press on an existing book keeps every relationship pointing at an existing object. |
| BookViewController.ToggledTwiceFromNone | HackerBooksPro/Controllers/BookViewController.swift:97-118 | On a book with no favorites link, two presses restore the store exactly. |
| BookViewController.ToggledTwiceFromOne | HackerBooksPro/Controllers/BookViewController.swift:97-118 | On a book with exactly one favorites link, and with a single favorites tag, two presses restore the same BookTags, the link moved to the end of the table. |
| BookViewController.DecodeListEnablesToggle | HackerBooksPro/JsonProcessing.swift:116-118 | After decoding a catalog a favorites tag exists, so the button's force-unwrapped fetch cannot come back empty. |

## Left out

- Downloading the catalog, caching it on disk and the dispatch queues around them (`generateData`, `downloadJson`, the async download helpers): I/O and threading.
- Parsing JSON text (`JSONSerialization`): a foreign library. The decoder starts from an already parsed list of key/value maps. Numbers in `JsonValue` are integers, since the decoder never reads a number.
- `NSURL(string:)`: a foreign parser, given as the parameter `validUrl`.
- The Core Data stack: saving the context (`context.save()` after each toggle), autosave, and the context hierarchy. A save does not change the object graph, so the model has no save.
- Fetch failure (`CoreDataError.fetchRequestFailure`): an in-memory table lookup cannot fail.
- Inverse relationships (`Author.books`, `Book.bookTags`, `Tag.bookTags`, the cover's and pdf's book): they are not stored. `Book.bookTags` is read off the BookTag table by `Model.BookTagsOf`, which is what `BookLabels.DecodedBookTags` and `BookLabels.DecodedTagsLabel` use. No member computes the other inverses.
- `BookLabels.DecodedTagsLabel`: the decoded book's BookTags are taken in table order, not in some `NSSet` order. The lemma also asks for a store without a favorites tag and for no tag piece named `_favorites`, since a favorites row changes the label (see "## Findings").
- Fetch order: `first` of an unsorted fetch is the lowest index in its table. The tag fetch's descending sort by name ties among equal names, and the tie is also broken by table order.
- Iteration order of an `NSSet` is given, not computed. Any order is allowed where a lemma quantifies over it (`BookLabels.DecodedAuthorsLabel`).
- The shared fetch request's predicate being reassigned each loop pass: the model uses a fresh fetch per name, which finds the same objects.
- Object deletion shifts the indices of later BookTags. Nothing refers to a BookTag by index, so no relationship is affected.
- `BookViewController.ToggledTwiceFromOne`: only for a store with a single favorites tag. With several, a press after deleting a link to a later favorites tag links the first one instead, and the rows differ.
- `JsonProcessing.DecodeListUnique`: tag names are promised unique only when no record names a tag "My Favorites" and the store has none. The favorites tag is created at JsonProcessing.swift:118 without a fetch by name, so such a record leaves two tags of that name (`JsonProcessing.FavoritesNameClash`).
- Strings are sequences of characters compared exactly. `components(separatedBy:)` searches through NSString's UTF-16 view. It may not split where ", " is followed by a combining mark, and the model does not capture that.
- The diagnostic `print` calls (JsonProcessing.swift:104 and 112, BookViewController.swift:99 and 114): console output only.
- The nil case of `authorsToString` and `tagsToString` is modelled as `None`. The force-unwrapped name and tag of each row are always present in the model.
- All view code other than the favorite toggle's store update (`syncViewFromModel`, table/collection views, map, photo and PDF screens), image resizing, and date formatting: UI and framework calls.

## Findings

| source | as written | input that shows it | evidently intended | confidence | as-written member | corrected member |
|---|---|---|---|---|---|---|
| HackerBooksPro/Model/Book+CoreDataClass.swift:91-93 | After each non-favorite name, the separator is written while the count of names written is below the size of the whole relationship. The favorites row counts toward that size, so with the favorites tag and at least one other tag, the last name is followed by `", "`. | A book whose BookTags point to "My Favorites" (`_favorites`) and "Swift": the label is `My Favorites, Swift, `. | `My Favorites, Swift`: separators only between names. | not executed; high | BookLabels.TagLabelTrailingSeparator | BookLabels.TagsToStringCorrected |

/**
 * The collaborators the search core calls but whose code is not part of this model:
 * `Character.isLetter` / `Character.toLowerCase`, the query tokenizer, the `Ari`
 * address packing and the lid-to-address tables.  They are carried as total
 * functions inside one record, so every property proved below holds for ANY
 * implementation of them, unless a lemma states an extra law it needs.
 *
 * The corpus accessor (`Version`) is modelled as plain data.
 */
module Collaborators {
  import opened Wrappers

  datatype Env = Env(
    // java.lang.Character
    isLetter: char -> bool,
    toLowerCase: char -> char,
    // QueryTokenizer
    tokenize: string -> seq<string>,
    isPlussedToken: string -> bool,
    tokenWithoutPlus: string -> string,
    isMultiwordToken: string -> bool,
    tokenizeMultiwordToken: string -> seq<string>,
    // Ari: compact (book, chapter, verse) addresses
    toBookChapter: int -> int,
    toBook: int -> int,
    toChapter: int -> int,
    toVerse: int -> int,
    encode: (int, int, int) -> int,
    // LidToAri: the dense verse numbering used as index rows
    lidToAri: int -> int,
    bookIdForLid: int -> int)

  /** `SearchEngine.Query`: the raw query string and the selected books (null = none given). */
  datatype Query = Query(queryString: string, bookIds: Option<set<int>>)

  datatype Book = Book(bookId: int, chapterCount: int)

  /**
   * A corpus edition: its books in canonical order, each chapter's lowercased text
   * with verses joined by '\n', and each chapter's lowercased verses one by one.
   * A missing map entry is a chapter the accessor cannot load.
   */
  datatype Version = Version(
    books: seq<Book>,
    chapterText: map<(int, int), string>,
    chapterVerses: map<(int, int), seq<string>>)

  /** `Version.getBook`: the first book of `books` with that id, if any. */
  function GetBook(books: seq<Book>, bookId: int): (r: Option<Book>)
    ensures r.Some? ==> r.value in books && r.value.bookId == bookId
    ensures r.None? ==> forall b :: b in books ==> b.bookId != bookId
  {
    if books == [] then None
    else if books[0].bookId == bookId then Some(books[0])
    else GetBook(books[1..], bookId)
  }

  /** `loadChapterTextLowercasedWithoutSplit(book, chapter)`; absent when it returns null. */
  function ChapterText(version: Version, bookId: int, chapter: int): Option<string>
  {
    if (bookId, chapter) in version.chapterText then Some(version.chapterText[(bookId, chapter)]) else None
  }

  /** `loadChapterTextLowercased(book, chapter)` as a verse list; absent when it returns null. */
  function ChapterVerses(version: Version, bookId: int, chapter: int): Option<seq<string>>
  {
    if (bookId, chapter) in version.chapterVerses then Some(version.chapterVerses[(bookId, chapter)]) else None
  }
}

/** The client's on-device store (client/lib/textbookStorage.ts): a list
    of textbooks and a list of purchases kept under two storage keys, the
    read-modify-write operations on them and the queries over them. */
module LocalStore {
  import opened Common

  /** A textbook as the client stores it (the fields the store reads, plus
      the listing fields). */
  datatype Book = Book(
    id: string,
    title: string,
    description: string,
    author: string,
    price: int,
    lecturerId: string,
    lecturerName: string,
    category: string)

  /** A purchase as the client stores it. */
  datatype Sale = Sale(id: string, textbookId: string, studentId: string, amount: int, createdAt: string)

  // ---------------------------------------------------------------------
  // Queries over the stored lists
  // ---------------------------------------------------------------------

  /** `textbooks.find((t) => t.id === id) || null`. */
  function BookById(books: seq<Book>, id: string): (r: Option<Book>)
    ensures r.Some? ==> exists i :: 0 <= i < |books| && books[i] == r.value && books[i].id == id
                                    && forall j :: 0 <= j < i ==> books[j].id != id
    ensures r.None? <==> forall b :: b in books ==> b.id != id
  {
    match FirstWithId(books, id)
    case None => None
    case Some(i) => Some(books[i])
  }

  /** `textbooks.findIndex((t) => t.id === id)`, with `None` for -1. */
  function FirstWithId(books: seq<Book>, id: string): (r: Option<nat>)
    ensures r.Some? ==> r.value < |books| && books[r.value].id == id
    ensures r.Some? ==> forall j :: 0 <= j < r.value ==> books[j].id != id
    ensures r.None? <==> forall b :: b in books ==> b.id != id
  {
    if books == [] then None
    else if books[0].id == id then Some(0)
    else match FirstWithId(books[1..], id)
      case None =>
        assert forall b :: b in books ==> b == books[0] || b in books[1..];
        None
      case Some(k) => Some(k + 1)
  }

  /** `getTextbooksByLecturer`. */
  function BooksByLecturer(books: seq<Book>, lecturerId: string): (r: seq<Book>)
    ensures |r| <= |books|
    ensures forall b :: b in r <==> b in books && b.lecturerId == lecturerId
  {
    Filter(books, (b: Book) => b.lecturerId == lecturerId)
  }

  /** `getTextbooksByCategory`. */
  function BooksByCategory(books: seq<Book>, category: string): (r: seq<Book>)
    ensures |r| <= |books|
    ensures forall b :: b in r <==> b in books && b.category == category
  {
    Filter(books, (b: Book) => b.category == category)
  }

  /** `getPurchasesByStudent`. */
  function SalesOfStudent(sales: seq<Sale>, studentId: string): (r: seq<Sale>)
    ensures |r| <= |sales|
    ensures forall s :: s in r <==> s in sales && s.studentId == studentId
  {
    Filter(sales, (s: Sale) => s.studentId == studentId)
  }

  /** The lecturer, category and student filters list each entry as often
      as it is stored and nothing else. */
  lemma FiltersCount(books: seq<Book>, sales: seq<Sale>, lecturerId: string, category: string, studentId: string,
                     b: Book, s: Sale)
    ensures multiset(BooksByLecturer(books, lecturerId))[b] == if b.lecturerId == lecturerId then multiset(books)[b] else 0
    ensures multiset(BooksByCategory(books, category))[b] == if b.category == category then multiset(books)[b] else 0
    ensures multiset(SalesOfStudent(sales, studentId))[s] == if s.studentId == studentId then multiset(sales)[s] else 0
  {
    FilterMultiplicity(books, (x: Book) => x.lecturerId == lecturerId, b);
    FilterMultiplicity(books, (x: Book) => x.category == category, b);
    FilterMultiplicity(sales, (x: Sale) => x.studentId == studentId, s);
  }

  /** The same filters keep stored order. */
  lemma FiltersKeepOrder(front: seq<Book>, back: seq<Book>, early: seq<Sale>, late: seq<Sale>,
                         lecturerId: string, category: string, studentId: string)
    ensures BooksByLecturer(front + back, lecturerId) == BooksByLecturer(front, lecturerId) + BooksByLecturer(back, lecturerId)
    ensures BooksByCategory(front + back, category) == BooksByCategory(front, category) + BooksByCategory(back, category)
    ensures SalesOfStudent(early + late, studentId) == SalesOfStudent(early, studentId) + SalesOfStudent(late, studentId)
  {
    FilterAppend(front, back, (x: Book) => x.lecturerId == lecturerId);
    FilterAppend(front, back, (x: Book) => x.category == category);
    FilterAppend(early, late, (x: Sale) => x.studentId == studentId);
  }

  /** Some stored purchase pairs `studentId` with `textbookId`. */
  ghost predicate Bought(sales: seq<Sale>, studentId: string, textbookId: string) {
    exists s :: s in sales && s.studentId == studentId && s.textbookId == textbookId
  }

  /** `purchases.map((p) => p.textbookId)`. */
  function TextbookIdsOf(sales: seq<Sale>): (ids: seq<string>)
    ensures forall id :: id in ids <==> exists s :: s in sales && s.textbookId == id
  {
    var ids := Map(sales, (s: Sale) => s.textbookId);
    assert forall id :: id in ids ==> exists s :: s in sales && s.textbookId == id by {
      forall id | id in ids ensures exists s :: s in sales && s.textbookId == id {
        var i :| 0 <= i < |ids| && ids[i] == id;
        assert sales[i] in sales;
      }
    }
    assert forall s :: s in sales ==> s.textbookId in ids by {
      forall s | s in sales ensures s.textbookId in ids {
        var i :| 0 <= i < |sales| && sales[i] == s;
        assert ids[i] == s.textbookId;
      }
    }
    ids
  }

  /** `getPurchasedTextbooks`: the catalog entries the student bought. */
  function PurchasedBooks(books: seq<Book>, sales: seq<Sale>, studentId: string): (r: seq<Book>)
    ensures forall b :: b in r <==> b in books && Bought(sales, studentId, b.id)
  {
    var ids := TextbookIdsOf(SalesOfStudent(sales, studentId));
    Filter(books, (b: Book) => b.id in ids)
  }

  /** An entry is listed as often as it is in the catalog, however many
      purchases of it the student holds, so a catalog without repeated
      entries gives a list without repeated entries. */
  lemma PurchasedBooksOncePerEntry(books: seq<Book>, sales: seq<Sale>, studentId: string, b: Book)
    ensures multiset(PurchasedBooks(books, sales, studentId))[b]
            == if Bought(sales, studentId, b.id) then multiset(books)[b] else 0
  {
    var ids := TextbookIdsOf(SalesOfStudent(sales, studentId));
    FilterMultiplicity(books, (x: Book) => x.id in ids, b);
  }

  /** The purchased entries keep the catalog's order. */
  lemma PurchasedBooksKeepOrder(front: seq<Book>, back: seq<Book>, sales: seq<Sale>, studentId: string)
    ensures PurchasedBooks(front + back, sales, studentId)
         == PurchasedBooks(front, sales, studentId) + PurchasedBooks(back, sales, studentId)
  {
    var ids := TextbookIdsOf(SalesOfStudent(sales, studentId));
    FilterAppend(front, back, (b: Book) => b.id in ids);
  }

  /** `hasPurchasedTextbook`. */
  function HasPurchased(sales: seq<Sale>, studentId: string, textbookId: string): (r: bool)
    ensures r <==> Bought(sales, studentId, textbookId)
  {
    exists s :: s in SalesOfStudent(sales, studentId) && s.textbookId == textbookId
  }

  /** `getSalesCountByLecturer`: the purchases of the lecturer's textbooks,
      each purchase counted, repeated ones included. */
  function SalesCount(books: seq<Book>, sales: seq<Sale>, lecturerId: string): (n: nat)
    ensures n <= |sales|
  {
    var ids := Map(BooksByLecturer(books, lecturerId), (b: Book) => b.id);
    |Filter(sales, (s: Sale) => s.textbookId in ids)|
  }

  /** Recording one more purchase raises the count by one exactly when it
      is for one of the lecturer's textbooks. */
  lemma SalesCountAfterSale(books: seq<Book>, sales: seq<Sale>, lecturerId: string, s: Sale)
    ensures SalesCount(books, sales + [s], lecturerId)
         == SalesCount(books, sales, lecturerId)
            + if exists b :: b in books && b.lecturerId == lecturerId && b.id == s.textbookId then 1 else 0
  {
    var mine := BooksByLecturer(books, lecturerId);
    var ids := Map(mine, (b: Book) => b.id);
    FilterAppend(sales, [s], (x: Sale) => x.textbookId in ids);
    if s.textbookId in ids {
      var i :| 0 <= i < |ids| && ids[i] == s.textbookId;
      assert mine[i] in mine;
    }
  }

  /** `toLowerCase()` then `includes` on one field. */
  predicate FieldMatches(field: string, query: string) {
    Contains(Lower(field), Lower(query))
  }

  /** `searchTextbooks`' test: the query in the title, author, category or
      description, ignoring case. */
  predicate SearchMatches(b: Book, query: string) {
    || FieldMatches(b.title, query) || FieldMatches(b.author, query)
    || FieldMatches(b.category, query) || FieldMatches(b.description, query)
  }

  /** `searchTextbooks`. */
  function Search(books: seq<Book>, query: string): (r: seq<Book>)
    ensures |r| <= |books|
    ensures forall b :: b in r <==> b in books && SearchMatches(b, query)
  {
    Filter(books, (b: Book) => SearchMatches(b, query))
  }

  /** The empty query lists every textbook, in order. */
  lemma EmptySearchListsAll(books: seq<Book>)
    ensures Search(books, "") == books
  {
    forall i | 0 <= i < |books| ensures SearchMatches(books[i], "") {
      ContainsEmpty(Lower(books[i].title));
    }
    FilterAll(books, (b: Book) => SearchMatches(b, ""));
  }

  /** A search lists each matching entry as often as it is stored, nothing
      else, and in stored order. */
  lemma SearchCountAndOrder(front: seq<Book>, back: seq<Book>, query: string, b: Book)
    ensures multiset(Search(front + back, query))[b]
            == if SearchMatches(b, query) then multiset(front + back)[b] else 0
    ensures Search(front + back, query) == Search(front, query) + Search(back, query)
  {
    FilterMultiplicity(front + back, (x: Book) => SearchMatches(x, query), b);
    FilterAppend(front, back, (x: Book) => SearchMatches(x, query));
  }

  /** Searching ignores the case of the query. */
  lemma SearchIgnoresQueryCase(books: seq<Book>, q1: string, q2: string)
    requires Lower(q1) == Lower(q2)
    ensures Search(books, q1) == Search(books, q2)
  {
    FilterCongruent(books, (b: Book) => SearchMatches(b, q1), (b: Book) => SearchMatches(b, q2));
  }

  /** `textbooks.filter((t) => t.id !== id)`. */
  function WithoutId(books: seq<Book>, id: string): (r: seq<Book>)
    ensures |r| <= |books|
    ensures forall b :: b in r <==> b in books && b.id != id
  {
    Filter(books, (b: Book) => b.id != id)
  }

  /** Deleting keeps every other entry, as often as it was there, in the
      same relative order. */
  lemma WithoutIdKeepsOthers(front: seq<Book>, back: seq<Book>, id: string, b: Book)
    ensures WithoutId(front + back, id) == WithoutId(front, id) + WithoutId(back, id)
    ensures multiset(WithoutId(front + back, id))[b] == if b.id != id then multiset(front + back)[b] else 0
  {
    FilterAppend(front, back, (x: Book) => x.id != id);
    FilterMultiplicity(front + back, (x: Book) => x.id != id, b);
  }

  // ---------------------------------------------------------------------
  // The two storage keys
  // ---------------------------------------------------------------------

  class TextbookStorage {
    /** The value under the `textbooks` key; `None` until first written. */
    var textbooksItem: Option<seq<Book>>
    /** The value under the `purchases` key; `None` until first written. */
    var purchasesItem: Option<seq<Sale>>

    constructor ()
      ensures textbooksItem == None && purchasesItem == None
    {
      textbooksItem := None;
      purchasesItem := None;
    }

    /** `getAllTextbooks`: the stored list, or `[]` when nothing is stored. */
    function AllTextbooks(): (r: seq<Book>)
      reads this
      ensures textbooksItem.None? ==> r == []
      ensures textbooksItem.Some? ==> r == textbooksItem.value
    {
      if textbooksItem.Some? then textbooksItem.value else []
    }

    /** `getAllPurchases`: the stored list, or `[]` when nothing is stored. */
    function AllPurchases(): (r: seq<Sale>)
      reads this
      ensures purchasesItem.None? ==> r == []
      ensures purchasesItem.Some? ==> r == purchasesItem.value
    {
      if purchasesItem.Some? then purchasesItem.value else []
    }

    /** `getTextbookById`: an entry of the stored list with the id, or null
        exactly when none has it. */
    function GetTextbookById(id: string): (r: Option<Book>)
      reads this
      ensures r.Some? ==> r.value in AllTextbooks() && r.value.id == id
      ensures r.None? <==> forall b :: b in AllTextbooks() ==> b.id != id
      ensures r == BookById(AllTextbooks(), id)
    {
      BookById(AllTextbooks(), id)
    }

    /** `getTextbooksByLecturer` on the stored list. */
    function GetTextbooksByLecturer(lecturerId: string): (r: seq<Book>)
      reads this
      ensures forall b :: b in r <==> b in AllTextbooks() && b.lecturerId == lecturerId
      ensures r == BooksByLecturer(AllTextbooks(), lecturerId)
    {
      BooksByLecturer(AllTextbooks(), lecturerId)
    }

    /** `getTextbooksByCategory` on the stored list. */
    function GetTextbooksByCategory(category: string): (r: seq<Book>)
      reads this
      ensures forall b :: b in r <==> b in AllTextbooks() && b.category == category
      ensures r == BooksByCategory(AllTextbooks(), category)
    {
      BooksByCategory(AllTextbooks(), category)
    }

    /** `getPurchasesByStudent` on the stored purchases. */
    function GetPurchasesByStudent(studentId: string): (r: seq<Sale>)
      reads this
      ensures forall s :: s in r <==> s in AllPurchases() && s.studentId == studentId
      ensures r == SalesOfStudent(AllPurchases(), studentId)
    {
      SalesOfStudent(AllPurchases(), studentId)
    }

    /** `getPurchasedTextbooks` on the two stored lists. */
    function GetPurchasedTextbooks(studentId: string): (r: seq<Book>)
      reads this
      ensures forall b :: b in r <==> b in AllTextbooks() && Bought(AllPurchases(), studentId, b.id)
      ensures r == PurchasedBooks(AllTextbooks(), AllPurchases(), studentId)
    {
      PurchasedBooks(AllTextbooks(), AllPurchases(), studentId)
    }

    /** `hasPurchasedTextbook` on the stored purchases. */
    function HasPurchasedTextbook(studentId: string, textbookId: string): (r: bool)
      reads this
      ensures r <==> Bought(AllPurchases(), studentId, textbookId)
      ensures r == HasPurchased(AllPurchases(), studentId, textbookId)
    {
      HasPurchased(AllPurchases(), studentId, textbookId)
    }

    /** `getSalesCountByLecturer` on the two stored lists. */
    function GetSalesCountByLecturer(lecturerId: string): (n: nat)
      reads this
      ensures n <= |AllPurchases()|
      ensures n == SalesCount(AllTextbooks(), AllPurchases(), lecturerId)
    {
      SalesCount(AllTextbooks(), AllPurchases(), lecturerId)
    }

    /** `searchTextbooks` on the stored list. */
    function SearchTextbooks(query: string): (r: seq<Book>)
      reads this
      ensures forall b :: b in r <==> b in AllTextbooks() && SearchMatches(b, query)
      ensures r == Search(AllTextbooks(), query)
    {
      Search(AllTextbooks(), query)
    }

    /** `addTextbook`: append, with no duplicate check. */
    method AddTextbook(b: Book)
      modifies this
      ensures textbooksItem == Some(old(AllTextbooks()) + [b])
      ensures purchasesItem == old(purchasesItem)
    {
      var books := AllTextbooks();
      textbooksItem := Some(books + [b]);
    }

    /** `updateTextbook`: replace the first entry with the same id; write
        nothing when there is none. */
    method UpdateTextbook(b: Book)
      modifies this
      ensures FirstWithId(old(AllTextbooks()), b.id).None? ==> textbooksItem == old(textbooksItem)
      ensures FirstWithId(old(AllTextbooks()), b.id).Some? ==>
                textbooksItem == Some(old(AllTextbooks())[FirstWithId(old(AllTextbooks()), b.id).value := b])
      ensures purchasesItem == old(purchasesItem)
    {
      var books := AllTextbooks();
      var index := FirstWithId(books, b.id);
      if index.Some? {
        textbooksItem := Some(books[index.value := b]);
      }
    }

    /** `deleteTextbook`: write back every entry with another id. */
    method DeleteTextbook(id: string)
      modifies this
      ensures textbooksItem == Some(WithoutId(old(AllTextbooks()), id))
      ensures purchasesItem == old(purchasesItem)
    {
      var books := AllTextbooks();
      textbooksItem := Some(WithoutId(books, id));
    }

    /** `addPurchase`: append, with no duplicate check. */
    method AddPurchase(s: Sale)
      modifies this
      ensures purchasesItem == Some(old(AllPurchases()) + [s])
      ensures textbooksItem == old(textbooksItem)
    {
      var sales := AllPurchases();
      purchasesItem := Some(sales + [s]);
    }
  }

  /** Replacing the first entry with an id keeps the length, the entry's
      position and every other entry. */
  lemma ReplaceFirstKeepsOthers(books: seq<Book>, b: Book)
    requires FirstWithId(books, b.id).Some?
    ensures var i := FirstWithId(books, b.id).value;
      && |books[i := b]| == |books|
      && books[i := b][i] == b
      && (forall j :: 0 <= j < |books| && j != i ==> books[i := b][j] == books[j])
      && BookById(books[i := b], b.id) == Some(b)
  {
    var i := FirstWithId(books, b.id).value;
    var after := books[i := b];
    assert forall j :: 0 <= j < i ==> after[j].id != b.id;
    var k := FirstWithId(after, b.id);
    assert k.Some? by { assert after[i] in after; }
    assert k.value == i;
  }
}

/** The component's state and its event handlers. Each handler is one
    atomic transition; `stored` is the `userData` entry of local storage. */
module AppState {
  import opened Records
  import opened Text
  import opened Sorting
  import opened Pagination
  import opened Query
  import opened Store

  function Flipped(o: SortOrder): SortOrder
  {
    if o == Asc then Desc else Asc
  }

  /** A click on a column header: the current column changes direction,
      another column becomes current and ascending. */
  function SortStep(field: SortField, order: SortOrder, clicked: SortField): (r: (SortField, SortOrder))
    ensures r.0 == clicked
    ensures field == clicked ==> r.1 != order
    ensures field != clicked ==> r.1 == Asc
  {
    if field == clicked then (field, Flipped(order)) else (clicked, Asc)
  }

  /** Two clicks on the current column restore the direction. */
  lemma SortTwiceRestores(field: SortField, order: SortOrder)
    ensures var (f, o) := SortStep(field, order, field); SortStep(f, o, field) == (field, order)
  {
  }

  /** Two clicks on another column leave it current and descending. */
  lemma SortTwiceOnNewColumn(field: SortField, order: SortOrder, clicked: SortField)
    requires field != clicked
    ensures var (f, o) := SortStep(field, order, clicked); SortStep(f, o, clicked) == (clicked, Desc)
  {
  }

  class App {
    /** The browser's `toLowerCase` and `localeCompare`. */
    const lower: string -> string
    const localeCompare: (string, string) -> int

    var data: seq<Record>
    var formData: Record
    var editIndex: Option<int>
    var searchTerm: string
    var sortField: SortField
    var sortOrder: SortOrder
    var currentPage: int
    var stored: seq<Record>

    /** Pages are counted from 1, and an edited position is never negative. */
    ghost predicate Valid()
      reads this
    {
      currentPage >= 1 && (editIndex.Some? ==> editIndex.value >= 0)
    }

    /** What the current state renders. */
    function Render(): ViewSlice
      reads this
    {
      View(data, searchTerm, SortSpec(localeCompare, sortField, sortOrder), currentPage, lower)
    }

    /** The initial state, once the mount effect has loaded the stored list
        (an absent entry reads as the empty list). */
    constructor (persisted: seq<Record>, lower: string -> string, localeCompare: (string, string) -> int)
      ensures Valid()
      ensures data == persisted && stored == persisted
      ensures formData == EmptyForm && editIndex == None
      ensures searchTerm == "" && sortField == Name && sortOrder == Asc && currentPage == 1
      ensures this.lower == lower && this.localeCompare == localeCompare
    {
      this.lower := lower;
      this.localeCompare := localeCompare;
      data := persisted;
      formData := EmptyForm;
      editIndex := None;
      searchTerm := "";
      sortField := Name;
      sortOrder := Asc;
      currentPage := 1;
      stored := persisted;
    }

    /** The form's submit: a new record is appended, an edited one written
        back at its position; the form is cleared and the stored copy
        becomes the old list followed by the form, in both modes. */
    method Submit()
      requires Valid()
      requires editIndex.Some? ==> editIndex.value <= |data|
      modifies this`data, this`formData, this`editIndex, this`stored
      ensures Valid()
      ensures old(editIndex).None? ==> data == old(data) + [old(formData)]
      ensures old(editIndex).Some? && old(editIndex).value < |old(data)| ==>
        data == old(data)[old(editIndex).value := old(formData)]
      ensures old(editIndex).Some? && old(editIndex).value == |old(data)| ==>
        data == old(data) + [old(formData)]
      ensures editIndex == None && formData == EmptyForm
      ensures stored == old(data) + [old(formData)]
      ensures old(editIndex).Some? && old(editIndex).value < |old(data)| ==>
        |data| == |old(data)| && |stored| == |data| + 1
    {
      var previous, draft := data, formData;
      if editIndex.Some? {
        var newData := data;
        var i := editIndex.value;
        if i < |newData| {
          newData := newData[i := formData];
        } else {
          newData := newData + [formData];
        }
        data := newData;
        editIndex := None;
      } else {
        data := data + [formData];
      }
      formData := EmptyForm;
      stored := previous + [draft];
    }

    /** The Edit button of a row: loads that position of the stored list
        into the form and remembers it. */
    method Edit(row: int)
      requires Valid()
      requires 0 <= row < |data|
      modifies this`formData, this`editIndex
      ensures Valid()
      ensures formData == data[row] && editIndex == Some(row)
    {
      formData := data[row];
      editIndex := Some(row);
    }

    /** The Delete button of a row: drops that position of the stored list,
        if there is one, and stores the result. The page is left as it is. */
    method Delete(row: int)
      requires Valid()
      modifies this`data, this`stored
      ensures Valid()
      ensures 0 <= row < |old(data)| ==> data == old(data)[..row] + old(data)[row + 1..]
      ensures !(0 <= row < |old(data)|) ==> data == old(data)
      ensures stored == data
    {
      data := WithoutIndex(data, row);
      stored := data;
    }

    /** A header click. */
    method Sort(field: SortField)
      requires Valid()
      modifies this`sortField, this`sortOrder
      ensures Valid()
      ensures (sortField, sortOrder) == SortStep(old(sortField), old(sortOrder), field)
    {
      if sortField == field {
        sortOrder := Flipped(sortOrder);
      } else {
        sortField := field;
        sortOrder := Asc;
      }
    }

    /** Typing in the search box: a new term, back to page 1. */
    method Search(term: string)
      requires Valid()
      modifies this`searchTerm, this`currentPage
      ensures Valid()
      ensures searchTerm == term && currentPage == 1
    {
      searchTerm := term;
      currentPage := 1;
    }

    /** The Previous button, disabled on page 1. */
    method Previous()
      requires Valid()
      modifies this`currentPage
      ensures Valid()
      ensures currentPage == PreviousPage(old(currentPage))
    {
      if currentPage != 1 {
        currentPage := currentPage - 1;
      }
    }

    /** The Next button, disabled when the page equals the page count. */
    method Next()
      requires Valid()
      modifies this`currentPage
      ensures Valid()
      ensures currentPage == NextPage(old(currentPage), Render().totalPages)
    {
      var totalPages := Render().totalPages;
      if currentPage != totalPages {
        currentPage := currentPage + 1;
      }
    }
  }

  /** A list whose records all tie on the sort column is already sorted. */
  lemma AllTiedIsSorted(sp: SortSpec, s: seq<Record>)
    requires ConsistentComparator(sp.localeCompare)
    requires forall i :: 0 <= i < |s| ==> Tie(sp, s[i], s[0])
    ensures Sort(sp, s) == s
  {
    if s != [] {
      var cmp, f := sp.localeCompare, sp.field;
      forall i, j | 0 <= i < j < |s| ensures Precedes(sp, s[i], s[j]) {
        TiesAreEquivalence(cmp, Key(s[j], f), Key(s[0], f), Key(s[0], f));
        TiesAreEquivalence(cmp, Key(s[i], f), Key(s[0], f), Key(s[j], f));
      }
      SortIsUnique(sp, s, s);
    }
  }

  /** The Edit and Delete buttons pass a row's position on the page, and the
      handlers use it as a position in the stored list. With four records
      that tie on the sort column and an empty search, page 2 shows only the
      fourth record, yet its buttons (row 0) act on the first. */
  lemma RowIndexIsNotStoredIndex(data: seq<Record>, term: string, cmp: (string, string) -> int, lower: string -> string)
    requires ConsistentComparator(cmp) && lower(term) == ""
    requires |data| == 4 && forall i :: 0 <= i < |data| ==> data[i].name == data[0].name
    requires data[0] != data[3]
    ensures View(data, term, SortSpec(cmp, Name, Asc), 2, lower).items == [data[3]]
    ensures View(data, term, SortSpec(cmp, Name, Asc), 2, lower).totalPages == 2
  {
    var sp := SortSpec(cmp, Name, Asc);
    EmptySearchKeepsAll(data, term, lower);
    forall i | 0 <= i < |data| ensures Tie(sp, data[i], data[0]) {
      TiesAreEquivalence(cmp, data[0].name, data[0].name, data[0].name);
    }
    AllTiedIsSorted(sp, data);
    assert PageItems(data, 2) == data[3..4];
  }

  /** With a search term that lower-cases to empty, the page count is that
      of the whole stored list. */
  lemma FullListPageCount(data: seq<Record>, term: string, sp: SortSpec, page: int, lower: string -> string)
    requires lower(term) == ""
    ensures View(data, term, sp, page, lower).totalPages == PageCount(|data|)
  {
    EmptySearchKeepsAll(data, term, lower);
  }

  /** A stored list of at most one page shows nothing on page 2. */
  lemma ShortListSecondPageEmpty(data: seq<Record>, term: string, sp: SortSpec, lower: string -> string)
    requires |data| <= ItemsPerPage
    ensures View(data, term, sp, 2, lower).items == []
  {
  }

  /** Three stored records and a search term that lower-cases to empty:
      one page, and page 2 shows nothing. */
  lemma ThreeRecordsOnPageTwo(data: seq<Record>, term: string, sp: SortSpec, lower: string -> string)
    requires |data| == 3 && lower(term) == ""
    ensures View(data, term, sp, 2, lower).totalPages == 1
    ensures View(data, term, sp, 2, lower).items == []
  {
    FullListPageCount(data, term, sp, 2, lower);
    ShortListSecondPageEmpty(data, term, sp, lower);
  }

  /** A client of the handlers: a fresh component over four stored records,
      after one press of Next, is on page 2 of 2. */
  method OpenSecondPage(data: seq<Record>, lower: string -> string, cmp: (string, string) -> int)
    returns (app: App)
    requires |data| == 4 && lower("") == ""
    ensures fresh(app) && app.Valid()
    ensures app.data == data && app.searchTerm == "" && app.lower == lower
    ensures app.sortField == Name && app.sortOrder == Asc && app.localeCompare == cmp
    ensures app.currentPage == 2 && app.Render().totalPages == 2
  {
    app := new App(data, lower, cmp);
    var sp := SortSpec(cmp, app.sortField, app.sortOrder);
    FullListPageCount(app.data, app.searchTerm, sp, 1, lower);
    app.Next();
    FullListPageCount(app.data, app.searchTerm, sp, 2, lower);
  }

  /** Continuing from page 2 of four records with an empty search, pressing
      Delete on that page's only row (row 0 of the page) removes the first
      stored record, not the one shown, and leaves the page at 2, now past
      the single remaining page, so the table shows no rows. */
  method DeleteLeavesPageUnclamped(data: seq<Record>, lower: string -> string, cmp: (string, string) -> int)
    returns (app: App)
    requires |data| == 4 && lower("") == ""
    ensures fresh(app) && app.Valid()
    ensures app.data == data[1..] && app.stored == app.data
    ensures app.currentPage == 2
    ensures app.Render().totalPages == 1 && app.Render().items == []
  {
    app := OpenSecondPage(data, lower, cmp);
    app.Delete(0);
    assert app.data == data[1..];
    ThreeRecordsOnPageTwo(app.data, app.searchTerm, SortSpec(cmp, app.sortField, app.sortOrder), lower);
  }
}

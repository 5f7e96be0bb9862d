# Student directory and navigation bar: a Dafny model

This project models the client-side logic of a small Next.js app. The app shows a
searchable, paginated grid of student cards beneath a responsive navigation bar.
The model has three modules:

- `Text` (`text.dfy`) holds the JavaScript string operations the grid relies on.
  `toLowerCase` is modelled for ASCII letters only. `includes` is a scan, proved
  equivalent to "occurs at some position". `split` on one character and its
  inverse `join` come with both round trips.
- `StudentDirectory` (`student_directory.dfy`) covers `components/MainContent.tsx`:
  - the `Student` record and the loader's per-record mapping;
  - the search filter ("some field value, lower-cased, includes the lower-cased
    term");
  - the page count `ceil(n / 12)`, the 12-card page slice and the Prev/Next clamps;
  - the avatar initials;
  - a `Directory` class holding the grid's state (`students`, `searchTerm`,
    `currentPage`). Its methods are the two page buttons and the search box,
    including the effect that resets the page to 1 when the term changes.
- `Navigation` (`navigation.dfy`) covers `components/Navbar.tsx`: the fixed
  `menuItems` table and a `Navbar` class with the two pieces of disclosure state,
  `isOpen` and `openSubmenu`. Its methods are the hamburger button and the
  per-item submenu toggle. Visibility of panels and chevrons is stated as
  predicates over that state.

The model follows the code where it behaves unusually:

- The page count has no floor at 1. When nothing matches, `totalPages` is 0.
  The Next button is then still enabled on page 1, because `1 !== 0`. Clicking
  it moves to page 0, so the grid reads "Page 0 of 0" (`TotalPages`,
  `NextOnEmptyResult`, `EmptyResultNextEnabled`).
- `slice` treats negative indices as counted from the end. The model includes
  this (`SliceIndex`). The only page below 1 that can be reached is 0, and the
  page-0 slice is empty.
- The page reset is a React effect keyed on `searchTerm`. It fires only when the
  term actually changes, so `SetSearch` with an unchanged term changes nothing.
- `toggleSubmenu` twice restores the earlier value only when nothing was open or
  that same item was open. If another item was open, two toggles leave nothing
  open (`ToggleSubmenuTwice` states both directions).
- Submenu panels are drawn inside the `isOpen &&` block. A panel is therefore
  shown only while the mobile menu is open. `openSubmenu` survives closing the
  menu, so reopening it shows the same panel again.

## Model

| member | source | states |
|---|---|---|
| Text.Lower | components/MainContent.tsx:81 | lower-casing keeps the length and lowers each character independently |
| Text.LowerIsLower | components/MainContent.tsx:81 | the lowered string has no ASCII capital left, and lowering twice equals lowering once |
| Text.LowerAppend | components/MainContent.tsx:81 | lowering a concatenation is the concatenation of the lowered parts |
| Text.OccurrenceIsFound | components/MainContent.tsx:81 | if the term occurs at some position of the value, `includes` answers true |
| Text.FoundIsOccurrence | components/MainContent.tsx:81 | if `includes` answers true, the term occurs at some position |
| Text.Contains | components/MainContent.tsx:81 | `includes` as a scan over start positions: a prefix is found, and a found term is no longer than the value; characterised by `ContainsIffOccurs` |
| Text.ContainsIffOccurs | components/MainContent.tsx:81 | `includes` is true exactly when the term occurs as a contiguous substring |
| Text.ContainsTrivial | components/MainContent.tsx:81 | every string includes "" and includes itself |
| Text.SplitFrom | components/MainContent.tsx:231 | splitting yields at least one segment, and no segment contains the separator |
| Text.Split | components/MainContent.tsx:231 | `split(' ')` yields at least one segment (`"".split(' ')` is `[""]`), and no segment contains a space |
| Text.JoinSplitFrom | components/MainContent.tsx:231 | joining the segments produced from a partial segment plus the rest restores that text |
| Text.Join | components/MainContent.tsx:231 | `join` starts with the first part and is at least one separator per gap long; `JoinSplit` and `SplitJoin` make it the inverse of `Split` |
| Text.JoinSplit | components/MainContent.tsx:231 | joining the segments of a split with the same separator gives back the original string |
| Text.SplitFromWord | components/MainContent.tsx:231 | separator-free characters only extend the current segment |
| Text.SplitJoin | components/MainContent.tsx:231 | splitting a join of separator-free segments gives back exactly those segments |
| StudentDirectory.Fields | components/MainContent.tsx:28-38 | a student's `Object.values` are its nine string fields, `id` and `picture` included |
| StudentDirectory.FormatStudent | components/MainContent.tsx:56-66 | name is first + " " + last; location is city + ", " + country; id, email, phone and picture are copied verbatim; major is one of the four labels; dob and gpa are the supplied texts |
| StudentDirectory.LoadStudents | components/MainContent.tsx:56-67 | the loaded list has one student per raw result, in the same order, each mapped by `FormatStudent` |
| StudentDirectory.LoadKeepsIdsUnique | components/MainContent.tsx:56-57 | distinct user uuids give distinct student ids, so ids stay unique in the loaded list |
| StudentDirectory.Matches | components/MainContent.tsx:80-81 | some field value, lower-cased, includes the lower-cased term; the empty term matches every student; see `FilterMembership` and `MatchesOwnField` |
| StudentDirectory.FilterKeepsMatches | components/MainContent.tsx:79-81 | every student the filter keeps is in the list and matches the term |
| StudentDirectory.Filter | components/MainContent.tsx:78-84 | the filtered list is never longer than the student list |
| StudentDirectory.FilterMembership | components/MainContent.tsx:78-84 | a student is in the filtered list iff it is in the list and some field, lower-cased, includes the lower-cased term |
| StudentDirectory.FilterAtKeptPositions | components/MainContent.tsx:79 | the k-th filtered student is the student at the k-th kept position, and there are as many positions as filtered students |
| StudentDirectory.KeptPositionsIncrease | components/MainContent.tsx:79 | kept positions are in range and strictly increasing, so the filter preserves the original order |
| StudentDirectory.KeptPositionsExact | components/MainContent.tsx:79-81 | a position is kept iff the student there matches the term |
| StudentDirectory.FilterEmptyTerm | components/MainContent.tsx:79-81 | with the empty search term the filtered list equals the student list |
| StudentDirectory.FilterIdempotent | components/MainContent.tsx:78-84 | filtering an already filtered list by the same term changes nothing |
| StudentDirectory.FilterAppend | components/MainContent.tsx:79 | filtering a concatenation is the concatenation of the filtered parts |
| StudentDirectory.MatchesOwnField | components/MainContent.tsx:80-81 | searching for any one of a student's field values finds that student |
| StudentDirectory.EngineeringQuery | components/MainContent.tsx:64 | the query "engineering" matches every student whose major is "Engineering" |
| StudentDirectory.TotalPages | components/MainContent.tsx:86 | the page count is 0 iff nothing matches; otherwise (pages-1)*12 < n <= pages*12, which is `ceil(n/12)` |
| StudentDirectory.SliceIndex | components/MainContent.tsx:90 | `slice` turns a start or end index into one within [0, length] |
| StudentDirectory.Slice | components/MainContent.tsx:90 | `slice` never yields more than the list, and with in-range indices it is exactly the segment from start to end; `PageSlice` states the page it cuts |
| StudentDirectory.PageSlice | components/MainContent.tsx:87-91 | for page >= 1 the slice has length min(12, max(0, n - (page-1)*12)) and its k-th card is filtered[(page-1)*12 + k]; page 0 shows nothing |
| StudentDirectory.FirstPagesArePrefix | components/MainContent.tsx:87-91 | pages 1..n laid end to end are the first min(12n, length of the list) filtered students |
| StudentDirectory.PagesPartition | components/MainContent.tsx:86-91 | pages 1..totalPages laid end to end are exactly the filtered list: consecutive pages are disjoint and none skips a record |
| StudentDirectory.PageBeyondLastIsEmpty | components/MainContent.tsx:86-91 | a page number past the page count shows no cards |
| StudentDirectory.NextPageOf | components/MainContent.tsx:93 | Next yields min(page+1, totalPages) |
| StudentDirectory.PrevPageOf | components/MainContent.tsx:94 | Prev yields max(page-1, 1): never below 1 |
| StudentDirectory.PageMovesStayInRange | components/MainContent.tsx:93-94 | from a page in [1, total] both buttons stay in [1, total]; Next stays put only on the last page, Prev only on page 1 |
| StudentDirectory.NextOnEmptyResult | components/MainContent.tsx:86-94 | with no matches the page count is 0, Next from page 1 gives page 0, and Prev from page 0 gives page 1 |
| StudentDirectory.FirstCharsOfNonEmpty | components/MainContent.tsx:231 | `map(n => n[0]).join('')` yields one character per non-empty segment, namely its first |
| StudentDirectory.InitialsPerSegment | components/MainContent.tsx:231 | the initials have as many characters as the name has non-empty space-separated segments, each that segment's first |
| StudentDirectory.FirstCharsAppend | components/MainContent.tsx:231 | taking initials distributes over concatenation of segment lists |
| StudentDirectory.FirstCharsSplitFrom | components/MainContent.tsx:231 | initials of a partially split name are the word starts of the rest, after the current segment's first |
| StudentDirectory.InitialsAreWordStarts | components/MainContent.tsx:231 | the initials are exactly the non-space characters at the start or after a space |
| StudentDirectory.NonEmpty | components/MainContent.tsx:231 | the non-empty segments are no more than the segments and none is empty |
| StudentDirectory.FirstChars | components/MainContent.tsx:231 | `map(n => n[0]).join('')` yields at most one character per segment; characterised by `FirstCharsOfNonEmpty` |
| StudentDirectory.Initials | components/MainContent.tsx:231 | the initials have one character per non-empty space-separated segment; characterised by `InitialsPerSegment` and `InitialsAreWordStarts` |
| StudentDirectory.LoadedInitials | components/MainContent.tsx:58 | a loaded student with non-empty, space-free first and last names gets the initials first[0], last[0] |
| StudentDirectory.Directory.constructor | components/MainContent.tsx:41-47 | after loading, the grid holds the loaded list, an empty term and page 1, and shows the whole list as filtered |
| StudentDirectory.Directory.Filtered | components/MainContent.tsx:78-84 | `filteredStudents`: no longer than `students`, and each entry is a student of the list that matches `searchTerm` |
| StudentDirectory.Directory.PageCount | components/MainContent.tsx:86 | `totalPages` is 0 exactly when the filtered list is empty; see `TotalPages` |
| StudentDirectory.Directory.CurrentStudents | components/MainContent.tsx:87-91 | `currentStudents` holds at most 12 cards, all from the filtered list; see `PageSlice` and `CurrentPageNeverEmpty` |
| StudentDirectory.Directory.PrevDisabled | components/MainContent.tsx:189 | Prev is disabled on page 1, where clicking it would leave the page unchanged |
| StudentDirectory.Directory.NextDisabled | components/MainContent.tsx:195 | Next is disabled when the page equals the page count, where clicking it would leave the page unchanged |
| StudentDirectory.Directory.NextPage | components/MainContent.tsx:93 | the page becomes min(page+1, totalPages); students and term are unchanged; the page invariant is kept |
| StudentDirectory.Directory.PrevPage | components/MainContent.tsx:94 | the page becomes max(page-1, 1); students and term are unchanged; the page invariant is kept |
| StudentDirectory.Directory.SetSearch | components/MainContent.tsx:96-102 | the term becomes the typed value; if it changed, the page resets to 1; students are unchanged |
| StudentDirectory.CurrentPageNeverEmpty | components/MainContent.tsx:86-91 | in a valid state the current page shows at most 12 cards, and at least one whenever something matches |
| StudentDirectory.EmptyResultNextEnabled | components/MainContent.tsx:195 | with no matches on page 1 the page count is 0, Next is enabled ("Page 1 of 0"), and Next leads to page 0 |
| Navigation.MenuItemsDistinct | components/Navbar.tsx:7-28 | the menu table has four entries with pairwise distinct names |
| Navigation.ToggledSubmenu | components/Navbar.tsx:34-36 | the open submenu becomes null iff `name` was open, and otherwise becomes `name`, replacing whatever was open |
| Navigation.ToggleSubmenuTwice | components/Navbar.tsx:35 | two toggles of the same name restore the state iff nothing or that name was open; otherwise they leave nothing open |
| Navigation.PanelShown | components/Navbar.tsx:84-107 | a panel is drawn only while the menu is open, only for the item named by `openSubmenu`, and never for an item without a submenu; see `AtMostOnePanel` |
| Navigation.ChevronRotated | components/Navbar.tsx:99-103 | a chevron is rotated only on the item named by `openSubmenu`, and items without a submenu have none; see `ToggleFlipsChevron` |
| Navigation.ToggleFlipsChevron | components/Navbar.tsx:95-103 | clicking an item with a submenu flips its chevron and leaves every other item's chevron unrotated |
| Navigation.ChevronMarksPanel | components/Navbar.tsx:99-107 | while the menu is open, an item's chevron is rotated iff its submenu panel is shown |
| Navigation.ShownPanels | components/Navbar.tsx:84-107 | the list of shown panels is never longer than the menu |
| Navigation.ShownPanelsExact | components/Navbar.tsx:107 | an item's panel is listed iff the item is in the menu, the menu is open, it has a submenu and its name is the open one |
| Navigation.NoPanelWithoutName | components/Navbar.tsx:107 | when no item bears the open name, no panel is shown |
| Navigation.AtMostOnePanel | components/Navbar.tsx:107 | with distinct item names, at most one submenu panel is shown at any time |
| Navigation.ItemWithoutSubmenuHidesPanels | components/Navbar.tsx:95-107 | toggling "Sales" or "Contact" leaves no panel shown, whichever was shown before |
| Navigation.Navbar.constructor | components/Navbar.tsx:31-32 | the mobile menu starts closed with no submenu open |
| Navigation.Navbar.ToggleMenu | components/Navbar.tsx:77 | the hamburger negates `isOpen` and leaves `openSubmenu` untouched |
| Navigation.Navbar.ToggleSubmenu | components/Navbar.tsx:34-36 | `openSubmenu` becomes the toggled value; `isOpen` is unchanged |
| Navigation.Navbar.VisiblePanels | components/Navbar.tsx:84-107 | in every state at most one submenu panel is rendered |
| Navigation.ToggleMenuTwice | components/Navbar.tsx:77 | two hamburger clicks restore both fields, so reopening shows the same panel |

## Left out

- The fetch lifecycle is not modelled: the request, `response.json()`, the `loading` and `error` flags, the skeleton view and the error view. This is network I/O with one catch-all error. The `Directory` constructor stands for a completed load.
- The random values and the date text are parameters of `FormatStudent`, not computed: the random category index, the random score formatted by `toFixed(2)`, and the locale-formatted birth date.
- Text.Lower: lower-cases ASCII A-Z only; JavaScript's full Unicode `toLowerCase` is not modelled.
- Dafny characters are Unicode scalar values, while JavaScript strings index UTF-16 code units. `n[0]` on a name starting with a character outside the Basic Multilingual Plane yields half a surrogate pair in the app and the whole character in `StudentDirectory.Initials`.
- React timing is not modelled. The search change and the page reset happen as one step. The single render between `setSearchTerm` and the reset effect is not represented.
- Rendering is not modelled: JSX, styling, animation and the dialog, avatar and badge components. The `selectedStudent` binding of the details dialog is plain view state and is also left out.
- The Edit, Flag and Delete buttons have no handlers, so there is nothing to model.
- The desktop submenus open on CSS hover only and keep no state.
- `app/page.tsx` only puts the two components together.

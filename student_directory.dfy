/**
 * The student card grid: the `Student` record, the loader's mapping of a raw
 * user record, the search filter, the 12-card pages and the avatar initials
 * as functions, and the grid's state (loaded list, search term, current page)
 * as a class whose methods are the search box and the two page buttons.
 */
module StudentDirectory {
  import opened Text

  /** One directory entry; every field is a string. */
  datatype Student = Student(
    id: string,
    name: string,
    email: string,
    phone: string,
    picture: string,
    dob: string,
    location: string,
    major: string,
    gpa: string)

  /** `Object.values(student)`: the nine field values, in declaration order. */
  function Fields(s: Student): (values: seq<string>)
    ensures |values| == 9
  {
    [s.id, s.name, s.email, s.phone, s.picture, s.dob, s.location, s.major, s.gpa]
  }

  // ---------------------------------------------------------------------------
  // Loader: raw user record -> Student
  // ---------------------------------------------------------------------------

  /** The parts of one raw user record that the loader reads. */
  datatype RawUser = RawUser(
    uuid: string,
    first: string,
    last: string,
    email: string,
    phone: string,
    largePicture: string,
    city: string,
    country: string)

  /** The four category labels the loader picks from. */
  const Majors: seq<string> := ["Computer Science", "Engineering", "Biology", "Psychology"]

  /** `Math.floor(Math.random() * 4)`: an index into `Majors`. */
  type MajorIndex = i: int | 0 <= i < 4

  /**
   * The loader's per-record mapping. The locale-formatted birth date, the
   * random category pick and the random score text are supplied by the caller.
   */
  function FormatStudent(u: RawUser, dob: string, major: MajorIndex, gpa: string): (s: Student)
    ensures s.id == u.uuid && s.email == u.email && s.phone == u.phone && s.picture == u.largePicture
    ensures s.name == u.first + " " + u.last
    ensures s.location == u.city + ", " + u.country
    ensures s.major in Majors && s.dob == dob && s.gpa == gpa
  {
    Student(
      id := u.uuid,
      name := u.first + " " + u.last,
      email := u.email,
      phone := u.phone,
      picture := u.largePicture,
      dob := dob,
      location := u.city + ", " + u.country,
      major := Majors[major],
      gpa := gpa)
  }

  /** The values the loader draws for one record besides the raw user itself. */
  datatype Draw = Draw(dob: string, major: MajorIndex, gpa: string)

  /** `data.results.map(...)`: one student per raw user, in the same order. */
  function LoadStudents(results: seq<RawUser>, draws: seq<Draw>): (students: seq<Student>)
    requires |draws| == |results|
    ensures |students| == |results|
    ensures forall i :: 0 <= i < |results| ==>
      students[i] == FormatStudent(results[i], draws[i].dob, draws[i].major, draws[i].gpa)
  {
    seq(|results|, i requires 0 <= i < |results| =>
      FormatStudent(results[i], draws[i].dob, draws[i].major, draws[i].gpa))
  }

  /** Distinct user ids give distinct student ids: the loaded list keeps ids unique. */
  lemma LoadKeepsIdsUnique(results: seq<RawUser>, draws: seq<Draw>)
    requires |draws| == |results|
    requires forall i, j :: 0 <= i < j < |results| ==> results[i].uuid != results[j].uuid
    ensures forall i, j :: 0 <= i < j < |results| ==>
      LoadStudents(results, draws)[i].id != LoadStudents(results, draws)[j].id
  {
  }

  // ---------------------------------------------------------------------------
  // Search filter
  // ---------------------------------------------------------------------------

  /** Some field value, lower-cased, includes the lower-cased search term. */
  predicate Matches(s: Student, term: string)
    ensures term == [] ==> Matches(s, term)
  {
    ContainsTrivial(Lower(s.id));
    exists f | f in Fields(s) :: Contains(Lower(f), Lower(term))
  }

  /** `students.filter(student => Matches(student, searchTerm))`. */
  function Filter(students: seq<Student>, term: string): (kept: seq<Student>)
    ensures |kept| <= |students|
    decreases |students|
  {
    if students == [] then []
    else (if Matches(students[0], term) then [students[0]] else []) + Filter(students[1..], term)
  }

  /** A student is kept exactly when it is in the list and matches. */
  lemma {:induction false} FilterMembership(students: seq<Student>, term: string, s: Student)
    ensures s in Filter(students, term) <==> s in students && Matches(s, term)
    decreases |students|
  {
    if students != [] {
      FilterMembership(students[1..], term, s);
      assert students == [students[0]] + students[1..];
    }
  }

  /** Every student the filter keeps is in the list and matches. */
  lemma FilterKeepsMatches(students: seq<Student>, term: string)
    ensures forall s :: s in Filter(students, term) ==> s in students && Matches(s, term)
  {
    forall s | s in Filter(students, term)
      ensures s in students && Matches(s, term)
    {
      FilterMembership(students, term, s);
    }
  }

  /**
   * The positions (counted from `base`) of the students the filter keeps,
   * in increasing order.
   */
  function KeptPositions(students: seq<Student>, term: string, base: nat): seq<nat>
    decreases |students|
  {
    if students == [] then []
    else (if Matches(students[0], term) then [base] else []) + KeptPositions(students[1..], term, base + 1)
  }

  /**
   * The filter is an order-preserving subsequence: its k-th element is the
   * student at the k-th kept position (positions counted from `base`).
   */
  lemma {:induction false} FilterAtKeptPositions(students: seq<Student>, term: string, base: nat)
    ensures |KeptPositions(students, term, base)| == |Filter(students, term)|
    ensures forall k :: 0 <= k < |KeptPositions(students, term, base)| ==>
      base <= KeptPositions(students, term, base)[k] < base + |students| &&
      Filter(students, term)[k] == students[KeptPositions(students, term, base)[k] - base]
    decreases |students|
  {
    if students != [] {
      var rest := students[1..];
      FilterAtKeptPositions(rest, term, base + 1);
      if Matches(students[0], term) {
        var pos, restPos := KeptPositions(students, term, base), KeptPositions(rest, term, base + 1);
        assert pos == [base] + restPos;
        assert Filter(students, term) == [students[0]] + Filter(rest, term);
        forall k | 0 < k < |pos|
          ensures base <= pos[k] < base + |students|
          ensures Filter(students, term)[k] == students[pos[k] - base]
        {
          assert pos[k] == restPos[k - 1];
        }
      }
    }
  }

  /** The kept positions strictly increase, and lie in [base, base + |students|). */
  lemma {:induction false} KeptPositionsIncrease(students: seq<Student>, term: string, base: nat)
    ensures forall k :: 0 <= k < |KeptPositions(students, term, base)| ==>
      base <= KeptPositions(students, term, base)[k] < base + |students|
    ensures forall k, l :: 0 <= k < l < |KeptPositions(students, term, base)| ==>
      KeptPositions(students, term, base)[k] < KeptPositions(students, term, base)[l]
    decreases |students|
  {
    if students != [] {
      KeptPositionsIncrease(students[1..], term, base + 1);
    }
  }

  /** A position is kept exactly when the student there matches the term. */
  lemma {:induction false} KeptPositionsExact(students: seq<Student>, term: string, base: nat)
    ensures forall i :: base <= i < base + |students| ==>
      (i in KeptPositions(students, term, base) <==> Matches(students[i - base], term))
    decreases |students|
  {
    if students != [] {
      KeptPositionsIncrease(students[1..], term, base + 1);
      KeptPositionsExact(students[1..], term, base + 1);
    }
  }

  /** With an empty search term every student matches, so the filter returns the list unchanged. */
  lemma {:induction false} FilterEmptyTerm(students: seq<Student>)
    ensures Filter(students, "") == students
    decreases |students|
  {
    if students != [] {
      ContainsTrivial(Lower(students[0].id));
      assert Fields(students[0])[0] == students[0].id;
      assert Matches(students[0], "");
      FilterEmptyTerm(students[1..]);
      assert students == [students[0]] + students[1..];
    }
  }

  /** Filtering twice with the same term is filtering once. */
  lemma {:induction false} FilterIdempotent(students: seq<Student>, term: string)
    ensures Filter(Filter(students, term), term) == Filter(students, term)
    decreases |students|
  {
    if students != [] {
      FilterIdempotent(students[1..], term);
      var rest := Filter(students[1..], term);
      if Matches(students[0], term) {
        assert Filter(students, term) == [students[0]] + rest;
        assert ([students[0]] + rest)[1..] == rest;
      } else {
        assert Filter(students, term) == rest;
      }
    }
  }

  /** The filter distributes over concatenation of the student list. */
  lemma {:induction false} FilterAppend(a: seq<Student>, b: seq<Student>, term: string)
    ensures Filter(a + b, term) == Filter(a, term) + Filter(b, term)
    decreases |a|
  {
    if a == [] {
      assert a + b == b;
    } else {
      FilterAppend(a[1..], b, term);
      assert (a + b)[0] == a[0];
      assert (a + b)[1..] == a[1..] + b;
    }
  }

  /** Searching for any field's exact value, in any letter case, finds the student. */
  lemma MatchesOwnField(s: Student, k: int)
    requires 0 <= k < 9
    ensures Matches(s, Fields(s)[k])
  {
    ContainsTrivial(Lower(Fields(s)[k]));
  }

  /** The query "engineering" finds every student whose category is "Engineering". */
  lemma EngineeringQuery(s: Student)
    requires s.major == "Engineering"
    ensures Matches(s, "engineering")
  {
    assert Lower("Engineering") == "engineering";
    ContainsTrivial("engineering");
    assert Fields(s)[7] == s.major;
  }

  // ---------------------------------------------------------------------------
  // Pages
  // ---------------------------------------------------------------------------

  /** `cardsPerPage`. */
  const CardsPerPage: nat := 12

  function Min(a: int, b: int): int { if a <= b then a else b }
  function Max(a: int, b: int): int { if a <= b then b else a }

  /**
   * `Math.ceil(n / cardsPerPage)`: no floor at 1, so an empty result has 0 pages;
   * otherwise the last page is the one that holds the n-th record.
   */
  function TotalPages(n: nat): (pages: nat)
    ensures pages == 0 <==> n == 0
    ensures n > 0 ==> (pages - 1) * CardsPerPage < n <= pages * CardsPerPage
  {
    (n + CardsPerPage - 1) / CardsPerPage
  }

  /** `Array.prototype.slice` index normalisation: negative counts from the end, then clamp. */
  function SliceIndex(i: int, len: nat): (j: nat)
    ensures j <= len
  {
    if i < 0 then Max(len + i, 0) else Min(i, len)
  }

  /** `s.slice(start, end)`. */
  function Slice<T>(s: seq<T>, start: int, end: int): (r: seq<T>)
    ensures |r| <= |s|
    ensures 0 <= start <= end <= |s| ==> r == s[start..end]
  {
    var from, to := SliceIndex(start, |s|), SliceIndex(end, |s|);
    if from < to then s[from..to] else []
  }

  /**
   * The cards on page `page`: `filtered.slice(page * 12 - 12, page * 12)`.
   * For a page from 1 on, it is the run of at most 12 records starting at
   * (page-1)*12; page 0 (reachable when nothing matches) shows nothing.
   */
  function PageSlice<T>(filtered: seq<T>, page: int): (cards: seq<T>)
    ensures page >= 1 ==> |cards| == Min(CardsPerPage, Max(0, |filtered| - (page - 1) * CardsPerPage))
    ensures page >= 1 ==> forall k :: 0 <= k < |cards| ==> cards[k] == filtered[(page - 1) * CardsPerPage + k]
    ensures page == 0 ==> cards == []
  {
    var last := page * CardsPerPage;
    Slice(filtered, last - CardsPerPage, last)
  }

  /** Pages 1..n laid end to end. */
  function FirstPages<T>(filtered: seq<T>, n: nat): seq<T>
  {
    if n == 0 then [] else FirstPages(filtered, n - 1) + PageSlice(filtered, n)
  }

  lemma {:induction false} FirstPagesArePrefix<T>(filtered: seq<T>, n: nat)
    ensures FirstPages(filtered, n) == filtered[..Min(n * CardsPerPage, |filtered|)]
  {
    if n > 0 {
      FirstPagesArePrefix(filtered, n - 1);
      var lo := Min((n - 1) * CardsPerPage, |filtered|);
      var hi := Min(n * CardsPerPage, |filtered|);
      var page := PageSlice(filtered, n);
      assert page == filtered[lo..hi];
      assert filtered[..lo] + filtered[lo..hi] == filtered[..hi];
    }
  }

  /**
   * The pages partition the filtered list: pages 1..TotalPages, concatenated,
   * are exactly the filtered list, so no record is skipped or shown twice.
   */
  lemma PagesPartition<T>(filtered: seq<T>)
    ensures FirstPages(filtered, TotalPages(|filtered|)) == filtered
  {
    FirstPagesArePrefix(filtered, TotalPages(|filtered|));
    assert filtered[..|filtered|] == filtered;
  }

  /** A page past the last one is empty. */
  lemma PageBeyondLastIsEmpty<T>(filtered: seq<T>, page: int)
    requires page > TotalPages(|filtered|)
    ensures PageSlice(filtered, page) == []
  {
  }

  /** `Math.min(prev + 1, totalPages)`. */
  function NextPageOf(page: int, total: nat): (next: int)
    ensures next <= total && next <= page + 1
    ensures next == page + 1 || next == total
  {
    Min(page + 1, total)
  }

  /** `Math.max(prev - 1, 1)`. */
  function PrevPageOf(page: int): (prev: int)
    ensures prev >= 1 && prev >= page - 1
    ensures prev == page - 1 || prev == 1
  {
    Max(page - 1, 1)
  }

  /**
   * Inside [1, total] both buttons keep the page inside [1, total]; Next
   * stays put only on the last page and Prev only on the first.
   */
  lemma PageMovesStayInRange(page: int, total: nat)
    requires 1 <= page <= total
    ensures 1 <= NextPageOf(page, total) <= total
    ensures 1 <= PrevPageOf(page) <= total
    ensures NextPageOf(page, total) == page <==> page == total
    ensures PrevPageOf(page) == page <==> page == 1
  {
  }

  /** With no matches there are 0 pages, and Next from page 1 goes to page 0. */
  lemma NextOnEmptyResult()
    ensures TotalPages(0) == 0
    ensures NextPageOf(1, TotalPages(0)) == 0
    ensures PrevPageOf(0) == 1
  {
  }

  // ---------------------------------------------------------------------------
  // Avatar initials
  // ---------------------------------------------------------------------------

  /** The non-empty segments, in order. */
  function NonEmpty(parts: seq<string>): (r: seq<string>)
    ensures |r| <= |parts|
    ensures forall k :: 0 <= k < |r| ==> r[k] != []
  {
    if parts == [] then []
    else (if parts[0] != [] then [parts[0]] else []) + NonEmpty(parts[1..])
  }

  /**
   * `parts.map(n => n[0]).join('')`: `n[0]` of an empty segment is `undefined`,
   * which `join` renders as nothing, so each non-empty segment contributes its
   * first character and nothing else contributes.
   */
  function FirstChars(parts: seq<string>): (r: string)
    ensures |r| <= |parts|
  {
    if parts == [] then []
    else (if parts[0] != [] then [parts[0][0]] else []) + FirstChars(parts[1..])
  }

  /** `name.split(' ').map(n => n[0]).join('')`. */
  function Initials(name: string): (r: string)
    ensures |r| == |NonEmpty(Split(name, ' '))|
  {
    FirstCharsOfNonEmpty(Split(name, ' '));
    FirstChars(Split(name, ' '))
  }

  /** One character per non-empty segment: the segment's first. */
  lemma {:induction false} FirstCharsOfNonEmpty(parts: seq<string>)
    ensures |FirstChars(parts)| == |NonEmpty(parts)|
    ensures forall k :: 0 <= k < |FirstChars(parts)| ==> FirstChars(parts)[k] == NonEmpty(parts)[k][0]
    decreases |parts|
  {
    if parts != [] {
      FirstCharsOfNonEmpty(parts[1..]);
    }
  }

  /**
   * The initials hold one character per non-empty `' '`-separated segment of
   * the name, that segment's first; empty segments (from leading, trailing or
   * repeated spaces) contribute nothing.
   */
  lemma InitialsPerSegment(name: string)
    ensures |Initials(name)| == |NonEmpty(Split(name, ' '))|
    ensures forall k :: 0 <= k < |Initials(name)| ==>
      Initials(name)[k] == NonEmpty(Split(name, ' '))[k][0]
  {
    FirstCharsOfNonEmpty(Split(name, ' '));
  }

  /**
   * An independent description of the initials: the characters of `s` that are
   * not spaces and are preceded by a space or by the start (when `atStart`).
   */
  function WordStarts(s: string, atStart: bool): string
  {
    if s == [] then []
    else (if s[0] != ' ' && atStart then [s[0]] else []) + WordStarts(s[1..], s[0] == ' ')
  }

  lemma {:induction false} FirstCharsAppend(a: seq<string>, b: seq<string>)
    ensures FirstChars(a + b) == FirstChars(a) + FirstChars(b)
    decreases |a|
  {
    if a == [] {
      assert a + b == b;
    } else {
      var head: string := if a[0] != [] then [a[0][0]] else [];
      assert (a + b)[0] == a[0];
      assert (a + b)[1..] == a[1..] + b;
      assert FirstChars(a + b) == head + FirstChars(a[1..] + b);
      FirstCharsAppend(a[1..], b);
      assert FirstChars(a) == head + FirstChars(a[1..]);
    }
  }

  lemma {:induction false} FirstCharsSplitFrom(s: string, cur: string)
    requires ' ' !in cur
    ensures FirstChars(SplitFrom(s, ' ', cur))
      == if cur == [] then WordStarts(s, true) else [cur[0]] + WordStarts(s, false)
    decreases |s|
  {
    if s == [] {
      assert FirstChars([cur]) == FirstChars([cur][..1]);
    } else if s[0] == ' ' {
      FirstCharsSplitFrom(s[1..], []);
      FirstCharsAppend([cur], SplitFrom(s[1..], ' ', []));
    } else {
      FirstCharsSplitFrom(s[1..], cur + [s[0]]);
    }
  }

  /** The initials are exactly the first characters of the space-separated words. */
  lemma InitialsAreWordStarts(name: string)
    ensures Initials(name) == WordStarts(name, true)
  {
    FirstCharsSplitFrom(name, []);
  }

  /**
   * A loaded student whose first and last names are non-empty and contain no
   * space gets the two-letter initials first[0], last[0].
   */
  lemma LoadedInitials(u: RawUser, dob: string, major: MajorIndex, gpa: string)
    requires u.first != [] && u.last != []
    requires ' ' !in u.first && ' ' !in u.last
    ensures Initials(FormatStudent(u, dob, major, gpa).name) == [u.first[0], u.last[0]]
  {
    var parts := [u.first, u.last];
    assert Join(parts, ' ') == u.first + " " + u.last;
    SplitJoin(parts, ' ');
    assert parts[1..] == [u.last];
    assert FirstChars([u.last]) == [u.last[0]];
  }

  // ---------------------------------------------------------------------------
  // Grid state
  // ---------------------------------------------------------------------------

  /**
   * The grid's state once the one fetch has completed: the loaded students,
   * the search box text and the current page number.
   */
  class Directory {
    var students: seq<Student>
    var searchTerm: string
    var currentPage: int

    /** `filteredStudents`. */
    function Filtered(): (kept: seq<Student>)
      reads this
      ensures |kept| <= |students|
      ensures forall s :: s in kept ==> s in students && Matches(s, searchTerm)
    {
      FilterKeepsMatches(students, searchTerm);
      Filter(students, searchTerm)
    }

    /** `totalPages`. */
    function PageCount(): (pages: nat)
      reads this
      ensures pages == 0 <==> Filtered() == []
    {
      TotalPages(|Filtered()|)
    }

    /** `currentStudents`: the cards on the current page. */
    function CurrentStudents(): (cards: seq<Student>)
      reads this
      ensures |cards| <= CardsPerPage
      ensures forall s :: s in cards ==> s in Filtered()
    {
      PageSlice(Filtered(), currentPage)
    }

    /** The Prev button is disabled exactly on page 1. */
    predicate PrevDisabled()
      reads this
      ensures PrevDisabled() ==> PrevPageOf(currentPage) == currentPage
    {
      currentPage == 1
    }

    /** The Next button is disabled exactly when the page number equals the page count. */
    predicate NextDisabled()
      reads this
      ensures NextDisabled() ==> NextPageOf(currentPage, PageCount()) == currentPage
    {
      currentPage == PageCount()
    }

    /**
     * The page is 0 only when nothing matches, and otherwise lies in
     * [1, max(1, PageCount())].
     */
    ghost predicate Valid()
      reads this
    {
      (currentPage == 0 && PageCount() == 0) || 1 <= currentPage <= Max(1, PageCount())
    }

    /** The state right after loading: the loaded list, an empty search box, page 1. */
    constructor (loaded: seq<Student>)
      ensures Valid()
      ensures students == loaded && searchTerm == "" && currentPage == 1
      ensures Filtered() == loaded
    {
      students := loaded;
      searchTerm := "";
      currentPage := 1;
      FilterEmptyTerm(loaded);
    }

    /** The Next button: `setCurrentPage(prev => Math.min(prev + 1, totalPages))`. */
    method NextPage()
      requires Valid()
      modifies this
      ensures Valid()
      ensures currentPage == NextPageOf(old(currentPage), old(PageCount()))
      ensures students == old(students) && searchTerm == old(searchTerm)
    {
      currentPage := Min(currentPage + 1, PageCount());
    }

    /** The Prev button: `setCurrentPage(prev => Math.max(prev - 1, 1))`. */
    method PrevPage()
      requires Valid()
      modifies this
      ensures Valid()
      ensures currentPage == PrevPageOf(old(currentPage))
      ensures students == old(students) && searchTerm == old(searchTerm)
    {
      currentPage := Max(currentPage - 1, 1);
    }

    /**
     * Typing in the search box (`handleSearch`) together with the effect that
     * depends on `searchTerm`: a new value is stored and the page goes back to 1;
     * the same value changes nothing, since the effect does not fire.
     */
    method SetSearch(term: string)
      requires Valid()
      modifies this
      ensures Valid()
      ensures searchTerm == term && students == old(students)
      ensures term != old(searchTerm) ==> currentPage == 1
      ensures term == old(searchTerm) ==> currentPage == old(currentPage)
    {
      if term != searchTerm {
        searchTerm := term;
        currentPage := 1;
      }
    }
  }

  /** Whenever some student matches, the current page of a valid grid shows at least one card, and never more than 12. */
  lemma CurrentPageNeverEmpty(d: Directory)
    requires d.Valid()
    ensures |d.CurrentStudents()| <= CardsPerPage
    ensures d.Filtered() != [] ==> d.CurrentStudents() != []
  {
    if d.Filtered() != [] {
      var n := |d.Filtered()|;
      assert (d.PageCount() - 1) * CardsPerPage < n;
      assert (d.currentPage - 1) * CardsPerPage <= (d.PageCount() - 1) * CardsPerPage;
    }
  }

  /** When nothing matches, page 1 leaves Next enabled ("Page 1 of 0"), and Next then shows page 0. */
  lemma EmptyResultNextEnabled(d: Directory)
    requires d.Filtered() == [] && d.currentPage == 1
    ensures d.PageCount() == 0 && !d.NextDisabled()
    ensures NextPageOf(d.currentPage, d.PageCount()) == 0
  {
  }
}

/**
 * The pure parts of the course-registration scraper: the semester term code,
 * the search URL, the reading of a course row into an availability result, the
 * fixed error results, and the simulator's seat/open relation.
 *
 * The HTTP request and the HTML lookup are not modelled: what the lookup finds
 * is an input (`Fetch`), with the status and seats cells as optional texts.
 */
module Scraper {
  import opened Wrappers
  import opened Text

  const BaseUrl: string := "https://example-university.edu/courses"

  /** The semester-to-term-code table; any other semester falls back to "30". */
  function SemesterCode(semester: string): (code: string)
    ensures code == "10" <==> semester == "Spring"
    ensures code == "20" <==> semester == "Summer"
    ensures code == "30" <==> semester != "Spring" && semester != "Summer"
  {
    var codes := map["Spring" := "10", "Summer" := "20", "Fall" := "30"];
    if semester in codes then codes[semester] else "30"
  }

  /** The registration system's search URL for one course in one term. */
  function SearchUrl(crn: string, year: int, semester: string): (url: string)
    ensures BaseUrl + "/search?term=" <= url
    ensures |"&crn=" + crn| <= |url| && url[|url| - |"&crn=" + crn|..] == "&crn=" + crn
  {
    BaseUrl + "/search?term=" + Term(year, semester) + "&crn=" + crn
  }

  /** The `term` query value: the year followed by the two-digit semester code. */
  function Term(year: int, semester: string): string {
    IntToString(year) + SemesterCode(semester)
  }

  /** Two texts without `&`, each followed by "&crn=" and a CRN, split the same way. */
  lemma SplitAtCrn(t1: string, c1: string, t2: string, c2: string)
    requires '&' !in t1 && '&' !in t2
    requires t1 + "&crn=" + c1 == t2 + "&crn=" + c2
    ensures t1 == t2 && c1 == c2
  {
    var u1, u2 := t1 + "&crn=" + c1, t2 + "&crn=" + c2;
    assert u1[|t1|] == '&' && u2[|t2|] == '&';
    assert |t1| == |t2|;
    assert t1 == u1[..|t1|] && t2 == u2[..|t2|];
    assert c1 == u1[|t1| + 5..] && c2 == u2[|t2| + 5..];
  }

  /** The search URL determines the CRN, the year and the term code it was built from. */
  lemma SearchUrlInjective(c1: string, y1: int, s1: string, c2: string, y2: int, s2: string)
    requires SearchUrl(c1, y1, s1) == SearchUrl(c2, y2, s2)
    ensures c1 == c2 && y1 == y2 && SemesterCode(s1) == SemesterCode(s2)
  {
    var t1, t2 := Term(y1, s1), Term(y2, s2);
    SearchUrlShape(c1, y1, s1);
    SearchUrlShape(c2, y2, s2);
    CancelPrefix(BaseUrl + "/search?term=", t1 + "&crn=" + c1, t2 + "&crn=" + c2);
    TermHasNoAmpersand(y1, s1);
    TermHasNoAmpersand(y2, s2);
    SplitAtCrn(t1, c1, t2, c2);
    TermInjective(y1, s1, y2, s2);
  }

  lemma SearchUrlShape(crn: string, year: int, semester: string)
    ensures SearchUrl(crn, year, semester) == (BaseUrl + "/search?term=") + (Term(year, semester) + "&crn=" + crn)
  {
  }

  /** The term value determines the year and the semester code. */
  lemma TermInjective(y1: int, s1: string, y2: int, s2: string)
    requires Term(y1, s1) == Term(y2, s2)
    ensures y1 == y2 && SemesterCode(s1) == SemesterCode(s2)
  {
    TermSplits(y1, s1);
    TermSplits(y2, s2);
    IntToStringInjective(y1, y2);
  }

  lemma TermSplits(year: int, semester: string)
    ensures |SemesterCode(semester)| == 2 && |Term(year, semester)| >= 2
    ensures Term(year, semester)[..|Term(year, semester)| - 2] == IntToString(year)
    ensures Term(year, semester)[|Term(year, semester)| - 2..] == SemesterCode(semester)
  {
  }

  /** A term value holds only digits and a minus sign, so no `&`. */
  lemma TermHasNoAmpersand(year: int, semester: string)
    ensures '&' !in Term(year, semester)
  {
    var t, code := IntToString(year), SemesterCode(semester);
    assert AllDigits(code);
    if year < 0 {
      assert t == "-" + NatToString(-year);
      assert forall i :: 1 <= i < |t| ==> IsDigit(t[i]);
    }
    assert forall i :: 0 <= i < |t| ==> IsDigit(t[i]) || t[i] == '-';
    assert Term(year, semester) == t + code;
  }

  lemma CancelPrefix(p: string, a: string, b: string)
    requires p + a == p + b
    ensures a == b
  {
    assert a == (p + a)[|p|..];
    assert b == (p + b)[|p|..];
  }

  /** The two table cells of a course row, each absent when the row has no such cell. */
  datatype Cells = Cells(status: Option<string>, seats: Option<string>)

  /** What the request and the HTML lookup produced. */
  datatype Fetch =
    | Page(row: Option<Cells>)          // a page was parsed; the course row may be missing
    | Timeout                           // httpx.TimeoutException
    | HttpStatusError(statusCode: int)  // httpx.HTTPStatusError
    | Failure(message: string)          // any other exception, with str(e)

  /**
   * The scraper's result dictionary: `is_open`, then `seats_available` and
   * `error` when those keys are present.
   */
  datatype Availability = Availability(isOpen: bool, seatsAvailable: Option<int>, error: Option<string>)

  const NotFoundResult: Availability := Availability(false, Some(0), Some("Course not found"))

  /**
   * The status-cell rule: the cell is present, and "open" occurs somewhere in
   * its trimmed, lower-cased text.
   */
  predicate StatusSaysOpen(status: Option<string>)
    ensures StatusSaysOpen(status) <==> status.Some? && exists i :: OccursAt(Lower(Strip(status.value)), "open", i)
  {
    status.Some? && (ContainsIff(Lower(Strip(status.value)), "open"); Contains(Lower(Strip(status.value)), "open"))
  }

  /** The seats-cell rule: the integer in the trimmed text, 0 when absent or not an integer. */
  function SeatCount(seats: Option<string>): (n: int)
    ensures n != 0 ==> seats.Some? && ParseInt(Strip(seats.value)) == Some(n)
    ensures seats.Some? && ParseInt(Strip(seats.value)).Some? ==> n == ParseInt(Strip(seats.value)).value
  {
    match seats
    case None => 0
    case Some(text) => ParseInt(Strip(text)).GetOr(0)
  }

  function CheckCourseAvailability(fetch: Fetch): (a: Availability)
    ensures fetch.Page? <==> a.seatsAvailable.Some?
    ensures !fetch.Page? ==> !a.isOpen && a.error.Some?
    ensures fetch == Page(None) ==> a == NotFoundResult
    ensures a.isOpen ==> a.error.None?
    ensures a.isOpen ==> fetch.Page? && fetch.row.Some? && StatusSaysOpen(fetch.row.value.status)
    ensures fetch.Page? && fetch.row.Some? ==>
              && (a.isOpen <==> StatusSaysOpen(fetch.row.value.status))
              && a.seatsAvailable == Some(SeatCount(fetch.row.value.seats))
              && a.error.None?
    ensures fetch.Timeout? ==> a.error == Some("Request timeout")
    ensures fetch.HttpStatusError? ==> a.error == Some("HTTP error: " + IntToString(fetch.statusCode))
    ensures fetch.Failure? ==> a.error == Some(fetch.message)
  {
    match fetch
    case Page(None) => NotFoundResult
    case Page(Some(cells)) =>
      Availability(StatusSaysOpen(cells.status), Some(SeatCount(cells.seats)), None)
    case Timeout => Availability(false, None, Some("Request timeout"))
    case HttpStatusError(code) => Availability(false, None, Some("HTTP error: " + IntToString(code)))
    case Failure(message) => Availability(false, None, Some(message))
  }

  /** The rule is a substring test, so a status text "Not Open" counts as open. */
  lemma NotOpenCountsAsOpen()
    ensures StatusSaysOpen(Some("Not Open"))
  {
    var t := "Not Open";
    StripPadded([], t, []);
    assert [] + t + [] == t;
    assert Lower(t)[4..8] == "open";
    ContainsIff(Lower(t), "open");
    assert OccursAt(Lower(t), "open", 4);
  }

  /** A status text "Closed" does not count as open. */
  lemma ClosedIsNotOpen()
    ensures !StatusSaysOpen(Some("Closed"))
  {
    var t := "Closed";
    StripPadded([], t, []);
    assert [] + t + [] == t;
    var low := Lower(t);
    assert |low| == 6 && low[0] == 'c' && low[1] == 'l' && low[3] == 's';
    var s1 := low[1..];
    var s2 := s1[1..];
    assert |s2[1..]| < 4;
    assert s2[..4][1] == 's';
    assert s1[..4][0] == 'l';
    assert low[..4][0] == 'c';
  }

  /**
   * A seats cell holding any text `int()` accepts, with whitespace around it,
   * yields the value `int()` reads from that text.
   */
  lemma SeatCountReadsLiteral(before: string, t: string, after: string)
    requires AllSpaces(before) && AllSpaces(after) && IsIntLiteral(t)
    ensures ParseInt(t).Some? && SeatCount(Some(before + t + after)) == ParseInt(t).value
  {
    assert !IsSpace(t[0]) by { if !IsDigitGroup(t) { assert IsDigitGroup(t[1..]); } }
    assert IsDigit(t[|t| - 1]) by { if !IsDigitGroup(t) { assert t[1..][|t| - 2] == t[|t| - 1]; } }
    StripPadded(before, t, after);
  }

  /** A seats cell holding exactly a text `int()` accepts yields its value. */
  lemma SeatCountOfLiteral(t: string)
    requires IsIntLiteral(t)
    ensures ParseInt(t).Some? && SeatCount(Some(t)) == ParseInt(t).value
  {
    SeatCountReadsLiteral([], t, []);
    assert [] + t + [] == t;
  }

  /** A leading zero in the seats cell does not change the count: "05" reads as 5. */
  lemma SeatCountIgnoresLeadingZero(s: string)
    requires IsDigitGroup(s)
    ensures SeatCount(Some("0" + s)) == SeatCount(Some(s))
  {
    LeadingZeroIgnored(s);
    SeatCountOfLiteral("0" + s);
    SeatCountOfLiteral(s);
  }

  /**
   * A seats cell holding an integer, with any whitespace around it, yields
   * that integer.
   */
  lemma SeatCountReadsInteger(before: string, n: int, after: string)
    requires AllSpaces(before) && AllSpaces(after)
    ensures SeatCount(Some(before + IntToString(n) + after)) == n
  {
    var t := IntToString(n);
    assert !IsSpace(t[0]) by { if n < 0 {} else { assert IsDigit(t[0]); } }
    assert IsDigit(t[|t| - 1]) by {
      if n < 0 {
        assert t[|t| - 1] == NatToString(-n)[|NatToString(-n)| - 1];
      }
    }
    StripPadded(before, t, after);
    ParseIntOfIntToString(n);
  }

  /** The characters `int()` can accept in a stripped text: digits, underscores and signs. */
  predicate IntegerChar(c: char) {
    IsDigit(c) || c == '_' || c == '+' || c == '-'
  }

  /**
   * A seats cell whose text holds a character that is neither whitespace nor
   * one `int()` can accept is not an integer, and yields 0.
   */
  lemma SeatCountFallsBackToZero(text: string, k: nat)
    requires k < |text| && !IsSpace(text[k]) && !IntegerChar(text[k])
    ensures SeatCount(Some(text)) == 0
  {
    StripKeepsNonSpace(text, k);
  }

  /** The simulator's relation between openness and seats. */
  predicate SeatsMatchStatus(isOpen: bool, seats: int) {
    if isOpen then 1 <= seats <= 10 else seats == 0
  }

  /** The results the simulator can give: no error, and seats consistent with openness. */
  predicate IsSimulated(a: Availability) {
    a.error.None? && a.seatsAvailable.Some? && SeatsMatchStatus(a.isOpen, a.seatsAvailable.value)
  }

  /**
   * simulate_course_availability with its random draws as inputs: `draw` is
   * `random.random()` and `pick` is `random.randint(1, 10)`, used only when open.
   */
  function SimulateCourseAvailability(draw: real, pick: int): (a: Availability)
    requires 0.0 <= draw < 1.0
    requires 1 <= pick <= 10
    ensures IsSimulated(a)
    ensures a.isOpen <==> draw > 0.7
    ensures a.isOpen ==> a.seatsAvailable == Some(pick)
  {
    var isOpen := draw > 0.7;
    Availability(isOpen, Some(if isOpen then pick else 0), None)
  }

  /** Every result of the simulator shape comes from some pair of draws. */
  lemma SimulatedIsReachable(a: Availability)
    requires IsSimulated(a)
    ensures exists draw: real, pick: int :: 0.0 <= draw < 1.0 && 1 <= pick <= 10
              && SimulateCourseAvailability(draw, pick) == a
  {
    if a.isOpen {
      assert SimulateCourseAvailability(0.8, a.seatsAvailable.value) == a;
    } else {
      assert SimulateCourseAvailability(0.0, 1) == a;
    }
  }
}

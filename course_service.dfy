/**
 * The course-availability pipeline: registering a tracked course, listing a
 * user's courses, checking one class against the scraper, sweeping the whole
 * classes table, and notifying the subscribers of every class that has just
 * become open.
 *
 * The three tables are maps and a sequence held by the `Tables` class; the
 * scraper is an oracle function and the clock is a timestamp parameter.
 * The first half of the module holds the functions that specify each step
 * and the lemmas about them; the class at the end performs the steps.
 */
module CourseService {
  import opened Wrappers
  import opened Text
  import opened Schemas
  import Scraper

  /** The scraper as the pipeline calls it: (crn, year, semester) to a result dictionary. */
  type ScrapeOracle = (string, int, Semester) -> Scraper.Availability

  predicate NoDuplicates<T(==)>(s: seq<T>) {
    forall i, j :: 0 <= i < j < |s| ==> s[i] != s[j]
  }

  // ---------------------------------------------------------------------------
  // Class ids

  /** The deterministic class id `crn-year-semester`. */
  function CourseId(crn: string, year: int, semester: Semester): (id: string)
    ensures crn + "-" <= id
    ensures |"-" + SemesterName(semester)| <= |id| && id[|id| - |"-" + SemesterName(semester)|..] == "-" + SemesterName(semester)
  {
    crn + "-" + IntToString(year) + "-" + SemesterName(semester)
  }

  lemma SplitAtLast(a1: string, b1: string, a2: string, b2: string, sep: char)
    requires sep !in b1 && sep !in b2
    requires a1 + [sep] + b1 == a2 + [sep] + b2
    ensures a1 == a2 && b1 == b2
  {
    var u := a1 + [sep] + b1;
    assert u[|a1|] == sep && u[|a2|] == sep;
    assert |a1| == |a2|;
    assert a1 == u[..|a1|] && a2 == u[..|a2|];
    assert b1 == u[|a1| + 1..] && b2 == u[|a2| + 1..];
  }

  /**
   * For non-negative years, equal class ids come from equal course details:
   * the id names one (crn, year, semester).
   */
  lemma CourseIdInjective(c1: string, y1: int, s1: Semester, c2: string, y2: int, s2: Semester)
    requires y1 >= 0 && y2 >= 0
    requires CourseId(c1, y1, s1) == CourseId(c2, y2, s2)
    ensures c1 == c2 && y1 == y2 && s1 == s2
  {
    var n1, n2 := SemesterName(s1), SemesterName(s2);
    var d1, d2 := IntToString(y1), IntToString(y2);
    assert CourseId(c1, y1, s1) == (c1 + "-" + d1) + ['-'] + n1;
    assert CourseId(c2, y2, s2) == (c2 + "-" + d2) + ['-'] + n2;
    SplitAtLast(c1 + "-" + d1, n1, c2 + "-" + d2, n2, '-');
    SemesterNameInjective(s1, s2);
    assert '-' !in d1 && '-' !in d2 by {
      assert AllDigits(d1) && AllDigits(d2);
    }
    assert c1 + "-" + d1 == c1 + ['-'] + d1;
    assert c2 + "-" + d2 == c2 + ['-'] + d2;
    SplitAtLast(c1, d1, c2, d2, '-');
    NatToStringInjective(y1, y2);
  }

  /** With a negative year two different courses can share an id. */
  lemma CourseIdCollidesForNegativeYears()
    ensures CourseId("x", -5, Fall) == CourseId("x-", 5, Fall)
  {
  }

  // ---------------------------------------------------------------------------
  // The subscriptions table and its two indices

  /**
   * `put_item` of a subscription: the table holds each (user, class) key once,
   * so putting one that is present changes nothing.
   */
  function PutSubscription(subs: seq<Subscription>, s: Subscription): (r: seq<Subscription>)
    ensures s in r
    ensures forall x :: x in r <==> x in subs || x == s
    ensures subs <= r && |r| <= |subs| + 1
    ensures NoDuplicates(subs) ==> NoDuplicates(r)
  {
    if s in subs then subs else subs + [s]
  }

  /** Query by `user_id`: the class ids one user tracks, in table order. */
  function ClassesOf(subs: seq<Subscription>, userId: string): (ids: seq<string>)
    ensures |ids| <= |subs|
  {
    if subs == [] then []
    else
      var last := subs[|subs| - 1];
      ClassesOf(subs[..|subs| - 1], userId) + (if last.userId == userId then [last.classId] else [])
  }

  /** Query of `class-users-index` by `class_id`: the users tracking one class, in index order. */
  function SubscribersOf(subs: seq<Subscription>, classId: string): (ids: seq<string>)
    ensures |ids| <= |subs|
  {
    if subs == [] then []
    else
      var last := subs[|subs| - 1];
      SubscribersOf(subs[..|subs| - 1], classId) + (if last.classId == classId then [last.userId] else [])
  }

  lemma {:induction false} ClassesOfIff(subs: seq<Subscription>, userId: string, classId: string)
    ensures classId in ClassesOf(subs, userId) <==> Subscription(userId, classId) in subs
  {
    if subs != [] {
      var init := subs[..|subs| - 1];
      assert subs == init + [subs[|subs| - 1]];
      ClassesOfIff(init, userId, classId);
    }
  }

  lemma {:induction false} SubscribersOfIff(subs: seq<Subscription>, classId: string, userId: string)
    ensures userId in SubscribersOf(subs, classId) <==> Subscription(userId, classId) in subs
  {
    if subs != [] {
      var init := subs[..|subs| - 1];
      assert subs == init + [subs[|subs| - 1]];
      SubscribersOfIff(init, classId, userId);
    }
  }

  /** A class's subscriber list names each user once, because the table holds each pair once. */
  lemma {:induction false} SubscribersOfDistinct(subs: seq<Subscription>, classId: string)
    requires NoDuplicates(subs)
    ensures NoDuplicates(SubscribersOf(subs, classId))
  {
    if subs != [] {
      var init, last := subs[..|subs| - 1], subs[|subs| - 1];
      assert subs == init + [last];
      SubscribersOfDistinct(init, classId);
      if last.classId == classId {
        SubscribersOfIff(init, classId, last.userId);
        assert last !in init;
      }
    }
  }

  // ---------------------------------------------------------------------------
  // Listing a user's courses

  /** Every row is stored under its own class id (the table's key attribute). */
  predicate KeyedRows(classes: map<string, ClassRow>) {
    forall k :: k in classes ==> classes[k].classId == k
  }

  /** One class row per id whose row exists, in the order of `ids`; missing rows are skipped. */
  function RowsFor(classes: map<string, ClassRow>, ids: seq<string>): (rows: seq<ClassRow>)
    ensures |rows| <= |ids|
  {
    if ids == [] then []
    else
      var last := ids[|ids| - 1];
      RowsFor(classes, ids[..|ids| - 1]) + (if last in classes then [classes[last]] else [])
  }

  lemma {:induction false} RowsForIff(classes: map<string, ClassRow>, ids: seq<string>, r: ClassRow)
    requires KeyedRows(classes)
    ensures r in RowsFor(classes, ids) <==> r.classId in ids && r.classId in classes && classes[r.classId] == r
  {
    if ids != [] {
      var init := ids[..|ids| - 1];
      assert ids == init + [ids[|ids| - 1]];
      RowsForIff(classes, init, r);
    }
  }

  /**
   * A user's course list holds exactly the stored rows of the classes that
   * user tracks, and is empty when the user tracks nothing.
   */
  lemma UserCoursesIff(classes: map<string, ClassRow>, subs: seq<Subscription>, userId: string, r: ClassRow)
    requires KeyedRows(classes)
    ensures r in RowsFor(classes, ClassesOf(subs, userId)) <==>
              Subscription(userId, r.classId) in subs && r.classId in classes && classes[r.classId] == r
    ensures ClassesOf(subs, userId) == [] ==> RowsFor(classes, ClassesOf(subs, userId)) == []
  {
    RowsForIff(classes, ClassesOf(subs, userId), r);
    ClassesOfIff(subs, userId, r.classId);
  }

  // ---------------------------------------------------------------------------
  // Checking one class

  /** The stored status a check compares against: a missing `is_open` counts as closed. */
  function PreviousStatus(row: ClassRow): bool {
    row.isOpen.GetOr(false)
  }

  /** What the scraper reports for the course a row describes. */
  function Observe(row: ClassRow, scrape: ScrapeOracle): Scraper.Availability {
    scrape(row.crn, row.year, row.semester)
  }

  /** The row `add_course` creates for a class seen for the first time. */
  function NewClassRow(classId: string, data: CourseCreate, a: Scraper.Availability, now: string): (row: ClassRow)
    ensures row.classId == classId
    ensures row.crn == data.crn && row.year == data.year && row.semester == data.semester
    ensures PreviousStatus(row) == a.isOpen
    ensures a.seatsAvailable.None? ==> row.seatsAvailable == Some(0)
    ensures row.seatsAvailable == Some(a.seatsAvailable.GetOr(0))
    ensures row.lastChecked == Some(now)
  {
    ClassRow(classId, data.crn, data.year, data.semester,
             Some(a.isOpen), Some(a.seatsAvailable.GetOr(0)), Some(now))
  }

  /** A row after a check: the new observation and time; the course it names is kept. */
  function Refreshed(row: ClassRow, a: Scraper.Availability, now: string): (r: ClassRow)
    ensures r.classId == row.classId
    ensures r.crn == row.crn && r.year == row.year && r.semester == row.semester
    ensures PreviousStatus(r) == a.isOpen
    ensures a.seatsAvailable.None? ==> r.seatsAvailable == Some(0)
    ensures r.seatsAvailable == Some(a.seatsAvailable.GetOr(0))
    ensures r.lastChecked == Some(now)
  {
    row.(isOpen := Some(a.isOpen), seatsAvailable := Some(a.seatsAvailable.GetOr(0)), lastChecked := Some(now))
  }

  /** The dictionary `check_course_availability` returns. */
  datatype CheckResult =
    | NotFound(classId: string)
    | Checked(classId: string, isOpen: bool, seatsAvailable: int, statusChanged: bool, previousStatus: bool)

  function Report(classId: string, row: ClassRow, a: Scraper.Availability): (r: CheckResult)
    ensures r.Checked? && r.classId == classId
    ensures r.isOpen == a.isOpen && r.previousStatus == PreviousStatus(row)
    ensures r.statusChanged <==> r.isOpen != r.previousStatus
    ensures r.seatsAvailable == a.seatsAvailable.GetOr(0)
  {
    var previous := PreviousStatus(row);
    Checked(classId, a.isOpen, a.seatsAvailable.GetOr(0), a.isOpen != previous, previous)
  }

  /**
   * `status_changed` is reported exactly when the check flips the stored
   * status, and the reported status is the one stored afterwards.
   */
  lemma StatusChangedIffStoredStatusFlips(classId: string, row: ClassRow, a: Scraper.Availability, now: string)
    ensures Report(classId, row, a).statusChanged <==> PreviousStatus(Refreshed(row, a, now)) != PreviousStatus(row)
    ensures Report(classId, row, a).isOpen == PreviousStatus(Refreshed(row, a, now))
  {
  }

  /**
   * Checking a row a second time, against an observation with the same
   * openness as the first, reports no change.
   */
  lemma RecheckReportsNoChange(classId: string, row: ClassRow, a: Scraper.Availability, b: Scraper.Availability, now: string)
    requires b.isOpen == a.isOpen
    ensures !Report(classId, Refreshed(row, a, now), b).statusChanged
  {
  }

  // ---------------------------------------------------------------------------
  // Sweeping the classes table

  /** The classes table after every row has been checked with the same clock reading. */
  function Swept(classes: map<string, ClassRow>, scrape: ScrapeOracle, now: string): (r: map<string, ClassRow>)
    ensures r.Keys == classes.Keys
    ensures KeyedRows(classes) ==> KeyedRows(r)
  {
    map k | k in classes :: Refreshed(classes[k], Observe(classes[k], scrape), now)
  }

  /**
   * `results` is what a sweep of `classes` returns: one checked result per row,
   * each row once, in some scan order.
   */
  predicate IsSweepOf(results: seq<CheckResult>, classes: map<string, ClassRow>, scrape: ScrapeOracle) {
    && |results| == |classes|
    && (forall i :: 0 <= i < |results| ==>
          && results[i].classId in classes
          && results[i] == Report(results[i].classId, classes[results[i].classId], Observe(classes[results[i].classId], scrape)))
    && (forall i, j :: 0 <= i < j < |results| ==> results[i].classId != results[j].classId)
    && (forall k :: k in classes ==> exists i :: 0 <= i < |results| && results[i].classId == k)
  }

  // ---------------------------------------------------------------------------
  // Notifying subscribers

  /** The results `notify_users_for_open_courses` acts on: now open, and changed. */
  function NewlyOpen(results: seq<CheckResult>): (newlyOpen: seq<CheckResult>)
    requires forall r :: r in results ==> r.Checked?
    ensures |newlyOpen| <= |results|
    ensures forall r :: r in newlyOpen ==> r in results && r.isOpen && r.statusChanged
  {
    if results == [] then []
    else
      var last := results[|results| - 1];
      NewlyOpen(results[..|results| - 1]) + (if last.isOpen && last.statusChanged then [last] else [])
  }

  /** A result triggers notifications exactly when it is open and changed; open-to-closed never does. */
  lemma {:induction false} NewlyOpenIff(results: seq<CheckResult>, r: CheckResult)
    requires forall x :: x in results ==> x.Checked?
    ensures r in NewlyOpen(results) <==> r in results && r.isOpen && r.statusChanged
  {
    if results != [] {
      var init := results[..|results| - 1];
      assert results == init + [results[|results| - 1]];
      NewlyOpenIff(init, r);
    }
  }

  /** A class that was open and is still open is not "newly open"; neither is one that closed. */
  lemma NewlyOpenExcludesUnchangedAndClosing(results: seq<CheckResult>, r: CheckResult)
    requires forall x :: x in results ==> x.Checked?
    requires r in results && (!r.isOpen || r.previousStatus)
    requires r.Checked? && r.statusChanged == (r.isOpen != r.previousStatus)
    ensures r !in NewlyOpen(results)
  {
    NewlyOpenIff(results, r);
  }

  /**
   * In a sweep, a class is reported newly open exactly when its stored status
   * was closed (or missing) and the scraper now says open.
   */
  lemma SweepNewlyOpenIff(results: seq<CheckResult>, classes: map<string, ClassRow>, scrape: ScrapeOracle, k: string)
    requires IsSweepOf(results, classes, scrape)
    ensures forall x :: x in results ==> x.Checked?
    ensures (exists r :: r in NewlyOpen(results) && r.classId == k) <==>
              k in classes && !PreviousStatus(classes[k]) && Observe(classes[k], scrape).isOpen
  {
    assert forall x :: x in results ==> x.Checked?;
    if r :| r in NewlyOpen(results) && r.classId == k {
      NewlyOpenIff(results, r);
    }
    if k in classes && !PreviousStatus(classes[k]) && Observe(classes[k], scrape).isOpen {
      var i :| 0 <= i < |results| && results[i].classId == k;
      NewlyOpenIff(results, results[i]);
    }
  }

  /** A published notification: the recipient, the address used and the class. */
  datatype Notification = Notification(userId: string, email: string, classId: string)

  /** The user record exists and its `email` is present and non-empty (truthy). */
  predicate HasEmail(users: map<string, User>, userId: string) {
    userId in users && users[userId].email.Some? && users[userId].email.value != ""
  }

  /** One notification per listed subscriber with a user record and an email, in list order. */
  function NotifySubscribers(users: map<string, User>, userIds: seq<string>, classId: string): (ns: seq<Notification>)
    ensures |ns| <= |userIds|
  {
    if userIds == [] then []
    else
      var u := userIds[|userIds| - 1];
      NotifySubscribers(users, userIds[..|userIds| - 1], classId)
        + (if HasEmail(users, u) then [Notification(u, users[u].email.value, classId)] else [])
  }

  /** The notifications for one newly open class: none when its row has gone from the table. */
  function NotifyClass(classes: map<string, ClassRow>, users: map<string, User>, subs: seq<Subscription>, classId: string): seq<Notification> {
    if classId in classes then NotifySubscribers(users, SubscribersOf(subs, classId), classId) else []
  }

  /** The notifications for all newly open classes, class by class. */
  function FanOut(classes: map<string, ClassRow>, users: map<string, User>, subs: seq<Subscription>, newlyOpen: seq<CheckResult>): seq<Notification> {
    if newlyOpen == [] then []
    else FanOut(classes, users, subs, newlyOpen[..|newlyOpen| - 1]) + NotifyClass(classes, users, subs, newlyOpen[|newlyOpen| - 1].classId)
  }

  lemma {:induction false} NotifySubscribersIff(users: map<string, User>, userIds: seq<string>, classId: string, n: Notification)
    ensures n in NotifySubscribers(users, userIds, classId) <==>
              n.classId == classId && n.userId in userIds && HasEmail(users, n.userId) && n.email == users[n.userId].email.value
  {
    if userIds != [] {
      var init := userIds[..|userIds| - 1];
      assert userIds == init + [userIds[|userIds| - 1]];
      NotifySubscribersIff(users, init, classId, n);
    }
  }

  predicate Notifiable(classes: map<string, ClassRow>, users: map<string, User>, subs: seq<Subscription>, newlyOpen: seq<CheckResult>, n: Notification) {
    && (exists r :: r in newlyOpen && r.classId == n.classId)
    && n.classId in classes
    && Subscription(n.userId, n.classId) in subs
    && HasEmail(users, n.userId)
    && n.email == users[n.userId].email.value
  }

  /**
   * A notification is sent exactly for a newly open class still in the table
   * and a subscriber of it whose user record has an email, to that email.
   */
  lemma {:induction false} FanOutIff(classes: map<string, ClassRow>, users: map<string, User>, subs: seq<Subscription>, newlyOpen: seq<CheckResult>, n: Notification)
    ensures n in FanOut(classes, users, subs, newlyOpen) <==> Notifiable(classes, users, subs, newlyOpen, n)
  {
    if newlyOpen != [] {
      var init, last := newlyOpen[..|newlyOpen| - 1], newlyOpen[|newlyOpen| - 1];
      assert newlyOpen == init + [last];
      FanOutIff(classes, users, subs, init, n);
      if last.classId in classes {
        NotifySubscribersIff(users, SubscribersOf(subs, last.classId), last.classId, n);
        SubscribersOfIff(subs, last.classId, n.userId);
      }
      if Notifiable(classes, users, subs, newlyOpen, n) {
        var r :| r in newlyOpen && r.classId == n.classId;
        if r != last {
          assert r in init;
        }
      }
    }
  }

  predicate DistinctClasses(results: seq<CheckResult>) {
    forall i, j :: 0 <= i < j < |results| ==> results[i].classId != results[j].classId
  }

  lemma {:induction false} NotifySubscribersDistinct(users: map<string, User>, userIds: seq<string>, classId: string)
    requires NoDuplicates(userIds)
    ensures NoDuplicates(NotifySubscribers(users, userIds, classId))
  {
    if userIds != [] {
      var init, u := userIds[..|userIds| - 1], userIds[|userIds| - 1];
      assert userIds == init + [u];
      NotifySubscribersDistinct(users, init, classId);
      if HasEmail(users, u) {
        NotifySubscribersIff(users, init, classId, Notification(u, users[u].email.value, classId));
      }
    }
  }

  /** No subscriber is notified twice about one class in one run. */
  lemma {:induction false} FanOutDistinct(classes: map<string, ClassRow>, users: map<string, User>, subs: seq<Subscription>, newlyOpen: seq<CheckResult>)
    requires NoDuplicates(subs) && DistinctClasses(newlyOpen)
    ensures NoDuplicates(FanOut(classes, users, subs, newlyOpen))
  {
    if newlyOpen != [] {
      var init, last := newlyOpen[..|newlyOpen| - 1], newlyOpen[|newlyOpen| - 1];
      FanOutDistinct(classes, users, subs, init);
      var front, back := FanOut(classes, users, subs, init), NotifyClass(classes, users, subs, last.classId);
      if last.classId in classes {
        SubscribersOfDistinct(subs, last.classId);
        NotifySubscribersDistinct(users, SubscribersOf(subs, last.classId), last.classId);
        forall i, j | 0 <= i < |front| && 0 <= j < |back| ensures front[i] != back[j] {
          FanOutIff(classes, users, subs, init, front[i]);
          NotifySubscribersIff(users, SubscribersOf(subs, last.classId), last.classId, back[j]);
          var r :| r in init && r.classId == front[i].classId;
        }
      }
      DistinctConcat(front, back);
    }
  }

  lemma DistinctConcat<T>(a: seq<T>, b: seq<T>)
    requires NoDuplicates(a) && NoDuplicates(b)
    requires forall i, j :: 0 <= i < |a| && 0 <= j < |b| ==> a[i] != b[j]
    ensures NoDuplicates(a + b)
  {
  }

  lemma {:induction false} DistinctCardinality<T>(s: seq<T>)
    requires NoDuplicates(s)
    ensures |set x | x in s| == |s|
  {
    if s != [] {
      var init, last := s[..|s| - 1], s[|s| - 1];
      assert s == init + [last];
      DistinctCardinality(init);
      assert (set x | x in s) == (set x | x in init) + {last};
      assert last !in init;
    }
  }

  /** The (class, subscriber) pairs a run must notify, as notifications. */
  function NotifiablePairs(classes: map<string, ClassRow>, users: map<string, User>, subs: seq<Subscription>, newlyOpen: seq<CheckResult>): set<Notification> {
    set r, s | r in newlyOpen && s in subs && s.classId == r.classId && r.classId in classes && HasEmail(users, s.userId)
      :: Notification(s.userId, users[s.userId].email.value, r.classId)
  }

  /**
   * The number of notifications sent equals the number of pairs of a newly
   * open class still in the table and a subscriber with a user record and an
   * email.
   */
  lemma NotificationCount(classes: map<string, ClassRow>, users: map<string, User>, subs: seq<Subscription>, newlyOpen: seq<CheckResult>)
    requires NoDuplicates(subs) && DistinctClasses(newlyOpen)
    ensures |FanOut(classes, users, subs, newlyOpen)| == |NotifiablePairs(classes, users, subs, newlyOpen)|
  {
    var ns := FanOut(classes, users, subs, newlyOpen);
    FanOutDistinct(classes, users, subs, newlyOpen);
    DistinctCardinality(ns);
    forall n ensures n in ns <==> n in NotifiablePairs(classes, users, subs, newlyOpen) {
      FanOutIff(classes, users, subs, newlyOpen, n);
      if Notifiable(classes, users, subs, newlyOpen, n) {
        var r :| r in newlyOpen && r.classId == n.classId;
        assert n == Notification(Subscription(n.userId, n.classId).userId, users[n.userId].email.value, r.classId);
      }
    }
    assert (set x | x in ns) == NotifiablePairs(classes, users, subs, newlyOpen);
  }

  // ---------------------------------------------------------------------------
  // Properties of a whole run

  /** Filtering keeps results with distinct class ids distinct. */
  lemma {:induction false} NewlyOpenDistinct(results: seq<CheckResult>)
    requires forall x :: x in results ==> x.Checked?
    requires DistinctClasses(results)
    ensures DistinctClasses(NewlyOpen(results))
  {
    if results != [] {
      var init, last := results[..|results| - 1], results[|results| - 1];
      assert results == init + [last];
      NewlyOpenDistinct(init);
      var front := NewlyOpen(init);
      forall i | 0 <= i < |front| ensures front[i].classId != last.classId {
        assert front[i] in init;
      }
    }
  }

  /**
   * In one run no user is notified twice about one class, and
   * `notifications_sent` equals the number of pairs of a newly open class and
   * a subscriber of it with an email.
   */
  lemma RunNotificationCount(classes: map<string, ClassRow>, users: map<string, User>, subs: seq<Subscription>,
                             scrape: ScrapeOracle, now: string, results: seq<CheckResult>)
    requires NoDuplicates(subs)
    requires IsSweepOf(results, classes, scrape)
    ensures forall x :: x in results ==> x.Checked?
    ensures NoDuplicates(FanOut(Swept(classes, scrape, now), users, subs, NewlyOpen(results)))
    ensures |FanOut(Swept(classes, scrape, now), users, subs, NewlyOpen(results))|
              == |NotifiablePairs(Swept(classes, scrape, now), users, subs, NewlyOpen(results))|
  {
    NewlyOpenDistinct(results);
    FanOutDistinct(Swept(classes, scrape, now), users, subs, NewlyOpen(results));
    NotificationCount(Swept(classes, scrape, now), users, subs, NewlyOpen(results));
  }

  /**
   * End to end: a run notifies a (user, class) pair exactly when the class was
   * stored as closed (or without a status), the scraper now says open, the user
   * tracks the class and the user's record has an email, which is the address used.
   */
  lemma RunNotifiesIff(classes: map<string, ClassRow>, users: map<string, User>, subs: seq<Subscription>,
                       scrape: ScrapeOracle, now: string, results: seq<CheckResult>, n: Notification)
    requires IsSweepOf(results, classes, scrape)
    ensures forall x :: x in results ==> x.Checked?
    ensures n in FanOut(Swept(classes, scrape, now), users, subs, NewlyOpen(results)) <==>
              && n.classId in classes
              && !PreviousStatus(classes[n.classId])
              && Observe(classes[n.classId], scrape).isOpen
              && Subscription(n.userId, n.classId) in subs
              && HasEmail(users, n.userId)
              && n.email == users[n.userId].email.value
  {
    SweepNewlyOpenIff(results, classes, scrape, n.classId);
    FanOutIff(Swept(classes, scrape, now), users, subs, NewlyOpen(results), n);
  }

  /**
   * A second sweep that sees the same scraper answers as the first reports no
   * newly open class, so it notifies no one.
   */
  lemma ResweepIsQuiet(classes: map<string, ClassRow>, scrape: ScrapeOracle, now: string, results: seq<CheckResult>)
    requires IsSweepOf(results, Swept(classes, scrape, now), scrape)
    ensures forall x :: x in results ==> x.Checked?
    ensures NewlyOpen(results) == []
  {
    var swept := Swept(classes, scrape, now);
    forall r | r in results ensures r.Checked? && !(r.isOpen && r.statusChanged) {
      var i :| 0 <= i < |results| && results[i] == r;
      var k := r.classId;
      assert Observe(swept[k], scrape) == Observe(classes[k], scrape);
    }
    if NewlyOpen(results) != [] {
      NewlyOpenIff(results, NewlyOpen(results)[0]);
    }
  }

  /** Every stored row whose status and seats are present has seats consistent with its status. */
  predicate SeatsConsistent(classes: map<string, ClassRow>) {
    forall k :: k in classes && classes[k].isOpen.Some? && classes[k].seatsAvailable.Some? ==>
      Scraper.SeatsMatchStatus(classes[k].isOpen.value, classes[k].seatsAvailable.value)
  }

  /** The scraper answers only as the simulator can. */
  ghost predicate SimulatedOracle(scrape: ScrapeOracle) {
    forall crn, year, semester :: Scraper.IsSimulated(scrape(crn, year, semester))
  }

  /** With the simulator, a sweep leaves every row with 0 seats when closed and 1 to 10 when open. */
  lemma SweepMakesSeatsConsistent(classes: map<string, ClassRow>, scrape: ScrapeOracle, now: string)
    requires SimulatedOracle(scrape)
    ensures SeatsConsistent(Swept(classes, scrape, now))
  {
  }

  /** With the simulator, the row `add_course` creates keeps the table's seats consistent. */
  lemma NewRowKeepsSeatsConsistent(classes: map<string, ClassRow>, data: CourseCreate, scrape: ScrapeOracle, now: string)
    requires SimulatedOracle(scrape) && SeatsConsistent(classes)
    ensures var classId := CourseId(data.crn, data.year, data.semester);
            SeatsConsistent(classes[classId := NewClassRow(classId, data, scrape(data.crn, data.year, data.semester), now)])
  {
  }

  /** The result of checking a scanned row. */
  function ReportRow(row: ClassRow, scrape: ScrapeOracle): CheckResult {
    Report(row.classId, row, Observe(row, scrape))
  }

  /** The classes table part-way through a sweep: the rows in `done` have been checked. */
  function PartlySwept(classes: map<string, ClassRow>, done: set<string>, scrape: ScrapeOracle, now: string): (r: map<string, ClassRow>)
    ensures r.Keys == classes.Keys
    ensures KeyedRows(classes) ==> KeyedRows(r)
  {
    map k | k in classes :: if k in done then Refreshed(classes[k], Observe(classes[k], scrape), now) else classes[k]
  }

  lemma PartlySweptStep(classes: map<string, ClassRow>, done: set<string>, k: string, scrape: ScrapeOracle, now: string)
    requires k in classes && k !in done
    ensures PartlySwept(classes, done, scrape, now)[k] == classes[k]
    ensures PartlySwept(classes, done + {k}, scrape, now)
              == PartlySwept(classes, done, scrape, now)[k := Refreshed(classes[k], Observe(classes[k], scrape), now)]
  {
  }

  lemma PartlySweptAll(classes: map<string, ClassRow>, done: set<string>, scrape: ScrapeOracle, now: string)
    requires classes.Keys <= done
    ensures PartlySwept(classes, done, scrape, now) == Swept(classes, scrape, now)
  {
  }

  /** Checking every row of a full scan, in scan order, is a sweep. */
  lemma ScannedRowsSweep(rows: seq<ClassRow>, classes: map<string, ClassRow>, results: seq<CheckResult>, scrape: ScrapeOracle)
    requires |rows| == |classes| && |results| == |rows|
    requires forall i :: 0 <= i < |rows| ==> rows[i].classId in classes && classes[rows[i].classId] == rows[i]
    requires forall i, j :: 0 <= i < j < |rows| ==> rows[i].classId != rows[j].classId
    requires forall k :: k in classes ==> exists i :: 0 <= i < |rows| && rows[i].classId == k
    requires forall i :: 0 <= i < |rows| ==> results[i] == ReportRow(rows[i], scrape)
    ensures IsSweepOf(results, classes, scrape)
  {
  }

  /**
   * Part-way through a scan: `items` holds the rows of the keys no longer
   * `pending`, each once.
   */
  predicate ScanSoFar(classes: map<string, ClassRow>, items: seq<ClassRow>, pending: set<string>) {
    && pending <= classes.Keys
    && |items| + |pending| == |classes|
    && (forall i :: 0 <= i < |items| ==>
          items[i].classId in classes && classes[items[i].classId] == items[i] && items[i].classId !in pending)
    && (forall i, j :: 0 <= i < j < |items| ==> items[i].classId != items[j].classId)
    && (forall k :: k in classes && k !in pending ==> exists i :: 0 <= i < |items| && items[i].classId == k)
  }

  /** Taking one pending key's row extends the scan. */
  lemma ScanStep(classes: map<string, ClassRow>, items: seq<ClassRow>, pending: set<string>, k: string)
    requires KeyedRows(classes)
    requires ScanSoFar(classes, items, pending) && k in pending
    ensures ScanSoFar(classes, items + [classes[k]], pending - {k})
  {
    var after := items + [classes[k]];
    forall k' | k' in classes && k' !in pending - {k} ensures exists i :: 0 <= i < |after| && after[i].classId == k' {
      if k' == k {
        assert after[|items|].classId == k;
      } else {
        var i :| 0 <= i < |items| && items[i].classId == k';
        assert after[i] == items[i];
      }
    }
  }

  /** Once every scanned row has been checked, the table is swept and the results are a sweep. */
  lemma ScanCheckedIsSweep(rows: seq<ClassRow>, classes: map<string, ClassRow>, results: seq<CheckResult>,
                           done: set<string>, scrape: ScrapeOracle, now: string)
    requires |rows| == |classes| && |results| == |rows|
    requires forall i :: 0 <= i < |rows| ==> rows[i].classId in classes && classes[rows[i].classId] == rows[i]
    requires forall i, j :: 0 <= i < j < |rows| ==> rows[i].classId != rows[j].classId
    requires forall k :: k in classes ==> exists i :: 0 <= i < |rows| && rows[i].classId == k
    requires forall i :: 0 <= i < |rows| ==> results[i] == ReportRow(rows[i], scrape)
    requires forall i :: 0 <= i < |rows| ==> rows[i].classId in done
    ensures PartlySwept(classes, done, scrape, now) == Swept(classes, scrape, now)
    ensures IsSweepOf(results, classes, scrape)
  {
    forall k | k in classes ensures k in done {
      var j :| 0 <= j < |rows| && rows[j].classId == k;
    }
    PartlySweptAll(classes, done, scrape, now);
    ScannedRowsSweep(rows, classes, results, scrape);
  }

  lemma AppendAssoc<T>(a: seq<T>, b: seq<T>, c: seq<T>)
    ensures (a + b) + c == a + (b + c)
  {
  }

  lemma FanOutSnoc(classes: map<string, ClassRow>, users: map<string, User>, subs: seq<Subscription>, xs: seq<CheckResult>, i: nat)
    requires i < |xs|
    ensures FanOut(classes, users, subs, xs[..i + 1])
              == FanOut(classes, users, subs, xs[..i]) + NotifyClass(classes, users, subs, xs[i].classId)
  {
    assert xs[..i + 1][..i] == xs[..i];
  }

  lemma NotifySubscribersSnoc(users: map<string, User>, userIds: seq<string>, j: nat, classId: string)
    requires j < |userIds|
    ensures NotifySubscribers(users, userIds[..j + 1], classId)
              == NotifySubscribers(users, userIds[..j], classId)
                 + (if HasEmail(users, userIds[j]) then [Notification(userIds[j], users[userIds[j]].email.value, classId)] else [])
  {
    assert userIds[..j + 1][..j] == userIds[..j];
  }

  // ---------------------------------------------------------------------------
  // The service over the three tables

  const NoNewlyOpenMessage: string := "No newly opened courses found"

  function SentMessage(courseCount: nat): string {
    "Notifications sent for " + IntToString(courseCount) + " newly opened courses"
  }

  /** The dictionary `notify_users_for_open_courses` returns; the count is absent when nothing opened. */
  datatype NotifyOutcome = NotifyOutcome(message: string, notificationsSent: Option<nat>)

  class Tables {
    /** The classes table, by `class_id`. */
    var classes: map<string, ClassRow>
    /** The users table, by `user_id`. */
    var users: map<string, User>
    /** The user-courses table, in insertion order. */
    var subscriptions: seq<Subscription>
    /** The notifications published so far, in order. */
    var published: seq<Notification>

    ghost predicate Valid()
      reads this`classes, this`subscriptions
    {
      KeyedRows(classes) && NoDuplicates(subscriptions)
    }

    constructor(classes: map<string, ClassRow>, users: map<string, User>, subscriptions: seq<Subscription>)
      requires KeyedRows(classes) && NoDuplicates(subscriptions)
      ensures Valid()
      ensures this.classes == classes && this.users == users && this.subscriptions == subscriptions
      ensures published == []
    {
      this.classes := classes;
      this.users := users;
      this.subscriptions := subscriptions;
      published := [];
    }

    /**
     * Track a course for a user: create the class row, from one scraper
     * answer, only if none exists, then record the subscription.
     */
    method AddCourse(userId: string, data: CourseCreate, scrape: ScrapeOracle, now: string) returns (classId: string)
      requires Valid()
      modifies this`classes, this`subscriptions
      ensures Valid()
      ensures classId == CourseId(data.crn, data.year, data.semester)
      ensures classId in old(classes) ==> classes == old(classes)
      ensures classId !in old(classes) ==>
                classes == old(classes)[classId := NewClassRow(classId, data, scrape(data.crn, data.year, data.semester), now)]
      ensures subscriptions == PutSubscription(old(subscriptions), Subscription(userId, classId))
    {
      classId := CourseId(data.crn, data.year, data.semester);
      if classId !in classes {
        var availability := scrape(data.crn, data.year, data.semester);
        classes := classes[classId := NewClassRow(classId, data, availability, now)];
      }
      subscriptions := PutSubscription(subscriptions, Subscription(userId, classId));
    }

    /** The rows of the classes a user tracks, in subscription order, skipping ids with no row. */
    method GetUserCourses(userId: string) returns (courses: seq<ClassRow>)
      ensures courses == RowsFor(classes, ClassesOf(subscriptions, userId))
    {
      var items := ClassesOf(subscriptions, userId);
      if items == [] {
        return [];
      }
      courses := [];
      for i := 0 to |items|
        invariant courses == RowsFor(classes, items[..i])
      {
        assert items[..i + 1][..i] == items[..i];
        var classId := items[i];
        if classId in classes {
          courses := courses + [classes[classId]];
        }
      }
      assert items[..|items|] == items;
    }

    /**
     * Check one class: an unknown id reports "not found" and writes nothing;
     * otherwise the scraper's answer and the time are stored and the change
     * against the stored status is reported.
     */
    method CheckCourseAvailability(classId: string, scrape: ScrapeOracle, now: string) returns (result: CheckResult)
      requires Valid()
      modifies this`classes
      ensures Valid()
      ensures classId !in old(classes) ==> result == NotFound(classId) && classes == old(classes)
      ensures classId in old(classes) ==>
                var row := old(classes)[classId];
                && result == Report(classId, row, Observe(row, scrape))
                && classes == old(classes)[classId := Refreshed(row, Observe(row, scrape), now)]
    {
      if classId !in classes {
        return NotFound(classId);
      }
      var course := classes[classId];
      var previousStatus := course.isOpen.GetOr(false);
      var availability := scrape(course.crn, course.year, course.semester);
      var isOpen := availability.isOpen;
      var seatsAvailable := availability.seatsAvailable.GetOr(0);
      classes := classes[classId := course.(isOpen := Some(isOpen), seatsAvailable := Some(seatsAvailable), lastChecked := Some(now))];
      result := Checked(classId, isOpen, seatsAvailable, isOpen != previousStatus, previousStatus);
    }

    /** A full scan of the classes table: every row once, in an order the table chooses. */
    method Scan() returns (items: seq<ClassRow>)
      requires Valid()
      ensures |items| == |classes|
      ensures forall i :: 0 <= i < |items| ==> items[i].classId in classes && classes[items[i].classId] == items[i]
      ensures forall i, j :: 0 <= i < j < |items| ==> items[i].classId != items[j].classId
      ensures forall k :: k in classes ==> exists i :: 0 <= i < |items| && items[i].classId == k
    {
      var pending := classes.Keys;
      items := [];
      while pending != {}
        invariant ScanSoFar(classes, items, pending)
        decreases |pending|
      {
        var k :| k in pending;
        ScanStep(classes, items, pending, k);
        items := items + [classes[k]];
        pending := pending - {k};
      }
    }

    /** Check every class in the table, one result per scanned row, in scan order. */
    method CheckAllCourses(scrape: ScrapeOracle, now: string) returns (results: seq<CheckResult>)
      requires Valid()
      modifies this`classes
      ensures Valid()
      ensures classes == Swept(old(classes), scrape, now)
      ensures IsSweepOf(results, old(classes), scrape)
    {
      var courses := Scan();
      ghost var done;
      results, done := CheckEach(courses, scrape, now);
      ScanCheckedIsSweep(courses, old(classes), results, done, scrape, now);
    }

    /** The loop of `check_all_courses`: check the scanned rows one after another. */
    method CheckEach(courses: seq<ClassRow>, scrape: ScrapeOracle, now: string) returns (results: seq<CheckResult>, ghost done: set<string>)
      requires Valid()
      requires forall i :: 0 <= i < |courses| ==> courses[i].classId in classes && classes[courses[i].classId] == courses[i]
      requires forall i, j :: 0 <= i < j < |courses| ==> courses[i].classId != courses[j].classId
      modifies this`classes
      ensures Valid()
      ensures classes == PartlySwept(old(classes), done, scrape, now)
      ensures forall i :: 0 <= i < |courses| ==> courses[i].classId in done
      ensures |results| == |courses|
      ensures forall i :: 0 <= i < |courses| ==> results[i] == ReportRow(courses[i], scrape)
    {
      ghost var start := classes;
      results := [];
      done := {};
      for i := 0 to |courses|
        invariant classes == PartlySwept(start, done, scrape, now)
        invariant forall j :: 0 <= j < i ==> courses[j].classId in done
        invariant forall j :: i <= j < |courses| ==> courses[j].classId !in done
        invariant |results| == i
        invariant forall j :: 0 <= j < i ==> results[j] == ReportRow(courses[j], scrape)
      {
        var result := CheckScannedCourse(courses[i].classId, scrape, now, start, done);
        results := results + [result];
        done := done + {courses[i].classId};
        forall j | 0 <= j < i + 1 ensures courses[j].classId in done {
        }
      }
    }

    /**
     * One step of the sweep: check a scanned class that has not been checked
     * yet, extending the part of the table already swept by that class.
     */
    method CheckScannedCourse(classId: string, scrape: ScrapeOracle, now: string,
                              ghost start: map<string, ClassRow>, ghost done: set<string>) returns (result: CheckResult)
      requires Valid()
      requires classId in start && classId !in done
      requires classes == PartlySwept(start, done, scrape, now)
      modifies this`classes
      ensures Valid()
      ensures classes == PartlySwept(start, done + {classId}, scrape, now)
      ensures result == ReportRow(start[classId], scrape)
    {
      PartlySweptStep(start, done, classId, scrape, now);
      result := CheckCourseAvailability(classId, scrape, now);
    }

    /** The notification service's publish call, recorded as its effect. */
    method SendCourseNotification(userId: string, email: string, courseData: ClassRow)
      modifies this`published
      ensures published == old(published) + [Notification(userId, email, courseData.classId)]
    {
      published := published + [Notification(userId, email, courseData.classId)];
    }

    /**
     * The outer loop of `notify_users_for_open_courses`: for each newly open
     * class still in the table, notify its subscribers, adding up the count.
     */
    method NotifySubscribersOfEach(newlyOpenCourses: seq<CheckResult>) returns (notificationsSent: nat)
      requires Valid()
      modifies this`published
      ensures published == old(published) + FanOut(classes, users, subscriptions, newlyOpenCourses)
      ensures notificationsSent == |FanOut(classes, users, subscriptions, newlyOpenCourses)|
    {
      notificationsSent := 0;
      ghost var cs, us, ss := classes, users, subscriptions;
      for i := 0 to |newlyOpenCourses|
        modifies this`published
        invariant published == old(published) + FanOut(cs, us, ss, newlyOpenCourses[..i])
        invariant notificationsSent == |FanOut(cs, us, ss, newlyOpenCourses[..i])|
      {
        FanOutSnoc(cs, us, ss, newlyOpenCourses, i);
        var sentForClass := NotifyClassSubscribers(newlyOpenCourses[i].classId);
        AppendAssoc(old(published), FanOut(cs, us, ss, newlyOpenCourses[..i]), NotifyClass(cs, us, ss, newlyOpenCourses[i].classId));
        notificationsSent := notificationsSent + sentForClass;
      }
      assert newlyOpenCourses[..|newlyOpenCourses|] == newlyOpenCourses;
    }

    /**
     * The body of the outer loop of `notify_users_for_open_courses`: skip a
     * class whose row is gone; otherwise query its subscribers and notify each
     * that has a user record with an email.
     */
    method NotifyClassSubscribers(classId: string) returns (notificationsSent: nat)
      requires Valid()
      modifies this`published
      ensures published == old(published) + NotifyClass(classes, users, subscriptions, classId)
      ensures notificationsSent == |NotifyClass(classes, users, subscriptions, classId)|
    {
      notificationsSent := 0;
      if classId !in classes {
        return;
      }
      var courseData := classes[classId];
      var subscribers := SubscribersOf(subscriptions, classId);
      for j := 0 to |subscribers|
        modifies this`published
        invariant published == old(published) + NotifySubscribers(users, subscribers[..j], classId)
        invariant notificationsSent == |NotifySubscribers(users, subscribers[..j], classId)|
      {
        NotifySubscribersSnoc(users, subscribers, j, classId);
        var userId := subscribers[j];
        if userId in users {
          var user := users[userId];
          if user.email.Some? && user.email.value != "" {
            SendCourseNotification(userId, user.email.value, courseData);
            notificationsSent := notificationsSent + 1;
          }
        }
      }
      assert subscribers[..|subscribers|] == subscribers;
    }

    /**
     * Sweep all classes, then for every class reported open and changed,
     * notify each subscriber that has a user record with an email.
     */
    method NotifyUsersForOpenCourses(scrape: ScrapeOracle, now: string) returns (outcome: NotifyOutcome, ghost results: seq<CheckResult>)
      requires Valid()
      modifies this`classes, this`published
      ensures Valid()
      ensures classes == Swept(old(classes), scrape, now)
      ensures IsSweepOf(results, old(classes), scrape)
      ensures forall r :: r in results ==> r.Checked?
      ensures NewlyOpen(results) == [] ==>
                outcome == NotifyOutcome(NoNewlyOpenMessage, None) && published == old(published)
      ensures NewlyOpen(results) != [] ==>
                var sent := FanOut(classes, users, subscriptions, NewlyOpen(results));
                && outcome == NotifyOutcome(SentMessage(|NewlyOpen(results)|), Some(|sent|))
                && published == old(published) + sent
    {
      var courseResults := CheckAllCourses(scrape, now);
      results := courseResults;
      outcome := NotifyNewlyOpen(courseResults);
    }

    /**
     * The part of `notify_users_for_open_courses` after the sweep: keep the
     * results that are open and changed, stop with the fixed message when
     * there are none, and otherwise notify their subscribers.
     */
    method NotifyNewlyOpen(courseResults: seq<CheckResult>) returns (outcome: NotifyOutcome)
      requires Valid()
      requires forall r :: r in courseResults ==> r.Checked?
      modifies this`published
      ensures NewlyOpen(courseResults) == [] ==>
                outcome == NotifyOutcome(NoNewlyOpenMessage, None) && published == old(published)
      ensures NewlyOpen(courseResults) != [] ==>
                var sent := FanOut(classes, users, subscriptions, NewlyOpen(courseResults));
                && outcome == NotifyOutcome(SentMessage(|NewlyOpen(courseResults)|), Some(|sent|))
                && published == old(published) + sent
    {
      var newlyOpenCourses := NewlyOpen(courseResults);
      if newlyOpenCourses == [] {
        return NotifyOutcome(NoNewlyOpenMessage, None);
      }
      var notificationsSent := NotifySubscribersOfEach(newlyOpenCourses);
      outcome := NotifyOutcome(SentMessage(|newlyOpenCourses|), Some(notificationsSent));
    }
  }
}

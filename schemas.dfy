/** The record shapes the course service reads and writes. */
module Schemas {
  import opened Wrappers

  datatype Semester = Spring | Summer | Fall

  /** The enum's string value, which is what the tables store. */
  function SemesterName(s: Semester): (name: string)
    ensures '-' !in name
  {
    match s
    case Spring => "Spring"
    case Summer => "Summer"
    case Fall => "Fall"
  }

  lemma SemesterNameInjective(s: Semester, t: Semester)
    requires SemesterName(s) == SemesterName(t)
    ensures s == t
  {
  }

  /** What a user submits to track a course. */
  datatype CourseCreate = CourseCreate(crn: string, year: int, semester: Semester)

  /**
   * A row of the classes table. The availability attributes may be missing
   * from a row, which is why they are optional.
   */
  datatype ClassRow = ClassRow(
    classId: string,
    crn: string,
    year: int,
    semester: Semester,
    isOpen: Option<bool>,
    seatsAvailable: Option<int>,
    lastChecked: Option<string>)

  /** A row of the users table; `email` may be missing. */
  datatype User = User(userId: string, email: Option<string>)

  /** A row of the user-courses table: one user tracking one class. */
  datatype Subscription = Subscription(userId: string, classId: string)
}

/**
 * The dashboard's client-side course list: at most five courses, a
 * five-digit CRN rule, an add form and an edit session.
 *
 * Each action of the hook is a method of `CourseList` that changes the hook's
 * state the way its setters do. The clock (`Date.now()`, the current year) is
 * a parameter.
 */
module UseCourses {
  import opened Wrappers

  const MaxCourses: nat := 5

  datatype CourseModel = CourseModel(id: string, name: string, crn: string, year: string, term: string)

  /** A course without its id: the add form's contents. */
  datatype CourseDraft = CourseDraft(name: string, crn: string, year: string, term: string)

  /** The keys of a course; `Id` is not a key of the add form. */
  datatype Field = Id | Name | Crn | Year | Term

  const InitialCourses: seq<CourseModel> := [
    CourseModel("1", "Introduction to Computer Science", "12345", "2023", "Fall"),
    CourseModel("2", "Data Structures and Algorithms", "23456", "2023", "Spring"),
    CourseModel("3", "Web Development", "34567", "2024", "Summer")
  ]

  /** The pattern `^\d{5}$`: exactly five characters, each an ASCII digit. */
  predicate IsFiveDigitCrn(crn: string) {
    |crn| == 5 && forall i :: 0 <= i < |crn| ==> '0' <= crn[i] <= '9'
  }

  /** The add form after a reset. */
  function EmptyDraft(currentYear: string): CourseDraft {
    CourseDraft("", "", currentYear, "Fall")
  }

  /** `{id, ...draft}`. */
  function WithId(id: string, draft: CourseDraft): (c: CourseModel)
    ensures c.id == id
    ensures c.name == draft.name && c.crn == draft.crn && c.year == draft.year && c.term == draft.term
  {
    CourseModel(id, draft.name, draft.crn, draft.year, draft.term)
  }

  function GetField(c: CourseModel, f: Field): string {
    match f
    case Id => c.id
    case Name => c.name
    case Crn => c.crn
    case Year => c.year
    case Term => c.term
  }

  /** `{...course, [field]: value}`: the named field changes, no other. */
  function SetField(c: CourseModel, f: Field, value: string): (r: CourseModel)
    ensures forall g :: GetField(r, g) == if g == f then value else GetField(c, g)
  {
    match f
    case Id => c.(id := value)
    case Name => c.(name := value)
    case Crn => c.(crn := value)
    case Year => c.(year := value)
    case Term => c.(term := value)
  }

  function GetDraftField(d: CourseDraft, f: Field): string
    requires f != Id
  {
    match f
    case Name => d.name
    case Crn => d.crn
    case Year => d.year
    case Term => d.term
  }

  /** `{...newCourse, [field]: value}` on the add form. */
  function SetDraftField(d: CourseDraft, f: Field, value: string): (r: CourseDraft)
    requires f != Id
    ensures forall g :: g != Id ==> GetDraftField(r, g) == if g == f then value else GetDraftField(d, g)
  {
    match f
    case Name => d.(name := value)
    case Crn => d.(crn := value)
    case Year => d.(year := value)
    case Term => d.(term := value)
  }

  /** `courses.filter(course => course.id !== id)`. */
  function WithoutId(courses: seq<CourseModel>, id: string): (r: seq<CourseModel>)
    ensures |r| <= |courses|
  {
    if courses == [] then []
    else (if courses[0].id != id then [courses[0]] else []) + WithoutId(courses[1..], id)
  }

  /** Deleting by id removes all and only the courses with that id. */
  lemma {:induction false} WithoutIdIff(courses: seq<CourseModel>, id: string, c: CourseModel)
    ensures c in WithoutId(courses, id) <==> c in courses && c.id != id
  {
    if courses != [] {
      assert courses == [courses[0]] + courses[1..];
      WithoutIdIff(courses[1..], id, c);
    }
  }

  /** Deleting keeps the order of what remains: it works piecewise on a split list. */
  lemma {:induction false} WithoutIdAppend(a: seq<CourseModel>, b: seq<CourseModel>, id: string)
    ensures WithoutId(a + b, id) == WithoutId(a, id) + WithoutId(b, id)
  {
    if a != [] {
      assert (a + b)[1..] == a[1..] + b;
      WithoutIdAppend(a[1..], b, id);
    } else {
      assert a + b == b;
    }
  }

  /** Deleting an id no course has changes nothing. */
  lemma {:induction false} WithoutAbsentId(courses: seq<CourseModel>, id: string)
    requires forall i :: 0 <= i < |courses| ==> courses[i].id != id
    ensures WithoutId(courses, id) == courses
  {
    if courses != [] {
      WithoutAbsentId(courses[1..], id);
    }
  }

  /** `courses.map(course => course.id === id ? edited : course)`. */
  function ReplaceById(courses: seq<CourseModel>, id: string, edited: CourseModel): (r: seq<CourseModel>)
    ensures |r| == |courses|
    ensures forall i :: 0 <= i < |courses| ==> r[i] == if courses[i].id == id then edited else courses[i]
  {
    if courses == [] then []
    else [if courses[0].id == id then edited else courses[0]] + ReplaceById(courses[1..], id, edited)
  }

  /** The state of the `useCourses` hook. */
  class CourseList {
    var courses: seq<CourseModel>
    var editingCourse: Option<CourseModel>
    var editingId: Option<string>
    var isAddingCourse: bool
    var newCourse: CourseDraft

    /** The list never exceeds the cap, and an edit session sets both of its fields or neither. */
    ghost predicate Valid()
      reads this
    {
      |courses| <= MaxCourses && (editingCourse.Some? <==> editingId.Some?)
    }

    constructor(currentYear: string)
      ensures Valid()
      ensures courses == InitialCourses
      ensures editingCourse == None && editingId == None
      ensures !isAddingCourse && newCourse == EmptyDraft(currentYear)
    {
      courses := InitialCourses;
      editingCourse := None;
      editingId := None;
      isAddingCourse := false;
      newCourse := EmptyDraft(currentYear);
    }

    method SetIsAddingCourse(value: bool)
      requires Valid()
      modifies this`isAddingCourse
      ensures Valid() && isAddingCourse == value
    {
      isAddingCourse := value;
    }

    /**
     * Append the add form as a new course, unless the list is full or the
     * form's CRN is not five digits; on success the form is reset.
     */
    method AddCourse(now: string, currentYear: string) returns (added: bool)
      requires Valid()
      modifies this`courses, this`newCourse, this`isAddingCourse
      ensures Valid()
      ensures added <==> |old(courses)| < MaxCourses && IsFiveDigitCrn(old(newCourse).crn)
      ensures added ==> && courses == old(courses) + [WithId(now, old(newCourse))]
                        && newCourse == EmptyDraft(currentYear)
                        && !isAddingCourse
      ensures !added ==> && courses == old(courses)
                         && newCourse == old(newCourse)
                         && isAddingCourse == old(isAddingCourse)
    {
      if |courses| >= MaxCourses {
        return false;
      }
      if !IsFiveDigitCrn(newCourse.crn) {
        return false;
      }
      var courseToAdd := WithId(now, newCourse);
      courses := courses + [courseToAdd];
      ResetNewCourse(currentYear);
      return true;
    }

    method ResetNewCourse(currentYear: string)
      requires Valid()
      modifies this`newCourse, this`isAddingCourse
      ensures Valid()
      ensures newCourse == EmptyDraft(currentYear) && !isAddingCourse
    {
      newCourse := EmptyDraft(currentYear);
      isAddingCourse := false;
    }

    method DeleteCourse(id: string)
      requires Valid()
      modifies this`courses
      ensures Valid()
      ensures courses == WithoutId(old(courses), id)
    {
      courses := WithoutId(courses, id);
    }

    /** Open an edit session on a copy of `course`. */
    method StartEditing(course: CourseModel)
      requires Valid()
      modifies this`editingCourse, this`editingId
      ensures Valid()
      ensures editingCourse == Some(course) && editingId == Some(course.id)
    {
      editingCourse := Some(course);
      editingId := Some(course.id);
    }

    /**
     * Replace every course whose id is the edited id with the edited course
     * and close the session, unless nothing is being edited or the edited CRN
     * is not five digits.
     */
    method SaveEdit() returns (saved: bool)
      requires Valid()
      modifies this`courses, this`editingCourse, this`editingId
      ensures Valid()
      ensures saved <==> old(editingCourse).Some? && IsFiveDigitCrn(old(editingCourse).value.crn)
      ensures saved ==> && courses == ReplaceById(old(courses), old(editingId).value, old(editingCourse).value)
                        && editingCourse == None && editingId == None
      ensures !saved ==> && courses == old(courses)
                         && editingCourse == old(editingCourse) && editingId == old(editingId)
    {
      if editingCourse.None? {
        return false;
      }
      if !IsFiveDigitCrn(editingCourse.value.crn) {
        return false;
      }
      courses := ReplaceById(courses, editingId.value, editingCourse.value);
      CancelEdit();
      return true;
    }

    method CancelEdit()
      requires Valid()
      modifies this`editingCourse, this`editingId
      ensures Valid()
      ensures editingCourse == None && editingId == None
    {
      editingId := None;
      editingCourse := None;
    }

    method UpdateNewCourse(field: Field, value: string)
      requires Valid()
      requires field != Id
      modifies this`newCourse
      ensures Valid()
      ensures newCourse == SetDraftField(old(newCourse), field, value)
    {
      newCourse := SetDraftField(newCourse, field, value);
    }

    /** Change one field of the course being edited; nothing happens outside an edit session. */
    method UpdateEditingCourse(field: Field, value: string)
      requires Valid()
      modifies this`editingCourse
      ensures Valid()
      ensures old(editingCourse).None? ==> editingCourse == None
      ensures old(editingCourse).Some? ==> editingCourse == Some(SetField(old(editingCourse).value, field, value))
    {
      if editingCourse.Some? {
        editingCourse := Some(SetField(editingCourse.value, field, value));
      }
    }
  }
}

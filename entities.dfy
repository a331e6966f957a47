/** The two record shapes the grade tracker persists: a Course and a gradable
    Coursework item that belongs to one course, and the same shapes without
    the id that the store assigns on creation. */
module Entities {
  import opened Sequences

  /** An opaque record identifier, issued by the store. */
  type Id = nat

  datatype Course = Course(id: Id, name: string, code: string, term: string, endDate: string)

  /** A course as the caller hands it to the store, before an id is assigned. */
  datatype CourseData = CourseData(name: string, code: string, term: string, endDate: string) {
    /** The record carrying these fields and the given id. */
    function WithId(id: Id): Course {
      Course(id, name, code, term, endDate)
    }
  }

  datatype CourseworkType = Assignment | Lab | Participation | Quiz | Exam | Project | Other

  /** A gradable item: `percentage` is its weight in the course, `grade` the
      score earned on it, absent while the item is not yet graded. */
  datatype Coursework = Coursework(
    id: Id, courseId: Id, name: string, kind: CourseworkType,
    percentage: real, grade: Option<real>)

  /** A coursework item as the caller hands it to the store, before an id is assigned. */
  datatype CourseworkData = CourseworkData(
    courseId: Id, name: string, kind: CourseworkType,
    percentage: real, grade: Option<real>)
  {
    /** The record carrying these fields and the given id. */
    function WithId(id: Id): Coursework {
      Coursework(id, courseId, name, kind, percentage, grade)
    }
  }

  // Key projections handed to the generic sequence operations.

  function CourseKey(c: Course): Id { c.id }

  function CourseworkKey(w: Coursework): Id { w.id }

  /** The course a coursework item belongs to. */
  function OwnerKey(w: Coursework): Id { w.courseId }
}

/** The entities of the academic record, as declared in types.ts. */
module Records {
  import opened Wrappers

  /** A course: credits are the SKS weight, and a missing score means "not graded yet". */
  datatype Course = Course(id: string, name: string, credits: int, score: Option<real>)

  /**
   * A semester: an ordered list of courses and a cached semester index `ips`
   * that no operation of this model computes; it is carried along unchanged.
   */
  datatype Semester = Semester(id: string, name: string, courses: seq<Course>, ips: Option<real>)
}

/**
 * The static course table: for each course, the session number of its final
 * exam and, for all but one course, the session number of its midterm.
 */
module Courses {
  import opened Wrappers

  /** One row of the table; `midterm` is absent when the course lists no midterm. */
  datatype Course = Course(name: string, final: nat, midterm: Option<nat>)

  /** No two rows of the table name the same course. */
  predicate DistinctNames(t: seq<Course>) {
    forall i, j :: 0 <= i < j < |t| ==> t[i].name != t[j].name
  }

  /** The course names, as the table spells them. */
  const Matrices: string := "MATRICES & LINEAR TRANSFORMATIONS"
  const Probability: string := "PROBABILITY FOR COMPUTING SCIENCE"
  const Architecture: string := "COMPUTER ARCHITECTURE, NETWORK TECHNOLOGY & OPERATING"
  const MachineLearning: string := "AI: MACHINE LEARNING FOUNDATIONS"
  const Personality: string := "AI: PERSONALITY AND EMOTION FOR AI DESIGN"

  /** The table in its declaration order. */
  function CourseData(): (t: seq<Course>)
    ensures |t| == 5 && DistinctNames(t)
    ensures forall i :: 0 <= i < |t| - 1 ==> t[i].midterm.Some?
    ensures t[|t| - 1].midterm.None?
    ensures forall i :: 0 <= i < |t| ==> t[i].name != []
  {
    var t := [
      Course(Matrices, 30, Some(14)),
      Course(Probability, 15, Some(9)),
      Course(Architecture, 30, Some(19)),
      Course(MachineLearning, 30, Some(23)),
      Course(Personality, 15, None)
    ];
    assert |Matrices| == 33 && |Probability| == 33 && |Architecture| == 53;
    assert |MachineLearning| == 32 && |Personality| == 41;
    assert Matrices[0] != Probability[0];
    t
  }
}

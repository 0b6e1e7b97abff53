/**
 * The records the controllers read and write, cut down to the fields the
 * modelled logic touches. A skill is represented by its name; a collection the
 * Java code may find null is an `Option`.
 */
module Entities {
  import opened Wrappers

  /** A `Courses` row: identity, trainer and presentation fields, and the names of the skills it teaches. */
  datatype Course = Course(
    id: int,
    name: string,
    imageUrl: string,
    coverImage: string,
    trainerDesignation: string,
    courseTitle: string,
    description: string,
    skills: Option<seq<string>>)

  /** A `UserProfile` row as the recommendation engine reads it. */
  datatype UserProfile = UserProfile(email: string, careerGoal: Option<string>, skills: Option<seq<string>>)

  /** One entry of the job-skills catalog: a job title and the skills it requires. */
  datatype JobMapping = JobMapping(jobTitle: string, requiredSkills: seq<string>)
}

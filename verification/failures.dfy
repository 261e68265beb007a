/** The exceptions the pipeline raises, one constructor per distinct throw site. */
module Failures {

  datatype Error =
      /** A dotted config key walks through a string or `true`: assigning a
          property to a primitive is a TypeError in strict-mode code. */
    | PropertyOnPrimitive(property: string)
      /** The export holds no blank line, so the interval section is `undefined`. */
    | MissingIntervalSection
      /** `JSON.parse` rejected the interval section. */
    | MalformedJson
      /** An interval without tags: its first tag is `undefined`. */
    | MissingProjectTag(id: int)
      /** `reduce` without a seed over an empty list of pair scores. */
    | ReduceOfEmptyArray
    | MissingDates
    | MissingProjectName
    | ProjectNotFound(term: string)
    | ProjectHasNoTasks(projectId: int)
      /** `Date.prototype.toISOString` on an invalid date (a RangeError). */
    | InvalidTimeValue
      /** `calculateSeconds`: a timestamp did not parse. */
    | InvalidDateFormat
      /** `calculateSeconds`: the interval ends before it starts. */
    | EndBeforeStart
}

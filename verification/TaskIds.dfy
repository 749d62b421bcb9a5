/** What names a task across phases: the pair (phase id, task id). */
module TaskIds {
  datatype Identity = Identity(phase: string, task: string)
}

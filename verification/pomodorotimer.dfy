/** The Pomodoro timer record handed between the HTTP layer and the productivity
    service: an identity, two descriptive strings and the lengths of the focus
    interval and of the break interval. It is a plain value with no behaviour. */
module PomodoroTimerModel {

  /** One configured work/break interval pair. Every field is required; the
      record carries no invariant of its own (lengths are not checked to be
      positive), so the numeric fields are unconstrained integers. */
  datatype PomodoroTimer = PomodoroTimer(
    id: int,
    name: string,
    description: string,
    timerLength: int,
    breakLength: int)
}

/** The error kinds of the application, each carrying a human-readable detail.
    Of these only PermissionError is raised by the modelled code (the console's
    login-state check); the service reports failure by returning false. */
module Errors {

  datatype AgendaError =
    | WrongFormat(message: string)
    | InvalidDate(message: string)
    | UserNotFound(message: string)
    | UserRepeat(message: string)
    | TitleRepeat(message: string)
    | TimeConflict(message: string)
    | MeetingNotFound(message: string)
    | EmptyDeletion(message: string)
    | PermissionError(message: string)
    | WrongArgNum(message: string)
    | UnknownCommand(message: string)

  /** A check that either passes or throws one error. */
  datatype Outcome = Pass | Fail(error: AgendaError)
}

/** The errors branchcheck.go returns, one constructor per `fmt.Errorf` or
    propagated library error. Causes coming from outside (a failed git process,
    a file that cannot be read or decoded) are carried as their message:
    `PomUnreadable` covers both the `ReadFile` and the `Decode` error of
    `PomVersion`. `EmptyCommandOutput` and `RefLinePanic` are not returned
    errors but runtime panics of the code (an empty slice bound, an index past
    the fields of a line), which the model turns into error values. */
module Errors {

  datatype Error =
    | CommandFailed(cause: string)
    | EmptyCommandOutput
    | CannotDetermineBranch(reason: Error)
    | MasterNotAnalyzed
    | NotOnBranch
    | FindPomsFailed(cause: string)
    | NoPoms
    | PomUnreadable(cause: string)
    | BothVersionsEmpty(pomFile: string)
    | InvalidDevelopVersion(version: string, pomFile: string)
    | InvalidFeatureVersion(branch: string, version: string, pomFile: string)
    | FetchFailed(cause: string)
    | RemoteHeadsFailed(reason: Error)
    | RefLinePanic(line: string)
    | StashFailed(branch: string, cause: string)
    | CheckoutFailed(branch: string, cause: string)
}

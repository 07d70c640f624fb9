/** The exceptions the background task can raise, one constructor per kind. */
module Errors {

  datatype Error =
      /** `AIPIPE_API_KEY` is unset or empty (main.py:53-54). */
    | MissingApiKey
      /** Every completion attempt failed (main.py:108). */
    | CompletionUnavailable(attempts: nat)
      /** No repository name starts with the round-1 prefix (main.py:498-499). */
    | NoRound1Repo(pattern: string)
      /** A round number other than 1 or 2 (main.py:686-687). */
    | UnsupportedRound(round: int)
      /** A hosting call that the code lets propagate (create_repo,
          create_file, get_contents/update_file, an empty commit list). */
    | HostingFailed(step: HostingStep)

  datatype HostingStep =
    | CreateRepo
    | CreateFile(path: string)
    | UpdateFile(path: string)
    | ReadCommits
}

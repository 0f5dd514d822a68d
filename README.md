# AssignmentRepo, modelled in Dafny

An `AssignmentRepo` links a student (`user`), an `assignment` and the GitHub repository
created for that student. This project models the record's own logic:

- the overridden `user` reader, which prefers the direct user and falls back to the user of
  the legacy `repo_access` (a one-person team grant from before outside collaborators);
- the delegations `creator`, `starter_code_repo_id`, `github_user` and the nil-tolerant
  `github_team_id`, and the `organization` reached through the assignment even when it is
  soft-deleted;
- the validations: presence of `assignment`, and, on new records only, uniqueness of the
  (user, assignment) pair, checked with `find_by` against the stored rows;
- the `before_destroy` hook that deletes the GitHub repository on a best-effort basis.

Files: `wrappers.dfy` (module `Wrappers`: `Option`, `Result`) and `assignment_repo.dfy`
(module `AssignmentRepos`). Collaborating records are value datatypes; a stored row is a
`Record`. The class `AssignmentRepo` is the in-memory record: its attributes and its
`errors` collection, which the validations append to. The class `Store` is the table that
`find_by` reads, `save` inserts into or updates, and `destroy` deletes from. Rows are kept
in a sequence; its order stands for the order in which the database returns them. The
GitHub client is reduced to the outcome of `delete_repository` (`Deleted`, `GitHubError`
for the `GitHub::Error` family, `OtherFailure` for anything else), passed in as a
parameter. The calls the hook makes are returned as a list.

Notes on the code's behaviour:

- With neither a direct user nor a repo access, `user` raises `NoMethodError`
  (`repo_access.user` on nil, line 41). It gives nil only when a repo access exists
  without a user.
- The uniqueness lookup passes the effective user, but `find_by` compares it with the
  stored rows' `user_id` column. Legacy rows whose `user_id` is nil never match a
  candidate that has a user. So two rows with the same assignment and the same effective
  user can both be stored (`LegacyRowsNeverMatch`, `LegacyDuplicateAccepted`). What
  inserts do keep unique is the (direct user, assignment) pair (`InsertKeepsDirectKeysUnique`).
- `find_by(user: nil, …)` means `user_id IS NULL`. So a new record whose repo access has no
  user is rejected when a stored row has the same assignment and no direct user.

## Model

| member | source | states |
|---|---|---|
| `AssignmentRepos.EffectiveUser` | app/models/assignment_repo.rb:39-42 | The direct user wins whenever it is set. Otherwise the result is the repo access's user, which may be nil. With neither, the reader raises NoMethodError. |
| `AssignmentRepos.GithubTeamId` | app/models/assignment_repo.rb:27 | With no repo access the result is nil, with no error. Otherwise it is the repo access's team id. |
| `AssignmentRepos.Creator` | app/models/assignment_repo.rb:24 | The assignment's creator. With no assignment, it raises a delegation error. |
| `AssignmentRepos.StarterCodeRepoId` | app/models/assignment_repo.rb:24 | The assignment's starter code repo id. With no assignment, it raises a delegation error. |
| `AssignmentRepos.GithubUser` | app/models/assignment_repo.rb:25 | Delegates through the overridden reader: the effective user's GitHub identity. The reader's NoMethodError propagates. A nil effective user raises a delegation error. |
| `AssignmentRepos.OrganizationOf` | app/models/assignment_repo.rb:15 | The organization exists exactly when the assignment and its organization exist. It is the assignment's organization even when that one is soft-deleted. |
| `AssignmentRepos.SoftDeletedOrganizationResolves` | app/models/assignment_repo.rb:15 | An organization marked soft-deleted is still the record's organization, so the destroy hook still reaches it. |
| `AssignmentRepos.FindBy` | app/models/assignment_repo.rb:63 | A found position holds a row whose `user_id` and `assignment_id` equal the given ones, and no earlier row matches. Nothing is found exactly when no row matches. |
| `AssignmentRepos.PresenceErrors` | app/models/assignment_repo.rb:17 | No error exactly when the assignment is present. Otherwise the one error is `:assignment` "can't be blank". |
| `AssignmentRepos.UniquenessErrors` | app/models/assignment_repo.rb:61-65 | A persisted record gets no error, whatever the duplicates. A new record raises exactly when its effective user raises. It gets exactly one `:assignment` error with the fixed message iff some stored row has its effective user as `user_id` and the same assignment. Otherwise it gets none. |
| `AssignmentRepos.Validate` | app/models/assignment_repo.rb:17-19 | Errors are the presence errors followed by the uniqueness errors. A record without an assignment never passes. |
| `AssignmentRepos.InsertKeepsDirectKeysUnique` | app/models/assignment_repo.rb:61-64 | If stored rows have unique (direct user, assignment) pairs, inserting a new record that passed the uniqueness check keeps them unique. |
| `AssignmentRepos.LegacyRowsNeverMatch` | app/models/assignment_repo.rb:63 | A new record with a user gets no uniqueness error from stored rows that have no direct user, whatever their repo access says. |
| `AssignmentRepos.LegacyDuplicateAccepted` | app/models/assignment_repo.rb:63 | There is a stored row and a new record with the same assignment and the same effective user for which the new record passes validation. |
| `AssignmentRepos.AssignmentRepo.AssignmentUserKeyUniqueness` | app/models/assignment_repo.rb:61-65 | Appends exactly the errors `UniquenessErrors` gives, or raises its exception having appended nothing. It changes neither the table nor the record's attributes. |
| `AssignmentRepos.AssignmentRepo.RunValidations` | app/models/assignment_repo.rb:17-19 | Clears `errors`, then runs presence and uniqueness in declaration order. The record is valid iff `errors` ends empty. An exception from the uniqueness check leaves only the presence errors. |
| `AssignmentRepos.AssignmentRepo.SilentlyDestroyGithubRepository` | app/models/assignment_repo.rb:49-56 | With no organization: no remote call, and it returns true. Otherwise: exactly one `delete_repository` call with the record's `github_repo_id`. It returns true when the call succeeds or raises a GitHub::Error. Only other errors propagate. |
| `AssignmentRepos.Store.Save` | app/models/assignment_repo.rb:17-19 | Saves only a record that passes validation. A new record is inserted under a fresh id and an existing one overwrites its row. Otherwise the table is unchanged, and when validation raises, `errors` holds only the presence errors. Inserts keep (direct user, assignment) pairs unique; updates are not checked. |
| `AssignmentRepos.Store.Destroy` | app/models/assignment_repo.rb:22 | Runs the hook first. If the hook raises, nothing is deleted. Otherwise the row is deleted and the record is no longer persisted, whatever the remote outcome. |

## Left out

- `update_index("assignment_repo#assignment_repo")` (line 6): a fire-and-forget call into an external search-index library.
- The `configuration_state` enum (lines 8-9): dead code.
- `default_branch` and `commits` (line 26): they go to `github_repository`, which comes from the `AssignmentRepoable` concern and a remote API. That concern is not part of this model.
- Whether `belongs_to :assignment` and `belongs_to :user` (lines 11, 13) add their own "must exist" errors depends on Rails configuration that is not shown. Only the explicit presence validation is modelled.
- GithubUser: yields the user's GitHub uid, not the `GitHubUser` object that `User#github_user` builds.
- The GitHub client itself: only the outcome of `delete_repository` is modelled. The organization's GitHub client is identified by the organization's GitHub id.
- SQL, the `unscope(where: :deleted_at)` query and ActiveRecord transactions. The organization is an optional value that resolves whether or not it is soft-deleted.
- The race between two concurrent creates, both passing the check before either inserts: a concurrency concern. Operations here run one at a time.
- Store.Destroy: does not model that a destroyed object is frozen, or other callbacks that ActiveRecord runs around the hook.
- The "can't be blank" text is Rails' default message for a presence failure. It is not written in the record's file.

/**
 * A model of the AssignmentRepo record of a classroom-management application: the link
 * between a student, an assignment and the GitHub repository created for them.
 *
 * Collaborating records (User, Assignment, Organization, RepoAccess) are plain values.
 * A stored row is a `Record`; the in-memory `AssignmentRepo` object holds a record's
 * attributes and its validation `errors`; `Store` stands for the table that `find_by`
 * queries, `save` inserts into and `destroy` deletes from. The GitHub client is reduced
 * to the outcome of its one call, `delete_repository`.
 */
module AssignmentRepos {
  import opened Wrappers

  datatype User = User(id: nat, githubUid: nat)

  /** `deleted` is the soft-delete mark (`deleted_at` set); it does not hide the organization here. */
  datatype Organization = Organization(id: nat, githubId: nat, deleted: bool)

  datatype Assignment = Assignment(
    id: nat,
    creator: User,
    starterCodeRepoId: Option<nat>,
    organization: Option<Organization>)

  /** Legacy grant: a one-person team giving a user access to the repository. */
  datatype RepoAccess = RepoAccess(id: nat, user: Option<User>, githubTeamId: Option<nat>)

  /** The attributes of one assignment repo; `user` is the direct `user_id` association. */
  datatype Record = Record(
    id: nat,
    assignment: Option<Assignment>,
    user: Option<User>,
    repoAccess: Option<RepoAccess>,
    githubRepoId: nat,
    persisted: bool)

  /** Exceptions that escape to the caller. */
  datatype Exception =
    | NoMethodError    // a method called on nil
    | DelegationError  // `delegate` without allow_nil, target nil
    | RemoteFailure    // an error raised by the GitHub client outside the GitHub::Error family

  /** What the GitHub client's `delete_repository` call does. */
  datatype RemoteOutcome = Deleted | GitHubError | OtherFailure

  /** One `delete_repository` call made on the organization's GitHub client. */
  datatype DeleteCall = DeleteRepository(githubOrganizationId: nat, githubRepoId: nat)

  /** One entry of a record's `errors` collection. */
  datatype FieldError = FieldError(attribute: string, message: string)

  const AssignmentAttribute: string := "assignment"
  const BlankMessage: string := "can't be blank"
  const UniquenessMessage: string :=
    "Should only have one assignment repository for each user-assignment combination"

  // ---------------------------------------------------------------------------
  // Accessors and delegations

  /** The overridden `user` reader: the direct user, else the repo access's user. */
  function EffectiveUser(r: Record): (u: Result<Option<User>, Exception>)
    ensures r.user.Some? ==> u == Ok(r.user)
    ensures r.user.None? && r.repoAccess.Some? ==> u == Ok(r.repoAccess.value.user)
    ensures u.Err? <==> r.user.None? && r.repoAccess.None?
    ensures u.Err? ==> u.error == NoMethodError
    ensures u.Ok? && u.value.None? ==> r.user.None? && r.repoAccess.Some?
  {
    if r.user.Some? then Ok(r.user)
    else if r.repoAccess.Some? then Ok(r.repoAccess.value.user)
    else Err(NoMethodError)
  }

  /** `delegate :github_team_id, to: :repo_access, allow_nil: true`. */
  function GithubTeamId(r: Record): (t: Option<nat>)
    ensures r.repoAccess.None? ==> t.None?
    ensures r.repoAccess.Some? ==> t == r.repoAccess.value.githubTeamId
  {
    if r.repoAccess.None? then None else r.repoAccess.value.githubTeamId
  }

  /** `delegate :creator, to: :assignment`: raises when there is no assignment. */
  function Creator(r: Record): (c: Result<User, Exception>)
    ensures c.Err? <==> r.assignment.None?
    ensures c.Err? ==> c.error == DelegationError
    ensures c.Ok? ==> c.value == r.assignment.value.creator
  {
    match r.assignment
    case None => Err(DelegationError)
    case Some(a) => Ok(a.creator)
  }

  /** `delegate :starter_code_repo_id, to: :assignment`: raises when there is no assignment. */
  function StarterCodeRepoId(r: Record): (s: Result<Option<nat>, Exception>)
    ensures s.Err? <==> r.assignment.None?
    ensures s.Err? ==> s.error == DelegationError
    ensures s.Ok? ==> s.value == r.assignment.value.starterCodeRepoId
  {
    match r.assignment
    case None => Err(DelegationError)
    case Some(a) => Ok(a.starterCodeRepoId)
  }

  /**
   * `delegate :github_user, to: :user`, where `user` is the overridden reader:
   * the reader's own NoMethodError propagates, and a nil effective user raises DelegationError.
   */
  function GithubUser(r: Record): (g: Result<nat, Exception>)
    ensures r.user.Some? ==> g == Ok(r.user.value.githubUid)
    ensures r.user.None? && r.repoAccess.None? ==> g == Err(NoMethodError)
    ensures r.user.None? && r.repoAccess.Some? ==>
      g == (match r.repoAccess.value.user
            case None => Err(DelegationError)
            case Some(u) => Ok(u.githubUid))
  {
    match EffectiveUser(r)
    case Err(e) => Err(e)
    case Ok(None) => Err(DelegationError)
    case Ok(Some(u)) => Ok(u.githubUid)
  }

  /**
   * `has_one :organization, through: :assignment`, with the soft-delete scope removed:
   * the assignment's organization, deleted or not.
   */
  function OrganizationOf(r: Record): (o: Option<Organization>)
    ensures o.Some? <==> r.assignment.Some? && r.assignment.value.organization.Some?
    ensures o.Some? ==> o == r.assignment.value.organization
  {
    match r.assignment
    case None => None
    case Some(a) => a.organization
  }

  /**
   * The soft-delete mark does not hide an organization: a deleted one is still found, so the
   * destroy hook still calls `delete_repository` through it.
   */
  lemma SoftDeletedOrganizationResolves(r: Record, o: Organization)
    requires r.assignment.Some? && r.assignment.value.organization == Some(o) && o.deleted
    ensures OrganizationOf(r) == Some(o) && OrganizationOf(r).value.deleted
  {
  }

  // ---------------------------------------------------------------------------
  // The table query behind the uniqueness validation

  /** The `user_id` column value of a user association (nil stays nil). */
  function UserKey(u: Option<User>): Option<nat>
  {
    match u
    case None => None
    case Some(x) => Some(x.id)
  }

  /** The `assignment_id` column value of an assignment association (nil stays nil). */
  function AssignmentKey(a: Option<Assignment>): Option<nat>
  {
    match a
    case None => None
    case Some(x) => Some(x.id)
  }

  /**
   * The condition of `find_by(user: user, assignment: assignment)` on one stored row: its
   * `user_id` and `assignment_id` columns equal the given ones (IS NULL when given nil).
   */
  predicate SameKey(row: Record, user: Option<User>, assignment: Option<Assignment>)
  {
    UserKey(row.user) == UserKey(user) && AssignmentKey(row.assignment) == AssignmentKey(assignment)
  }

  /** `find_by`: the position of the first stored row matching both columns, if any. */
  function FindBy(rows: seq<Record>, user: Option<User>, assignment: Option<Assignment>): (i: Option<nat>)
    ensures i.Some? ==> i.value < |rows| && SameKey(rows[i.value], user, assignment)
    ensures i.Some? ==> forall j :: 0 <= j < i.value ==> !SameKey(rows[j], user, assignment)
    ensures i.None? <==> forall j :: 0 <= j < |rows| ==> !SameKey(rows[j], user, assignment)
    decreases |rows|
  {
    if rows == [] then None
    else if SameKey(rows[0], user, assignment) then Some(0)
    else match FindBy(rows[1..], user, assignment)
      case None => None
      case Some(k) => Some(k + 1)
  }

  // ---------------------------------------------------------------------------
  // Validations, as functions of the record and the stored rows

  /** `validates :assignment, presence: true`. */
  function PresenceErrors(r: Record): (e: seq<FieldError>)
    ensures e == [] <==> r.assignment.Some?
    ensures e != [] ==> e == [FieldError(AssignmentAttribute, BlankMessage)]
  {
    if r.assignment.Some? then [] else [FieldError(AssignmentAttribute, BlankMessage)]
  }

  /**
   * `assignment_user_key_uniqueness`: the errors it adds, or the exception it raises.
   * The lookup uses the effective user but compares it with the stored `user_id` column.
   */
  function UniquenessErrors(r: Record, rows: seq<Record>): (e: Result<seq<FieldError>, Exception>)
    ensures r.persisted ==> e == Ok([])
    ensures !r.persisted ==> (e.Err? <==> EffectiveUser(r).Err?)
    ensures e.Err? ==> e.error == NoMethodError
    ensures e.Ok? ==> e.value == [] || e.value == [FieldError(AssignmentAttribute, UniquenessMessage)]
    ensures (e.Ok? && e.value != []) <==>
      (!r.persisted && EffectiveUser(r).Ok? &&
       exists i :: 0 <= i < |rows| && SameKey(rows[i], EffectiveUser(r).value, r.assignment))
  {
    if r.persisted then Ok([])
    else match EffectiveUser(r)
      case Err(x) => Err(x)
      case Ok(u) =>
        if FindBy(rows, u, r.assignment).Some? then Ok([FieldError(AssignmentAttribute, UniquenessMessage)])
        else Ok([])
  }

  /** `valid?`: the errors collection after all validations run in declaration order. */
  function Validate(r: Record, rows: seq<Record>): (e: Result<seq<FieldError>, Exception>)
    ensures e.Err? <==> UniquenessErrors(r, rows).Err?
    ensures e.Ok? ==> e.value == PresenceErrors(r) + UniquenessErrors(r, rows).value
    ensures r.assignment.None? ==> !(e.Ok? && e.value == [])
  {
    match UniquenessErrors(r, rows)
    case Err(x) => Err(x)
    case Ok(u) => Ok(PresenceErrors(r) + u)
  }

  /** Whether a record passes validation against the stored rows. */
  predicate Passes(r: Record, rows: seq<Record>)
  {
    Validate(r, rows) == Ok([])
  }

  // ---------------------------------------------------------------------------
  // Table invariants

  predicate IdsDistinct(rows: seq<Record>)
  {
    forall i, j :: 0 <= i < j < |rows| ==> rows[i].id != rows[j].id
  }

  /**
   * No two stored rows share an assignment and a (non-nil) direct user. Rows whose `user_id`
   * is nil (legacy rows reached through a repo access) are outside this guarantee.
   */
  predicate DirectKeysUnique(rows: seq<Record>)
  {
    forall i, j :: 0 <= i < j < |rows| && rows[i].user.Some? ==>
      !SameKey(rows[j], rows[i].user, rows[i].assignment)
  }

  /** `delete`: the rows left once every row with the given id is removed, in order. */
  function RemoveId(rows: seq<Record>, id: nat): (r: seq<Record>)
    ensures forall x :: x in r <==> x in rows && x.id != id
    ensures |r| <= |rows|
    decreases |rows|
  {
    if rows == [] then []
    else if rows[0].id == id then RemoveId(rows[1..], id)
    else [rows[0]] + RemoveId(rows[1..], id)
  }

  /** `update`: the rows with the row of the same id replaced by the new attributes. */
  function ReplaceRow(rows: seq<Record>, r: Record): (s: seq<Record>)
    ensures |s| == |rows|
    ensures forall i :: 0 <= i < |rows| ==> s[i] == (if rows[i].id == r.id then r else rows[i])
  {
    seq(|rows|, i requires 0 <= i < |rows| => if rows[i].id == r.id then r else rows[i])
  }

  lemma {:induction false} RemoveIdKeepsIdsDistinct(rows: seq<Record>, id: nat)
    requires IdsDistinct(rows)
    ensures IdsDistinct(RemoveId(rows, id))
    decreases |rows|
  {
    if rows != [] {
      var tail := rows[1..];
      assert IdsDistinct(tail) by {
        forall i, j | 0 <= i < j < |tail| ensures tail[i].id != tail[j].id {
          assert tail[i] == rows[i + 1] && tail[j] == rows[j + 1];
        }
      }
      RemoveIdKeepsIdsDistinct(tail, id);
      var rest := RemoveId(tail, id);
      if rows[0].id != id {
        var r := [rows[0]] + rest;
        forall i, j | 0 <= i < j < |r| ensures r[i].id != r[j].id {
          if i == 0 {
            assert r[j] == rest[j - 1] && r[j] in tail;
            var k :| 0 <= k < |tail| && tail[k] == r[j];
            assert rows[k + 1] == r[j];
          } else {
            assert r[i] == rest[i - 1] && r[j] == rest[j - 1];
          }
        }
      }
    }
  }

  /**
   * Inserting a new record that passed the uniqueness check keeps direct (user, assignment)
   * keys unique.
   */
  lemma InsertKeepsDirectKeysUnique(rows: seq<Record>, r: Record, id: nat)
    requires DirectKeysUnique(rows)
    requires !r.persisted
    requires UniquenessErrors(r, rows) == Ok([])
    ensures DirectKeysUnique(rows + [r.(id := id, persisted := true)])
  {
    var s := rows + [r.(id := id, persisted := true)];
    forall i, j | 0 <= i < j < |s| && s[i].user.Some?
      ensures !SameKey(s[j], s[i].user, s[i].assignment)
    {
      if j == |rows| {
        if r.user.Some? {
          assert EffectiveUser(r) == Ok(r.user);
          assert !SameKey(rows[i], r.user, r.assignment);
        }
      } else {
        assert s[i] == rows[i] && s[j] == rows[j];
      }
    }
  }

  /**
   * A candidate reached only through a repo access never matches stored legacy rows, whose
   * `user_id` is nil, even when they belong to the same effective user.
   */
  lemma LegacyRowsNeverMatch(rows: seq<Record>, r: Record, u: User)
    requires forall i :: 0 <= i < |rows| ==> rows[i].user.None?
    requires !r.persisted && EffectiveUser(r) == Ok(Some(u))
    ensures UniquenessErrors(r, rows) == Ok([])
  {
    forall i | 0 <= i < |rows| ensures !SameKey(rows[i], Some(u), r.assignment) {
      assert UserKey(rows[i].user) == None;
    }
  }

  /**
   * A concrete consequence: two rows with the same assignment and the same effective user
   * (both through repo accesses) can coexist, because the second passes validation.
   */
  lemma LegacyDuplicateAccepted()
    ensures exists stored: Record, candidate: Record ::
      stored.persisted && !candidate.persisted &&
      stored.assignment == candidate.assignment &&
      EffectiveUser(stored) == EffectiveUser(candidate) == Ok(Some(User(7, 70))) &&
      Passes(candidate, [stored])
  {
    var student := User(7, 70);
    var assignment := Assignment(1, User(2, 20), None, None);
    var stored := Record(10, Some(assignment), None, Some(RepoAccess(3, Some(student), Some(5))), 100, true);
    var candidate := Record(0, Some(assignment), None, Some(RepoAccess(4, Some(student), Some(6))), 101, false);
    LegacyRowsNeverMatch([stored], candidate, student);
    assert PresenceErrors(candidate) + UniquenessErrors(candidate, [stored]).value == [];
  }

  // ---------------------------------------------------------------------------
  // The record object

  class AssignmentRepo {
    var attrs: Record
    var errors: seq<FieldError>

    constructor (attrs: Record)
      ensures this.attrs == attrs && errors == []
    {
      this.attrs := attrs;
      errors := [];
    }

    /**
     * `assignment_user_key_uniqueness`: appends the duplicate-key error when `find_by` finds a
     * row; changes neither the table nor the attributes.
     */
    method AssignmentUserKeyUniqueness(store: Store) returns (raised: Option<Exception>)
      modifies this`errors
      ensures attrs == old(attrs) && unchanged(store)
      ensures raised.None? <==> UniquenessErrors(attrs, store.rows).Ok?
      ensures raised.None? ==> errors == old(errors) + UniquenessErrors(attrs, store.rows).value
      ensures raised.Some? ==> raised.value == NoMethodError && errors == old(errors)
    {
      if attrs.persisted {
        return None;
      }
      var u := EffectiveUser(attrs);
      if u.Err? {
        return Some(u.error);
      }
      var found := FindBy(store.rows, u.value, attrs.assignment);
      if found.None? {
        return None;
      }
      errors := errors + [FieldError(AssignmentAttribute, UniquenessMessage)];
      raised := None;
    }

    /**
     * `valid?`: clears `errors`, runs the presence validation and then the uniqueness
     * validation, and answers whether no error was added.
     */
    method RunValidations(store: Store) returns (ok: Result<bool, Exception>)
      modifies this`errors
      ensures attrs == old(attrs) && unchanged(store)
      ensures ok.Err? <==> Validate(attrs, store.rows).Err?
      ensures ok.Ok? ==> errors == Validate(attrs, store.rows).value && ok.value == (errors == [])
      ensures ok.Err? ==> ok.error == Validate(attrs, store.rows).error && errors == PresenceErrors(attrs)
    {
      errors := [];
      if attrs.assignment.None? {
        errors := errors + [FieldError(AssignmentAttribute, BlankMessage)];
      }
      var raised := AssignmentUserKeyUniqueness(store);
      if raised.Some? {
        ok := Err(raised.value);
      } else {
        ok := Ok(errors == []);
      }
    }

    /**
     * `silently_destroy_github_repository`: asks the organization's GitHub client to delete
     * the repository, unless there is no organization; a GitHub::Error is swallowed.
     * `remote` is what the client's call does; `calls` lists the calls made.
     */
    method SilentlyDestroyGithubRepository(remote: RemoteOutcome)
      returns (result: Result<bool, Exception>, calls: seq<DeleteCall>)
      ensures OrganizationOf(attrs).None? ==> calls == [] && result == Ok(true)
      ensures OrganizationOf(attrs).Some? ==>
        calls == [DeleteRepository(OrganizationOf(attrs).value.githubId, attrs.githubRepoId)]
      ensures result.Ok? ==> result.value
      ensures result.Err? <==> OrganizationOf(attrs).Some? && remote == OtherFailure
      ensures result.Err? ==> result.error == RemoteFailure
    {
      var organization := OrganizationOf(attrs);
      if organization.None? {
        return Ok(true), [];
      }
      calls := [DeleteRepository(organization.value.githubId, attrs.githubRepoId)];
      match remote {
        case Deleted => result := Ok(true);
        case GitHubError => result := Ok(true);
        case OtherFailure => result := Err(RemoteFailure);
      }
    }
  }

  // ---------------------------------------------------------------------------
  // The table

  class Store {
    var rows: seq<Record>
    var nextId: nat

    ghost predicate Valid()
      reads this
    {
      IdsDistinct(rows) &&
      forall i :: 0 <= i < |rows| ==> rows[i].persisted && rows[i].id < nextId
    }

    constructor ()
      ensures Valid() && rows == [] && nextId == 0
    {
      rows := [];
      nextId := 0;
    }

    /**
     * `save`: runs the validations; when they pass, a new record is inserted under a fresh id
     * and becomes persisted, and a persisted one overwrites its row. The uniqueness of
     * direct (user, assignment) keys is kept by inserts.
     */
    method Save(repo: AssignmentRepo) returns (saved: Result<bool, Exception>)
      requires Valid()
      modifies this, repo
      ensures Valid()
      ensures saved.Err? <==> Validate(old(repo.attrs), old(rows)).Err?
      ensures saved.Ok? ==> saved.value == Passes(old(repo.attrs), old(rows))
      ensures saved.Ok? ==> repo.errors == Validate(old(repo.attrs), old(rows)).value
      ensures saved.Err? ==> repo.errors == PresenceErrors(old(repo.attrs))
      ensures saved != Ok(true) ==> rows == old(rows) && nextId == old(nextId) && repo.attrs == old(repo.attrs)
      ensures saved == Ok(true) && !old(repo.attrs).persisted ==>
        repo.attrs == old(repo.attrs).(id := old(nextId), persisted := true) &&
        rows == old(rows) + [repo.attrs] && nextId == old(nextId) + 1
      ensures saved == Ok(true) && old(repo.attrs).persisted ==>
        repo.attrs == old(repo.attrs) && rows == ReplaceRow(old(rows), repo.attrs) && nextId == old(nextId)
      ensures !old(repo.attrs).persisted && old(DirectKeysUnique(rows)) ==> DirectKeysUnique(rows)
    {
      var ok := repo.RunValidations(this);
      if ok != Ok(true) {
        return ok;
      }
      if !repo.attrs.persisted {
        var inserted := repo.attrs.(id := nextId, persisted := true);
        assert DirectKeysUnique(rows) ==> DirectKeysUnique(rows + [inserted]) by {
          if DirectKeysUnique(rows) {
            InsertKeepsDirectKeysUnique(rows, repo.attrs, nextId);
          }
        }
        repo.attrs := repo.attrs.(id := nextId, persisted := true);
        rows := rows + [repo.attrs];
        nextId := nextId + 1;
      } else {
        rows := ReplaceRow(rows, repo.attrs);
      }
      saved := ok;
    }

    /**
     * `destroy`: the before_destroy hook runs first; if it raises, nothing is deleted.
     * Otherwise a persisted record's row is deleted and the record is no longer persisted.
     */
    method Destroy(repo: AssignmentRepo, remote: RemoteOutcome)
      returns (destroyed: Result<bool, Exception>, calls: seq<DeleteCall>)
      requires Valid()
      modifies this`rows, repo`attrs
      ensures Valid()
      ensures OrganizationOf(old(repo.attrs)).None? ==> calls == []
      ensures OrganizationOf(old(repo.attrs)).Some? ==>
        calls == [DeleteRepository(OrganizationOf(old(repo.attrs)).value.githubId, old(repo.attrs).githubRepoId)]
      ensures destroyed.Err? <==> OrganizationOf(old(repo.attrs)).Some? && remote == OtherFailure
      ensures destroyed.Err? ==> rows == old(rows) && repo.attrs == old(repo.attrs)
      ensures destroyed.Ok? ==> destroyed.value && repo.attrs == old(repo.attrs).(persisted := false)
      ensures destroyed.Ok? && old(repo.attrs).persisted ==> rows == RemoveId(old(rows), old(repo.attrs).id)
      ensures destroyed.Ok? && !old(repo.attrs).persisted ==> rows == old(rows)
    {
      destroyed, calls := repo.SilentlyDestroyGithubRepository(remote);
      if destroyed.Err? {
        return;
      }
      if repo.attrs.persisted {
        RemoveIdKeepsIdsDistinct(rows, repo.attrs.id);
        rows := RemoveId(rows, repo.attrs.id);
      }
      repo.attrs := repo.attrs.(persisted := false);
    }
  }
}

/**
 * The three tables of app.py and the integrity rules their columns declare:
 * primary keys, the unique `username` and `email` of a user, and the foreign
 * keys of a comment (`project_id`, required, cascading; `author_id`, nullable).
 */
module Schema {
  import opened Wrappers
  import opened Query
  import opened Credentials

  datatype Project = Project(id: nat, title: string, description: string, link: Option<string>)

  datatype User = User(id: nat, username: string, email: string, password: Digest)

  /** `created` is the timestamp the clock supplied at insertion; the model treats it as a value. */
  datatype Comment = Comment(
    id: nat,
    username: string,
    email: string,
    created: int,
    authorId: Option<nat>,
    projectId: nat,
    content: string)

  function ProjectId(p: Project): nat { p.id }
  function UserId(u: User): nat { u.id }
  function UserName(u: User): string { u.username }
  function UserEmail(u: User): string { u.email }
  function CommentId(c: Comment): nat { c.id }

  /** Row filters the handlers query with. */
  function ProjectWithId(id: nat): Project -> bool { (p: Project) => p.id == id }
  function ProjectOtherThan(id: nat): Project -> bool { (p: Project) => p.id != id }
  function UserWithId(id: nat): User -> bool { (u: User) => u.id == id }
  function UserNamed(name: string): User -> bool { (u: User) => u.username == name }
  function UserWithEmail(email: string): User -> bool { (u: User) => u.email == email }
  function CommentWithId(id: nat): Comment -> bool { (c: Comment) => c.id == id }
  function CommentOtherThan(id: nat): Comment -> bool { (c: Comment) => c.id != id }
  function CommentOn(projectId: nat): Comment -> bool { (c: Comment) => c.projectId == projectId }
  function CommentNotOn(projectId: nat): Comment -> bool { (c: Comment) => c.projectId != projectId }

  /** Primary key and the two unique columns of the user table. */
  predicate UsersValid(users: seq<User>) {
    && Distinct(users, UserId)
    && Distinct(users, UserName)
    && Distinct(users, UserEmail)
  }

  /** Primary key of the comment table and its two foreign keys. */
  predicate CommentsValid(comments: seq<Comment>, projects: seq<Project>, users: seq<User>) {
    && Distinct(comments, CommentId)
    && (forall i :: 0 <= i < |comments| ==> comments[i].projectId in Keys(projects, ProjectId))
    && (forall i :: 0 <= i < |comments| && comments[i].authorId.Some? ==>
          comments[i].authorId.value in Keys(users, UserId))
  }

  /** A new user row breaks no foreign key of the comment table. */
  lemma {:induction false} AddUserKeepsCommentsValid(comments: seq<Comment>, projects: seq<Project>, users: seq<User>, u: User)
    requires CommentsValid(comments, projects, users)
    ensures CommentsValid(comments, projects, users + [u])
  {
    KeysAppend(users, u, UserId);
  }

  /** A comment with a fresh id, an existing project and an existing (or no) author keeps the comment table's rules. */
  lemma {:induction false} AddCommentKeepsCommentsValid(comments: seq<Comment>, projects: seq<Project>, users: seq<User>, c: Comment)
    requires CommentsValid(comments, projects, users)
    requires forall j :: 0 <= j < |comments| ==> comments[j].id != c.id
    requires c.projectId in Keys(projects, ProjectId)
    requires c.authorId.Some? ==> c.authorId.value in Keys(users, UserId)
    ensures CommentsValid(comments + [c], projects, users)
  {
    DistinctAppend(comments, c, CommentId);
    var after := comments + [c];
    forall i | 0 <= i < |after|
      ensures after[i].projectId in Keys(projects, ProjectId)
      ensures after[i].authorId.Some? ==> after[i].authorId.value in Keys(users, UserId)
    {
      if i < |comments| {
        assert after[i] == comments[i];
      }
    }
  }

  /** Removing one comment keeps the comment table's rules. */
  lemma {:induction false} RemoveCommentKeepsCommentsValid(comments: seq<Comment>, projects: seq<Project>, users: seq<User>, k: nat)
    requires CommentsValid(comments, projects, users)
    requires k < |comments|
    ensures CommentsValid(comments[..k] + comments[k + 1..], projects, users)
  {
    DistinctRemove(comments, k, CommentId);
    var rest := comments[..k] + comments[k + 1..];
    forall i | 0 <= i < |rest|
      ensures rest[i].projectId in Keys(projects, ProjectId)
      ensures rest[i].authorId.Some? ==> rest[i].authorId.value in Keys(users, UserId)
    {
      assert rest[i] == comments[if i < k then i else i + 1];
    }
  }

  /**
   * Deleting a project together with its comments (the cascade of `project_id`)
   * keeps the comment table's rules: no remaining comment points at a missing
   * project or user.
   */
  lemma {:induction false} CascadeKeepsCommentsValid(comments: seq<Comment>, projects: seq<Project>, users: seq<User>, projectId: nat)
    requires CommentsValid(comments, projects, users)
    ensures CommentsValid(Where(comments, CommentNotOn(projectId)), Where(projects, ProjectOtherThan(projectId)), users)
  {
    var kept := Where(comments, CommentNotOn(projectId));
    var keptProjects := Where(projects, ProjectOtherThan(projectId));
    DistinctWhere(comments, CommentId, CommentNotOn(projectId));
    WhereMembers(comments, CommentNotOn(projectId));
    WhereMembers(projects, ProjectOtherThan(projectId));
    forall i | 0 <= i < |kept|
      ensures kept[i].projectId in Keys(keptProjects, ProjectId)
      ensures kept[i].authorId.Some? ==> kept[i].authorId.value in Keys(users, UserId)
    {
      var c := kept[i];
      assert c in comments && c.projectId != projectId;
      var m :| 0 <= m < |comments| && comments[m] == c;
      var j :| 0 <= j < |projects| && ProjectId(projects[j]) == c.projectId;
      assert ProjectOtherThan(projectId)(projects[j]);
      assert projects[j] in keptProjects;
      var n :| 0 <= n < |keptProjects| && keptProjects[n] == projects[j];
      assert ProjectId(keptProjects[n]) == c.projectId;
    }
  }

  /** After the cascade, the project's id is gone and its page would list no comment. */
  lemma {:induction false} CascadeRemovesProject(comments: seq<Comment>, projects: seq<Project>, projectId: nat)
    ensures projectId !in Keys(Where(projects, ProjectOtherThan(projectId)), ProjectId)
    ensures CommentsOn(Where(comments, CommentNotOn(projectId)), projectId) == []
  {
    var keptProjects := Where(projects, ProjectOtherThan(projectId));
    forall j | 0 <= j < |keptProjects| ensures ProjectId(keptProjects[j]) != projectId {
      assert keptProjects[j] in keptProjects;
    }
    var kept := Where(comments, CommentNotOn(projectId));
    forall j | 0 <= j < |kept| ensures !CommentOn(projectId)(kept[j]) {
      assert kept[j] in kept;
    }
    WhereNone(kept, CommentOn(projectId));
  }

  /** Every integrity rule of the database at once. */
  predicate TablesValid(users: seq<User>, projects: seq<Project>, comments: seq<Comment>) {
    && UsersValid(users)
    && Distinct(projects, ProjectId)
    && CommentsValid(comments, projects, users)
  }

  /** The comments listed on a project's page, in insertion order. */
  function CommentsOn(comments: seq<Comment>, projectId: nat): (r: seq<Comment>)
    ensures forall c :: c in r <==> c in comments && c.projectId == projectId
  {
    WhereMembers(comments, CommentOn(projectId));
    Where(comments, CommentOn(projectId))
  }

  /** A new comment on a project is listed last on that project's page and nowhere else. */
  lemma {:induction false} CommentsOnAppend(comments: seq<Comment>, c: Comment, projectId: nat)
    ensures CommentsOn(comments + [c], projectId)
         == CommentsOn(comments, projectId) + (if c.projectId == projectId then [c] else [])
  {
    WhereAppend(comments, [c], CommentOn(projectId));
    assert [c][1..] == [];
  }
}

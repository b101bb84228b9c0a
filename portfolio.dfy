/**
 * The request handlers of app.py over one in-memory database and one session.
 * Each POST handler is a method: form fields arrive as arguments, the flash
 * message and the redirect come back as a `Response`, and the tables and the
 * session's identity are fields the method updates.
 */
module Portfolio {
  import opened Wrappers
  import opened Query
  import opened Schema
  import opened Registration
  import opened Authentication
  import opened Responses

  /** The row a successful comment POST inserts: authored by `author`, attached to `projectId`. */
  function NewComment(comments: seq<Comment>, author: User, projectId: nat, content: string, now: int): (c: Comment)
    ensures forall j :: 0 <= j < |comments| ==> comments[j].id != c.id
    ensures c.username == author.username && c.email == author.email && c.authorId == Some(author.id)
    ensures c.projectId == projectId && c.content == content && c.created == now
  {
    Comment(NextKey(comments, CommentId), author.username, author.email, now, Some(author.id), projectId, content)
  }

  class Store {
    var users: seq<User>
    var projects: seq<Project>
    var comments: seq<Comment>
    /** The id the session holds for the logged-in user; None is the anonymous visitor. */
    var identity: Option<nat>

    /** The tables obey their integrity rules and the session names an existing user. */
    ghost predicate Valid()
      reads this
    {
      && TablesValid(users, projects, comments)
      && (identity.Some? ==> identity.value in Keys(users, UserId))
    }

    /** An empty database and an anonymous session (`db.create_all` on first start). */
    constructor ()
      ensures Valid()
      ensures users == [] && projects == [] && comments == [] && identity == None
    {
      users, projects, comments, identity := [], [], [], None;
    }

    /** `current_user`: the user row the session's id loads, as `load_user` does it. */
    function CurrentUser(): (r: Option<nat>)
      reads this
      ensures r.Some? ==> r.value < |users| && identity == Some(users[r.value].id)
      ensures r.None? <==> identity.None? || identity.value !in Keys(users, UserId)
    {
      match identity
      case None => None
      case Some(id) => FirstIndex(users, UserWithId(id))
    }

    /** POST /register. */
    method Register(form: Form, salt: string) returns (resp: Response)
      requires Valid()
      modifies this`users
      ensures Valid()
      ensures Validate(old(users), form).Some? ==> users == old(users)
      ensures Validate(old(users), form).None? ==> users == old(users) + [NewUser(old(users), form, salt)]
      ensures Validate(old(users), form).None?
          <==> resp == Redirect(HomePage, Flash(Success, "Registration successful!"))
      ensures Validate(old(users), form) == Some(PasswordMismatch)
          <==> resp == Redirect(RegisterPage, Flash(Danger, "Passwords do not match!"))
      ensures Validate(old(users), form).Some? && Validate(old(users), form) != Some(PasswordMismatch)
          ==> resp == ShowForm(RegisterPage, Flash(Danger, Message(Validate(old(users), form).value)))
    {
      match Validate(users, form) {
        case None =>
          var u := NewUser(users, form, salt);
          AcceptedKeepsUsersValid(users, form, salt);
          AddUserKeepsCommentsValid(comments, projects, users, u);
          KeysAppend(users, u, UserId);
          users := users + [u];
          resp := Redirect(HomePage, Flash(Success, "Registration successful!"));
        case Some(PasswordMismatch) =>
          resp := Redirect(RegisterPage, Flash(Danger, Message(PasswordMismatch)));
        case Some(r) =>
          resp := ShowForm(RegisterPage, Flash(Danger, Message(r)));
      }
    }

    /** POST /login. */
    method Login(username: string, password: string) returns (resp: Response)
      requires Valid()
      modifies this`identity
      ensures Valid()
      ensures Authenticate(users, username, password).Some? ==>
        && identity == Some(users[Authenticate(users, username, password).value].id)
        && resp == Redirect(PortfolioPage, Flash(Success, "Login successful!"))
      ensures Authenticate(users, username, password).None? ==>
        && identity == old(identity)
        && resp == ShowForm(LoginPage, Flash(Danger, "Invalid username or password."))
    {
      match Authenticate(users, username, password) {
        case Some(i) =>
          identity := Some(users[i].id);
          resp := Redirect(PortfolioPage, Flash(Success, "Login successful!"));
        case None =>
          resp := ShowForm(LoginPage, Flash(Danger, "Invalid username or password."));
      }
    }

    /** GET /logout: drops the identity whether or not there was one. */
    method Logout() returns (resp: Response)
      requires Valid()
      modifies this`identity
      ensures Valid()
      ensures identity == None
      ensures resp == Redirect(LoginPage, Flash(Info, "You have been logged out!"))
    {
      identity := None;
      resp := Redirect(LoginPage, Flash(Info, "You have been logged out!"));
    }

    /** GET /project/<id>: login required, then the project or 404, with its comments. */
    method ViewProject(projectId: nat) returns (resp: Response)
      requires Valid()
      ensures resp == Unauthorized <==> identity.None?
      ensures resp == NotFound <==> identity.Some? && projectId !in Keys(projects, ProjectId)
      ensures resp.Unauthorized? || resp.NotFound? || resp.ShowProject?
      ensures resp.ShowProject? ==> resp.project in projects && resp.project.id == projectId
      ensures resp.ShowProject? ==> resp.comments == CommentsOn(comments, projectId)
    {
      if CurrentUser().None? {
        return Unauthorized;
      }
      match FirstIndex(projects, ProjectWithId(projectId)) {
        case None =>
          resp := NotFound;
        case Some(k) =>
          resp := ShowProject(projects[k], CommentsOn(comments, projectId));
      }
    }

    /**
     * POST /project/<id>. `content` is None when the form has no content field,
     * which the NOT NULL column turns into a failed commit; `storeFault` stands
     * for any other failure of the commit. A failed commit is rolled back.
     */
    method PostComment(projectId: nat, content: Option<string>, now: int, storeFault: bool)
      returns (resp: Response)
      requires Valid()
      modifies this`comments
      ensures Valid()
      ensures resp == Unauthorized <==> old(identity).None?
      ensures resp == NotFound <==> identity.Some? && projectId !in Keys(projects, ProjectId)
      ensures resp.Unauthorized? || resp.NotFound? || resp.Redirect?
      ensures resp.Redirect? ==> resp.to == ProjectPage(projectId)
      ensures !resp.Redirect? ==> comments == old(comments)
      ensures resp.Redirect? && (content.None? || storeFault) ==>
        && comments == old(comments)
        && resp.flash == Flash(Danger, "An error occurred while submitting your comment.")
      ensures resp.Redirect? && content.Some? && !storeFault ==>
        && CurrentUser().Some?
        && comments == old(comments) + [NewComment(old(comments), users[CurrentUser().value], projectId, content.value, now)]
        && resp.flash == Flash(Success, "Your comment has been added!")
    {
      var author := CurrentUser();
      if author.None? {
        return Unauthorized;
      }
      var found := FirstIndex(projects, ProjectWithId(projectId));
      if found.None? {
        return NotFound;
      }
      var project := projects[found.value];
      if content.None? || storeFault {
        resp := Redirect(ProjectPage(project.id), Flash(Danger, "An error occurred while submitting your comment."));
      } else {
        var user := users[author.value];
        var c := NewComment(comments, user, project.id, content.value, now);
        assert user.id in Keys(users, UserId);
        AddCommentKeepsCommentsValid(comments, projects, users, c);
        comments := comments + [c];
        resp := Redirect(ProjectPage(project.id), Flash(Success, "Your comment has been added!"));
      }
    }

    /** POST /delete-comment/<id>: no login and no ownership check, as in the handler. */
    method DeleteComment(commentId: nat) returns (resp: Response)
      requires Valid()
      modifies this`comments
      ensures Valid()
      ensures resp == NotFound <==> commentId !in Keys(old(comments), CommentId)
      ensures resp == NotFound ==> comments == old(comments)
      ensures resp != NotFound ==> comments == Where(old(comments), CommentOtherThan(commentId))
      ensures resp != NotFound ==>
        exists k :: 0 <= k < |old(comments)| && old(comments)[k].id == commentId
          && comments == old(comments)[..k] + old(comments)[k + 1..]
          && resp == Redirect(ProjectPage(old(comments)[k].projectId), Flash(Success, "Comment deleted successfully!"))
    {
      match FirstIndex(comments, CommentWithId(commentId)) {
        case None =>
          resp := NotFound;
        case Some(k) =>
          var projectId := comments[k].projectId;
          forall j | 0 <= j < |comments| && j != k ensures CommentOtherThan(commentId)(comments[j]) {
            assert CommentId(comments[j]) != CommentId(comments[k]);
          }
          WhereRemovesOne(comments, k, CommentOtherThan(commentId));
          RemoveCommentKeepsCommentsValid(comments, projects, users, k);
          comments := comments[..k] + comments[k + 1..];
          resp := Redirect(ProjectPage(projectId), Flash(Success, "Comment deleted successfully!"));
      }
    }
    /**
     * Inserting a project row. No handler does this: projects are seeded out of
     * band (add_projects.py), so this is the insert such a script performs.
     */
    method AddProject(title: string, description: string, link: Option<string>) returns (id: nat)
      requires Valid()
      modifies this`projects
      ensures Valid()
      ensures id !in Keys(old(projects), ProjectId)
      ensures projects == old(projects) + [Project(id, title, description, link)]
    {
      id := NextKey(projects, ProjectId);
      var p := Project(id, title, description, link);
      DistinctAppend(projects, p, ProjectId);
      KeysAppend(projects, p, ProjectId);
      projects := projects + [p];
    }

    /**
     * Deleting a project row with the cascade the comment table's `project_id`
     * foreign key declares: the project's comments go with it.
     */
    method DeleteProject(projectId: nat) returns (found: bool)
      requires Valid()
      modifies this`projects, this`comments
      ensures Valid()
      ensures found <==> projectId in Keys(old(projects), ProjectId)
      ensures projects == Where(old(projects), ProjectOtherThan(projectId))
      ensures comments == Where(old(comments), CommentNotOn(projectId))
      ensures projectId !in Keys(projects, ProjectId)
      ensures CommentsOn(comments, projectId) == []
    {
      found := FirstIndex(projects, ProjectWithId(projectId)).Some?;
      var keptProjects := Where(projects, ProjectOtherThan(projectId));
      var keptComments := Where(comments, CommentNotOn(projectId));
      DistinctWhere(projects, ProjectId, ProjectOtherThan(projectId));
      CascadeKeepsCommentsValid(comments, projects, users, projectId);
      CascadeRemovesProject(comments, projects, projectId);
      projects, comments := keptProjects, keptComments;
    }
  }
}

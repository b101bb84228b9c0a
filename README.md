# Portfolio site: request handlers over users, projects and comments

A Dafny model of the Flask application in `app.py`: a personal portfolio site
with user registration and login, a project page on which logged-in users
comment, and comment deletion. The database (three tables: `user`, `project`,
`comment`) and the session's logged-in identity are the fields of one class,
`Portfolio.Store`; each POST handler is a method of it that takes the form
fields as arguments and returns the flashed message and the redirect (or page)
as a `Responses.Response` value.

Modules, leaves first:

- `Wrappers`: `Option`.
- `Query`: the table operations the handlers use, over a table kept as a
  sequence of rows in insertion order: first matching row (`filter_by().first()`,
  `get_or_404`), all matching rows (`filter_by().all()`), uniqueness of a
  column, and the id a new row receives (one more than the table's largest id,
  1 for an empty table, as SQLite assigns rowids).
- `Credentials`: the stored password digest, `Hash` and `Check`, and the
  lemma that a digest accepts exactly the password it was made from.
- `Schema`: the `Project`, `User` and `Comment` rows, the integrity rules their
  columns declare (primary keys, unique `username` and `email`, the `project_id`
  and `author_id` foreign keys), the project-page comment listing, and the
  cascade on project deletion.
- `Registration`: the ordered validation chain of `register`.
- `Authentication`: the decision of `login`.
- `Responses`: flash severity and message, endpoints, responses.
- `Portfolio`: the store class and its handlers.

Where the behaviour of `app.py` differs from what one might expect of such an
application, the model follows the code:

- `logout` carries no `@login_required`, so `Store.Logout` clears the identity
  whether or not anyone was logged in.
- The login manager is given no `login_view`, so `@login_required` on the
  project page answers an anonymous visitor with HTTP 401 rather than a redirect
  to the login page: the model returns `Unauthorized`.
- A password mismatch redirects back to the registration page; every later
  rejection re-renders the form with its message.
- `request.form.get('content')` is None when the form has no `content` field;
  the `content` column is NOT NULL, so the commit fails, is rolled back, and the
  danger message is shown. `PostComment` takes `content` as an `Option` for this.
- `delete_comment` requires neither a login nor ownership of the comment; the
  model adds no such check.

Inputs the model takes as parameters: the salt that password hashing draws at
random (`Register`'s `salt`), the clock reading stored in a comment's
`date_created` (`PostComment`'s `now`), and whether the database commit fails
for a reason other than a missing content field (`PostComment`'s `storeFault`).

## Model

| member | source | states |
|---|---|---|
| Query.FirstIndex | app.py:125-126 | the result is the position of the first row that matches, and None exactly when no row matches |
| Query.Where | app.py:80 | every row of the result passes the filter and the result is no longer than the table |
| Query.WhereMembers | app.py:80 | the result holds exactly the rows of the table that pass the filter |
| Query.WhereAppend | app.py:80 | filtering a concatenation is the concatenation of the filtered parts, so filtered rows keep insertion order |
| Query.WhereRemovesOne | app.py:108 | a filter that rejects only the row at one position yields the table with that one row removed |
| Query.DistinctWhere | app.py:49 | removing rows keeps a primary key or unique column unique |
| Query.NextKey | app.py:44 | a new row's id is at least 1, differs from every id in the table, and is 1 in an empty table |
| Credentials.CheckHash | app.py:155 | checking an attempt against the hash of a password succeeds iff the attempt equals that password, for every salt |
| Schema.CommentsOn | app.py:80 | the project page lists exactly the comments whose project_id is that project |
| Schema.CommentsOnAppend | app.py:92-93 | a newly added comment is listed last on its own project's page and does not appear on any other |
| Schema.AddCommentKeepsCommentsValid | app.py:44-50 | a comment with a fresh id, an existing project and an existing or absent author keeps comment ids unique and both foreign keys intact |
| Schema.RemoveCommentKeepsCommentsValid | app.py:108 | removing one comment keeps comment ids unique and both foreign keys intact |
| Schema.CascadeKeepsCommentsValid | app.py:49 | deleting a project and its comments leaves comment ids unique and no comment pointing at a missing project or user |
| Schema.CascadeRemovesProject | app.py:49 | after the cascade the project id is absent and its page would list no comment |
| Registration.Validate | app.py:121-137 | None iff no check fails; otherwise the reported rejection is a check that fails and every check earlier in the chain passes |
| Registration.FirstFailingCheckDecides | app.py:128-137 | conversely, the first failing check of the chain is the rejection reported, so a password mismatch always wins |
| Registration.NewUser | app.py:139-140 | the inserted user has a fresh id, the form's username and email, and the hash of the password as its stored password |
| Registration.AcceptedKeepsUsersValid | app.py:36-37 | appending the user of an accepted form keeps user ids, usernames and emails unique |
| Authentication.Authenticate | app.py:153-155 | a successful login names the first user with that username and its stored hash checks the password |
| Authentication.AuthenticateIff | app.py:153-160 | with unique usernames, login succeeds iff some user has that username and the password checks against its hash |
| Authentication.LoginAfterRegistration | app.py:138-158 | after an accepted registration, its username logs in iff the attempt equals the registered password |
| Portfolio.NewComment | app.py:85-91 | the new comment has a fresh id, the author's username, email and id, the page's project id, the posted content and the clock reading |
| Portfolio.Store.constructor | app.py:178-180 | the database starts with empty tables and an anonymous session, which satisfy every integrity rule |
| Portfolio.Store.CurrentUser | app.py:23-25 | the current user is the row whose id the session holds, and there is none exactly when the session is anonymous or the id is missing |
| Portfolio.Store.Register | app.py:113-146 | an accepted form appends exactly its new user and redirects home with a success message; a mismatch redirects to the form; any other rejection re-shows the form with that check's message; a rejection changes no table |
| Portfolio.Store.Login | app.py:148-161 | success sets the identity to the authenticated user and redirects to the portfolio; failure keeps the identity and shows one generic message |
| Portfolio.Store.Logout | app.py:163-167 | the identity is cleared and the browser is sent to the login page with an info message |
| Portfolio.Store.ViewProject | app.py:76-102 | anonymous gives Unauthorized, a missing project gives NotFound, otherwise the project with that id and exactly its comments in insertion order |
| Portfolio.Store.PostComment | app.py:76-100 | anonymous or a missing project changes nothing; otherwise the redirect goes to the same project, a failed commit leaves the comments unchanged with a danger message, and a successful one appends exactly the new comment with a success message |
| Portfolio.Store.DeleteComment | app.py:104-111 | an unknown id gives NotFound and changes nothing; otherwise exactly the comment with that id is removed and the browser is sent to its former project |
| Portfolio.Store.AddProject | add_projects.py:5-25 | a new project row with a fresh id is appended and nothing else changes |
| Portfolio.Store.DeleteProject | app.py:49 | the project and every comment on it are removed, the rest stay in order, and the integrity rules still hold |

## Left out

- `home`, `portfolio`, `contact`, `send_message` and the GET forms of `register` and `login`: they render a template, list every project as stored, or print to the log and flash a fixed message; none reads or changes state by any rule.
- Routing, `render_template`, `url_for`, request parsing and the flash queue: a handler's flash and redirect are its returned `Response`.
- PBKDF2-SHA256: `Credentials.Derive` stands in for the key derivation and is only injective in the password for a fixed salt; no one-wayness or timing property is modelled.
- The column length limits (`String(50)` and the like): SQLite does not enforce them and no handler checks them.
- The failure of the commit in `register` and `delete_comment`: the code does not catch it, so it would surface as a server error; the model's commits there always succeed.
- SQLite enforces the `ondelete='CASCADE'` of `project_id` only when foreign keys are switched on, which the application does not do; `DeleteProject` follows the declared schema. No handler deletes a project.
- What happens to a user's comments when the user is deleted: no code deletes users.
- Concurrent requests, the session cookie and its expiry, and the app start-up in `__main__` beyond the empty tables of the constructor.
- The Alembic migration and its `image` column on `project`: schema tooling, and the column is not part of the model class in `app.py`.
- The comment timestamp is a value passed in; its default from `datetime.utcnow` is not modelled.

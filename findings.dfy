/** The handlers that read `project.author` or `user.projects`, as written. The models
    define neither attribute: a project's owner relationship is `Project.user` (whose backref
    on users is `projects_rel`), and `author` is the backref that `User.comments` puts on
    comments. Each read raises `AttributeError`; the request fails with a 500 and nothing it
    added to the session is committed. The rest of the model reads both as the owner. */
module Findings {
  import opened Wrappers
  import opened Seqs
  import opened Models
  import opened Routes

  /** `edit_project` as written: the owner test at its start raises for every project that
      exists. */
  function EditProjectAsWritten(t: Tables, me: UserId, id: ProjectId, form: ProjectForm, formOk: bool): Result<Tables, Failure> {
    match ProjectIndex(t.projects, id)
    case None => Err(NotFound)
    case Some(_) => Err(ServerError)
  }

  /** `delete_project` as written: the same owner test. */
  function DeleteProjectAsWritten(t: Tables, me: UserId, id: ProjectId): Result<Tables, Failure> {
    match ProjectIndex(t.projects, id)
    case None => Err(NotFound)
    case Some(_) => Err(ServerError)
  }

  /** The owner of an existing project can neither edit nor delete it as written, where the
      intended handlers succeed. */
  lemma OwnerGuardFails(t: Tables, me: UserId, id: ProjectId, form: ProjectForm, formOk: bool)
    requires ProjectIndex(t.projects, id).Some? && t.projects[ProjectIndex(t.projects, id).value].owner == me
    ensures EditProjectAsWritten(t, me, id, form, formOk) == Err(ServerError)
    ensures EditProject(t, me, id, form, formOk).Ok?
    ensures DeleteProjectAsWritten(t, me, id) == Err(ServerError)
    ensures DeleteProject(t, me, id).Ok?
    ensures DeleteProject(t, me, id).value == WithoutProject(t, id)
  {
  }

  /** `like_project` as written: removing a like works; adding one reaches the notification
      test, which raises, so the new like is rolled back. */
  function ToggleLikeAsWritten(t: Tables, me: UserId, id: ProjectId): Result<(Tables, LikeReply), Failure>
    requires IsUser(t, me)
  {
    match ProjectIndex(t.projects, id)
    case None => Err(NotFound)
    case Some(i) =>
      if !t.projects[i].published then Err(Forbidden)
      else if Like(me, id) in t.likes then
        var t1 := t.(likes := Remove(t.likes, Like(me, id)));
        Ok((t1, LikeReply(false, LikeCount(t1.likes, id))))
      else Err(ServerError)
  }

  /** As written, no like can ever be added, also not to one's own project; unliking agrees
      with the intended handler. */
  lemma NewLikeFails(t: Tables, me: UserId, id: ProjectId)
    requires IsUser(t, me)
    ensures var i := ProjectIndex(t.projects, id);
            i.Some? && t.projects[i.value].published && Like(me, id) !in t.likes ==>
              ToggleLikeAsWritten(t, me, id) == Err(ServerError)
              && ToggleLike(t, me, id).Ok? && ToggleLike(t, me, id).value.1.liked
    ensures Like(me, id) in t.likes ==> ToggleLikeAsWritten(t, me, id) == ToggleLike(t, me, id)
  {
  }

  /** `add_comment` as written: a form that does not validate redirects without writing; a
      valid one reaches the notification test, which raises, so the comment is rolled back. */
  function LeaveCommentAsWritten(t: Tables, me: UserId, id: ProjectId, content: string, tokenOk: bool): Result<(Tables, bool), Failure>
    requires IsUser(t, me)
  {
    match ProjectIndex(t.projects, id)
    case None => Err(NotFound)
    case Some(i) =>
      if !t.projects[i].published then Err(Forbidden)
      else if !CommentFormValid(content, tokenOk) then Ok((t, false))
      else Err(ServerError)
  }

  /** As written, no comment is ever stored; the intended handler stores every valid one. */
  lemma ValidCommentFails(t: Tables, me: UserId, id: ProjectId, content: string, tokenOk: bool)
    requires IsUser(t, me)
    ensures var i := ProjectIndex(t.projects, id);
            i.Some? && t.projects[i.value].published && CommentFormValid(content, tokenOk) ==>
              LeaveCommentAsWritten(t, me, id, content, tokenOk) == Err(ServerError)
              && LeaveComment(t, me, id, content, tokenOk).Ok? && LeaveComment(t, me, id, content, tokenOk).value.1
    ensures !CommentFormValid(content, tokenOk) ==>
              LeaveCommentAsWritten(t, me, id, content, tokenOk) == LeaveComment(t, me, id, content, tokenOk)
  {
  }

  /** `project_detail` as written: a draft seen by an anonymous visitor is refused before the
      author is read; a signed-in viewer of a draft reaches it and the page fails. */
  function ProjectDetailAsWritten(t: Tables, viewer: Option<UserId>, id: ProjectId): Result<(Project, seq<Comment>), Failure> {
    match ProjectIndex(t.projects, id)
    case None => Err(NotFound)
    case Some(i) =>
      var p := t.projects[i];
      if !p.published && viewer.None? then Err(Forbidden)
      else if !p.published then Err(ServerError)
      else Ok((p, Reverse(Filter(t.comments, CommentOn(id)))))
  }

  /** As written, the owner cannot see their own draft; published projects and anonymous
      visitors are treated as intended. */
  lemma DraftViewFails(t: Tables, viewer: Option<UserId>, id: ProjectId)
    ensures var i := ProjectIndex(t.projects, id);
            i.Some? && !t.projects[i.value].published && viewer == Some(t.projects[i.value].owner) ==>
              ProjectDetailAsWritten(t, viewer, id) == Err(ServerError) && Routes.ProjectDetail(t, viewer, id).Ok?
    ensures var i := ProjectIndex(t.projects, id);
            i.None? || t.projects[i.value].published || viewer.None? ==>
              ProjectDetailAsWritten(t, viewer, id) == Routes.ProjectDetail(t, viewer, id)
  {
  }

  /** `profile` as written: after the user is found, `user.projects` raises. */
  function ProfilePageAsWritten(t: Tables, username: string, page: int): Result<(User, seq<Project>), Failure> {
    match UserNamed(t.users, username)
    case None => Err(NotFound)
    case Some(_) => Err(ServerError)
  }

  /** As written, no profile page is ever shown; the intended handler shows every existing
      user's. */
  lemma ProfileFails(t: Tables, username: string, page: int)
    ensures UserNamed(t.users, username).Some? ==>
              ProfilePageAsWritten(t, username, page) == Err(ServerError) && ProfilePage(t, username, page).Ok?
    ensures UserNamed(t.users, username).None? ==>
              ProfilePageAsWritten(t, username, page) == ProfilePage(t, username, page)
  {
  }
}

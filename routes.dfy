/** The request handlers of routes.py over the store. The logged-in user (`current_user`)
    is the explicit argument `me`; each handler is a function from the tables to a reply
    and new tables, and a method on the store that performs the same steps in place. */
module Routes {
  import opened Wrappers
  import opened Seqs
  import opened Text
  import opened Models
  import opened Utils

  /** Why a handler stopped without writing: `abort(404)` and `first_or_404`, `abort(403)`,
      the redirects with a warning of the follow routes and of `edit_profile`, and an
      uncaught exception, which Flask answers with a 500 after the session is rolled back. */
  datatype Failure =
    | NotFound
    | Forbidden
    | UserNotFound
    | CannotFollowSelf
    | UsernameInUse
    | EmailInUse
    | RegistrationRejected(usernameTaken: bool, emailTaken: bool)
    | AlreadySignedIn
    | ServerError

  /** `me` is a row of the user table (what `login_required` guarantees of `current_user`). */
  predicate IsUser(t: Tables, me: UserId) {
    UserIndex(t.users, me).Some?
  }

  /** The row of the logged-in user. */
  function Me(t: Tables, me: UserId): (u: User)
    requires IsUser(t, me)
    ensures u in t.users && u.id == me
  {
    t.users[UserIndex(t.users, me).value]
  }

  lemma IsUserHasId(t: Tables, me: UserId)
    requires IsUser(t, me)
    ensures me in UserIds(t.users)
  {
    assert Me(t, me) in t.users;
  }

  lemma ProjectHasId(t: Tables, id: ProjectId)
    requires ProjectIndex(t.projects, id).Some?
    ensures id in ProjectIds(t.projects)
  {
    assert t.projects[ProjectIndex(t.projects, id).value] in t.projects;
  }

  // ---------------------------------------------------------------------------------------
  // like_project

  /** The JSON reply of `like_project`. */
  datatype LikeReply = LikeReply(liked: bool, likeCount: nat)

  /** The message of a like notification. */
  function LikeMessage(actor: string, title: string): string {
    actor + " liked your project '" + title + "'"
  }

  /** `like_project`: 404 for an unknown project, 403 for an unpublished one; otherwise the
      actor's like is removed if there is one and added if not, the owner of the project is
      notified of a new like by someone else, and the reply carries the new like count. */
  function ToggleLike(t: Tables, me: UserId, id: ProjectId): Result<(Tables, LikeReply), Failure>
    requires IsUser(t, me)
  {
    match ProjectIndex(t.projects, id)
    case None => Err(NotFound)
    case Some(i) =>
      var p := t.projects[i];
      if !p.published then Err(Forbidden)
      else if Like(me, id) in t.likes then
        var t1 := t.(likes := Remove(t.likes, Like(me, id)));
        Ok((t1, LikeReply(false, LikeCount(t1.likes, id))))
      else
        var t1 := t.(likes := t.likes + [Like(me, id)]);
        var t2 := if p.owner != me
                  then Notified(t1, p.owner, LikeNotice, LikeMessage(Me(t, me).username, p.title), Some(me), Some(id))
                  else t1;
        Ok((t2, LikeReply(true, LikeCount(t2.likes, id))))
  }

  /** The guards: the toggle is refused exactly for an unknown or an unpublished project,
      and then nothing is written. */
  lemma ToggleLikeGuards(t: Tables, me: UserId, id: ProjectId)
    requires IsUser(t, me)
    ensures var r := ToggleLike(t, me, id);
            var i := ProjectIndex(t.projects, id);
            (r == Err(NotFound) <==> i.None?)
            && (r == Err(Forbidden) <==> i.Some? && !t.projects[i.value].published)
            && (r.Ok? <==> i.Some? && t.projects[i.value].published)
  {
  }

  /** A toggle flips whether the actor likes the project, touches no other like, reports the
      new state and the count after the change, which moved by one. */
  lemma ToggleLikeFlips(t: Tables, me: UserId, id: ProjectId)
    requires IsUser(t, me) && Distinct(t.likes)
    requires ToggleLike(t, me, id).Ok?
    ensures var (t', reply) := ToggleLike(t, me, id).value;
            (reply.liked <==> !LikedBy(t.likes, id, me))
            && (LikedBy(t'.likes, id, me) <==> reply.liked)
            && (forall l :: l != Like(me, id) ==> (l in t'.likes <==> l in t.likes))
            && reply.likeCount == LikeCount(t'.likes, id)
            && reply.likeCount == (if reply.liked then LikeCount(t.likes, id) + 1 else LikeCount(t.likes, id) - 1)
            && Distinct(t'.likes)
            && t'.users == t.users && t'.projects == t.projects && t'.follows == t.follows
            && t'.comments == t.comments
  {
    var l := Like(me, id);
    var p := t.projects[ProjectIndex(t.projects, id).value];
    if l in t.likes {
      LikeRemoved(t.likes, l);
      assert ToggleLike(t, me, id).value.0 == t.(likes := Remove(t.likes, l));
    } else {
      LikeAdded(t.likes, l);
      var t1 := t.(likes := t.likes + [l]);
      var t2 := if p.owner != me
                then Notified(t1, p.owner, LikeNotice, LikeMessage(Me(t, me).username, p.title), Some(me), Some(id))
                else t1;
      assert t2.likes == t1.likes;
      assert ToggleLike(t, me, id).value.0 == t2;
    }
  }

  /** A new like on someone else's project adds one notification for its owner, naming the
      actor and the project; an unlike, or a like on one's own project, adds none. */
  lemma ToggleLikeNotifies(t: Tables, me: UserId, id: ProjectId)
    requires IsUser(t, me)
    requires ToggleLike(t, me, id).Ok?
    ensures var (t', reply) := ToggleLike(t, me, id).value;
            var p := t.projects[ProjectIndex(t.projects, id).value];
            if reply.liked && p.owner != me then
              |t'.notifications| == |t.notifications| + 1
              && t'.notifications[..|t.notifications|] == t.notifications
              && var n := t'.notifications[|t.notifications|];
                 n.recipient == p.owner && n.kind == LikeNotice && n.relatedUser == Some(me)
                 && n.project == Some(id) && !n.read
                 && n.message == Me(t, me).username + " liked your project '" + p.title + "'"
            else t'.notifications == t.notifications
  {
  }

  /** Toggling twice gives back the same like rows: a like followed by an unlike removes
      the row it added, an unlike followed by a like adds the removed row back. */
  lemma ToggleTwice(t: Tables, me: UserId, id: ProjectId)
    requires IsUser(t, me) && Distinct(t.likes)
    requires ToggleLike(t, me, id).Ok?
    ensures var t1 := ToggleLike(t, me, id).value.0;
            IsUser(t1, me) && ToggleLike(t1, me, id).Ok?
            && var t2 := ToggleLike(t1, me, id).value.0;
               (forall l :: l in t2.likes <==> l in t.likes) && |t2.likes| == |t.likes|
  {
    var l := Like(me, id);
    ToggleLikeFlips(t, me, id);
    var t1 := ToggleLike(t, me, id).value.0;
    assert t1.users == t.users && t1.projects == t.projects;
    assert UserIndex(t1.users, me) == UserIndex(t.users, me);
    ToggleLikeFlips(t1, me, id);
    var t2 := ToggleLike(t1, me, id).value.0;
    if l in t.likes {
      RemoveLength(t.likes, l);
      assert t1.likes == Remove(t.likes, l);
      assert t2.likes == t1.likes + [l];
    } else {
      RemoveAppended(t.likes, l);
      assert t1.likes == t.likes + [l];
      assert t2.likes == Remove(t1.likes, l);
    }
  }

  /** The toggle keeps the database invariant. */
  lemma ToggleLikeConsistent(t: Tables, me: UserId, id: ProjectId)
    requires Consistent(t) && IsUser(t, me)
    requires ToggleLike(t, me, id).Ok?
    ensures Consistent(ToggleLike(t, me, id).value.0)
  {
    var l := Like(me, id);
    var i := ProjectIndex(t.projects, id).value;
    var p := t.projects[i];
    IsUserHasId(t, me);
    ProjectHasId(t, id);
    if l in t.likes {
      LikeDeletedConsistent(t, l);
      assert ToggleLike(t, me, id).value.0 == t.(likes := Remove(t.likes, l));
    } else {
      LikeInsertedConsistent(t, l);
      var t1 := t.(likes := t.likes + [l]);
      if p.owner != me {
        assert p.owner in UserIds(t1.users);
        NotifiedConsistent(t1, p.owner, LikeNotice, LikeMessage(Me(t, me).username, p.title), Some(me), Some(id));
        assert ToggleLike(t, me, id).value.0
               == Notified(t1, p.owner, LikeNotice, LikeMessage(Me(t, me).username, p.title), Some(me), Some(id));
      } else {
        assert ToggleLike(t, me, id).value.0 == t1;
      }
    }
  }

  /** `like_project` on the store. */
  method LikeProject(s: Store, me: UserId, id: ProjectId) returns (r: Result<LikeReply, Failure>)
    requires s.Valid() && IsUser(s.State(), me)
    modifies s
    ensures s.Valid()
    ensures match ToggleLike(old(s.State()), me, id)
            case Ok(res) => r == Ok(res.1) && s.State() == res.0
            case Err(f) => r == Err(f) && s.State() == old(s.State())
  {
    var i := ProjectIndex(s.projects, id);
    if i.None? {
      return Err(NotFound);
    }
    var p := s.projects[i.value];
    if !p.published {
      return Err(Forbidden);
    }
    var liked: bool;
    var t := s.State();
    var actor := Me(t, me);
    IsUserHasId(t, me);
    ProjectHasId(t, id);
    if Like(me, id) in s.likes {
      s.DeleteLike(Like(me, id));
      liked := false;
    } else {
      s.InsertLike(Like(me, id));
      liked := true;
      if p.owner != me {
        var message := actor.username + " liked your project '" + p.title + "'";
        assert p.owner in UserIds(s.users);
        CreateNotification(s, p.owner, LikeNotice, message, Some(me), Some(id));
      }
    }
    r := Ok(LikeReply(liked, LikeCount(s.likes, id)));
  }

  // ---------------------------------------------------------------------------------------
  // add_comment

  /** `CommentForm.validate_on_submit()`: the form's CSRF token checks out (`tokenOk`, the
      comparison Flask-WTF makes against the session), `DataRequired` (some non-white-space
      character) and at most 1000 characters. */
  predicate CommentFormValid(content: string, tokenOk: bool) {
    tokenOk && Strip(content) != [] && |content| <= 1000
  }

  function CommentMessage(actor: string, title: string): string {
    actor + " commented on your project '" + title + "'"
  }

  /** `add_comment`: 404 and 403 as for likes; an invalid form adds nothing; a valid one
      adds the comment and notifies the owner when someone else commented. The flag says
      whether a comment was added. */
  function LeaveComment(t: Tables, me: UserId, id: ProjectId, content: string, tokenOk: bool): Result<(Tables, bool), Failure>
    requires IsUser(t, me)
  {
    match ProjectIndex(t.projects, id)
    case None => Err(NotFound)
    case Some(i) =>
      var p := t.projects[i];
      if !p.published then Err(Forbidden)
      else if !CommentFormValid(content, tokenOk) then Ok((t, false))
      else
        var t1 := t.(comments := t.comments + [Comment(content, me, id, t.clock)], clock := t.clock + 1);
        var t2 := if p.owner != me
                  then Notified(t1, p.owner, CommentNotice, CommentMessage(Me(t, me).username, p.title), Some(me), Some(id))
                  else t1;
        Ok((t2, true))
  }

  /** The comment handler is refused exactly for an unknown or unpublished project; an
      accepted request adds one comment by the actor on the project exactly when the form
      is valid, and changes nothing else of the database but the notifications. */
  lemma LeaveCommentEffect(t: Tables, me: UserId, id: ProjectId, content: string, tokenOk: bool)
    requires IsUser(t, me)
    ensures var r := LeaveComment(t, me, id, content, tokenOk);
            var i := ProjectIndex(t.projects, id);
            (r.Err? <==> i.None? || !t.projects[i.value].published)
            && (r.Ok? ==>
                  var (t', added) := r.value;
                  (added <==> tokenOk && Strip(content) != [] && |content| <= 1000)
                  && (!added ==> t' == t)
                  && (added ==> t'.comments == t.comments + [Comment(content, me, id, t.clock)]
                                && CommentCount(t'.comments, id) == CommentCount(t.comments, id) + 1)
                  && t'.users == t.users && t'.projects == t.projects
                  && t'.likes == t.likes && t'.follows == t.follows)
  {
    if LeaveComment(t, me, id, content, tokenOk).Ok? && CommentFormValid(content, tokenOk) {
      FilterAppend(t.comments, Comment(content, me, id, t.clock), CommentOn(id));
    }
  }

  /** Commenting on someone else's project adds exactly one notification, for its owner,
      with the actor as related user; commenting on one's own project adds none. */
  lemma LeaveCommentNotifies(t: Tables, me: UserId, id: ProjectId, content: string, tokenOk: bool)
    requires IsUser(t, me)
    requires LeaveComment(t, me, id, content, tokenOk).Ok?
    ensures var (t', added) := LeaveComment(t, me, id, content, tokenOk).value;
            var p := t.projects[ProjectIndex(t.projects, id).value];
            if added && p.owner != me then
              |t'.notifications| == |t.notifications| + 1
              && t'.notifications[..|t.notifications|] == t.notifications
              && var n := t'.notifications[|t.notifications|];
                 n.recipient == p.owner && n.kind == CommentNotice && n.relatedUser == Some(me)
                 && n.project == Some(id) && !n.read
                 && n.message == Me(t, me).username + " commented on your project '" + p.title + "'"
            else t'.notifications == t.notifications
  {
  }

  lemma LeaveCommentConsistent(t: Tables, me: UserId, id: ProjectId, content: string, tokenOk: bool)
    requires Consistent(t) && IsUser(t, me)
    requires LeaveComment(t, me, id, content, tokenOk).Ok?
    ensures Consistent(LeaveComment(t, me, id, content, tokenOk).value.0)
  {
    if CommentFormValid(content, tokenOk) {
      var p := t.projects[ProjectIndex(t.projects, id).value];
      IsUserHasId(t, me);
      ProjectHasId(t, id);
      var t1 := t.(comments := t.comments + [Comment(content, me, id, t.clock)], clock := t.clock + 1);
      CommentAddedConsistent(t, Comment(content, me, id, t.clock));
      if p.owner != me {
        assert p.owner in UserIds(t1.users);
        NotifiedConsistent(t1, p.owner, CommentNotice, CommentMessage(Me(t, me).username, p.title), Some(me), Some(id));
      }
    }
  }

  /** The result of an accepted, valid comment, step by step. */
  lemma LeaveCommentPosted(t: Tables, me: UserId, id: ProjectId, content: string, tokenOk: bool)
    requires IsUser(t, me) && ProjectIndex(t.projects, id).Some?
    requires t.projects[ProjectIndex(t.projects, id).value].published && CommentFormValid(content, tokenOk)
    ensures var p := t.projects[ProjectIndex(t.projects, id).value];
            var t1 := t.(comments := t.comments + [Comment(content, me, id, t.clock)], clock := t.clock + 1);
            LeaveComment(t, me, id, content, tokenOk)
            == Ok((if p.owner != me
                   then Notified(t1, p.owner, CommentNotice, CommentMessage(Me(t, me).username, p.title), Some(me), Some(id))
                   else t1, true))
  {
  }

  /** `add_comment` on the store. */
  method AddComment(s: Store, me: UserId, id: ProjectId, content: string, tokenOk: bool) returns (r: Result<bool, Failure>)
    requires s.Valid() && IsUser(s.State(), me)
    modifies s
    ensures s.Valid()
    ensures match LeaveComment(old(s.State()), me, id, content, tokenOk)
            case Ok(res) => r == Ok(res.1) && s.State() == res.0
            case Err(f) => r == Err(f) && s.State() == old(s.State())
  {
    var i := ProjectIndex(s.projects, id);
    if i.None? {
      return Err(NotFound);
    }
    var p := s.projects[i.value];
    if !p.published {
      return Err(Forbidden);
    }
    if !CommentFormValid(content, tokenOk) {
      return Ok(false);
    }
    var t := s.State();
    var actor := Me(t, me);
    IsUserHasId(t, me);
    ProjectHasId(t, id);
    s.InsertComment(content, me, id);
    ghost var t1 := s.State();
    assert t1 == t.(comments := t.comments + [Comment(content, me, id, t.clock)], clock := t.clock + 1);
    if p.owner != me {
      var message := actor.username + " commented on your project '" + p.title + "'";
      assert p.owner in UserIds(s.users);
      CreateNotification(s, p.owner, CommentNotice, message, Some(me), Some(id));
      assert s.State() == Notified(t1, p.owner, CommentNotice, CommentMessage(actor.username, p.title), Some(me), Some(id));
    }
    LeaveCommentPosted(t, me, id, content, tokenOk);
    r := Ok(true);
  }

  // ---------------------------------------------------------------------------------------
  // follow and unfollow

  function FollowMessage(actor: string): string {
    actor + " started following you"
  }

  /** The `follow` route: an unknown username and the actor's own name are refused;
      otherwise the edge is added if missing and the target is notified, also when the edge
      was already there. */
  function FollowByName(t: Tables, me: UserId, username: string): Result<Tables, Failure>
    requires IsUser(t, me)
  {
    match UserNamed(t.users, username)
    case None => Err(UserNotFound)
    case Some(u) =>
      if u.id == me then Err(CannotFollowSelf)
      else
        var t1 := t.(follows := Followed(t.follows, me, u.id));
        Ok(Notified(t1, u.id, FollowNotice, FollowMessage(Me(t, me).username), Some(me), None))
  }

  /** The `unfollow` route: the same refusals; otherwise the edge is removed if present. */
  function UnfollowByName(t: Tables, me: UserId, username: string): Result<Tables, Failure>
    requires IsUser(t, me)
  {
    match UserNamed(t.users, username)
    case None => Err(UserNotFound)
    case Some(u) =>
      if u.id == me then Err(CannotFollowSelf)
      else Ok(t.(follows := Unfollowed(t.follows, me, u.id)))
  }

  /** The refusals of both routes: exactly an unknown username, and the actor's own name. */
  lemma FollowGuards(t: Tables, me: UserId, username: string)
    requires IsUser(t, me)
    ensures var f := FollowByName(t, me, username);
            var g := UnfollowByName(t, me, username);
            var u := UserNamed(t.users, username);
            (f == Err(UserNotFound) <==> u.None?) && (g == Err(UserNotFound) <==> u.None?)
            && (f == Err(CannotFollowSelf) <==> u.Some? && u.value.id == me)
            && (g == Err(CannotFollowSelf) <==> u.Some? && u.value.id == me)
            && (f.Ok? <==> g.Ok?)
  {
  }

  /** A successful follow leaves the actor following the target, keeps every other edge,
      never creates a self edge, and appends exactly one follow notification for the
      target, whether or not the edge existed. */
  lemma FollowByNameEffect(t: Tables, me: UserId, username: string)
    requires IsUser(t, me)
    requires FollowByName(t, me, username).Ok?
    ensures var t' := FollowByName(t, me, username).value;
            var u := UserNamed(t.users, username).value;
            u.username == username && u.id != me
            && Edge(me, u.id) in t'.follows
            && (forall e :: e != Edge(me, u.id) ==> (e in t'.follows <==> e in t.follows))
            && (forall e :: e in t'.follows && e.follower == e.followed ==> e in t.follows)
            && |t'.notifications| == |t.notifications| + 1
            && t'.notifications[..|t.notifications|] == t.notifications
            && var n := t'.notifications[|t.notifications|];
               n.recipient == u.id && n.kind == FollowNotice && n.relatedUser == Some(me)
               && n.project.None? && !n.read && n.message == Me(t, me).username + " started following you"
  {
  }

  /** A successful unfollow removes exactly the actor's edge to the target and never
      notifies. */
  lemma UnfollowByNameEffect(t: Tables, me: UserId, username: string)
    requires IsUser(t, me)
    requires UnfollowByName(t, me, username).Ok?
    ensures var t' := UnfollowByName(t, me, username).value;
            var u := UserNamed(t.users, username).value;
            Edge(me, u.id) !in t'.follows
            && (forall e :: e != Edge(me, u.id) ==> (e in t'.follows <==> e in t.follows))
            && t'.notifications == t.notifications
            && t' == t.(follows := t'.follows)
  {
  }

  /** Both routes keep the invariant, and a table with no self-follow row never gains one. */
  lemma FollowRoutesConsistent(t: Tables, me: UserId, username: string)
    requires Consistent(t) && IsUser(t, me)
    ensures FollowByName(t, me, username).Ok? ==> Consistent(FollowByName(t, me, username).value)
    ensures UnfollowByName(t, me, username).Ok? ==> Consistent(UnfollowByName(t, me, username).value)
    ensures NoSelfFollow(t.follows) && FollowByName(t, me, username).Ok? ==>
              NoSelfFollow(FollowByName(t, me, username).value.follows)
    ensures NoSelfFollow(t.follows) && UnfollowByName(t, me, username).Ok? ==>
              NoSelfFollow(UnfollowByName(t, me, username).value.follows)
  {
    if NoSelfFollow(t.follows) {
      FollowRoutesNoSelf(t, me, username);
    }
    if FollowByName(t, me, username).Ok? {
      var u := UserNamed(t.users, username).value;
      IsUserHasId(t, me);
      var t1 := t.(follows := Followed(t.follows, me, u.id));
      FollowsChangeConsistent(t, t1.follows);
      NotifiedConsistent(t1, u.id, FollowNotice, FollowMessage(Me(t, me).username), Some(me), None);
      FollowsChangeConsistent(t, Unfollowed(t.follows, me, u.id));
    }
  }

  lemma FollowRoutesNoSelf(t: Tables, me: UserId, username: string)
    requires IsUser(t, me) && NoSelfFollow(t.follows)
    ensures FollowByName(t, me, username).Ok? ==> NoSelfFollow(FollowByName(t, me, username).value.follows)
    ensures UnfollowByName(t, me, username).Ok? ==> NoSelfFollow(UnfollowByName(t, me, username).value.follows)
  {
    if FollowByName(t, me, username).Ok? {
      var u := UserNamed(t.users, username).value;
      var fs := Followed(t.follows, me, u.id);
      assert FollowByName(t, me, username).value.follows == fs;
      forall i | 0 <= i < |fs| ensures fs[i].follower != fs[i].followed {
        if fs[i] != Edge(me, u.id) {
          assert fs[i] in fs;
          var k :| 0 <= k < |t.follows| && t.follows[k] == fs[i];
        }
      }
      var gs := Unfollowed(t.follows, me, u.id);
      assert UnfollowByName(t, me, username).value.follows == gs;
      forall i | 0 <= i < |gs| ensures gs[i].follower != gs[i].followed {
        assert gs[i] in gs;
        var k :| 0 <= k < |t.follows| && t.follows[k] == gs[i];
      }
    }
  }

  /** The `follow` route on the store. */
  method FollowUser(s: Store, me: UserId, username: string) returns (r: Option<Failure>)
    requires s.Valid() && IsUser(s.State(), me)
    modifies s
    ensures s.Valid()
    ensures match FollowByName(old(s.State()), me, username)
            case Ok(t') => r.None? && s.State() == t'
            case Err(f) => r == Some(f) && s.State() == old(s.State())
  {
    var target := UserNamed(s.users, username);
    if target.None? {
      return Some(UserNotFound);
    }
    var u := target.value;
    if u.id == me {
      return Some(CannotFollowSelf);
    }
    var actor := Me(s.State(), me);
    IsUserHasId(s.State(), me);
    s.Follow(me, u.id);
    var message := actor.username + " started following you";
    CreateNotification(s, u.id, FollowNotice, message, Some(me), None);
    r := None;
  }

  /** The `unfollow` route on the store. */
  method UnfollowUser(s: Store, me: UserId, username: string) returns (r: Option<Failure>)
    requires s.Valid() && IsUser(s.State(), me)
    modifies s
    ensures s.Valid()
    ensures match UnfollowByName(old(s.State()), me, username)
            case Ok(t') => r.None? && s.State() == t'
            case Err(f) => r == Some(f) && s.State() == old(s.State())
  {
    var target := UserNamed(s.users, username);
    if target.None? {
      return Some(UserNotFound);
    }
    var u := target.value;
    if u.id == me {
      return Some(CannotFollowSelf);
    }
    s.Unfollow(me, u.id);
    r := None;
  }

  // ---------------------------------------------------------------------------------------
  // notifications

  const NotificationsPerPage: nat := 20

  /** The `notifications` view: the page of the viewer's notifications, newest first, and the
      tables after all of the viewer's notifications are marked read. The page is read from
      the marked tables, as the committed rows are what the page shows. */
  function NotificationsView(t: Tables, me: UserId, page: int): (seq<Notification>, Tables) {
    var t' := t.(notifications := MarkedRead(t.notifications, me));
    (Page(Reverse(NotificationsOf(t'.notifications, me)), page, NotificationsPerPage), t')
  }

  /** After the view the viewer has no unread notification, other users' notifications are
      unchanged, nothing but the notifications changed, and the invariant holds. */
  lemma NotificationsViewMarks(t: Tables, me: UserId, page: int)
    requires Consistent(t)
    ensures var t' := NotificationsView(t, me, page).1;
            UnreadCount(t'.notifications, me) == 0
            && (forall v :: v != me ==> NotificationsOf(t'.notifications, v) == NotificationsOf(t.notifications, v))
            && Consistent(t')
            && t' == t.(notifications := t'.notifications)
  {
    var t' := NotificationsView(t, me, page).1;
    MarkedReadOwn(t.notifications, me);
    forall v | v != me ensures NotificationsOf(t'.notifications, v) == NotificationsOf(t.notifications, v) {
      MarkedReadOthers(t.notifications, me, v);
    }
    MarkedReadConsistent(t, me);
  }

  /** A page of one user's notifications, newest first, from a table in stamp order where
      all of that user's notifications are read. */
  lemma NoticePage(ns: seq<Notification>, me: UserId, page: int)
    requires Increasing(ns, NoticeStamp)
    requires forall n :: n in ns && n.recipient == me ==> n.read
    ensures var all := Reverse(NotificationsOf(ns, me));
            var items := Page(all, page, NotificationsPerPage);
            (forall i :: 0 <= i < |items| ==> items[i] in ns && items[i].recipient == me && items[i].read)
            && Decreasing(items, NoticeStamp) && |items| <= NotificationsPerPage
            && (forall x :: x in all <==> x in ns && x.recipient == me)
            && (forall x :: x in all ==> OnSomePage(all, NotificationsPerPage, x))
  {
    var all := Reverse(NotificationsOf(ns, me));
    var items := Page(all, page, NotificationsPerPage);
    NewestIs(ns, AddressedTo(me), NoticeStamp);
    PagedResult(all, page, NotificationsPerPage, NoticeStamp);
    forall i | 0 <= i < |items| ensures items[i] in ns && items[i].recipient == me {
      assert items[i] in all;
    }
  }

  /** The page lists at most 20 notifications of the viewer, all read, newest first; the
      pages together hold every notification of the viewer and no other. */
  lemma NotificationsViewPage(t: Tables, me: UserId, page: int)
    requires Consistent(t)
    ensures var (items, t') := NotificationsView(t, me, page);
            (forall i :: 0 <= i < |items| ==> items[i] in t'.notifications && items[i].recipient == me && items[i].read)
            && Decreasing(items, NoticeStamp) && |items| <= NotificationsPerPage
    ensures var t' := NotificationsView(t, me, page).1;
            var all := Reverse(NotificationsOf(t'.notifications, me));
            (forall x :: x in all <==> x in t'.notifications && x.recipient == me)
            && (forall x :: x in all ==> OnSomePage(all, NotificationsPerPage, x))
  {
    var t' := NotificationsView(t, me, page).1;
    MarkedReadOwn(t.notifications, me);
    MarkedReadConsistent(t, me);
    assert NotificationsOrdered(t'.notifications, t'.clock);
    NoticePage(t'.notifications, me, page);
  }

  /** The `notifications` view on the store: the page, then the bulk update. */
  method ViewNotifications(s: Store, me: UserId, page: int) returns (items: seq<Notification>)
    requires s.Valid()
    modifies s
    ensures s.Valid()
    ensures (items, s.State()) == NotificationsView(old(s.State()), me, page)
  {
    s.MarkAllRead(me);
    items := Page(Reverse(NotificationsOf(s.notifications, me)), page, NotificationsPerPage);
  }

  // ---------------------------------------------------------------------------------------
  // project_detail, edit_project, delete_project, create_project

  /** The view guard of `project_detail`: a draft is shown only to its logged-in owner. */
  predicate CanView(p: Project, viewer: Option<UserId>) {
    p.published || (viewer.Some? && p.owner == viewer.value)
  }

  /** `project_detail`: the project and its comments, newest first. */
  function ProjectDetail(t: Tables, viewer: Option<UserId>, id: ProjectId): Result<(Project, seq<Comment>), Failure> {
    match ProjectIndex(t.projects, id)
    case None => Err(NotFound)
    case Some(i) =>
      var p := t.projects[i];
      if !p.published && (viewer.None? || p.owner != viewer.value) then Err(Forbidden)
      else Ok((p, Reverse(Filter(t.comments, CommentOn(id)))))
  }

  /** Anyone sees a published project, only its owner sees a draft. */
  lemma ProjectDetailGuards(t: Tables, viewer: Option<UserId>, id: ProjectId)
    ensures var r := ProjectDetail(t, viewer, id);
            var i := ProjectIndex(t.projects, id);
            (r == Err(NotFound) <==> i.None?)
            && (r == Err(Forbidden) <==> i.Some? && !CanView(t.projects[i.value], viewer))
            && (r.Ok? ==> r.value.0 == t.projects[i.value] && r.value.0.id == id && CanView(r.value.0, viewer))
  {
  }

  /** The page lists exactly the project's comments, newest first. */
  lemma ProjectDetailComments(t: Tables, viewer: Option<UserId>, id: ProjectId)
    requires Consistent(t)
    requires ProjectDetail(t, viewer, id).Ok?
    ensures var cs := ProjectDetail(t, viewer, id).value.1;
            Decreasing(cs, CommentStamp)
            && (forall k :: 0 <= k < |cs| ==> cs[k] in t.comments && cs[k].project == id)
            && (forall k :: 0 <= k < |t.comments| && t.comments[k].project == id ==> t.comments[k] in cs)
  {
    var cs := Reverse(Filter(t.comments, CommentOn(id)));
    assert ProjectDetail(t, viewer, id).value.1 == cs;
    assert Increasing(t.comments, CommentStamp);
    NewestFirst(t.comments, CommentOn(id), CommentStamp);
    forall k | 0 <= k < |cs| ensures cs[k].project == id {
      assert CommentOn(id)(cs[k]);
    }
  }

  /** An uploaded file: its original name and the token its stored name gets. */
  datatype Upload = Upload(filename: string, token: string)

  /** The fields of `ProjectForm` once it validated. */
  datatype ProjectForm = ProjectForm(
    title: string, description: string, content: string, category: string, tags: string,
    githubLink: string, demoLink: string, published: bool,
    image: Option<Upload>, video: Option<Upload>)

  /** A stored file path: `save_picture` of the upload when there is one, else `keep`. */
  function StoredPath(upload: Option<Upload>, folder: string, size: Option<(nat, nat)>, keep: string): string {
    match upload
    case Some(f) => SavePicture(folder, f.filename, f.token, size).path
    case None => keep
  }

  /** The form's columns assigned to project `p` (`create_project` and `edit_project`). */
  function WithForm(p: Project, f: ProjectForm): (r: Project)
    ensures r.id == p.id && r.owner == p.owner && r.created == p.created
    ensures r.title == f.title && r.description == f.description && r.tags == f.tags
            && r.published == f.published && r.content == f.content && r.category == f.category
            && r.githubLink == f.githubLink && r.demoLink == f.demoLink
    ensures f.image.None? ==> r.image == p.image
    ensures f.video.None? ==> r.video == p.video
  {
    p.(title := f.title, description := f.description, content := f.content,
       category := f.category, tags := f.tags, githubLink := f.githubLink,
       demoLink := f.demoLink, published := f.published,
       image := StoredPath(f.image, "project_images", Some((800, 600)), p.image),
       video := StoredPath(f.video, "project_videos", None, p.video))
  }

  /** `edit_project`: 404, 403 for anyone but the owner; when the form validated, the
      project's columns are assigned from it, otherwise nothing changes. */
  function EditProject(t: Tables, me: UserId, id: ProjectId, form: ProjectForm, formOk: bool): Result<Tables, Failure> {
    match ProjectIndex(t.projects, id)
    case None => Err(NotFound)
    case Some(i) =>
      var p := t.projects[i];
      if p.owner != me then Err(Forbidden)
      else if !formOk then Ok(t)
      else Ok(t.(projects := t.projects[i := WithForm(p, form)]))
  }

  /** Only the owner changes a project; an edit rewrites that row alone, keeping its id,
      owner and stamp, and keeps the invariant. */
  lemma EditProjectEffect(t: Tables, me: UserId, id: ProjectId, form: ProjectForm, formOk: bool)
    requires Consistent(t)
    ensures var r := EditProject(t, me, id, form, formOk);
            var i := ProjectIndex(t.projects, id);
            (r == Err(NotFound) <==> i.None?)
            && (r == Err(Forbidden) <==> i.Some? && t.projects[i.value].owner != me)
            && (r.Ok? ==>
                  var t' := r.value;
                  Consistent(t') && t' == t.(projects := t'.projects)
                  && |t'.projects| == |t.projects|
                  && (forall k :: 0 <= k < |t.projects| && k != i.value ==> t'.projects[k] == t.projects[k])
                  && (formOk ==> t'.projects[i.value] == WithForm(t.projects[i.value], form))
                  && (!formOk ==> t' == t))
  {
    var i := ProjectIndex(t.projects, id);
    if i.Some? && t.projects[i.value].owner == me && formOk {
      ProjectReplacedConsistent(t, i.value, WithForm(t.projects[i.value], form));
    }
  }

  /** `edit_project` on the store. */
  method EditProjectRoute(s: Store, me: UserId, id: ProjectId, form: ProjectForm, formOk: bool) returns (r: Option<Failure>)
    requires s.Valid()
    modifies s
    ensures s.Valid()
    ensures match EditProject(old(s.State()), me, id, form, formOk)
            case Ok(t') => r.None? && s.State() == t'
            case Err(f) => r == Some(f) && s.State() == old(s.State())
  {
    var i := ProjectIndex(s.projects, id);
    if i.None? {
      return Some(NotFound);
    }
    var p := s.projects[i.value];
    if p.owner != me {
      return Some(Forbidden);
    }
    if formOk {
      var q := p.(title := form.title, description := form.description, content := form.content,
                  category := form.category, tags := form.tags, githubLink := form.githubLink,
                  demoLink := form.demoLink, published := form.published);
      if form.image.Some? {
        q := q.(image := SavePicture("project_images", form.image.value.filename, form.image.value.token, Some((800, 600))).path);
      }
      if form.video.Some? {
        q := q.(video := SavePicture("project_videos", form.video.value.filename, form.video.value.token, None).path);
      }
      assert q == WithForm(p, form);
      s.UpdateProject(i.value, q);
    }
    r := None;
  }

  /** `delete_project`: 404, 403 for anyone but the owner, else the project and, by the
      cascade, its likes and comments are deleted. */
  function DeleteProject(t: Tables, me: UserId, id: ProjectId): Result<Tables, Failure> {
    match ProjectIndex(t.projects, id)
    case None => Err(NotFound)
    case Some(i) =>
      if t.projects[i].owner != me then Err(Forbidden)
      else Ok(WithoutProject(t, id))
  }

  /** Only the owner deletes; afterwards the project has no row, no like and no comment,
      every other row is kept, no row is added, and the invariant holds. */
  lemma DeleteProjectEffect(t: Tables, me: UserId, id: ProjectId)
    requires Consistent(t)
    ensures var r := DeleteProject(t, me, id);
            var i := ProjectIndex(t.projects, id);
            (r == Err(NotFound) <==> i.None?)
            && (r == Err(Forbidden) <==> i.Some? && t.projects[i.value].owner != me)
            && (r.Ok? ==>
                  var t' := r.value;
                  Consistent(t')
                  && id !in ProjectIds(t'.projects)
                  && LikeCount(t'.likes, id) == 0 && CommentCount(t'.comments, id) == 0
                  && (forall k :: 0 <= k < |t.projects| && t.projects[k].id != id ==> t.projects[k] in t'.projects)
                  && (forall k :: 0 <= k < |t.likes| && t.likes[k].project != id ==> t.likes[k] in t'.likes)
                  && (forall k :: 0 <= k < |t.comments| && t.comments[k].project != id ==> t.comments[k] in t'.comments)
                  && (forall x :: x in t'.projects ==> x in t.projects)
                  && (forall x :: x in t'.likes ==> x in t.likes)
                  && (forall x :: x in t'.comments ==> x in t.comments)
                  && t'.users == t.users && t'.follows == t.follows && t'.notifications == t.notifications)
  {
    if DeleteProject(t, me, id).Ok? {
      var t' := WithoutProject(t, id);
      WithoutProjectConsistent(t, id);
      FilterNone(t'.likes, OnProject(id));
      FilterNone(t'.comments, CommentOn(id));
      assert id !in ProjectIds(t'.projects);
    }
  }

  /** `delete_project` on the store. */
  method DeleteProjectRoute(s: Store, me: UserId, id: ProjectId) returns (r: Option<Failure>)
    requires s.Valid()
    modifies s
    ensures s.Valid()
    ensures match DeleteProject(old(s.State()), me, id)
            case Ok(t') => r.None? && s.State() == t'
            case Err(f) => r == Some(f) && s.State() == old(s.State())
  {
    var i := ProjectIndex(s.projects, id);
    if i.None? {
      return Some(NotFound);
    }
    if s.projects[i.value].owner != me {
      return Some(Forbidden);
    }
    s.DeleteProject(id);
    r := None;
  }

  /** `create_project`: a validated form becomes a new project of the actor with the next
      id; otherwise nothing changes. */
  function CreateProject(t: Tables, me: UserId, form: ProjectForm, formOk: bool): (Tables, Option<ProjectId>) {
    if !formOk then (t, None)
    else
      var blank := Project(t.nextProjectId, me, "", "", "", "", "", "", "", "", "", false, t.clock);
      (t.(projects := t.projects + [WithForm(blank, form)], nextProjectId := t.nextProjectId + 1,
          clock := t.clock + 1),
       Some(t.nextProjectId))
  }

  /** The new project belongs to the actor, has an id no project had, carries the form's
      columns, and is the only change; the invariant holds. */
  lemma CreateProjectEffect(t: Tables, me: UserId, form: ProjectForm, formOk: bool)
    requires Consistent(t) && IsUser(t, me)
    ensures var (t', id) := CreateProject(t, me, form, formOk);
            Consistent(t')
            && (id.None? <==> !formOk) && (!formOk ==> t' == t)
            && (id.Some? ==>
                  id.value !in ProjectIds(t.projects)
                  && |t'.projects| == |t.projects| + 1 && t'.projects[..|t.projects|] == t.projects
                  && (var p := t'.projects[|t.projects|];
                      p.id == id.value && p.owner == me && p.title == form.title
                      && p.published == form.published && p.tags == form.tags)
                  && t'.users == t.users && t'.likes == t.likes && t'.comments == t.comments
                  && t'.follows == t.follows && t'.notifications == t.notifications)
  {
    if formOk {
      var blank := Project(t.nextProjectId, me, "", "", "", "", "", "", "", "", "", false, t.clock);
      IsUserHasId(t, me);
      ProjectAddedConsistent(t, WithForm(blank, form));
      assert t.nextProjectId !in ProjectIds(t.projects);
    }
  }

  /** The row `create_project` builds, once stamped with id and time, is the form applied
      to a blank project. */
  lemma NewRowIsForm(p: Project, id: ProjectId, me: UserId, created: nat, form: ProjectForm)
    requires p.owner == me && p.title == form.title && p.description == form.description
             && p.content == form.content && p.githubLink == form.githubLink && p.demoLink == form.demoLink
             && p.tags == form.tags && p.category == form.category && p.published == form.published
    requires p.image == StoredPath(form.image, "project_images", Some((800, 600)), "")
    requires p.video == StoredPath(form.video, "project_videos", None, "")
    ensures p.(id := id, created := created)
            == WithForm(Project(id, me, "", "", "", "", "", "", "", "", "", false, created), form)
  {
  }

  /** The path `create_project` stores for an optional upload: the saved file, or empty. */
  method SaveUpload(upload: Option<Upload>, folder: string, size: Option<(nat, nat)>) returns (path: string)
    ensures upload.None? ==> path == []
    ensures upload.Some? ==> path == SavePicture(folder, upload.value.filename, upload.value.token, size).path
  {
    path := "";
    if upload.Some? {
      path := SavePicture(folder, upload.value.filename, upload.value.token, size).path;
    }
  }

  /** `create_project` on the store. */
  method CreateProjectRoute(s: Store, me: UserId, form: ProjectForm, formOk: bool) returns (id: Option<ProjectId>)
    requires s.Valid() && IsUser(s.State(), me)
    modifies s
    ensures s.Valid()
    ensures s.State() == CreateProject(old(s.State()), me, form, formOk).0
    ensures id == CreateProject(old(s.State()), me, form, formOk).1
  {
    if !formOk {
      return None;
    }
    var image := SaveUpload(form.image, "project_images", Some((800, 600)));
    var video := SaveUpload(form.video, "project_videos", None);
    var p := Project(0, me, form.title, form.description, form.content, image, video, form.githubLink,
                     form.demoLink, form.tags, form.category, form.published, 0);
    IsUserHasId(s.State(), me);
    NewRowIsForm(p, s.nextProjectId, me, s.clock, form);
    var k := s.InsertProject(p);
    id := Some(k);
  }

  // ---------------------------------------------------------------------------------------
  // edit_profile

  /** The fields of `EditProfileForm` once it validated. */
  datatype ProfileForm = ProfileForm(
    username: string, email: string, firstName: string, lastName: string, bio: string,
    location: string, website: string, githubUsername: string, linkedinProfile: string,
    image: Option<Upload>)

  /** The form's columns assigned to user `u`; the picture is replaced only when one was
      uploaded, stored under `profile_pics` and resized to 300 by 300. */
  function WithProfile(u: User, f: ProfileForm): (r: User)
    ensures r.id == u.id && r.passwordHash == u.passwordHash
    ensures r.username == f.username && r.email == f.email && r.firstName == f.firstName
            && r.lastName == f.lastName && r.bio == f.bio && r.location == f.location
            && r.website == f.website && r.githubUsername == f.githubUsername
            && r.linkedinProfile == f.linkedinProfile
    ensures f.image.None? ==> r.profileImage == u.profileImage
  {
    u.(username := f.username, email := f.email, firstName := f.firstName, lastName := f.lastName,
       bio := f.bio, location := f.location, website := f.website,
       githubUsername := f.githubUsername, linkedinProfile := f.linkedinProfile,
       profileImage := StoredPath(f.image, "profile_pics", Some((300, 300)), u.profileImage))
  }

  /** `edit_profile`: a changed username that some user has is refused, then a changed email
      that some user has; otherwise the logged-in user's row takes the form's columns. A form
      that did not validate changes nothing. */
  function EditProfile(t: Tables, me: UserId, form: ProfileForm, formOk: bool): Result<Tables, Failure>
    requires IsUser(t, me)
  {
    var i := UserIndex(t.users, me).value;
    var u := t.users[i];
    if !formOk then Ok(t)
    else if form.username != u.username && UserNamed(t.users, form.username).Some? then Err(UsernameInUse)
    else if form.email != u.email && EmailTaken(t.users, form.email) then Err(EmailInUse)
    else Ok(t.(users := t.users[i := WithProfile(u, form)]))
  }

  /** The two refusals happen exactly when a changed username or email belongs to some user
      (the username checked first); an unchanged one is not looked up. */
  lemma EditProfileGuards(t: Tables, me: UserId, form: ProfileForm, formOk: bool)
    requires IsUser(t, me)
    ensures var u := Me(t, me);
            var r := EditProfile(t, me, form, formOk);
            var nameClash := form.username != u.username && exists j :: 0 <= j < |t.users| && t.users[j].username == form.username;
            var mailClash := form.email != u.email && exists j :: 0 <= j < |t.users| && t.users[j].email == form.email;
            (r == Err(UsernameInUse) <==> formOk && nameClash)
            && (r == Err(EmailInUse) <==> formOk && !nameClash && mailClash)
            && (r.Err? ==> r == Err(UsernameInUse) || r == Err(EmailInUse))
  {
    var u := Me(t, me);
    if exists j :: 0 <= j < |t.users| && t.users[j].username == form.username {
      var j :| 0 <= j < |t.users| && t.users[j].username == form.username;
      assert UserNamed(t.users, form.username).Some?;
    }
  }

  /** An accepted edit rewrites only the logged-in user's row, keeping its id and password
      hash; the new username and email belong to no other user, so the invariant holds. */
  lemma EditProfileEffect(t: Tables, me: UserId, form: ProfileForm, formOk: bool)
    requires Consistent(t) && IsUser(t, me)
    ensures var i := UserIndex(t.users, me).value;
            var r := EditProfile(t, me, form, formOk);
            r.Ok? ==>
              var t' := r.value;
              Consistent(t') && t' == t.(users := t'.users)
              && (!formOk ==> t' == t)
              && (formOk ==> t'.users == t.users[i := WithProfile(t.users[i], form)])
              && (forall j :: 0 <= j < |t'.users| && j != i ==>
                    t'.users[j].username != t'.users[i].username && t'.users[j].email != t'.users[i].email)
  {
    var i := UserIndex(t.users, me).value;
    var u := t.users[i];
    var r := EditProfile(t, me, form, formOk);
    if formOk && r.Ok? {
      var v := WithProfile(u, form);
      forall j | 0 <= j < |t.users| && j != i
        ensures t.users[j].username != v.username && t.users[j].email != v.email
      {
        if form.username == u.username {
          assert UniqueNames(t.users);
        }
        if form.email == u.email {
          assert UniqueNames(t.users);
        }
      }
      UserReplacedConsistent(t, i, v);
    }
  }

  /** `edit_profile` on the store: the checks, then the columns assigned one by one. */
  method EditProfileRoute(s: Store, me: UserId, form: ProfileForm, formOk: bool) returns (r: Option<Failure>)
    requires s.Valid() && IsUser(s.State(), me)
    modifies s
    ensures s.Valid()
    ensures match EditProfile(old(s.State()), me, form, formOk)
            case Ok(t') => r.None? && s.State() == t'
            case Err(f) => r == Some(f) && s.State() == old(s.State())
  {
    if !formOk {
      return None;
    }
    var i := UserIndex(s.users, me).value;
    var u := s.users[i];
    if form.username != u.username && UserNamed(s.users, form.username).Some? {
      return Some(UsernameInUse);
    }
    if form.email != u.email && EmailTaken(s.users, form.email) {
      return Some(EmailInUse);
    }
    var v := u.(username := form.username, email := form.email, firstName := form.firstName,
                lastName := form.lastName, bio := form.bio, location := form.location,
                website := form.website, githubUsername := form.githubUsername,
                linkedinProfile := form.linkedinProfile);
    if form.image.Some? {
      v := v.(profileImage := SavePicture("profile_pics", form.image.value.filename, form.image.value.token, Some((300, 300))).path);
    }
    assert v == WithProfile(u, form);
    EditProfileEffect(s.State(), me, form, formOk);
    s.UpdateUser(i, v);
    r := None;
  }

  // ---------------------------------------------------------------------------------------
  // register

  /** The fields of `RegistrationForm` once its field validators passed. */
  datatype RegistrationForm = RegistrationForm(
    username: string, email: string, firstName: string, lastName: string, password: string)

  /** `register`: an authenticated session is sent away; the form is refused when its own
      validators failed or the username or email is registered (`validate_username`,
      `validate_email`); otherwise a user with the next id is added, holding the hash of the
      password. `hash` stands for `generate_password_hash`. */
  function Register(t: Tables, session: Option<UserId>, form: RegistrationForm, formOk: bool,
                    hash: string -> string): Result<(Tables, UserId), Failure> {
    var nameTaken := UserNamed(t.users, form.username).Some?;
    var mailTaken := EmailTaken(t.users, form.email);
    if session.Some? then Err(AlreadySignedIn)
    else if !formOk || nameTaken || mailTaken then Err(RegistrationRejected(nameTaken, mailTaken))
    else
      var u := User(t.nextUserId, form.username, form.email, hash(form.password), form.firstName,
                    form.lastName, "", "", "", "", "", "");
      Ok((t.(users := t.users + [u], nextUserId := t.nextUserId + 1), t.nextUserId))
  }

  /** A registration succeeds exactly for a signed-out session with a valid form whose
      username and email nobody has; the new row carries them and the password's hash, and
      the invariant holds. */
  lemma RegisterEffect(t: Tables, session: Option<UserId>, form: RegistrationForm, formOk: bool,
                       hash: string -> string)
    requires Consistent(t)
    ensures var r := Register(t, session, form, formOk, hash);
            var free := forall j :: 0 <= j < |t.users| ==>
                          t.users[j].username != form.username && t.users[j].email != form.email;
            (r.Ok? <==> session.None? && formOk && free)
            && (session.Some? ==> r == Err(AlreadySignedIn))
            && (r.Err? && session.None? ==>
                  r.error.RegistrationRejected?
                  && (r.error.usernameTaken <==> exists j :: 0 <= j < |t.users| && t.users[j].username == form.username)
                  && (r.error.emailTaken <==> exists j :: 0 <= j < |t.users| && t.users[j].email == form.email))
            && (r.Ok? ==>
                  var (t', id) := r.value;
                  Consistent(t') && id !in UserIds(t.users)
                  && t' == t.(users := t'.users, nextUserId := t'.nextUserId)
                  && t'.users[..|t.users|] == t.users && |t'.users| == |t.users| + 1
                  && var u := t'.users[|t.users|];
                     u.id == id && u.username == form.username && u.email == form.email
                     && u.passwordHash == hash(form.password))
  {
    if exists j :: 0 <= j < |t.users| && t.users[j].username == form.username {
      var j :| 0 <= j < |t.users| && t.users[j].username == form.username;
      assert UserNamed(t.users, form.username).Some?;
    }
    var r := Register(t, session, form, formOk, hash);
    if r.Ok? {
      var u := User(t.nextUserId, form.username, form.email, hash(form.password), form.firstName,
                    form.lastName, "", "", "", "", "", "");
      UserAddedConsistent(t, u);
      assert t.nextUserId !in UserIds(t.users);
    }
  }

  /** `register` on the store. */
  method RegisterRoute(s: Store, session: Option<UserId>, form: RegistrationForm, formOk: bool,
                       hash: string -> string) returns (r: Result<UserId, Failure>)
    requires s.Valid()
    modifies s
    ensures s.Valid()
    ensures match Register(old(s.State()), session, form, formOk, hash)
            case Ok(res) => r == Ok(res.1) && s.State() == res.0
            case Err(f) => r == Err(f) && s.State() == old(s.State())
  {
    if session.Some? {
      return Err(AlreadySignedIn);
    }
    var nameTaken := UserNamed(s.users, form.username).Some?;
    var mailTaken := EmailTaken(s.users, form.email);
    if !formOk || nameTaken || mailTaken {
      return Err(RegistrationRejected(nameTaken, mailTaken));
    }
    var u := User(0, form.username, form.email, hash(form.password), form.firstName,
                  form.lastName, "", "", "", "", "", "");
    var id := s.InsertUser(u);
    r := Ok(id);
  }

  // ---------------------------------------------------------------------------------------
  // index, profile, feed and search: filter, newest first, paginate

  const IndexPerPage: nat := 12
  const ProfilePerPage: nat := 9
  const FeedPerPage: nat := 10
  const SearchPerPage: nat := 12
  const SearchUserLimit: nat := 10

  function IsPublished(): Project -> bool { (p: Project) => p.published }
  function InFeed(ids: seq<UserId>): Project -> bool { (p: Project) => p.published && p.owner in ids }

  /** `Project.title.contains(q) | description.contains(q) | tags.contains(q)` on a published
      project. */
  function MatchesQuery(q: string): Project -> bool {
    (p: Project) => p.published && (Contains(p.title, q) || Contains(p.description, q) || Contains(p.tags, q))
  }

  /** `User.username.contains(q) | first_name.contains(q) | last_name.contains(q)`. */
  function UserMatches(q: string): User -> bool {
    (u: User) => Contains(u.username, q) || Contains(u.firstName, q) || Contains(u.lastName, q)
  }

  /** The projects satisfying `f`, ordered by `created_at` descending. */
  function Newest(projects: seq<Project>, f: Project -> bool): seq<Project> {
    Reverse(Filter(projects, f))
  }

  /** `index`: the published projects, newest first, 12 per page. */
  function IndexResults(t: Tables): seq<Project> {
    Newest(t.projects, IsPublished())
  }

  function IndexPage(t: Tables, page: int): seq<Project> {
    Page(IndexResults(t), page, IndexPerPage)
  }

  /** The index lists exactly the published projects, newest first; a page holds at most 12
      of them in that order, and each of them is on some page. */
  lemma IndexIs(t: Tables, page: int)
    requires Consistent(t)
    ensures var all := IndexResults(t);
            Decreasing(all, ProjectStamp)
            && (forall x :: x in all <==> x in t.projects && x.published)
            && (forall x :: x in all ==> OnSomePage(all, IndexPerPage, x))
    ensures var r := IndexPage(t, page);
            Decreasing(r, ProjectStamp) && |r| <= IndexPerPage
            && forall i :: 0 <= i < |r| ==> r[i] in IndexResults(t)
  {
    NewestIs(t.projects, IsPublished(), ProjectStamp);
    PagedResult(IndexResults(t), page, IndexPerPage, ProjectStamp);
  }

  /** `profile`: the published projects of user `u`, newest first, 9 per page. */
  function ProfileResults(t: Tables, u: UserId): seq<Project> {
    Newest(t.projects, PublishedBy(u))
  }

  /** `profile`: 404 for an unknown username, else that user and a page of their projects. */
  function ProfilePage(t: Tables, username: string, page: int): Result<(User, seq<Project>), Failure> {
    match UserNamed(t.users, username)
    case None => Err(NotFound)
    case Some(u) => Ok((u, Page(ProfileResults(t, u.id), page, ProfilePerPage)))
  }

  /** The profile of an unknown username is a 404; otherwise it is that user's, and lists
      exactly their published projects, newest first, at most 9 per page. */
  lemma ProfileIs(t: Tables, username: string, page: int)
    requires Consistent(t)
    ensures var r := ProfilePage(t, username, page);
            (r.Err? <==> forall j :: 0 <= j < |t.users| ==> t.users[j].username != username)
            && (r.Ok? ==>
                  var (u, ps) := r.value;
                  var all := ProfileResults(t, u.id);
                  u in t.users && u.username == username
                  && Decreasing(all, ProjectStamp)
                  && (forall x :: x in all <==> x in t.projects && x.owner == u.id && x.published)
                  && (forall x :: x in all ==> OnSomePage(all, ProfilePerPage, x))
                  && Decreasing(ps, ProjectStamp) && |ps| <= ProfilePerPage
                  && (forall i :: 0 <= i < |ps| ==> ps[i] in all))
  {
    match UserNamed(t.users, username)
    case None =>
    case Some(u) =>
      NewestIs(t.projects, PublishedBy(u.id), ProjectStamp);
      PagedResult(ProfileResults(t, u.id), page, ProfilePerPage, ProjectStamp);
  }

  /** `get_project_count` counts what the profile lists over all its pages: one row per
      distinct id among the user's published projects. */
  lemma ProjectCountIsProfileSize(t: Tables, u: UserId)
    requires Consistent(t)
    ensures PublishedCount(t.projects, u) == |ProfileResults(t, u)|
    ensures PublishedCount(t.projects, u) == |Image(t.projects, PublishedBy(u), ProjectKey)|
  {
    assert Distinct(t.projects) by {
      forall i, j | 0 <= i < j < |t.projects| ensures t.projects[i] != t.projects[j] {
        assert ProjectKey(t.projects[i]) < ProjectKey(t.projects[j]);
      }
    }
    FilterImageSize(t.projects, PublishedBy(u), ProjectKey);
  }

  /** The ids whose projects the feed shows: the users `me` follows, then `me`. */
  function FeedIds(t: Tables, me: UserId): seq<UserId> {
    Map(EdgesFrom(t.follows, me), EdgeFollowed) + [me]
  }

  lemma {:induction false} FeedIdsAre(t: Tables, me: UserId, x: UserId)
    ensures x in FeedIds(t, me) <==> x == me || Edge(me, x) in t.follows
  {
    var es := EdgesFrom(t.follows, me);
    var ids := Map(es, EdgeFollowed);
    if Edge(me, x) in t.follows {
      var k :| 0 <= k < |t.follows| && t.follows[k] == Edge(me, x);
      assert FollowerIs(me)(t.follows[k]);
      var j :| 0 <= j < |es| && es[j] == Edge(me, x);
      assert ids[j] == x;
    }
    if x in ids {
      var j :| 0 <= j < |ids| && ids[j] == x;
      assert es[j] in t.follows && FollowerIs(me)(es[j]);
      assert es[j] == Edge(me, x);
    }
  }

  /** `feed`: the published projects of `me` and of the users `me` follows, newest first,
      10 per page. */
  function FeedResults(t: Tables, me: UserId): seq<Project> {
    Newest(t.projects, InFeed(FeedIds(t, me)))
  }

  function FeedPage(t: Tables, me: UserId, page: int): seq<Project> {
    Page(FeedResults(t, me), page, FeedPerPage)
  }

  /** The feed lists exactly the published projects whose owner is `me` or followed by
      `me`, newest first. */
  lemma FeedIs(t: Tables, me: UserId)
    requires Consistent(t)
    ensures var all := FeedResults(t, me);
            Decreasing(all, ProjectStamp)
            && forall x :: x in all <==> x in t.projects && x.published && (x.owner == me || Edge(me, x.owner) in t.follows)
  {
    var all := FeedResults(t, me);
    NewestIs(t.projects, InFeed(FeedIds(t, me)), ProjectStamp);
    forall x ensures x in all <==> x in t.projects && x.published && (x.owner == me || Edge(me, x.owner) in t.follows) {
      FeedIdsAre(t, me, x.owner);
    }
  }

  /** A feed page holds at most 10 feed projects, newest first, and every feed project is on
      some page. */
  lemma FeedPageIs(t: Tables, me: UserId, page: int)
    requires Consistent(t)
    ensures var r := FeedPage(t, me, page);
            Decreasing(r, ProjectStamp) && |r| <= FeedPerPage
            && forall i :: 0 <= i < |r| ==> r[i] in FeedResults(t, me)
    ensures forall x :: x in FeedResults(t, me) ==> OnSomePage(FeedResults(t, me), FeedPerPage, x)
  {
    FeedIs(t, me);
    PagedResult(FeedResults(t, me), page, FeedPerPage, ProjectStamp);
  }

  /** The projects a non-empty search lists: published, with the query in the title, the
      description or the tags, newest first. */
  function SearchResults(t: Tables, q: string): seq<Project> {
    Newest(t.projects, MatchesQuery(q))
  }

  /** `search`: an empty query gives no project result and no users; otherwise a page of the
      matching projects, 12 per page, and the first ten matching users in table order. */
  function Search(t: Tables, q: string, page: int): (Option<seq<Project>>, seq<User>) {
    if q == [] then (None, [])
    else (Some(Page(SearchResults(t, q), page, SearchPerPage)),
          Take(Filter(t.users, UserMatches(q)), SearchUserLimit))
  }

  /** An empty query finds nothing; otherwise the project result is a page of exactly the
      matching published projects, newest first. */
  lemma SearchProjectsAre(t: Tables, q: string, page: int)
    requires Consistent(t)
    ensures q == [] <==> Search(t, q, page).0.None?
    ensures q == [] ==> Search(t, q, page).1 == []
    ensures var all := SearchResults(t, q);
            Decreasing(all, ProjectStamp)
            && (forall x :: x in all <==>
                  x in t.projects && x.published
                  && (Contains(x.title, q) || Contains(x.description, q) || Contains(x.tags, q)))
            && (forall x :: x in all ==> OnSomePage(all, SearchPerPage, x))
    ensures q != [] ==>
              var r := Search(t, q, page).0.value;
              Decreasing(r, ProjectStamp) && |r| <= SearchPerPage
              && forall i :: 0 <= i < |r| ==> r[i] in SearchResults(t, q)
  {
    NewestIs(t.projects, MatchesQuery(q), ProjectStamp);
    PagedResult(SearchResults(t, q), page, SearchPerPage, ProjectStamp);
  }

  /** The user result of a search has at most ten users, all matching, in table order; when
      at most ten match it lists all of them. */
  lemma SearchUsersAre(t: Tables, q: string, page: int)
    requires Consistent(t) && q != []
    ensures var us := Search(t, q, page).1;
            |us| <= SearchUserLimit
            && (forall i :: 0 <= i < |us| ==>
                  us[i] in t.users
                  && (Contains(us[i].username, q) || Contains(us[i].firstName, q) || Contains(us[i].lastName, q)))
            && Increasing(us, UserKey)
            && (|Filter(t.users, UserMatches(q))| <= SearchUserLimit ==>
                  forall j :: 0 <= j < |t.users| && UserMatches(q)(t.users[j]) ==> t.users[j] in us)
  {
    var us := Search(t, q, page).1;
    var all := Filter(t.users, UserMatches(q));
    forall i | 0 <= i < |us| ensures us[i] in t.users && UserMatches(q)(us[i]) {
      assert us[i] == all[i];
    }
    FilterIncreasing(t.users, UserMatches(q), UserKey);
    forall i, j | 0 <= i < j < |us| ensures UserKey(us[i]) < UserKey(us[j]) {
      assert us[i] == all[i] && us[j] == all[j];
    }
    if |all| <= SearchUserLimit {
      assert us == all;
    }
  }
}

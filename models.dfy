/** The entities of the portfolio app, the pure helpers on them, and the store that holds
    their tables (models.py). */
module Models {
  import opened Wrappers
  import opened Seqs
  import opened Text

  type UserId = nat
  type ProjectId = nat

  /** A user row. Nullable text columns hold "" for NULL: both are false in the source's
      `if` tests and no modelled query tells them apart. */
  datatype User = User(
    id: UserId, username: string, email: string, passwordHash: string,
    firstName: string, lastName: string, bio: string, location: string, website: string,
    githubUsername: string, linkedinProfile: string, profileImage: string)

  /** A project row; `created` is the creation stamp (an abstract clock reading). */
  datatype Project = Project(
    id: ProjectId, owner: UserId, title: string, description: string, content: string,
    image: string, video: string, githubLink: string, demoLink: string, tags: string,
    category: string, published: bool, created: nat)

  /** A row of the `follows` association table: `follower` follows `followed`. */
  datatype Edge = Edge(follower: UserId, followed: UserId)

  /** A like row; the table's unique constraint is on the pair (user, project). */
  datatype Like = Like(user: UserId, project: ProjectId)

  datatype Comment = Comment(content: string, author: UserId, project: ProjectId, created: nat)

  /** The `type` column of a notification. */
  datatype NoticeKind = LikeNotice | CommentNotice | FollowNotice

  datatype Notification = Notification(
    recipient: UserId, kind: NoticeKind, message: string, read: bool,
    relatedUser: Option<UserId>, project: Option<ProjectId>, created: nat)

  /** The whole database: every table as its rows in insertion order, the clock that
      stamps new rows and the next autoincrement ids. */
  datatype Tables = Tables(
    users: seq<User>, projects: seq<Project>, follows: seq<Edge>, likes: seq<Like>,
    comments: seq<Comment>, notifications: seq<Notification>,
    clock: nat, nextUserId: UserId, nextProjectId: ProjectId)

  // ---------------------------------------------------------------------------------------
  // Pure helpers on users and projects

  /** `User.get_full_name`: "first last" when both names are set, else the username. */
  function FullName(u: User): (r: string)
    ensures u.username != [] ==> r != []
  {
    if u.firstName != [] && u.lastName != [] then u.firstName + " " + u.lastName else u.username
  }

  /** `User.display_name`: its own copy of the same two branches. */
  function DisplayName(u: User): string {
    if u.firstName != [] && u.lastName != [] then u.firstName + " " + u.lastName else u.username
  }

  /** The two name helpers agree, and the name has the two described shapes. */
  lemma DisplayNameShape(u: User)
    ensures DisplayName(u) == FullName(u)
    ensures u.firstName != [] && u.lastName != [] ==>
              var r := DisplayName(u);
              |r| == |u.firstName| + 1 + |u.lastName| && r[..|u.firstName|] == u.firstName
              && r[|u.firstName|] == ' ' && r[|u.firstName| + 1..] == u.lastName
    ensures (u.firstName == [] || u.lastName == []) ==> DisplayName(u) == u.username
  {
  }

  /** A tag as `get_tags_list` returns it: non-empty, no comma, no white space at its ends. */
  predicate IsCleanTag(t: string) {
    t != [] && !IsPythonSpace(t[0]) && !IsPythonSpace(t[|t| - 1]) && ',' !in t
  }

  lemma StrippedPieceIsClean(piece: string)
    requires ',' !in piece && Strip(piece) != []
    ensures IsCleanTag(Strip(piece))
  {
    TrimKeepsAbsent(piece, IsPythonSpace, ',');
  }

  /** The stripped pieces that are not empty, in order. */
  function CleanTags(pieces: seq<string>): (r: seq<string>)
    ensures |r| <= |pieces|
  {
    if pieces == [] then []
    else
      var t := Strip(pieces[0]);
      (if t == [] then [] else [t]) + CleanTags(pieces[1..])
  }

  /** `Project.get_tags_list`: the comma-separated tags, each stripped, empty ones dropped. */
  function TagsList(tags: string): (r: seq<string>)
    ensures tags == [] ==> r == []
  {
    if tags == [] then [] else CleanTags(Split(tags, ','))
  }

  lemma {:induction false} CleanTagsAreClean(pieces: seq<string>)
    requires forall i :: 0 <= i < |pieces| ==> ',' !in pieces[i]
    ensures forall i :: 0 <= i < |CleanTags(pieces)| ==> IsCleanTag(CleanTags(pieces)[i])
  {
    if pieces != [] {
      CleanTagsAreClean(pieces[1..]);
      if Strip(pieces[0]) != [] {
        StrippedPieceIsClean(pieces[0]);
      }
    }
  }

  /** Every tag is non-empty, holds no comma and has no white space at its ends. */
  lemma TagsListAreClean(tags: string)
    ensures forall i :: 0 <= i < |TagsList(tags)| ==> IsCleanTag(TagsList(tags)[i])
  {
    if tags != [] {
      CleanTagsAreClean(Split(tags, ','));
    }
  }

  lemma {:induction false} CleanTagsKeeps(ts: seq<string>)
    requires forall i :: 0 <= i < |ts| ==> IsCleanTag(ts[i])
    ensures CleanTags(ts) == ts
  {
    if ts != [] {
      StripClean(ts[0]);
      CleanTagsKeeps(ts[1..]);
      assert CleanTags(ts) == [ts[0]] + CleanTags(ts[1..]);
      assert [ts[0]] + ts[1..] == ts;
    }
  }

  /** Stripping a clean tag leaves it as it is. */
  lemma StripClean(t: string)
    requires IsCleanTag(t)
    ensures Strip(t) == t
  {
    TrimPadded([], t, IsPythonSpace);
    assert [] + t == t;
  }

  /** Clean tags written back comma-separated are read back unchanged and in order. */
  lemma TagsListRoundTrip(ts: seq<string>)
    requires forall i :: 0 <= i < |ts| ==> IsCleanTag(ts[i])
    ensures TagsList(Join(ts, ",")) == ts
  {
    if ts != [] {
      var s := Join(ts, ",");
      assert s != [] by {
        if |ts| > 1 { assert s == ts[0] + "," + Join(ts[1..], ","); }
      }
      SplitJoin(ts, ',');
      CleanTagsKeeps(ts);
    }
  }

  /** Cleaning works piece by piece: the tags of a concatenation are the concatenated tags. */
  lemma {:induction false} CleanTagsConcat(a: seq<string>, b: seq<string>)
    ensures CleanTags(a + b) == CleanTags(a) + CleanTags(b)
  {
    if a == [] {
      assert a + b == b;
    } else {
      var t := Strip(a[0]);
      var h: seq<string> := if t == [] then [] else [t];
      assert (a + b)[0] == a[0];
      assert (a + b)[1..] == a[1..] + b;
      assert CleanTags(a + b) == h + CleanTags(a[1..] + b);
      assert CleanTags(a) == h + CleanTags(a[1..]);
      CleanTagsConcat(a[1..], b);
      ConcatAssoc(h, CleanTags(a[1..]), CleanTags(b));
    }
  }

  /** Cleaning works from the front: the first piece, stripped, unless it is blank. */
  lemma CleanTagsCons(x: string, rest: seq<string>)
    ensures CleanTags([x] + rest) == (if Strip(x) == [] then [] else [Strip(x)]) + CleanTags(rest)
  {
    assert ([x] + rest)[0] == x;
    assert ([x] + rest)[1..] == rest;
  }

  /** The pieces of `a,m,,c` for pieces without commas. */
  lemma SplitFourPieces(a: string, m: string, c: string)
    requires ',' !in a && ',' !in m && ',' !in c
    ensures Split(a + [','] + (m + [','] + ([] + [','] + c)), ',') == [a] + ([m] + ([[]] + [c]))
  {
    var e: string := [];
    SplitNoSep(c, ',');
    SplitAfterPiece(e, c, ',');
    SplitAfterPiece(m, e + [','] + c, ',');
    SplitAfterPiece(a, m + [','] + (e + [','] + c), ',');
  }

  /** Cleaning four pieces of which the first and last are clean and the third empty. */
  lemma CleanFourPieces(a: string, m: string, c: string)
    requires IsCleanTag(a) && IsCleanTag(c)
    ensures CleanTags([a] + ([m] + ([[]] + [c]))) == [a] + (CleanTags([m]) + [c])
  {
    var e: string := [];
    CleanTagsCons(c, []);
    assert [c] + [] == [c];
    StripClean(c);
    CleanTagsCons(e, [c]);
    CleanTagsConcat([m], [e] + [c]);
    CleanTagsCons(a, [m] + ([e] + [c]));
    StripClean(a);
  }

  /** A clean tag with white space around it holds no comma. */
  lemma PaddedTagNoComma(p: string, b: string, q: string)
    requires IsCleanTag(b)
    requires forall i :: 0 <= i < |p| ==> IsPythonSpace(p[i])
    requires forall i :: 0 <= i < |q| ==> IsPythonSpace(q[i])
    ensures ',' !in p + b + q
  {
    var m := p + b + q;
    forall i | 0 <= i < |m| ensures m[i] != ',' {
      if i < |p| {
        assert m[i] == p[i];
      } else if i < |p| + |b| {
        assert m[i] == b[i - |p|];
      } else {
        assert m[i] == q[i - |p| - |b|];
      }
    }
  }

  /** `a,m,,c` written with its separators one by one. */
  lemma CommaLayout(a: string, m: string, c: string)
    ensures a + "," + m + ",," + c == a + [','] + (m + [','] + ([] + [','] + c))
  {
  }

  /** A clean tag with white space around it cleans to the tag. */
  lemma PaddedTagCleans(p: string, b: string, q: string)
    requires IsCleanTag(b)
    requires forall i :: 0 <= i < |p| ==> IsPythonSpace(p[i])
    requires forall i :: 0 <= i < |q| ==> IsPythonSpace(q[i])
    ensures CleanTags([p + b + q]) == [b]
  {
    TrimAround(p, b, q, IsPythonSpace);
    CleanTagsCons(p + b + q, []);
    assert [p + b + q] + [] == [p + b + q];
  }

  /** The tag list of a text shaped like `"a, b ,,c"`: clean tags, white space around the
      middle one and an empty piece give exactly the three tags, stripped, in order. */
  lemma TagsListExample(a: string, b: string, c: string, p: string, q: string)
    requires IsCleanTag(a) && IsCleanTag(b) && IsCleanTag(c)
    requires forall i :: 0 <= i < |p| ==> IsPythonSpace(p[i])
    requires forall i :: 0 <= i < |q| ==> IsPythonSpace(q[i])
    ensures TagsList(a + "," + (p + b + q) + ",," + c) == [a, b, c]
  {
    var m := p + b + q;
    PaddedTagNoComma(p, b, q);
    PaddedTagCleans(p, b, q);
    CommaLayout(a, m, c);
    SplitFourPieces(a, m, c);
    CleanFourPieces(a, m, c);
    assert [a] + ([b] + [c]) == [a, b, c];
  }

  // ---------------------------------------------------------------------------------------
  // Lookups and counts over the tables

  ghost function UserIds(users: seq<User>): set<UserId> {
    set u | u in users :: u.id
  }

  ghost function ProjectIds(projects: seq<Project>): set<ProjectId> {
    set p | p in projects :: p.id
  }

  /** The position of the user with this id (`User.query.get`). */
  function UserIndex(users: seq<User>, id: UserId): (r: Option<nat>)
    ensures r.Some? ==> r.value < |users| && users[r.value].id == id
    ensures r.None? ==> forall i :: 0 <= i < |users| ==> users[i].id != id
  {
    FirstIndex(users, (u: User) => u.id == id)
  }

  /** The first user with this username (`User.query.filter_by(username=...).first()`). */
  function UserNamed(users: seq<User>, name: string): (r: Option<User>)
    ensures r.Some? ==> r.value in users && r.value.username == name
    ensures r.None? ==> forall i :: 0 <= i < |users| ==> users[i].username != name
  {
    match FirstIndex(users, (u: User) => u.username == name)
    case Some(i) => Some(users[i])
    case None => None
  }

  /** Whether some user has this email (`User.query.filter_by(email=...).first()`). */
  function EmailTaken(users: seq<User>, email: string): (r: bool)
    ensures r <==> exists i :: 0 <= i < |users| && users[i].email == email
  {
    FirstIndex(users, (u: User) => u.email == email).Some?
  }

  /** The position of the project with this id (`Project.query.get_or_404`). */
  function ProjectIndex(projects: seq<Project>, id: ProjectId): (r: Option<nat>)
    ensures r.Some? ==> r.value < |projects| && projects[r.value].id == id
    ensures r.None? ==> forall i :: 0 <= i < |projects| ==> projects[i].id != id
  {
    FirstIndex(projects, (p: Project) => p.id == id)
  }

  /** Row selectors, named so that every query and lemma uses the same function value. */
  function FollowedIs(u: UserId): Edge -> bool { (e: Edge) => e.followed == u }
  function FollowerIs(u: UserId): Edge -> bool { (e: Edge) => e.follower == u }
  function EdgeFollower(e: Edge): UserId { e.follower }
  function EdgeFollowed(e: Edge): UserId { e.followed }
  function OnProject(p: ProjectId): Like -> bool { (l: Like) => l.project == p }
  function Liker(l: Like): UserId { l.user }

  /** The rows of the `follows` table whose followed side is `u`, and whose follower side is `u`. */
  function EdgesInto(follows: seq<Edge>, u: UserId): seq<Edge> {
    Filter(follows, FollowedIs(u))
  }

  function EdgesFrom(follows: seq<Edge>, u: UserId): seq<Edge> {
    Filter(follows, FollowerIs(u))
  }

  /** The actor's outgoing edges that end at `b` are counted as nonzero exactly when the
      row (a, b) is in the table: the query of `is_following` asks whether the edge exists. */
  lemma EdgeCounted(follows: seq<Edge>, a: UserId, b: UserId)
    ensures Edge(a, b) in follows <==> |Filter(EdgesFrom(follows, a), FollowedIs(b))| > 0
  {
    var out := EdgesFrom(follows, a);
    var hits := Filter(out, FollowedIs(b));
    if Edge(a, b) in follows {
      var i :| 0 <= i < |follows| && follows[i] == Edge(a, b);
      assert FollowerIs(a)(follows[i]);
      var j :| 0 <= j < |out| && out[j] == Edge(a, b);
      assert FollowedIs(b)(out[j]);
      assert out[j] in hits;
    }
    if |hits| > 0 {
      assert hits[0] in out && FollowedIs(b)(hits[0]);
      var j :| 0 <= j < |out| && out[j] == hits[0];
      assert out[j] in follows && FollowerIs(a)(out[j]);
      assert hits[0] == Edge(a, b);
    }
  }

  /** No user follows themself (what the `follow` route's refusal guarantees). */
  ghost predicate NoSelfFollow(follows: seq<Edge>) {
    forall i :: 0 <= i < |follows| ==> follows[i].follower != follows[i].followed
  }

  /** `User.get_follower_count` and `User.get_following_count`: numbers of edge rows. */
  function FollowerCount(follows: seq<Edge>, u: UserId): nat {
    |EdgesInto(follows, u)|
  }

  function FollowingCount(follows: seq<Edge>, u: UserId): nat {
    |EdgesFrom(follows, u)|
  }

  /** The users following `u`, and the users `u` follows. */
  ghost function Followers(follows: seq<Edge>, u: UserId): set<UserId> {
    Image(follows, FollowedIs(u), EdgeFollower)
  }

  ghost function Followees(follows: seq<Edge>, u: UserId): set<UserId> {
    Image(follows, FollowerIs(u), EdgeFollowed)
  }

  /** With edge rows unique, the follower count is the number of distinct followers and the
      following count the number of distinct users followed. */
  lemma FollowCountsAreUsers(follows: seq<Edge>, u: UserId)
    requires Distinct(follows)
    ensures FollowerCount(follows, u) == |Followers(follows, u)|
    ensures FollowingCount(follows, u) == |Followees(follows, u)|
    ensures forall v :: v in Followers(follows, u) <==> Edge(v, u) in follows
  {
    FilterImageSize(follows, FollowedIs(u), EdgeFollower);
    FilterImageSize(follows, FollowerIs(u), EdgeFollowed);
    forall v ensures v in Followers(follows, u) <==> Edge(v, u) in follows {
      if Edge(v, u) in follows {
        assert EdgeFollower(Edge(v, u)) == v;
      }
    }
  }

  /** The like rows of one project (`Project.likes`). */
  function LikesOn(likes: seq<Like>, p: ProjectId): seq<Like> {
    Filter(likes, OnProject(p))
  }

  /** `Project.get_like_count`. */
  function LikeCount(likes: seq<Like>, p: ProjectId): nat {
    |LikesOn(likes, p)|
  }

  /** `Project.is_liked_by`. */
  predicate LikedBy(likes: seq<Like>, p: ProjectId, u: UserId) {
    Like(u, p) in likes
  }

  /** Deleting a present like row: the row is gone, the others stay, the rows stay unique
      and the project's count drops by one. */
  lemma LikeRemoved(likes: seq<Like>, l: Like)
    requires Distinct(likes) && l in likes
    ensures var r := Remove(likes, l);
            l !in r && Distinct(r)
            && (forall x :: x != l ==> (x in r <==> x in likes))
            && LikeCount(r, l.project) == LikeCount(likes, l.project) - 1
  {
    RemoveCount(likes, l, OnProject(l.project));
  }

  /** Adding an absent like row: the row is there, the others stay, the rows stay unique
      and the project's count rises by one. */
  lemma LikeAdded(likes: seq<Like>, l: Like)
    requires Distinct(likes) && l !in likes
    ensures var r := likes + [l];
            l in r && Distinct(r)
            && (forall x :: x != l ==> (x in r <==> x in likes))
            && LikeCount(r, l.project) == LikeCount(likes, l.project) + 1
  {
    FilterAppend(likes, l, OnProject(l.project));
    var r := likes + [l];
    forall i, j | 0 <= i < j < |r| ensures r[i] != r[j] {
      if j == |likes| { assert r[i] == likes[i]; }
    }
  }

  /** The users who like project `p`. */
  ghost function Likers(likes: seq<Like>, p: ProjectId): set<UserId> {
    Image(likes, OnProject(p), Liker)
  }

  /** With the unique constraint on (user, project), the like count is the number of users
      who like the project, and `is_liked_by` holds exactly for those users. */
  lemma LikeCountIsLikers(likes: seq<Like>, p: ProjectId)
    requires Distinct(likes)
    ensures LikeCount(likes, p) == |Likers(likes, p)|
    ensures forall u :: LikedBy(likes, p, u) <==> u in Likers(likes, p)
  {
    FilterImageSize(likes, OnProject(p), Liker);
    forall u ensures LikedBy(likes, p, u) <==> u in Likers(likes, p) {
      if LikedBy(likes, p, u) {
        assert Liker(Like(u, p)) == u;
      }
    }
  }

  function CommentOn(p: ProjectId): Comment -> bool { (c: Comment) => c.project == p }
  function PublishedBy(u: UserId): Project -> bool { (p: Project) => p.owner == u && p.published }
  function AddressedTo(u: UserId): Notification -> bool { (n: Notification) => n.recipient == u }
  function UnreadFor(u: UserId): Notification -> bool { (n: Notification) => n.recipient == u && !n.read }

  /** `Project.get_comment_count`. */
  function CommentCount(comments: seq<Comment>, p: ProjectId): nat {
    |Filter(comments, CommentOn(p))|
  }

  /** `User.get_project_count`: the user's published projects. */
  function PublishedCount(projects: seq<Project>, u: UserId): nat {
    |Filter(projects, PublishedBy(u))|
  }

  /** The notifications addressed to `u` (`User.notifications`). */
  function NotificationsOf(ns: seq<Notification>, u: UserId): seq<Notification> {
    Filter(ns, AddressedTo(u))
  }

  /** `User.get_unread_notification_count`. */
  function UnreadCount(ns: seq<Notification>, u: UserId): nat {
    |Filter(ns, UnreadFor(u))|
  }

  // ---------------------------------------------------------------------------------------
  // The invariant the tables keep

  /** The keys the tables are ordered by. */
  function UserKey(u: User): int { u.id }
  function ProjectKey(p: Project): int { p.id }
  function ProjectStamp(p: Project): int { p.created }
  function CommentStamp(c: Comment): int { c.created }
  function NoticeStamp(n: Notification): int { n.created }

  /** Autoincrement ids: strictly increasing in row order and below the next id. */
  ghost predicate UsersOrdered(users: seq<User>, next: UserId) {
    Increasing(users, UserKey) && forall i :: 0 <= i < |users| ==> users[i].id < next
  }

  /** The `unique=True` columns of the user table. */
  ghost predicate UniqueNames(users: seq<User>) {
    forall i, j :: 0 <= i < j < |users| ==>
      users[i].username != users[j].username && users[i].email != users[j].email
  }

  /** Project ids and creation stamps strictly increase in row order. */
  ghost predicate ProjectsOrdered(projects: seq<Project>, next: ProjectId, clock: nat) {
    Increasing(projects, ProjectKey) && Increasing(projects, ProjectStamp)
    && forall i :: 0 <= i < |projects| ==> projects[i].id < next && projects[i].created < clock
  }

  ghost predicate CommentsOrdered(comments: seq<Comment>, clock: nat) {
    Increasing(comments, CommentStamp) && forall i :: 0 <= i < |comments| ==> comments[i].created < clock
  }

  ghost predicate NotificationsOrdered(ns: seq<Notification>, clock: nat) {
    Increasing(ns, NoticeStamp) && forall i :: 0 <= i < |ns| ==> ns[i].created < clock
  }

  /** Every foreign key refers to an existing row. */
  ghost predicate KeysExist(t: Tables) {
    && (forall i :: 0 <= i < |t.projects| ==> t.projects[i].owner in UserIds(t.users))
    && (forall i :: 0 <= i < |t.follows| ==>
          t.follows[i].follower in UserIds(t.users) && t.follows[i].followed in UserIds(t.users))
    && (forall i :: 0 <= i < |t.likes| ==>
          t.likes[i].user in UserIds(t.users) && t.likes[i].project in ProjectIds(t.projects))
    && (forall i :: 0 <= i < |t.comments| ==>
          t.comments[i].author in UserIds(t.users) && t.comments[i].project in ProjectIds(t.projects))
    && (forall i :: 0 <= i < |t.notifications| ==> t.notifications[i].recipient in UserIds(t.users))
  }

  /** The database invariant: key order, the unique constraints (user names and emails,
      the composite primary key of `follows`, the (user, project) constraint on likes)
      and referential integrity. */
  ghost predicate Consistent(t: Tables) {
    && UsersOrdered(t.users, t.nextUserId)
    && UniqueNames(t.users)
    && ProjectsOrdered(t.projects, t.nextProjectId, t.clock)
    && Distinct(t.follows)
    && Distinct(t.likes)
    && CommentsOrdered(t.comments, t.clock)
    && NotificationsOrdered(t.notifications, t.clock)
    && KeysExist(t)
  }

  // ---------------------------------------------------------------------------------------
  // Follow and unfollow (the `followed` relationship)

  /** `User.follow`: add the edge unless it is already there. */
  function Followed(follows: seq<Edge>, a: UserId, b: UserId): (r: seq<Edge>)
    ensures Edge(a, b) in r
    ensures Distinct(follows) ==> Distinct(r)
    ensures forall e :: e != Edge(a, b) ==> (e in r <==> e in follows)
  {
    if Edge(a, b) in follows then follows else follows + [Edge(a, b)]
  }

  /** `User.unfollow`: remove the edge if it is there. */
  function Unfollowed(follows: seq<Edge>, a: UserId, b: UserId): (r: seq<Edge>)
    ensures Edge(a, b) !in r
    ensures Distinct(follows) ==> Distinct(r)
    ensures forall e :: e != Edge(a, b) ==> (e in r <==> e in follows)
  {
    if Edge(a, b) in follows then Remove(follows, Edge(a, b)) else follows
  }

  /** Following twice is following once, and following an edge that exists changes nothing. */
  lemma FollowIdempotent(follows: seq<Edge>, a: UserId, b: UserId)
    ensures Followed(Followed(follows, a, b), a, b) == Followed(follows, a, b)
    ensures Edge(a, b) in follows ==> Followed(follows, a, b) == follows
  {
  }

  /** Unfollowing a pair that is not followed changes nothing. */
  lemma UnfollowAbsent(follows: seq<Edge>, a: UserId, b: UserId)
    requires Edge(a, b) !in follows
    ensures Unfollowed(follows, a, b) == follows
  {
  }

  /** Following a pair not followed before and then unfollowing it restores the edge table. */
  lemma FollowThenUnfollow(follows: seq<Edge>, a: UserId, b: UserId)
    requires Edge(a, b) !in follows
    ensures Unfollowed(Followed(follows, a, b), a, b) == follows
  {
    RemoveAppended(follows, Edge(a, b));
  }

  /** A new edge raises the follower count of the followed user and the following count of
      the follower by one; every other count is unchanged. An existing edge changes nothing. */
  lemma FollowCounts(follows: seq<Edge>, a: UserId, b: UserId, u: UserId)
    ensures var isNew := Edge(a, b) !in follows;
            var r := Followed(follows, a, b);
            FollowerCount(r, u) == FollowerCount(follows, u) + (if isNew && u == b then 1 else 0)
            && FollowingCount(r, u) == FollowingCount(follows, u) + (if isNew && u == a then 1 else 0)
  {
    if Edge(a, b) !in follows {
      FilterAppend(follows, Edge(a, b), FollowedIs(u));
      FilterAppend(follows, Edge(a, b), FollowerIs(u));
    }
  }

  /** Removing an existing edge lowers the two counts it took part in by one. */
  lemma UnfollowCounts(follows: seq<Edge>, a: UserId, b: UserId, u: UserId)
    requires Distinct(follows)
    ensures var had := Edge(a, b) in follows;
            var r := Unfollowed(follows, a, b);
            FollowerCount(r, u) == FollowerCount(follows, u) - (if had && u == b then 1 else 0)
            && FollowingCount(r, u) == FollowingCount(follows, u) - (if had && u == a then 1 else 0)
  {
    if Edge(a, b) in follows {
      RemoveCount(follows, Edge(a, b), FollowedIs(u));
      RemoveCount(follows, Edge(a, b), FollowerIs(u));
    }
  }

  /** Changing only the edge table keeps the invariant when the new edges join existing users
      and no edge occurs twice. */
  lemma FollowsChangeConsistent(t: Tables, follows: seq<Edge>)
    requires Consistent(t)
    requires Distinct(follows)
    requires forall i :: 0 <= i < |follows| ==>
               follows[i] in t.follows
               || (follows[i].follower in UserIds(t.users) && follows[i].followed in UserIds(t.users))
    ensures Consistent(t.(follows := follows))
  {
    var t' := t.(follows := follows);
    forall i | 0 <= i < |follows|
      ensures follows[i].follower in UserIds(t.users) && follows[i].followed in UserIds(t.users)
    {
      if follows[i] in t.follows {
        var j :| 0 <= j < |t.follows| && t.follows[j] == follows[i];
      }
    }
    assert KeysExist(t');
  }

  /** `follow` between existing users keeps the invariant. */
  lemma FollowedConsistent(t: Tables, a: UserId, b: UserId)
    requires Consistent(t) && a in UserIds(t.users) && b in UserIds(t.users)
    ensures Consistent(t.(follows := Followed(t.follows, a, b)))
  {
    var fs := Followed(t.follows, a, b);
    forall i | 0 <= i < |fs|
      ensures fs[i] in t.follows || (fs[i].follower in UserIds(t.users) && fs[i].followed in UserIds(t.users))
    {
      assert fs[i] in fs;
    }
    FollowsChangeConsistent(t, fs);
  }

  /** `unfollow` keeps the invariant. */
  lemma UnfollowedConsistent(t: Tables, a: UserId, b: UserId)
    requires Consistent(t)
    ensures Consistent(t.(follows := Unfollowed(t.follows, a, b)))
  {
    var fs := Unfollowed(t.follows, a, b);
    forall i | 0 <= i < |fs| ensures fs[i] in t.follows {
      assert fs[i] in fs;
    }
    FollowsChangeConsistent(t, fs);
  }

  lemma LikesChangeConsistent(t: Tables, likes: seq<Like>)
    requires Consistent(t)
    requires Distinct(likes)
    requires forall i :: 0 <= i < |likes| ==>
               likes[i] in t.likes
               || (likes[i].user in UserIds(t.users) && likes[i].project in ProjectIds(t.projects))
    ensures Consistent(t.(likes := likes))
  {
    forall i | 0 <= i < |likes|
      ensures likes[i].user in UserIds(t.users) && likes[i].project in ProjectIds(t.projects)
    {
      if likes[i] in t.likes {
        var j :| 0 <= j < |t.likes| && t.likes[j] == likes[i];
      }
    }
    assert KeysExist(t.(likes := likes));
  }

  /** Inserting an absent like between existing rows keeps the invariant. */
  lemma LikeInsertedConsistent(t: Tables, l: Like)
    requires Consistent(t) && l !in t.likes
    requires l.user in UserIds(t.users) && l.project in ProjectIds(t.projects)
    ensures Consistent(t.(likes := t.likes + [l]))
  {
    var likes := t.likes + [l];
    LikeAdded(t.likes, l);
    forall i | 0 <= i < |likes|
      ensures likes[i] in t.likes || (likes[i].user in UserIds(t.users) && likes[i].project in ProjectIds(t.projects))
    {
      if i < |t.likes| { assert likes[i] == t.likes[i]; }
    }
    LikesChangeConsistent(t, likes);
  }

  /** Deleting a like keeps the invariant. */
  lemma LikeDeletedConsistent(t: Tables, l: Like)
    requires Consistent(t)
    ensures Consistent(t.(likes := Remove(t.likes, l)))
  {
    LikesChangeConsistent(t, Remove(t.likes, l));
  }

  /** A comment by an existing user on an existing project, stamped now, keeps the invariant. */
  lemma CommentAddedConsistent(t: Tables, c: Comment)
    requires Consistent(t)
    requires c.author in UserIds(t.users) && c.project in ProjectIds(t.projects) && c.created == t.clock
    ensures Consistent(t.(comments := t.comments + [c], clock := t.clock + 1))
  {
    var t' := t.(comments := t.comments + [c], clock := t.clock + 1);
    assert forall i :: 0 <= i < |t.comments| ==> t'.comments[i] == t.comments[i];
    assert CommentsOrdered(t'.comments, t'.clock);
    assert KeysExist(t');
  }

  /** A project of an existing user with the next id, stamped now, keeps the invariant. */
  lemma ProjectAddedConsistent(t: Tables, p: Project)
    requires Consistent(t)
    requires p.owner in UserIds(t.users) && p.id == t.nextProjectId && p.created == t.clock
    ensures Consistent(t.(projects := t.projects + [p], nextProjectId := t.nextProjectId + 1, clock := t.clock + 1))
  {
    var t' := t.(projects := t.projects + [p], nextProjectId := t.nextProjectId + 1, clock := t.clock + 1);
    assert forall i :: 0 <= i < |t.projects| ==> t'.projects[i] == t.projects[i];
    assert ProjectIds(t.projects) <= ProjectIds(t'.projects);
    assert ProjectsOrdered(t'.projects, t'.nextProjectId, t'.clock);
    assert KeysExist(t');
  }

  /** A user with the next id whose username and email are not taken keeps the invariant. */
  lemma UserAddedConsistent(t: Tables, u: User)
    requires Consistent(t)
    requires u.id == t.nextUserId
    requires forall i :: 0 <= i < |t.users| ==> t.users[i].username != u.username && t.users[i].email != u.email
    ensures Consistent(t.(users := t.users + [u], nextUserId := t.nextUserId + 1))
  {
    var t' := t.(users := t.users + [u], nextUserId := t.nextUserId + 1);
    assert forall i :: 0 <= i < |t.users| ==> t'.users[i] == t.users[i];
    assert UserIds(t.users) <= UserIds(t'.users);
    assert UsersOrdered(t'.users, t'.nextUserId);
    assert UniqueNames(t'.users);
    assert KeysExist(t');
  }

  /** Rewriting a user row in place without changing its id keeps the set of user ids. */
  lemma UserIdsReplaced(users: seq<User>, i: nat, u: User)
    requires i < |users| && u.id == users[i].id
    ensures UserIds(users[i := u]) == UserIds(users)
  {
    var us := users[i := u];
    forall x ensures x in UserIds(us) <==> x in UserIds(users) {
      if x in UserIds(users) {
        var v :| v in users && v.id == x;
        var k :| 0 <= k < |users| && users[k] == v;
        assert us[k].id == x;
      }
      if x in UserIds(us) {
        var v :| v in us && v.id == x;
        var k :| 0 <= k < |us| && us[k] == v;
        assert users[k].id == x;
      }
    }
  }

  lemma UsersOrderedReplaced(users: seq<User>, next: UserId, i: nat, u: User)
    requires UsersOrdered(users, next) && i < |users| && u.id == users[i].id
    ensures UsersOrdered(users[i := u], next)
  {
    var us := users[i := u];
    forall a, b | 0 <= a < b < |us| ensures UserKey(us[a]) < UserKey(us[b]) {
      assert UserKey(users[a]) < UserKey(users[b]);
    }
  }

  /** Rewriting a user row in place, keeping its id and not taking another user's username or
      email, keeps the invariant. */
  lemma UserReplacedConsistent(t: Tables, i: nat, u: User)
    requires Consistent(t) && i < |t.users| && u.id == t.users[i].id
    requires forall j :: 0 <= j < |t.users| && j != i ==>
               t.users[j].username != u.username && t.users[j].email != u.email
    ensures Consistent(t.(users := t.users[i := u]))
  {
    var t' := t.(users := t.users[i := u]);
    UserIdsReplaced(t.users, i, u);
    UsersOrderedReplaced(t.users, t.nextUserId, i, u);
    assert KeysExist(t');
  }

  /** Rewriting a project row in place without changing its id keeps the set of project ids. */
  lemma ProjectIdsReplaced(projects: seq<Project>, i: nat, p: Project)
    requires i < |projects| && p.id == projects[i].id
    ensures ProjectIds(projects[i := p]) == ProjectIds(projects)
  {
    var ps := projects[i := p];
    forall x ensures x in ProjectIds(ps) <==> x in ProjectIds(projects) {
      if x in ProjectIds(projects) {
        var v :| v in projects && v.id == x;
        var k :| 0 <= k < |projects| && projects[k] == v;
        assert ps[k].id == x;
      }
      if x in ProjectIds(ps) {
        var v :| v in ps && v.id == x;
        var k :| 0 <= k < |ps| && ps[k] == v;
        assert projects[k].id == x;
      }
    }
  }

  lemma ProjectsOrderedReplaced(projects: seq<Project>, next: ProjectId, clock: nat, i: nat, p: Project)
    requires ProjectsOrdered(projects, next, clock) && i < |projects|
    requires p.id == projects[i].id && p.created == projects[i].created
    ensures ProjectsOrdered(projects[i := p], next, clock)
  {
    var ps := projects[i := p];
    forall a, b | 0 <= a < b < |ps|
      ensures ProjectKey(ps[a]) < ProjectKey(ps[b]) && ProjectStamp(ps[a]) < ProjectStamp(ps[b])
    {
      assert ProjectKey(projects[a]) < ProjectKey(projects[b]);
      assert ProjectStamp(projects[a]) < ProjectStamp(projects[b]);
    }
  }

  /** Rewriting a project row in place, keeping its id, owner and creation stamp, keeps the
      invariant. */
  lemma ProjectReplacedConsistent(t: Tables, i: nat, p: Project)
    requires Consistent(t) && i < |t.projects|
    requires p.id == t.projects[i].id && p.owner == t.projects[i].owner && p.created == t.projects[i].created
    ensures Consistent(t.(projects := t.projects[i := p]))
  {
    var t' := t.(projects := t.projects[i := p]);
    ProjectIdsReplaced(t.projects, i, p);
    ProjectsOrderedReplaced(t.projects, t.nextProjectId, t.clock, i, p);
    assert KeysExist(t');
  }

  /** Row selectors of the delete cascade. */
  function OtherProject(id: ProjectId): Project -> bool { (p: Project) => p.id != id }
  function LikeNotOn(id: ProjectId): Like -> bool { (l: Like) => l.project != id }
  function CommentNotOn(id: ProjectId): Comment -> bool { (c: Comment) => c.project != id }

  /** The tables after deleting project `id` with the `delete-orphan` cascade of its likes
      and comments; notifications keep their (now dangling) project reference. */
  function WithoutProject(t: Tables, id: ProjectId): (r: Tables)
    ensures forall i :: 0 <= i < |r.projects| ==> r.projects[i].id != id
    ensures forall i :: 0 <= i < |r.likes| ==> r.likes[i].project != id
    ensures forall i :: 0 <= i < |r.comments| ==> r.comments[i].project != id
    ensures forall i :: 0 <= i < |t.projects| && t.projects[i].id != id ==> t.projects[i] in r.projects
    ensures forall i :: 0 <= i < |t.likes| && t.likes[i].project != id ==> t.likes[i] in r.likes
    ensures forall i :: 0 <= i < |t.comments| && t.comments[i].project != id ==> t.comments[i] in r.comments
    ensures forall x :: x in r.projects ==> x in t.projects
    ensures forall x :: x in r.likes ==> x in t.likes
    ensures forall x :: x in r.comments ==> x in t.comments
    ensures r == t.(projects := r.projects, likes := r.likes, comments := r.comments)
  {
    t.(projects := Filter(t.projects, OtherProject(id)),
       likes := Filter(t.likes, LikeNotOn(id)),
       comments := Filter(t.comments, CommentNotOn(id)))
  }

  /** A project other than `id` that existed before the delete exists after it. */
  lemma OtherProjectKept(t: Tables, id: ProjectId, x: ProjectId)
    requires x in ProjectIds(t.projects) && x != id
    ensures x in ProjectIds(WithoutProject(t, id).projects)
  {
    var v :| v in t.projects && v.id == x;
    var m :| 0 <= m < |t.projects| && t.projects[m] == v;
  }

  lemma WithoutProjectLikeKeys(t: Tables, id: ProjectId)
    requires forall i :: 0 <= i < |t.likes| ==> t.likes[i].user in UserIds(t.users) && t.likes[i].project in ProjectIds(t.projects)
    ensures var r := WithoutProject(t, id);
            forall i :: 0 <= i < |r.likes| ==> r.likes[i].user in UserIds(r.users) && r.likes[i].project in ProjectIds(r.projects)
  {
    var r := WithoutProject(t, id);
    forall i | 0 <= i < |r.likes| ensures r.likes[i].user in UserIds(r.users) && r.likes[i].project in ProjectIds(r.projects) {
      var k :| 0 <= k < |t.likes| && t.likes[k] == r.likes[i];
      OtherProjectKept(t, id, r.likes[i].project);
    }
  }

  lemma WithoutProjectCommentKeys(t: Tables, id: ProjectId)
    requires forall i :: 0 <= i < |t.comments| ==> t.comments[i].author in UserIds(t.users) && t.comments[i].project in ProjectIds(t.projects)
    ensures var r := WithoutProject(t, id);
            forall i :: 0 <= i < |r.comments| ==> r.comments[i].author in UserIds(r.users) && r.comments[i].project in ProjectIds(r.projects)
  {
    var r := WithoutProject(t, id);
    forall i | 0 <= i < |r.comments| ensures r.comments[i].author in UserIds(r.users) && r.comments[i].project in ProjectIds(r.projects) {
      var k :| 0 <= k < |t.comments| && t.comments[k] == r.comments[i];
      OtherProjectKept(t, id, r.comments[i].project);
    }
  }

  /** After the cascade every remaining foreign key still refers to a remaining row. */
  lemma WithoutProjectKeys(t: Tables, id: ProjectId)
    requires KeysExist(t)
    ensures KeysExist(WithoutProject(t, id))
  {
    var r := WithoutProject(t, id);
    WithoutProjectLikeKeys(t, id);
    WithoutProjectCommentKeys(t, id);
    WithoutProjectOwnerKeys(t, id);
    assert r.users == t.users && r.follows == t.follows && r.notifications == t.notifications;
  }

  lemma WithoutProjectOwnerKeys(t: Tables, id: ProjectId)
    requires forall i :: 0 <= i < |t.projects| ==> t.projects[i].owner in UserIds(t.users)
    ensures var r := WithoutProject(t, id);
            forall i :: 0 <= i < |r.projects| ==> r.projects[i].owner in UserIds(r.users)
  {
    var r := WithoutProject(t, id);
    forall i | 0 <= i < |r.projects| ensures r.projects[i].owner in UserIds(r.users) {
      var k :| 0 <= k < |t.projects| && t.projects[k] == r.projects[i];
    }
  }

  lemma WithoutProjectOrdered(t: Tables, id: ProjectId)
    requires ProjectsOrdered(t.projects, t.nextProjectId, t.clock) && CommentsOrdered(t.comments, t.clock)
    ensures var r := WithoutProject(t, id);
            ProjectsOrdered(r.projects, r.nextProjectId, r.clock) && CommentsOrdered(r.comments, r.clock)
  {
    var r := WithoutProject(t, id);
    FilterIncreasing(t.projects, OtherProject(id), ProjectKey);
    FilterIncreasing(t.projects, OtherProject(id), ProjectStamp);
    FilterIncreasing(t.comments, CommentNotOn(id), CommentStamp);
    forall i | 0 <= i < |r.projects| ensures r.projects[i].id < r.nextProjectId && r.projects[i].created < r.clock {
      var k :| 0 <= k < |t.projects| && t.projects[k] == r.projects[i];
    }
    forall i | 0 <= i < |r.comments| ensures r.comments[i].created < r.clock {
      var k :| 0 <= k < |t.comments| && t.comments[k] == r.comments[i];
    }
  }

  /** Deleting a project with its cascade keeps the invariant. */
  lemma WithoutProjectConsistent(t: Tables, id: ProjectId)
    requires Consistent(t)
    ensures Consistent(WithoutProject(t, id))
  {
    WithoutProjectKeys(t, id);
    WithoutProjectOrdered(t, id);
  }

  /** The bulk `UPDATE ... SET read = true` on one user's unread notifications. */
  function MarkReadFor(u: UserId): Notification -> Notification {
    (n: Notification) => if n.recipient == u && !n.read then n.(read := true) else n
  }

  function MarkedRead(ns: seq<Notification>, u: UserId): seq<Notification> {
    Map(ns, MarkReadFor(u))
  }

  /** Afterwards the user has no unread notification and keeps as many notifications, each
      of them read. */
  lemma MarkedReadOwn(ns: seq<Notification>, u: UserId)
    ensures var r := MarkedRead(ns, u);
            UnreadCount(r, u) == 0
            && |NotificationsOf(r, u)| == |NotificationsOf(ns, u)|
            && (forall n :: n in r && n.recipient == u ==> n.read)
  {
    var r := MarkedRead(ns, u);
    assert forall i :: 0 <= i < |r| ==> !UnreadFor(u)(r[i]);
    FilterNone(r, UnreadFor(u));
    FilterSameLength(r, ns, AddressedTo(u), AddressedTo(u));
  }

  /** Every other user's notifications are the same rows. */
  lemma MarkedReadOthers(ns: seq<Notification>, u: UserId, v: UserId)
    requires v != u
    ensures NotificationsOf(MarkedRead(ns, u), v) == NotificationsOf(ns, v)
  {
    FilterPointwise(MarkedRead(ns, u), ns, AddressedTo(v));
  }

  lemma MarkedReadConsistent(t: Tables, u: UserId)
    requires Consistent(t)
    ensures Consistent(t.(notifications := MarkedRead(t.notifications, u)))
  {
    var ns := MarkedRead(t.notifications, u);
    var t' := t.(notifications := ns);
    assert NotificationsOrdered(ns, t'.clock) by {
      forall a, b | 0 <= a < b < |ns| ensures NoticeStamp(ns[a]) < NoticeStamp(ns[b]) {
        assert NoticeStamp(t.notifications[a]) < NoticeStamp(t.notifications[b]);
      }
    }
    assert KeysExist(t');
  }

  // ---------------------------------------------------------------------------------------
  // The store: the database session the handlers mutate

  class Store {
    var users: seq<User>
    var projects: seq<Project>
    var follows: seq<Edge>
    var likes: seq<Like>
    var comments: seq<Comment>
    var notifications: seq<Notification>
    var clock: nat
    var nextUserId: UserId
    var nextProjectId: ProjectId

    /** The tables as one value. */
    function State(): Tables
      reads this
    {
      Tables(users, projects, follows, likes, comments, notifications, clock, nextUserId, nextProjectId)
    }

    ghost predicate Valid()
      reads this
    {
      Consistent(State())
    }

    /** An empty database. */
    constructor ()
      ensures Valid()
      ensures State() == Tables([], [], [], [], [], [], 0, 0, 0)
    {
      users, projects, follows, likes, comments, notifications := [], [], [], [], [], [];
      clock, nextUserId, nextProjectId := 0, 0, 0;
    }

    /** `is_following`: the outgoing edges of `a` that end at `b`, counted, are more than
        none; the row lookup answers the same question. */
    function IsFollowing(a: UserId, b: UserId): (r: bool)
      reads this
      ensures r <==> |Filter(EdgesFrom(follows, a), FollowedIs(b))| > 0
    {
      EdgeCounted(follows, a, b);
      Edge(a, b) in follows
    }

    /** `User.follow`: append the edge to the relationship unless `is_following` already holds. */
    method Follow(a: UserId, b: UserId)
      requires Valid()
      requires a in UserIds(users) && b in UserIds(users)
      modifies this
      ensures Valid()
      ensures State() == old(State()).(follows := Followed(old(follows), a, b))
      ensures IsFollowing(a, b)
    {
      if !IsFollowing(a, b) {
        follows := follows + [Edge(a, b)];
      }
      assert State() == old(State()).(follows := Followed(old(follows), a, b));
      FollowedConsistent(old(State()), a, b);
      assert Edge(a, b) in follows;
    }

    /** `User.unfollow`: remove the edge from the relationship if `is_following` holds. */
    method Unfollow(a: UserId, b: UserId)
      requires Valid()
      modifies this
      ensures Valid()
      ensures State() == old(State()).(follows := Unfollowed(old(follows), a, b))
      ensures !IsFollowing(a, b)
    {
      if IsFollowing(a, b) {
        follows := Remove(follows, Edge(a, b));
      }
      assert State() == old(State()).(follows := Unfollowed(old(follows), a, b));
      UnfollowedConsistent(old(State()), a, b);
      assert Edge(a, b) !in follows;
    }

    /** `db.session.add(like)` for a pair not liked yet, between existing rows. */
    method InsertLike(l: Like)
      requires Valid() && l !in likes
      requires l.user in UserIds(users) && l.project in ProjectIds(projects)
      modifies this
      ensures Valid()
      ensures State() == old(State()).(likes := old(likes) + [l])
    {
      likes := likes + [l];
      assert State() == old(State()).(likes := old(likes) + [l]);
      LikeInsertedConsistent(old(State()), l);
    }

    /** `db.session.delete(like)`. */
    method DeleteLike(l: Like)
      requires Valid()
      modifies this
      ensures Valid()
      ensures State() == old(State()).(likes := Remove(old(likes), l))
    {
      likes := Remove(likes, l);
      assert State() == old(State()).(likes := Remove(old(likes), l));
      LikeDeletedConsistent(old(State()), l);
    }

    /** `db.session.add(comment)`: a comment stamped now. */
    method InsertComment(content: string, author: UserId, project: ProjectId)
      requires Valid() && author in UserIds(users) && project in ProjectIds(projects)
      modifies this
      ensures Valid()
      ensures State() == old(State()).(comments := old(comments) + [Comment(content, author, project, old(clock))],
                                        clock := old(clock) + 1)
    {
      comments := comments + [Comment(content, author, project, clock)];
      clock := clock + 1;
      assert State() == old(State()).(comments := old(comments) + [Comment(content, author, project, old(clock))],
                                      clock := old(clock) + 1);
      CommentAddedConsistent(old(State()), Comment(content, author, project, old(clock)));
    }

    /** `db.session.add(project)`: the row gets the next id and is stamped now. */
    method InsertProject(p: Project) returns (id: ProjectId)
      requires Valid() && p.owner in UserIds(users)
      modifies this
      ensures Valid() && id == old(nextProjectId)
      ensures State() == old(State()).(projects := old(projects) + [p.(id := id, created := old(clock))],
                                        nextProjectId := id + 1, clock := old(clock) + 1)
    {
      id := nextProjectId;
      var row := p.(id := id, created := clock);
      projects := projects + [row];
      nextProjectId := nextProjectId + 1;
      clock := clock + 1;
      assert State() == old(State()).(projects := old(projects) + [row], nextProjectId := id + 1,
                                      clock := old(clock) + 1);
      ProjectAddedConsistent(old(State()), row);
    }

    /** `db.session.add(user)`: the row gets the next id. */
    method InsertUser(u: User) returns (id: UserId)
      requires Valid()
      requires forall i :: 0 <= i < |users| ==> users[i].username != u.username && users[i].email != u.email
      modifies this
      ensures Valid() && id == old(nextUserId)
      ensures State() == old(State()).(users := old(users) + [u.(id := id)], nextUserId := id + 1)
    {
      id := nextUserId;
      users := users + [u.(id := id)];
      nextUserId := nextUserId + 1;
      assert State() == old(State()).(users := old(users) + [u.(id := id)], nextUserId := id + 1);
      UserAddedConsistent(old(State()), u.(id := id));
    }

    /** Assigning the columns of user row `i` and committing. */
    method UpdateUser(i: nat, u: User)
      requires Valid() && i < |users| && u.id == users[i].id
      requires forall j :: 0 <= j < |users| && j != i ==> users[j].username != u.username && users[j].email != u.email
      modifies this
      ensures Valid()
      ensures State() == old(State()).(users := old(users)[i := u])
    {
      users := users[i := u];
      assert State() == old(State()).(users := old(users)[i := u]);
      UserReplacedConsistent(old(State()), i, u);
    }

    /** Assigning the columns of project row `i` and committing. */
    method UpdateProject(i: nat, p: Project)
      requires Valid() && i < |projects|
      requires p.id == projects[i].id && p.owner == projects[i].owner && p.created == projects[i].created
      modifies this
      ensures Valid()
      ensures State() == old(State()).(projects := old(projects)[i := p])
    {
      projects := projects[i := p];
      assert State() == old(State()).(projects := old(projects)[i := p]);
      ProjectReplacedConsistent(old(State()), i, p);
    }

    /** `db.session.delete(project)` with the cascade to its likes and comments. */
    method DeleteProject(id: ProjectId)
      requires Valid()
      modifies this
      ensures Valid()
      ensures State() == WithoutProject(old(State()), id)
    {
      var r := WithoutProject(State(), id);
      projects, likes, comments := r.projects, r.likes, r.comments;
      assert State() == r;
      WithoutProjectConsistent(old(State()), id);
    }

    /** `notifications.filter_by(read=False).update({'read': True})` for user `u`. */
    method MarkAllRead(u: UserId)
      requires Valid()
      modifies this
      ensures Valid()
      ensures State() == old(State()).(notifications := MarkedRead(old(notifications), u))
    {
      notifications := MarkedRead(notifications, u);
      assert State() == old(State()).(notifications := MarkedRead(old(notifications), u));
      MarkedReadConsistent(old(State()), u);
    }
  }
}

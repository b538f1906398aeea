# Nexus portfolio network — a Dafny model of its core

Nexus is a Flask application where users publish portfolio projects, like and comment on
each other's projects, follow each other, get notifications, and search. This project
models the core of that program:

- the tables of models.py: users, projects, likes, comments, notifications and the
  `follows` association, with their uniqueness and foreign-key constraints;
- the helpers of models.py (follow/unfollow, counts, display names, the tag list) and of
  utils.py (`create_notification`, `get_file_url`, the naming and resize decision of
  `save_picture`);
- the request handlers of routes.py that read or change those tables;
- the client-side checks of static/js/main.js (`validateField` and the 16 MiB upload check).

Layout:

- `wrappers.dfy`: `Option` and `Result`.
- `seqs.dfy`: generic sequence facts. These cover filtering, removal, `Distinct`, newest
  first (reversal of an increasing sequence), and the `paginate` window (`Page`).
- `text.dfy`: Python `str.strip`, JavaScript `trim`, `split`/`join` on a character,
  substring search and ASCII lower-casing.
- `models.dfy`: the row datatypes and the `Tables` value. `Consistent` is the database
  invariant: autoincrement ids that are unique and increasing, unique names and emails,
  no duplicate like or follow rows, foreign keys that exist, and creation stamps in row
  order. This file also holds the pure model helpers and the `Store` class.
- `utils.dfy`: the utils.py helpers.
- `routes.dfy`: each state-changing handler is a pure function from the old tables to a
  `Result`, plus a `Store` method proved to perform exactly that function. The queries of
  the read-only pages are functions with lemmas about what they list and in what order.
- `validation.dfy`: `validateField` and the upload size check.
- `findings.dfy`: the handlers that read `project.author` or `user.projects` as written,
  with lemmas comparing them with the handlers of `routes.dfy` (see "## Findings").

Modelling choices:

- **Store.** `Store` is a class whose fields are the tables, held as sequences in row
  order, plus the next ids and a clock. Every state-changing method keeps `Valid()`,
  which is `Consistent(State())`. Each method states its whole new state. A route either
  ends in the state its specification function gives, or fails with the table contents
  unchanged.
- **Time.** `created_at` is a clock reading. The store stamps projects, comments and
  notifications with it and advances it on each such insertion; the rows whose order
  matters are exactly these, so "order by `created_at` desc" is the reverse of row order.
- **Pagination.** `paginate(page, per_page, error_out=False)` is modelled as the slice
  `Page(s, page, perPage)`. A page below 1 is read as page 1. A page past the end is
  empty.
- **Values known only at run time.** The signed-in user is the parameter `me`, or
  `Option<UserId>` where anonymous visitors are allowed. The WTForms verdict is the
  parameter `formOk`, except for the comment form, whose two validators are written out
  (`CommentFormValid`) next to its CSRF token check, the parameter `tokenOk` (Flask-WTF's
  `validate_on_submit` fails when the token is missing or wrong). The password hasher is
  the function parameter `hash`. The upload token is a field of `Upload`. `new URL(value)`
  not throwing is the parameter `urlParses`.
- **NULL columns.** A NULL string column is `""`. Both are falsy, and no modelled
  operation tells them apart.
- **`project.author`.** routes.py reads `project.author` (lines 168, 181, 224, 255, 283)
  and `user.projects` (line 75), which models.py does not define. The handlers of
  `routes.dfy` read both as the project's owner (`owner`, i.e. `user_id`); the handlers as
  written, and how they differ, are under "## Findings".
- **Server errors.** An uncaught exception is answered with a 500 after the session is
  rolled back (routes.py:422-425). The model writes this as the failure `ServerError`,
  with the tables unchanged.

## Model

| member | source | states |
|---|---|---|
| Models.FullName | models.py:53-56 | a user with a username always has a non-empty full name |
| Models.DisplayName | models.py:47-51 | `display_name`, with its own copy of the two branches; its properties are stated by `DisplayNameShape` |
| Models.DisplayNameShape | models.py:47-56 | `display_name` equals `get_full_name`; with both names present it is first name, one space, last name (lengths and slices); otherwise it is the username |
| Models.TagsList | models.py:113-116 | an empty (or NULL) tags column gives no tags |
| Models.TagsListAreClean | models.py:113-116 | every tag returned is non-empty, has no surrounding white space and contains no comma |
| Models.TagsListRoundTrip | models.py:113-116 | joining clean tags with commas and reading the list back gives the same tags in the same order |
| Models.TagsListExample | models.py:113-116 | for clean tags `a`, `b`, `c` and white-space runs `p`, `q`, the column `a,<p>b<q>,,c` reads as `[a, b, c]`: pieces are stripped and empty pieces dropped |
| Models.CleanTags | models.py:115 | the strip-and-drop of the comprehension; it never yields more tags than pieces, and `TagsListAreClean`, `TagsListRoundTrip` and `CleanTagsConcat` state what it keeps |
| Models.CleanTagsConcat | models.py:115 | the per-piece strip-and-drop distributes over concatenation of the pieces |
| Models.UserIndex | models.py:13 | the lookup by primary key finds a row with that id, or there is none |
| Models.UserNamed | models.py:14 | `filter_by(username=…).first()` finds a row with that username, or there is none |
| Models.EmailTaken | models.py:15 | true exactly when some row has that email |
| Models.ProjectIndex | models.py:82 | the lookup by primary key finds a project with that id, or there is none |
| Models.FollowerCount | models.py:69-70 | `get_follower_count`, the number of rows into the user; `FollowCountsAreUsers`, `FollowCounts` and `UnfollowCounts` state its meaning |
| Models.FollowingCount | models.py:72-73 | `get_following_count`, the number of rows out of the user; stated by the same three lemmas |
| Models.FollowCountsAreUsers | models.py:69-73 | with no duplicate `follows` rows, the follower and following counts are the numbers of distinct followers and followees; `v` is a follower exactly when the row (v, u) exists |
| Models.LikeCount | models.py:104-105 | `get_like_count`, the number of like rows of the project; `LikeCountIsLikers` and `ToggleLikeFlips` state its meaning |
| Models.LikedBy | models.py:110-111 | `is_liked_by`, whether the user's like row exists; `LikeCountIsLikers` relates it to the count |
| Models.CommentCount | models.py:107-108 | `get_comment_count`, the number of comments on the project; `LeaveCommentEffect` states that a comment raises it by one |
| Models.PublishedCount | models.py:75-76 | `get_project_count`, the number of the user's published projects; `ProjectCountIsProfileSize` relates it to the profile |
| Models.UnreadCount | models.py:78-79 | `get_unread_notification_count`; `NotifiedCounts` and `MarkedReadOwn` state how it changes |
| Models.LikeCountIsLikers | models.py:104-111 | with no duplicate like rows, `get_like_count` is the number of distinct users who liked; `is_liked_by(u)` holds exactly when `u` is one of them |
| Models.EdgeCounted | models.py:66-67 | the `is_following` query (outgoing rows that end at the user, counted, compared with zero) is true exactly when the row (a, b) exists |
| Models.Followed | models.py:58-60 | after `follow` the edge is present, no other edge changes and no duplicate row appears |
| Models.Unfollowed | models.py:62-64 | after `unfollow` the edge is absent, no other edge changes and no duplicate row appears |
| Models.FollowIdempotent | models.py:58-60 | following twice is following once; following an already followed user changes nothing |
| Models.UnfollowAbsent | models.py:62-64 | unfollowing a user who is not followed changes nothing |
| Models.FollowThenUnfollow | models.py:58-64 | a follow of a new user undone by unfollow restores the exact table |
| Models.FollowCounts | models.py:58-73 | a new follow raises the followed user's follower count and the follower's following count by one, and changes no other count; a repeated follow changes none |
| Models.UnfollowCounts | models.py:62-73 | an unfollow of an existing edge lowers exactly those two counts by one; otherwise nothing changes |
| Models.FollowedConsistent | models.py:58-60 | a follow between existing users keeps the invariant |
| Models.UnfollowedConsistent | models.py:62-64 | an unfollow keeps the invariant |
| Models.FollowsChangeConsistent | models.py:7-10 | a duplicate-free `follows` table whose new rows name existing users keeps the database invariant |
| Models.LikesChangeConsistent | models.py:118-124 | a duplicate-free likes table (the unique (user, project) constraint) whose new rows name an existing user and project keeps the invariant |
| Models.CommentAddedConsistent | models.py:126-134 | appending a comment by an existing user on an existing project, stamped now, keeps the invariant |
| Models.ProjectAddedConsistent | models.py:81-97 | appending a project with the next id, an existing owner and the current stamp keeps the invariant |
| Models.UserAddedConsistent | models.py:12-15 | appending a user with the next id whose username and email are not taken keeps the invariant |
| Models.UserIdsReplaced | models.py:12-15 | rewriting a user row in place without changing its id keeps the set of user ids |
| Models.UserReplacedConsistent | models.py:12-15 | rewriting a user row with the same id whose username and email are not used by any other row keeps the invariant |
| Models.ProjectIdsReplaced | models.py:81-97 | rewriting a project row in place without changing its id keeps the set of project ids |
| Models.ProjectReplacedConsistent | models.py:81-97 | rewriting a project row with the same id, owner and creation stamp keeps the invariant |
| Models.WithoutProject | models.py:101-102 | deleting a project removes it, with its likes and comments (the `delete-orphan` cascade); every other project, like and comment, and the users, follows and notifications, are kept; no project, like or comment row is added |
| Models.WithoutProjectConsistent | models.py:101-102 | the cascade delete keeps the invariant: no like or comment is left pointing at the deleted project |
| Models.MarkedRead | routes.py:357-359 | the bulk update setting `read` on the user's unread notifications; `MarkedReadOwn`, `MarkedReadOthers` and `MarkedReadConsistent` state its effect |
| Models.MarkedReadOwn | routes.py:357-359 | after marking, the user has no unread notifications, still has the same number of notifications, and all of them are read |
| Models.MarkedReadOthers | routes.py:357-359 | marking one user's notifications leaves every other user's notifications exactly as they were |
| Models.MarkedReadConsistent | routes.py:357-359 | marking notifications read keeps the invariant |
| Models.Store.IsFollowing | models.py:66-67 | the query's count of outgoing rows that end at `b` is positive; by `EdgeCounted` this is exactly when the row (a, b) exists |
| Models.Store.Follow | models.py:58-60 | keeps the invariant; afterwards `is_following` holds; the new state is the old one with `follows` replaced by `Followed` |
| Models.Store.Unfollow | models.py:62-64 | keeps the invariant; afterwards `is_following` does not hold; the new state is the old one with `follows` replaced by `Unfollowed` |
| Models.Store.InsertLike | routes.py:248-251 | keeps the invariant; the like row is appended and nothing else changes |
| Models.Store.DeleteLike | routes.py:244 | keeps the invariant; the like row is removed and nothing else changes |
| Models.Store.InsertComment | routes.py:276-280 | keeps the invariant; the comment is appended with the current stamp and the clock advances |
| Models.Store.InsertProject | routes.py:154-155 | keeps the invariant; the project gets the next autoincrement id and the current stamp |
| Models.Store.InsertUser | routes.py:58-59 | keeps the invariant; the user gets the next autoincrement id |
| Models.Store.UpdateUser | routes.py:99-113 | keeps the invariant; exactly the one user row is replaced |
| Models.Store.UpdateProject | routes.py:186-203 | keeps the invariant; exactly the one project row is replaced |
| Models.Store.DeleteProject | routes.py:227-228 | keeps the invariant; the new state is `WithoutProject` of the old one |
| Models.Store.MarkAllRead | routes.py:358-359 | keeps the invariant; the new state has the user's notifications marked read |
| Utils.Notified | utils.py:30-41 | one notification row is appended, unread, with the given recipient, type and message; the related user and the project are stored exactly when given; nothing else changes except the clock |
| Utils.NotifiedConsistent | utils.py:30-41 | a notification for an existing user keeps the invariant |
| Utils.NotifiedCounts | utils.py:30-41 | the recipient's unread count and notification count rise by one; every other user's notifications are unchanged |
| Utils.CreateNotification | utils.py:30-41 | the method reaches exactly the state `Notified` describes and keeps the invariant |
| Utils.FileUrl | utils.py:43-47 | a URL exists exactly for a non-empty file name; it is `/uploads/` followed by that name, which can be read back |
| Utils.LastIndexOf | utils.py:10 | `rfind`: the position holds the character and no later position does; -1 when absent |
| Utils.SplitExt | utils.py:10 | `os.path.splitext`: root plus extension is the path, and the extension is empty or a dot followed by no dot and no slash |
| Utils.SavePicture | utils.py:19-26 | the image is resized only when a size is given; `ResizeDecisionAll` states the whole rule |
| Utils.ResizeDecisionAll | utils.py:19-26 | for every upload name split into a stem and the extension `splitext` finds (a non-empty extension after a last path component with a character other than a dot, such as `holiday.2024` + `.JPG`, or no extension after a last component without dots), the stored image is resized exactly when a size is given and the lower-cased extension is one of `.jpg`, `.jpeg`, `.png`, `.gif` |
| Utils.LastIndexOfPrefix | utils.py:10 | `rfind` of a character the appended text does not hold is unchanged by the appending |
| Utils.ExtensionAfterStem | utils.py:10 | a stem whose last component has a non-dot character, followed by a non-empty extension, splits back into that extension, whatever dots come earlier |
| Utils.NoExtension | utils.py:10 | a name whose last path component has no dot has an empty extension |
| Utils.SavePictureKeepsExtension | utils.py:9-28 | the stored path is `folder/` plus the hex token plus the upload's extension, and that stored name has the same extension |
| Utils.ExtensionAfterToken | utils.py:11 | a token without dots or slashes followed by an extension splits back into that extension |
| Utils.PhotoSaved | utils.py:19-26 | `photo.JPG` is resized exactly when a size is given |
| Utils.ClipSaved | utils.py:19-26 | `clip.mp4` is never resized, with or without a size |
| Utils.ResizeDecision | utils.py:19-26 | instances of that rule: `.JPG` with a size is resized (the case-insensitive test); without a size, or for `.mp4`, the file is stored as uploaded |
| Routes.ToggleLike | routes.py:232-264 | `like_project` as a function of the tables; its properties are stated by the five lemmas below and `LikeProject` |
| Routes.ToggleLikeGuards | routes.py:235-238 | an unknown project is 404, an unpublished one 403, and a published one is toggled |
| Routes.ToggleLikeFlips | routes.py:240-264 | the reply says liked exactly when there was no like before; afterwards the like exists exactly when the reply says liked; no other like changes; the count returned is the new count, one more or one fewer than before |
| Routes.ToggleLikeNotifies | routes.py:254-257 | a new like by someone other than the owner appends one unread like notification to the owner, naming the liker and the project, with the message `"<username> liked your project '<title>'"`; an unlike or a self-like notifies no one |
| Routes.ToggleTwice | routes.py:240-252 | toggling twice restores the same set of likes with the same number of rows |
| Routes.ToggleLikeConsistent | routes.py:240-259 | toggling a like keeps the invariant |
| Routes.LikeProject | routes.py:232-264 | the route keeps the invariant; it returns the reply and reaches the state `ToggleLike` gives, or returns its failure with the tables unchanged |
| Routes.LeaveComment | routes.py:266-290 | `add_comment` as a function of the tables; stated by the four lemmas below and `AddComment` |
| Routes.LeaveCommentEffect | routes.py:269-290 | 404/403 exactly as for likes; a comment is added exactly when the CSRF token is accepted and the content is non-blank and at most 1000 characters, appended with the author, the project and the current stamp, and the comment count rises by one; an invalid form changes nothing |
| Routes.LeaveCommentNotifies | routes.py:282-285 | a comment by someone other than the owner appends one comment notification with the message `"<username> commented on your project '<title>'"`; otherwise no notification is added |
| Routes.LeaveCommentConsistent | routes.py:275-287 | leaving a comment keeps the invariant |
| Routes.LeaveCommentPosted | routes.py:275-287 | the exact tables after a valid comment on a published project: the comment row, then the owner's notification unless the commenter is the owner |
| Routes.AddComment | routes.py:266-290 | the route keeps the invariant and reaches exactly the state `LeaveComment` gives, or fails with the tables unchanged |
| Routes.FollowByName | routes.py:292-312 | the `follow` route as a function of the tables; stated by `FollowGuards`, `FollowByNameEffect` and `FollowRoutesConsistent` |
| Routes.UnfollowByName | routes.py:314-329 | the `unfollow` route as a function of the tables; stated by `FollowGuards`, `UnfollowByNameEffect` and `FollowRoutesConsistent` |
| Routes.FollowGuards | routes.py:295-324 | both routes refuse an unknown username and the user's own name, and each refusal happens exactly in that case; one route succeeds exactly when the other does |
| Routes.FollowByNameEffect | routes.py:304-309 | following adds the edge from me to the named user and changes no other edge; it appends one follow notification (`"<username> started following you"`), even when the edge already existed |
| Routes.UnfollowByNameEffect | routes.py:326-327 | unfollowing removes exactly the edge; no notification is sent and no other table changes |
| Routes.FollowRoutesConsistent | routes.py:304-327 | both routes keep the invariant, and a table without self-follow rows gets none |
| Routes.FollowRoutesNoSelf | routes.py:301-327 | the refusal of one's own name means neither route ever writes a self-follow row |
| Routes.FollowUser | routes.py:292-312 | the route reaches exactly the state `FollowByName` gives, or fails with the tables unchanged |
| Routes.UnfollowUser | routes.py:314-329 | the route reaches exactly the state `UnfollowByName` gives, or fails with the tables unchanged |
| Routes.NotificationsView | routes.py:349-361 | the page and the marked tables; stated by `NotificationsViewMarks` and `NotificationsViewPage` |
| Routes.NotificationsViewMarks | routes.py:357-359 | after the page is viewed, the user has no unread notifications, other users' notifications and the other tables are unchanged, and the invariant holds |
| Routes.NoticePage | routes.py:353-355 | from a table in stamp order, a 20-row page of one user's notifications, newest first, holds only that user's notifications, and the pages together hold every one of them |
| Routes.NotificationsViewPage | routes.py:353-355 | the page holds at most 20 of the user's own notifications, newest first, read after the marking; the list it pages holds exactly the user's notifications, and each of them is on some page |
| Routes.ViewNotifications | routes.py:349-361 | the route returns the page and reaches the state `NotificationsView` gives |
| Routes.ProjectDetail | routes.py:163-174 | `project_detail`; stated by `ProjectDetailGuards` and `ProjectDetailComments` |
| Routes.ProjectDetailGuards | routes.py:163-169 | an unknown id is 404; a draft is 403 exactly for a visitor who is not its owner; otherwise the project with that id is shown |
| Routes.ProjectDetailComments | routes.py:172 | the comments shown are exactly the project's comments, newest first |
| Routes.WithForm | routes.py:186-201 | every form field is written to the project; the image and video stay as they were when no file is uploaded; id, owner and stamp are kept |
| Routes.EditProject | routes.py:176-205 | `edit_project`; stated by `EditProjectEffect` |
| Routes.EditProjectEffect | routes.py:179-203 | 404 for an unknown id and 403 for a non-owner (exactly those cases); with a valid form, only that project's row changes, to the form's values; with an invalid form nothing changes; the invariant holds |
| Routes.EditProjectRoute | routes.py:176-205 | the route reaches exactly the state `EditProject` gives, or fails with the tables unchanged |
| Routes.DeleteProject | routes.py:219-230 | `delete_project`; stated by `DeleteProjectEffect` |
| Routes.DeleteProjectEffect | routes.py:222-228 | 404/403 exactly as for editing; on success the project is gone along with its likes and comments, everything else is kept, no project, like or comment row is added, and the invariant holds |
| Routes.DeleteProjectRoute | routes.py:219-230 | the route reaches exactly the state `DeleteProject` gives, or fails with the tables unchanged |
| Routes.CreateProject | routes.py:130-159 | `create_project`; stated by `CreateProjectEffect` and `NewRowIsForm` |
| Routes.CreateProjectEffect | routes.py:134-155 | a project is created exactly when the form is valid; it has a fresh id, the signed-in user as owner and the form's title, tags and published flag; it is appended and no other table changes; the invariant holds |
| Routes.NewRowIsForm | routes.py:135-152 | the row built field by field is the form applied to an empty project |
| Routes.CreateProjectRoute | routes.py:130-159 | the route reaches the state and returns the id that `CreateProject` gives |
| Routes.WithProfile | routes.py:99-111 | every profile field is written from the form; the picture changes only when one is uploaded; id and password hash are kept |
| Routes.EditProfile | routes.py:80-115 | `edit_profile`; stated by `EditProfileGuards` and `EditProfileEffect` |
| Routes.EditProfileGuards | routes.py:86-97 | a changed username taken by someone is refused; otherwise a changed email that is taken is refused; these are the only refusals, and each happens exactly then |
| Routes.EditProfileEffect | routes.py:99-113 | on success only the user's own row changes, to the form's values; no other user shares the new username or email; the invariant holds |
| Routes.EditProfileRoute | routes.py:80-115 | the route reaches exactly the state `EditProfile` gives, or fails with the tables unchanged |
| Routes.Register | routes.py:45-61 | `register`; stated by `RegisterEffect` |
| Routes.RegisterEffect | routes.py:47-61 | a signed-in visitor is sent away; registration succeeds exactly for a valid form with a free username and email; a rejection reports which of them is taken; on success one user is appended with a fresh id, the form's names and the hash of the password, and the invariant holds |
| Routes.RegisterRoute | routes.py:45-61 | the route reaches exactly the state `Register` gives, or fails with the tables unchanged |
| Routes.IndexPage | routes.py:15-20 | the home page's project list; stated by `IndexIs` |
| Routes.IndexIs | routes.py:18-20 | the home page lists exactly the published projects, newest first; every one of them is on some page; a page holds at most 12 |
| Routes.ProfilePage | routes.py:71-78 | `profile`, reading `user.projects` as the user's projects; stated by `ProfileIs` |
| Routes.ProfileIs | routes.py:73-76 | an unknown username is 404; otherwise the user's published projects, newest first, at most 9 per page, each on some page |
| Routes.ProjectCountIsProfileSize | models.py:75-76 | the project count equals the number of projects the profile pages list and the number of distinct project ids among them |
| Routes.FeedIdsAre | routes.py:338-339 | the feed's owner list holds exactly the signed-in user and the users they follow |
| Routes.FeedIs | routes.py:338-345 | the feed lists exactly the published projects of the user and of the users they follow, newest first |
| Routes.FeedPage | routes.py:331-347 | `feed`; stated by `FeedIs` and `FeedPageIs` |
| Routes.FeedPageIs | routes.py:341-345 | a feed page holds at most 10 of those projects, newest first, and every one of them is on some page |
| Routes.Search | routes.py:381-411 | `search`; stated by `SearchProjectsAre` and `SearchUsersAre` |
| Routes.SearchProjectsAre | routes.py:387-397 | an empty query shows no results; otherwise exactly the published projects whose title, description or tags contain the query, newest first, at most 12 per page |
| Routes.SearchUsersAre | routes.py:399-406 | at most 10 users, each containing the query in their username, first or last name, in table order; when no more than 10 match, all of them are listed |
| Validation.Utf16Length | static/js/main.js:194 | the JavaScript `length` is between the number of characters and twice it, and equals it for text inside the Basic Multilingual Plane |
| Validation.IsEmailMatchesPattern | static/js/main.js:175-176 | the direct check accepts exactly the values of the shape `[^\s@]+@[^\s@]+\.[^\s@]+` |
| Validation.ValidateField | static/js/main.js:162-219 | the field is invalid exactly when a message is shown |
| Validation.BlankFields | static/js/main.js:168-171 | a blank required field gets "This field is required." whatever its type; a blank optional field is valid |
| Validation.EmailFieldRule | static/js/main.js:174-179 | a non-blank email field is valid exactly when it matches the email pattern, and otherwise shows the email message |
| Validation.PasswordFieldRule | static/js/main.js:193-197 | a non-blank password field is invalid exactly when shorter than 6, with the password message |
| Validation.UsernameFieldRule | static/js/main.js:201-208 | a non-blank username field is refused when shorter than 3; otherwise it is valid exactly when every character is a letter, digit or underscore |
| Validation.FirstRuleOnly | static/js/main.js:174-209 | only the first applicable rule runs: a password field named `username` skips the username rules, and an email field never consults the URL parser |
| Validation.FileAccepted | static/js/main.js:430-435 | an input with no file is never refused |
| Validation.FileLimit | static/js/main.js:430-435 | the limit is 16 MiB inclusive: 16777216 bytes is kept, 16777217 refused |
| Findings.EditProjectAsWritten | routes.py:176-183 | `edit_project` as written: 404, or a 500 for every existing project |
| Findings.DeleteProjectAsWritten | routes.py:219-226 | `delete_project` as written: 404, or a 500 for every existing project |
| Findings.OwnerGuardFails | routes.py:181 | the owner of a project gets a 500 from both handlers as written, where the intended ones edit it and delete it with its likes and comments |
| Findings.ToggleLikeAsWritten | routes.py:232-264 | `like_project` as written: an unlike works, a new like fails with a 500 and is rolled back |
| Findings.NewLikeFails | routes.py:255 | as written no like is ever added, where the intended handler adds it and replies liked; an unlike agrees with the intended handler |
| Findings.LeaveCommentAsWritten | routes.py:266-290 | `add_comment` as written: an invalid form writes nothing, a valid one fails with a 500 and is rolled back |
| Findings.ValidCommentFails | routes.py:283 | as written no comment is ever stored, where the intended handler stores every valid one; an invalid form agrees with the intended handler |
| Findings.ProjectDetailAsWritten | routes.py:163-174 | `project_detail` as written: an anonymous visitor of a draft gets 403, a signed-in one a 500 |
| Findings.DraftViewFails | routes.py:168 | as written the owner cannot see their own draft, where the intended handler shows it; published projects and anonymous visitors agree with the intended handler |
| Findings.ProfilePageAsWritten | routes.py:71-78 | `profile` as written: 404, or a 500 for every existing user |
| Findings.ProfileFails | routes.py:75 | as written no profile page is shown, where the intended handler shows every existing user's; an unknown name is 404 in both |

## Left out

- Rendering, flash messages, redirects and JSON formatting are left out: only the data returned and the tables written are modelled.
- `uploaded_file`, `logout` and the 403/404 error pages (routes.py:11-13, 65-69, 413-420) are left out, because they only serve files or templates.
- The `login` route (routes.py:27-43) is left out. It depends on password-hash checking and Flask-Login's session, which are outside the model; registration stores `hash(password)` through the parameter `hash`.
- The popular-projects query on the home page (routes.py:23) is left out. It groups and orders in SQL by like counts, and the page's listed projects do not depend on it.
- The followers and following list pages (routes.py:363-379) are left out as separate routes. Their contents are `Followers`/`Followees`, whose sizes `FollowCountsAreUsers` relates to the counts.
- The WTForms validators of the registration, profile and project forms, their CSRF token check included, are the parameter `formOk`. Only the comment form is written out; its CSRF token check is the parameter `tokenOk`, because the token comes from the session.
- `Routes.SearchProjectsAre` uses exact, case-sensitive substring search. The SQL `LIKE` that `contains` issues is case-insensitive for ASCII letters on some databases (SQLite among them), and `%` or `_` in the query act as wildcards; neither is modelled.
- Routes.SearchUsersAre: uses exact, case-sensitive substring search on the username, first and last name (routes.py:399-406); the case-insensitive ASCII match and the `%` and `_` wildcards of SQL `LIKE` are not modelled.
- `Routes.SearchUsersAre` reads the users in table order. The SQL query has no `ORDER BY`, so the database may return another order.
- `Utils.SavePicture` leaves out the image decoding and thumbnailing (PIL), `makedirs` and the file write. The random token is a parameter.
- An `Upload` may carry an empty file name, which would be stored as `folder/token` without an extension. Flask-WTF's `FileField` gives no file for an upload without a name, so the program never reaches that case; the model admits it rather than restricting the form type.
- `Text.Lower` lower-cases ASCII only, where Python's `lower` covers all of Unicode. For the comparison with the four image extensions this makes no difference.
- The transactions, the concurrent-request races and the `IntegrityError` of the unique like constraint are left out. `ToggleLike` never inserts a duplicate, so the constraint cannot fire in the model.
- `User.created_at` (models.py:25), `Like.created_at` (models.py:122), `updated_at`, `last_seen`, `password2` and `remember_me` are left out, because no modelled operation reads them. Row ids of likes, comments and notifications are left out because nothing refers to them.
- Two rows created within one clock tick would share a `created_at` value, and their order would then be up to the database. The model's clock advances on every insertion of a project, comment or notification, so those stamps are strictly increasing.
- Notifications keep their project id after that project is deleted. The relationship has no cascade, so the model keeps the dangling reference.
- Project ids are never reused: `nextProjectId` only grows. SQLite without `AUTOINCREMENT` hands out the largest id in use plus one, so after the newest project is deleted its id goes to the next project, and a notification still holding the old id then points at the new project; this reuse is not modelled.
- `Routes.NotificationsViewPage` lists the notifications as stored after the marking. The commit expires the session's objects, so the template reloads them as read.
- `Validation.ValidateField` takes the URL branch's `new URL(value)` as the parameter `urlParses`, and the rest of main.js (UI wiring, animations, AJAX calls) is left out.

## Findings

models.py gives `Project` the relationship `user` with backref `projects_rel`; the backref `author` exists only on comments (from `User.comments`). So `project.author` and `user.projects` raise `AttributeError`, and the request ends in the 500 handler, which rolls the session back.

| source | as written | input that shows it | evidently intended | confidence | as-written member | corrected member |
|---|---|---|---|---|---|---|
| routes.py:181 | `project.author != current_user` in `edit_project` | the owner editing any existing project | compare the project's owner (`project.user`) with the current user | high; not executed | Findings.EditProjectAsWritten, Findings.OwnerGuardFails | Routes.EditProject |
| routes.py:224 | the same test in `delete_project` | the owner deleting any existing project | the same owner test | high; not executed | Findings.DeleteProjectAsWritten, Findings.OwnerGuardFails | Routes.DeleteProject |
| routes.py:255 | `project.author` in the notification test of `like_project` | any signed-in user liking a published project not yet liked | notify the project's owner | high; not executed | Findings.ToggleLikeAsWritten, Findings.NewLikeFails | Routes.ToggleLike |
| routes.py:283 | `project.author` in the notification test of `add_comment` | any valid comment on a published project | notify the project's owner | high; not executed | Findings.LeaveCommentAsWritten, Findings.ValidCommentFails | Routes.LeaveComment |
| routes.py:168 | `project.author != current_user` in `project_detail` | the owner, signed in, opening their unpublished project | show the draft to its owner | high; not executed | Findings.ProjectDetailAsWritten, Findings.DraftViewFails | Routes.ProjectDetail |
| routes.py:75 | `user.projects.filter_by(...)` in `profile` | any existing username | the user's projects (`Project.query.filter_by(user_id=user.id)`) | high; not executed | Findings.ProfilePageAsWritten, Findings.ProfileFails | Routes.ProfilePage |

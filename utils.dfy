/** The helpers of utils.py: notification creation, upload URLs and the name and branch
    logic of saving an upload. */
module Utils {
  import opened Wrappers
  import opened Seqs
  import opened Text
  import opened Models

  // ---------------------------------------------------------------------------------------
  // create_notification

  /** The tables after `create_notification`: one unread notification row appended, stamped
      with the current clock reading; the related user and the project are stored exactly
      when they are passed. */
  function Notified(t: Tables, recipient: UserId, kind: NoticeKind, message: string,
                    related: Option<UserId>, project: Option<ProjectId>): (r: Tables)
    ensures |r.notifications| == |t.notifications| + 1
    ensures r.notifications[..|t.notifications|] == t.notifications
    ensures var n := r.notifications[|t.notifications|];
            n.recipient == recipient && n.kind == kind && n.message == message && !n.read
            && (n.relatedUser.Some? <==> related.Some?) && (n.project.Some? <==> project.Some?)
            && n.relatedUser == related && n.project == project
    ensures r.(notifications := t.notifications, clock := t.clock) == t
  {
    t.(notifications := t.notifications + [Notification(recipient, kind, message, false, related, project, t.clock)],
       clock := t.clock + 1)
  }

  /** A notification for an existing user keeps the database invariant. */
  lemma NotifiedConsistent(t: Tables, recipient: UserId, kind: NoticeKind, message: string,
                           related: Option<UserId>, project: Option<ProjectId>)
    requires Consistent(t) && recipient in UserIds(t.users)
    ensures Consistent(Notified(t, recipient, kind, message, related, project))
  {
    var r := Notified(t, recipient, kind, message, related, project);
    var ns := r.notifications;
    assert forall i :: 0 <= i < |t.notifications| ==> ns[i] == t.notifications[i];
    assert NotificationsOrdered(ns, r.clock);
    assert KeysExist(r);
  }

  /** The recipient gains one unread notification; nobody else's notifications change. */
  lemma NotifiedCounts(t: Tables, recipient: UserId, kind: NoticeKind, message: string,
                       related: Option<UserId>, project: Option<ProjectId>, u: UserId)
    ensures var r := Notified(t, recipient, kind, message, related, project);
            UnreadCount(r.notifications, u) == UnreadCount(t.notifications, u) + (if u == recipient then 1 else 0)
            && |NotificationsOf(r.notifications, u)| == |NotificationsOf(t.notifications, u)| + (if u == recipient then 1 else 0)
            && (u != recipient ==> NotificationsOf(r.notifications, u) == NotificationsOf(t.notifications, u))
  {
    var n := Notification(recipient, kind, message, false, related, project, t.clock);
    FilterAppend(t.notifications, n, UnreadFor(u));
    FilterAppend(t.notifications, n, AddressedTo(u));
  }

  /** `create_notification(user, type, message, related_user, project)`: the row is built
      field by field and added to the session. */
  method CreateNotification(s: Store, recipient: UserId, kind: NoticeKind, message: string,
                            related: Option<UserId>, project: Option<ProjectId>)
    requires s.Valid() && recipient in UserIds(s.users)
    modifies s
    ensures s.Valid()
    ensures s.State() == Notified(old(s.State()), recipient, kind, message, related, project)
  {
    ghost var t := s.State();
    var n := Notification(recipient, kind, message, false, None, None, s.clock);
    if related.Some? {
      n := n.(relatedUser := related);
    }
    if project.Some? {
      n := n.(project := project);
    }
    s.notifications := s.notifications + [n];
    s.clock := s.clock + 1;
    assert s.State() == Notified(t, recipient, kind, message, related, project);
    NotifiedConsistent(t, recipient, kind, message, related, project);
  }

  // ---------------------------------------------------------------------------------------
  // get_file_url

  const UploadsPrefix: string := "/uploads/"

  /** `get_file_url`: the URL of a stored upload, none for a missing or empty file name;
      the file name can be read back from the URL. */
  function FileUrl(filename: Option<string>): (r: Option<string>)
    ensures r.Some? <==> filename.Some? && filename.value != []
    ensures r.Some? ==> |r.value| > |UploadsPrefix| && r.value[..|UploadsPrefix|] == UploadsPrefix
                        && r.value[|UploadsPrefix|..] == filename.value
  {
    match filename
    case Some(f) => if f != [] then Some(UploadsPrefix + f) else None
    case None => None
  }

  // ---------------------------------------------------------------------------------------
  // save_picture: the stored name and the resize decision

  /** The last position of `c` in `s`, or -1 (Python's `str.rfind`). */
  function LastIndexOf(s: string, c: char): (r: int)
    ensures -1 <= r < |s|
    ensures r >= 0 ==> s[r] == c
    ensures forall j :: r < j < |s| ==> s[j] != c
  {
    if s == [] then -1
    else if s[|s| - 1] == c then |s| - 1
    else LastIndexOf(s[..|s| - 1], c)
  }

  /** The position `rfind` reports is the one after which `c` no longer occurs. */
  lemma LastIndexOfIs(s: string, c: char, k: int)
    requires 0 <= k < |s| && s[k] == c
    requires forall j :: k < j < |s| ==> s[j] != c
    ensures LastIndexOf(s, c) == k
  {
  }

  /** The shape of an extension `splitext` returns: empty, or a dot followed by no further
      dot and no slash. */
  predicate IsExtension(e: string) {
    e == [] || (e[0] == '.' && '.' !in e[1..] && '/' !in e)
  }

  /** Python's `os.path.splitext` on POSIX paths: the extension starts at the last dot of the
      last path component, unless that component consists of dots up to there (a name like
      `.bashrc` has no extension). */
  function SplitExt(p: string): (r: (string, string))
    ensures r.0 + r.1 == p
    ensures IsExtension(r.1)
  {
    var sep := LastIndexOf(p, '/');
    var dot := LastIndexOf(p, '.');
    if dot > sep && exists k :: sep + 1 <= k < dot && p[k] != '.' then
      assert p[..dot] + p[dot..] == p;
      assert forall j :: 0 <= j < |p[dot..]| ==> p[dot..][j] == p[dot + j];
      (p[..dot], p[dot..])
    else
      assert p + [] == p;
      (p, [])
  }

  /** What `secrets.token_hex(8)` returns: sixteen lower-case hexadecimal digits. */
  predicate IsHexToken(t: string) {
    |t| == 16 && forall i :: 0 <= i < |t| ==> ('0' <= t[i] <= '9' || 'a' <= t[i] <= 'f')
  }

  /** The extensions `save_picture` resizes, compared after lower-casing. */
  predicate IsImageExtension(e: string) {
    e == ".jpg" || e == ".jpeg" || e == ".png" || e == ".gif"
  }

  /** The outcome of `save_picture`: the path it returns (relative to the uploads folder)
      and whether the image was resized rather than written as uploaded. */
  datatype Saved = Saved(path: string, resized: bool)

  /** `save_picture(form_picture, folder, size)` with the random token as a parameter. */
  function SavePicture(folder: string, filename: string, token: string, size: Option<(nat, nat)>): (r: Saved)
    ensures r.resized ==> size.Some?
  {
    var ext := SplitExt(filename).1;
    Saved(folder + "/" + token + ext, size.Some? && IsImageExtension(Lower(ext)))
  }

  /** A name made of a token without dots or slashes and an extension has that extension. */
  lemma {:induction false} ExtensionAfterToken(token: string, ext: string)
    requires token != [] && '.' !in token && '/' !in token
    requires IsExtension(ext)
    ensures SplitExt(token + ext).1 == ext
  {
    var p := token + ext;
    var sep := LastIndexOf(p, '/');
    var dot := LastIndexOf(p, '.');
    forall j | 0 <= j < |p| ensures p[j] != '/' {
      if j < |token| { assert p[j] == token[j]; } else { assert p[j] == ext[j - |token|]; }
    }
    assert sep == -1;
    if ext == [] {
      assert p == token;
      assert dot == -1;
    } else {
      assert p[|token|] == '.';
      forall j | |token| < j < |p| ensures p[j] != '.' {
        assert p[j] == ext[1..][j - |token| - 1];
      }
      assert dot == |token|;
      assert p[0] == token[0] && token[0] != '.';
      assert p[dot..] == ext;
    }
  }

  /** The file name `save_picture` stores keeps the extension of the uploaded file's name,
      and the returned path is the folder, a slash and that name. */
  lemma SavePictureKeepsExtension(folder: string, filename: string, token: string, size: Option<(nat, nat)>)
    requires IsHexToken(token)
    ensures var r := SavePicture(folder, filename, token, size);
            var name := token + SplitExt(filename).1;
            r.path == folder + "/" + name && SplitExt(name).1 == SplitExt(filename).1
  {
    assert token[0] in token;
    assert '.' !in token && '/' !in token by {
      forall i | 0 <= i < |token| ensures token[i] != '.' && token[i] != '/' { }
    }
    ExtensionAfterToken(token, SplitExt(filename).1);
  }

  lemma PhotoExtension()
    ensures SplitExt("photo.JPG").1 == ".JPG"
  {
    assert LastIndexOf("photo.JPG", '/') == -1;
    LastIndexOfIs("photo.JPG", '.', 5);
    assert "photo.JPG"[0] != '.';
    assert "photo.JPG"[5..] == ".JPG";
  }

  lemma ClipExtension()
    ensures SplitExt("clip.mp4").1 == ".mp4"
  {
    assert LastIndexOf("clip.mp4", '/') == -1;
    LastIndexOfIs("clip.mp4", '.', 4);
    assert "clip.mp4"[0] != '.';
    assert "clip.mp4"[4..] == ".mp4";
  }

  /** `photo.JPG` is resized exactly when a size is given. */
  lemma PhotoSaved(folder: string, token: string, size: Option<(nat, nat)>)
    ensures SavePicture(folder, "photo.JPG", token, size).resized <==> size.Some?
  {
    PhotoExtension();
    var jpg := Lower(".JPG");
    assert jpg[0] == '.' && jpg[1] == 'j' && jpg[2] == 'p' && jpg[3] == 'g';
    assert jpg == ".jpg";
    assert IsImageExtension(Lower(SplitExt("photo.JPG").1));
  }

  /** `clip.mp4` is never resized. */
  lemma ClipSaved(folder: string, token: string, size: Option<(nat, nat)>)
    ensures !SavePicture(folder, "clip.mp4", token, size).resized
  {
    ClipExtension();
    assert Lower(".mp4")[1] == 'm';
  }

  /** The last path component of `stem` (after its last slash) has a character other than
      a dot, so a dot after it starts an extension. */
  predicate NamedStem(stem: string) {
    exists k :: LastIndexOf(stem, '/') < k < |stem| && stem[k] != '.'
  }

  /** The last path component of `stem` has no dot. */
  predicate DotlessStem(stem: string) {
    forall k :: LastIndexOf(stem, '/') < k < |stem| ==> stem[k] != '.'
  }

  /** `rfind` of a character that `e` does not hold finds in `stem + e` what it finds in `stem`. */
  lemma LastIndexOfPrefix(stem: string, e: string, c: char)
    requires c !in e
    ensures LastIndexOf(stem + e, c) == LastIndexOf(stem, c)
  {
    var p := stem + e;
    var k := LastIndexOf(stem, c);
    forall j | k < j < |p| ensures p[j] != c {
      if j < |stem| { assert p[j] == stem[j]; } else { assert p[j] == e[j - |stem|]; }
    }
    if k >= 0 {
      assert p[k] == stem[k];
      LastIndexOfIs(p, c, k);
    }
  }

  /** A name whose last component has a non-dot character before an extension `e` splits
      back into `e`, whatever dots come earlier in the name. */
  lemma ExtensionAfterStem(stem: string, e: string)
    requires IsExtension(e) && e != [] && NamedStem(stem)
    ensures SplitExt(stem + e).1 == e
  {
    var p := stem + e;
    LastIndexOfPrefix(stem, e, '/');
    var sep := LastIndexOf(p, '/');
    assert p[|stem|] == '.';
    forall j | |stem| < j < |p| ensures p[j] != '.' {
      assert p[j] == e[1..][j - |stem| - 1];
    }
    LastIndexOfIs(p, '.', |stem|);
    var k :| LastIndexOf(stem, '/') < k < |stem| && stem[k] != '.';
    assert sep + 1 <= k < |stem| && p[k] != '.';
    assert p[|stem|..] == e;
  }

  /** A name whose last component has no dot has no extension. */
  lemma NoExtension(stem: string)
    requires DotlessStem(stem)
    ensures SplitExt(stem).1 == []
  {
    var dot := LastIndexOf(stem, '.');
    if dot > LastIndexOf(stem, '/') { assert stem[dot] == '.'; }
  }

  /** The resize branch is taken exactly when a size is given and the extension of the
      uploaded name, lower-cased, is `.jpg`, `.jpeg`, `.png` or `.gif`: for any name split
      into a stem and the extension `splitext` finds in it, dots in the stem included. */
  lemma ResizeDecisionAll(folder: string, stem: string, e: string, token: string, size: Option<(nat, nat)>)
    requires IsExtension(e) && (if e == [] then DotlessStem(stem) else NamedStem(stem))
    ensures SavePicture(folder, stem + e, token, size).resized <==> size.Some? && IsImageExtension(Lower(e))
  {
    if e == [] {
      assert stem + e == stem;
      NoExtension(stem);
    } else {
      ExtensionAfterStem(stem, e);
    }
  }

  /** Instances of that rule: `.JPG` with a size is resized, since the test ignores letter
      case; without a size, or for `.mp4`, the file is stored as uploaded. */
  lemma ResizeDecision(folder: string, token: string)
    ensures SavePicture(folder, "photo.JPG", token, Some((300, 300))).resized
    ensures !SavePicture(folder, "photo.JPG", token, None).resized
    ensures !SavePicture(folder, "clip.mp4", token, Some((800, 600))).resized
  {
    PhotoSaved(folder, token, Some((300, 300)));
    PhotoSaved(folder, token, None);
    ClipSaved(folder, token, Some((800, 600)));
  }
}

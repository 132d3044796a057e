/** The avatar store: one directory of files shared by all users' requests on one event loop. An upload
    removes the user's old file, creates the new one, is suspended while its body is read, and then
    writes; removals and lookups run between any two of those moments. */
module Avatars {
  import opened Basics

  type Bytes = seq<int>

  // ---- Names ------------------------------------------------------------------------------------

  /** A user id with no dot, separator or glob character in it. */
  predicate ValidUser(user: string) {
    user != "" && forall c :: c in user ==> c !in {'.', '/', '*', '?', '['}
  }

  /** The last position of a character below `end`, or -1. */
  function LastIndex(s: string, c: char, end: nat): (i: int)
    requires end <= |s|
    ensures -1 <= i < end
    ensures i >= 0 ==> s[i] == c
    ensures forall k :: i < k < end ==> s[k] != c
  {
    if end == 0 then -1 else if s[end - 1] == c then end - 1 else LastIndex(s, c, end - 1)
  }

  /** `os.path.splitext(filename)[1]`: from the last dot of the last component on, unless only dots
      stand before it there. */
  function Extension(filename: string): (ext: string)
    ensures ext == "" || (ext[0] == '.' && forall k :: 1 <= k < |ext| ==> ext[k] != '.' && ext[k] != '/')
    ensures |ext| <= |filename| && ext == filename[|filename| - |ext|..]
  {
    var slash := LastIndex(filename, '/', |filename|);
    var dot := LastIndex(filename, '.', |filename|);
    if dot > slash && exists k :: slash < k < dot && filename[k] != '.' then filename[dot..] else ""
  }

  /** The last component of the path has something other than a dot in it. */
  predicate HasStem(front: string) {
    exists k ::
      0 <= k < |front| && front[k] != '.' && front[k] != '/' && forall j :: k <= j < |front| ==> front[j] != '/'
  }

  lemma LastIndexIs(s: string, c: char, at: int)
    requires -1 <= at < |s| && (at >= 0 ==> s[at] == c) && forall k :: at < k < |s| ==> s[k] != c
    ensures LastIndex(s, c, |s|) == at
  {
  }

  /** A name's extension is what follows its last dot, unless nothing but dots comes before that in the
      last component, or the last component has no dot. */
  lemma ExtensionOf(front: string, last: string)
    requires forall k :: 0 <= k < |last| ==> last[k] != '.' && last[k] != '/'
    ensures Extension(front + "." + last) == if HasStem(front) then "." + last else ""
  {
    var name := front + "." + last;
    var slash := LastIndex(front, '/', |front|);
    DotAndSlash(front, last, slash);
    if HasStem(front) {
      var k :| 0 <= k < |front| && front[k] != '.' && front[k] != '/'
               && forall j :: k <= j < |front| ==> front[j] != '/';
      assert slash < k && name[k] != '.';
    } else {
      forall k | slash < k < |front| ensures name[k] == '.' {
        assert name[k] == front[k];
      }
    }
  }

  lemma DotAndSlash(front: string, last: string, slash: int)
    requires forall k :: 0 <= k < |last| ==> last[k] != '.' && last[k] != '/'
    requires slash == LastIndex(front, '/', |front|)
    ensures var name := front + "." + last;
            && LastIndex(name, '.', |name|) == |front| && LastIndex(name, '/', |name|) == slash
            && name[|front|..] == "." + last
            && forall k :: 0 <= k < |front| ==> name[k] == front[k]
  {
    var name := front + "." + last;
    assert forall k :: 0 <= k < |front| ==> name[k] == front[k];
    assert forall k :: |front| < k < |name| ==> name[k] == last[k - |front| - 1];
    LastIndexIs(name, '.', |front|);
    LastIndexIs(name, '/', slash);
  }

  lemma NoExtension(front: string, last: string)
    requires forall k :: 0 <= k < |last| ==> last[k] != '.' && last[k] != '/'
    ensures Extension(front + "/" + last) == "" && Extension(last) == ""
  {
    var path := front + "/" + last;
    assert forall k :: |front| < k < |path| ==> path[k] == last[k - |front| - 1];
    LastIndexIs(path, '/', |front|);
    LastIndexIs(last, '.', -1);
  }

  /** The glob pattern `id.*`. */
  predicate Matches(name: string, user: string) {
    |user| < |name| && name[..|user|] == user && name[|user|] == '.'
  }

  lemma DotPrefix(user: string)
    ensures forall name: string :: Matches(name, user) <==> user + "." <= name
  {
    forall name: string ensures Matches(name, user) <==> user + "." <= name {
      if Matches(name, user) {
        assert name[..|user| + 1] == user + ".";
      }
    }
  }

  /** The names a user's requests may create: the id alone, or the id and an extension. */
  predicate Owns(user: string, name: string) {
    name == user || Matches(name, user)
  }

  lemma OneOwner(u: string, v: string, name: string)
    requires ValidUser(u) && ValidUser(v) && Owns(u, name) && Owns(v, name)
    ensures u == v
  {
    if |u| < |v| {
      NoDotAt(v, |u|);
    } else if |v| < |u| {
      NoDotAt(u, |v|);
    }
  }

  lemma NoDotAt(user: string, k: nat)
    requires ValidUser(user) && k < |user|
    ensures user[k] != '.'
  {
    assert user[k] in user;
  }

  lemma NewName(user: string, filename: string)
    requires ValidUser(user)
    ensures Owns(user, user + Extension(filename))
    ensures Matches(user + Extension(filename), user) <==> Extension(filename) != ""
  {
  }

  // ---- The file system and the uploads in flight ----------------------------------------------------

  /** An upload suspended in its read: it holds the file it opened, whatever the directory says since. */
  datatype Upload = Upload(user: string, name: string, inode: nat, content: Bytes)

  datatype Store = Store(
    dir: map<string, nat>,
    files: map<nat, Bytes>,
    next: nat,
    uploads: map<nat, Upload>)

  datatype Step =
    | BeginUpload(task: nat, user: string, filename: string, content: Bytes, victim: Option<string>)
    | OpenFails(user: string, victim: Option<string>)
    | FinishUpload(task: nat)
    | UploadFails(task: nat, written: nat)   // the read fails, or the write part way
    | Remove(user: string, victim: Option<string>)

  /** Writing at the start of a file that was not truncated since: a longer old tail survives. */
  function Overlay(was: Bytes, written: Bytes): Bytes {
    if |written| < |was| then written + was[|written|..] else written
  }

  /** The file the glob lists first, if any: some match. */
  predicate FirstMatch(dir: map<string, nat>, user: string, victim: Option<string>) {
    match victim
    case None => forall name :: name in dir ==> !Matches(name, user)
    case Some(name) => name in dir && Matches(name, user)
  }

  function Unlink(dir: map<string, nat>, victim: Option<string>): map<string, nat> {
    if victim.Some? then dir - {victim.value} else dir
  }

  predicate Enabled(s: Store, step: Step) {
    match step
    case BeginUpload(task, user, _, _, victim) =>
      task !in s.uploads && ValidUser(user) && FirstMatch(s.dir, user, victim)
    case OpenFails(user, victim) => ValidUser(user) && FirstMatch(s.dir, user, victim)
    case FinishUpload(task) => task in s.uploads && s.uploads[task].inode in s.files
    case UploadFails(task, written) =>
      task in s.uploads && s.uploads[task].inode in s.files && written <= |s.uploads[task].content|
    case Remove(user, victim) => ValidUser(user) && FirstMatch(s.dir, user, victim)
  }

  /** Opening for writing: an existing file is truncated where it is, a new one gets a new inode. */
  function Open(s: Store, dir: map<string, nat>, task: nat, user: string, name: string, content: Bytes): Store {
    var inode := if name in dir then dir[name] else s.next;
    Store(dir[name := inode], s.files[inode := []], if name in dir then s.next else s.next + 1,
          s.uploads[task := Upload(user, name, inode, content)])
  }

  function Apply(s: Store, step: Step): Store
    requires Enabled(s, step)
  {
    match step
    case BeginUpload(task, user, filename, content, victim) =>
      Open(s, Unlink(s.dir, victim), task, user, user + Extension(filename), content)
    case OpenFails(user, victim) => s.(dir := Unlink(s.dir, victim))
    case FinishUpload(task) =>
      var u := s.uploads[task];
      s.(files := s.files[u.inode := Overlay(s.files[u.inode], u.content)], uploads := s.uploads - {task})
    case UploadFails(task, written) =>
      var u := s.uploads[task];
      s.(files := s.files[u.inode := Overlay(s.files[u.inode], u.content[..written])], uploads := s.uploads - {task})
    case Remove(user, victim) => s.(dir := Unlink(s.dir, victim))
  }

  ghost predicate Run(s: Store, steps: seq<Step>)
    decreases |steps|
  {
    steps == [] || (Enabled(s, steps[0]) && Run(Apply(s, steps[0]), steps[1..]))
  }

  ghost function Final(s: Store, steps: seq<Step>): Store
    requires Run(s, steps)
    decreases |steps|
  {
    if steps == [] then s else Final(Apply(s, steps[0]), steps[1..])
  }

  // ---- The code -------------------------------------------------------------------------------------

  datatype Reply = Success(name: string) | Unprocessable | RemoveFailed | NotFound | Done

  /** What the operating system refuses during a request. */
  datatype Fault = NoFault | RemoveRefused | OpenRefused

  class AvatarService {
    var dir: map<string, nat>
    var files: map<nat, Bytes>
    var next: nat
    var uploads: map<nat, Upload>

    ghost function State(): Store
      reads this
    {
      Store(dir, files, next, uploads)
    }

    constructor ()
      ensures Inv(State()) && State() == Store(map[], map[], 0, map[])
    {
      dir, files, next, uploads := map[], map[], 0, map[];
    }

    /** `glob.glob`: the matching names, in the order the directory happens to list them. */
    method Glob(user: string) returns (names: seq<string>)
      ensures forall n :: n in names <==> n in dir && Matches(n, user)
    {
      names := [];
      var left := dir.Keys;
      while left != {}
        invariant left <= dir.Keys
        invariant forall n :: n in names <==> n in dir && n !in left && Matches(n, user)
        decreases |left|
      {
        ghost var some := SomeMember(left);
        var n :| n in left;
        left := left - {n};
        if Matches(n, user) {
          names := names + [n];
        }
      }
    }

    /** `remove_avatar`; `refused` is the removal failing with an error. */
    method RemoveAvatar(user: string, refused: bool) returns (reply: Reply, ghost victim: Option<string>)
      requires ValidUser(user)
      modifies this
      ensures FirstMatch(old(dir), user, victim)
      ensures reply == if refused && victim.Some? then RemoveFailed else Done
      ensures State() == if reply.Done? then Apply(old(State()), Remove(user, victim)) else old(State())
      ensures if victim.Some? then victim.value in old(dir) && user + "." <= victim.value
              else forall n :: n in old(dir) ==> !(user + "." <= n)
      ensures dir == if reply.Done? && victim.Some? then old(dir) - {victim.value} else old(dir)
      ensures files == old(files) && next == old(next) && uploads == old(uploads)
    {
      DotPrefix(user);
      var matching := Glob(user);
      if matching == [] {
        victim := None;
        return Done, victim;
      }
      victim := Some(matching[0]);
      assert matching[0] in matching;
      if refused {
        return RemoveFailed, victim;
      }
      dir := dir - {matching[0]};
      reply := Done;
    }

    /** `upload_avatar` up to its read. The request's task is new, and waits only when nothing failed. */
    method BeginUpload(task: nat, user: string, filename: string, content: Bytes, fault: Fault)
        returns (failed: Option<Reply>, ghost victim: Option<string>)
      requires ValidUser(user) && task !in uploads
      modifies this
      ensures FirstMatch(old(dir), user, victim)
      ensures failed == if fault.RemoveRefused? && victim.Some? then Some(RemoveFailed)
                        else if fault.OpenRefused? then Some(Unprocessable) else None
      ensures failed == Some(RemoveFailed) ==> State() == old(State())
      ensures failed == Some(Unprocessable) ==> State() == Apply(old(State()), OpenFails(user, victim))
      ensures failed == None ==> State() == Apply(old(State()), Step.BeginUpload(task, user, filename, content, victim))
      ensures failed == Some(Unprocessable) ==> victim.None? || victim.value !in dir
      ensures failed == None ==>
                && var name := user + Extension(filename);
                && name in dir && dir[name] in files && files[dir[name]] == []
                && uploads == old(uploads)[task := Upload(user, name, dir[name], content)]
                && (victim.Some? && victim.value != name ==> victim.value !in dir)
                && (if victim != Some(name) && name in old(dir) then dir[name] == old(dir)[name]
                    else dir[name] == old(next))
                && (forall n :: n in old(dir) && n != name && victim != Some(n) ==> n in dir && dir[n] == old(dir)[n])
                && (forall i :: i in old(files) && i != dir[name] ==> i in files && files[i] == old(files)[i])
    {
      var removed;
      removed, victim := RemoveAvatar(user, fault.RemoveRefused?);
      if removed.RemoveFailed? {
        return Some(removed), victim;
      }
      var name := user + Extension(filename);
      if fault.OpenRefused? {
        return Some(Unprocessable), victim;
      }
      OpenFile(task, user, name, content);
      failed := None;
    }

    /** `open(file_path, "wb")`, and the suspension that follows. */
    method OpenFile(task: nat, user: string, name: string, content: Bytes)
      modifies this
      ensures State() == Open(old(State()), old(dir), task, user, name, content)
    {
      var created := name !in dir;
      var inode := if created then next else dir[name];
      dir := dir[name := inode];
      next := if created then next + 1 else next;
      files := files[inode := []];
      uploads := uploads[task := Upload(user, name, inode, content)];
    }

    /** `upload_avatar` from the end of its read on; `failedAt` is how much had been written when the
        read or the write failed, if one did. */
    method EndUpload(task: nat, failedAt: Option<nat>) returns (reply: Reply)
      requires Inv(State()) && task in uploads
      requires failedAt.Some? ==> failedAt.value <= |uploads[task].content|
      modifies this
      ensures State() == Apply(old(State()),
                               if failedAt.Some? then UploadFails(task, failedAt.value) else FinishUpload(task))
      ensures reply == if failedAt.Some? then Unprocessable else Success(old(uploads)[task].name)
      ensures dir == old(dir) && uploads == old(uploads) - {task}
      ensures var u := old(uploads)[task];
              && var was, size := old(files)[u.inode], if failedAt.Some? then failedAt.value else |u.content|;
              && files.Keys == old(files).Keys
              && (forall i :: i in old(files) && i != u.inode ==> files[i] == old(files)[i])
              && |files[u.inode]| == (if size < |was| then |was| else size)
              && (forall k :: 0 <= k < |files[u.inode]| ==>
                    files[u.inode][k] == if k < size then u.content[k] else was[k])
    {
      var u := uploads[task];
      uploads := uploads - {task};
      if failedAt.Some? {
        files := files[u.inode := Overlay(files[u.inode], u.content[..failedAt.value])];
        return Unprocessable;
      }
      files := files[u.inode := Overlay(files[u.inode], u.content)];
      reply := Success(u.name);
    }

    method GetAvatar(user: string) returns (found: Option<string>)
      requires ValidUser(user)
      ensures FirstMatch(dir, user, found)
      ensures if found.Some? then found.value in dir && user + "." <= found.value
              else forall n :: n in dir ==> !(user + "." <= n)
    {
      DotPrefix(user);
      var matching := Glob(user);
      if matching == [] {
        return None;
      }
      assert matching[0] in matching;
      found := Some(matching[0]);
    }
  }

  // ---- The invariant ------------------------------------------------------------------------------

  ghost predicate OneMatchEach(dir: map<string, nat>) {
    forall user, a, b :: ValidUser(user) && a in dir && b in dir && Matches(a, user) && Matches(b, user) ==> a == b
  }

  ghost predicate SoundFiles(s: Store) {
    && (forall n :: n in s.dir ==> s.dir[n] < s.next && s.dir[n] in s.files)
    && (forall a, b :: a in s.dir && b in s.dir && s.dir[a] == s.dir[b] ==> a == b)
    && (forall i :: i in s.files ==> i < s.next)
  }

  ghost predicate SoundUploads(s: Store) {
    forall t :: t in s.uploads ==>
      var u := s.uploads[t];
      && ValidUser(u.user) && Owns(u.user, u.name)
      && u.inode in s.files && u.inode < s.next
      && (forall n :: n in s.dir && s.dir[n] == u.inode ==> n == u.name)
  }

  ghost predicate Inv(s: Store) {
    OneMatchEach(s.dir) && SoundFiles(s) && SoundUploads(s)
  }

  lemma UnlinkedAll(dir: map<string, nat>, user: string, victim: Option<string>)
    requires OneMatchEach(dir) && ValidUser(user) && FirstMatch(dir, user, victim)
    ensures FirstMatch(Unlink(dir, victim), user, None)
    ensures OneMatchEach(Unlink(dir, victim))
    ensures forall n, v :: ValidUser(v) && v != user && Owns(v, n) ==> (n in Unlink(dir, victim) <==> n in dir)
  {
    forall n, v | ValidUser(v) && v != user && Owns(v, n) ensures n in Unlink(dir, victim) <==> n in dir {
      if victim == Some(n) {
        OneOwner(user, v, n);
      }
    }
  }

  lemma OneMatchStep(s: Store, step: Step)
    requires OneMatchEach(s.dir) && Enabled(s, step)
    ensures OneMatchEach(Apply(s, step).dir)
  {
    match step
    case BeginUpload(task, user, filename, content, victim) =>
      UnlinkedAll(s.dir, user, victim);
      NewName(user, filename);
      var dir, name := Apply(s, step).dir, user + Extension(filename);
      forall v, a, b | ValidUser(v) && a in dir && b in dir && Matches(a, v) && Matches(b, v) ensures a == b {
        if a == name || b == name {
          OneOwner(user, v, name);
        }
      }
    case OpenFails(user, victim) => UnlinkedAll(s.dir, user, victim);
    case Remove(user, victim) => UnlinkedAll(s.dir, user, victim);
    case _ =>
  }

  lemma SoundFilesStep(s: Store, step: Step)
    requires SoundFiles(s) && SoundUploads(s) && Enabled(s, step)
    ensures SoundFiles(Apply(s, step))
  {
    match step
    case BeginUpload(task, user, filename, content, victim) =>
      assert forall n :: n in Unlink(s.dir, victim) ==> n in s.dir && Unlink(s.dir, victim)[n] == s.dir[n];
    case _ =>
  }

  lemma SoundUploadsStep(s: Store, step: Step)
    requires SoundFiles(s) && SoundUploads(s) && Enabled(s, step)
    ensures SoundUploads(Apply(s, step))
  {
  }

  lemma SoundStep(s: Store, step: Step)
    requires Inv(s) && Enabled(s, step)
    ensures Inv(Apply(s, step))
  {
    OneMatchStep(s, step);
    SoundFilesStep(s, step);
    SoundUploadsStep(s, step);
  }

  /** At every moment between two steps of any interleaving, a user has at most one file the glob
      matches, so removing the first match removes them all. */
  lemma {:induction false} AtMostOneFile(s: Store, steps: seq<Step>, user: string, victim: Option<string>)
    requires Inv(s) && Run(s, steps) && ValidUser(user)
    requires FirstMatch(Final(s, steps).dir, user, victim)
    ensures Inv(Final(s, steps))
    ensures forall a, b :: a in Final(s, steps).dir && b in Final(s, steps).dir && Matches(a, user) && Matches(b, user)
              ==> a == b
    ensures forall n :: n in Unlink(Final(s, steps).dir, victim) ==> !Matches(n, user)
    decreases |steps|
  {
    if steps != [] {
      SoundStep(s, steps[0]);
      AtMostOneFile(Apply(s, steps[0]), steps[1..], user, victim);
    } else {
      UnlinkedAll(s.dir, user, victim);
    }
  }

  // ---- Isolation ------------------------------------------------------------------------------------

  /** The user a step acts for. */
  function Actor(s: Store, step: Step): string
    requires Enabled(s, step)
  {
    match step
    case BeginUpload(_, user, _, _, _) => user
    case OpenFails(user, _) => user
    case FinishUpload(task) => s.uploads[task].user
    case UploadFails(task, _) => s.uploads[task].user
    case Remove(user, _) => user
  }

  /** A file by name, with its contents. */
  function Read(s: Store, name: string): Option<Bytes> {
    if name in s.dir && s.dir[name] in s.files then Some(s.files[s.dir[name]]) else None
  }

  /** No step touches a file of a user other than the one it acts for. */
  lemma OthersUntouched(s: Store, step: Step, other: string, name: string)
    requires Inv(s) && Enabled(s, step) && ValidUser(other) && other != Actor(s, step) && Owns(other, name)
    ensures Read(Apply(s, step), name) == Read(s, name)
    ensures name in Apply(s, step).dir <==> name in s.dir
  {
    match step
    case BeginUpload(task, user, filename, content, victim) =>
      UnlinkedAll(s.dir, user, victim);
      NewName(user, filename);
      if name == user + Extension(filename) {
        OneOwner(user, other, name);
      }
    case OpenFails(user, victim) => UnlinkedAll(s.dir, user, victim);
    case Remove(user, victim) => UnlinkedAll(s.dir, user, victim);
    case FinishUpload(task) =>
      if name == s.uploads[task].name {
        OneOwner(s.uploads[task].user, other, name);
      }
    case UploadFails(task, _) =>
      if name == s.uploads[task].name {
        OneOwner(s.uploads[task].user, other, name);
      }
  }

  // ---- The last upload begun is the one shown ---------------------------------------------------------

  /** One user's avatar as that user's requests alone determine it, with no directory around. */
  datatype Shown = Nothing | Pending(task: nat, name: string, content: Bytes) | File(name: string, content: Bytes)

  function ShownAfter(shown: Shown, step: Step, user: string): Shown {
    match step
    case BeginUpload(task, u, filename, content, _) =>
      if u != user then shown
      else if Extension(filename) == "" then Nothing
      else Pending(task, user + Extension(filename), content)
    case OpenFails(u, _) => if u == user then Nothing else shown
    case Remove(u, _) => if u == user then Nothing else shown
    case FinishUpload(task) =>
      if shown.Pending? && shown.task == task then File(shown.name, shown.content) else shown
    case UploadFails(task, written) =>
      if shown.Pending? && shown.task == task && written <= |shown.content|
      then File(shown.name, shown.content[..written]) else shown
  }

  function ShownBy(shown: Shown, steps: seq<Step>, user: string): Shown
    decreases |steps|
  {
    if steps == [] then shown else ShownBy(ShownAfter(shown, steps[0], user), steps[1..], user)
  }

  /** What a lookup answers for it: an upload still being read shows as an empty file. */
  function Answer(shown: Shown): Option<(string, Bytes)> {
    match shown
    case Nothing => None
    case Pending(_, name, _) => Some((name, []))
    case File(name, content) => Some((name, content))
  }

  /** What `get_avatar` may answer: the first match, whichever it is, with its contents. */
  ghost predicate Gets(s: Store, user: string, answer: Option<(string, Bytes)>) {
    match answer
    case None => FirstMatch(s.dir, user, None)
    case Some((name, content)) => FirstMatch(s.dir, user, Some(name)) && Read(s, name) == Some(content)
  }

  /** The directory agrees with the user's own history, and nobody else can write the shown file. */
  ghost predicate Agrees(s: Store, user: string, shown: Shown) {
    match shown
    case Nothing => forall n :: n in s.dir ==> !Matches(n, user)
    case Pending(task, name, content) =>
      && name in s.dir && Matches(name, user) && Read(s, name) == Some([])
      && task in s.uploads && s.uploads[task].inode == s.dir[name] && s.uploads[task].content == content
      && forall t :: t in s.uploads && t != task ==> s.uploads[t].inode != s.dir[name]
    case File(name, content) =>
      && name in s.dir && Matches(name, user) && Read(s, name) == Some(content)
      && forall t :: t in s.uploads ==> s.uploads[t].inode != s.dir[name]
  }

  lemma AgreesOwnBegin(s: Store, step: Step, shown: Shown)
    requires Inv(s) && Enabled(s, step) && step.BeginUpload? && Agrees(s, step.user, shown)
    ensures Agrees(Apply(s, step), step.user, ShownAfter(shown, step, step.user))
  {
    UnlinkedAll(s.dir, step.user, step.victim);
    NewName(step.user, step.filename);
    var name := step.user + Extension(step.filename);
    if Extension(step.filename) != "" {
      assert name !in Unlink(s.dir, step.victim);
    }
  }

  /** Another user's upload begins: no file this user could have is touched. */
  lemma OthersBegin(s: Store, step: Step, user: string, name: string)
    requires Inv(s) && Enabled(s, step) && step.BeginUpload? && ValidUser(user) && step.user != user
    requires Matches(name, user)
    ensures name in Apply(s, step).dir <==> name in s.dir
    ensures name in s.dir ==>
              && Apply(s, step).dir[name] == s.dir[name]
              && Apply(s, step).uploads[step.task].inode != s.dir[name]
              && Read(Apply(s, step), name) == Read(s, name)
  {
    UnlinkedAll(s.dir, step.user, step.victim);
    NewName(step.user, step.filename);
    var created := step.user + Extension(step.filename);
    if name == created {
      OneOwner(user, step.user, created);
    }
    assert Owns(user, name) && name in Unlink(s.dir, step.victim) <==> name in s.dir;
  }

  lemma AgreesOthersBegin(s: Store, step: Step, user: string, shown: Shown)
    requires Inv(s) && Enabled(s, step) && step.BeginUpload? && ValidUser(user) && step.user != user
    requires Agrees(s, user, shown)
    ensures Agrees(Apply(s, step), user, shown)
  {
    if shown.Nothing? {
      forall n | n in Apply(s, step).dir ensures !Matches(n, user) {
        if Matches(n, user) {
          OthersBegin(s, step, user, n);
        }
      }
    } else {
      OthersBegin(s, step, user, shown.name);
    }
  }

  lemma AgreesUnlink(s: Store, actor: string, victim: Option<string>, user: string, shown: Shown)
    requires Inv(s) && ValidUser(actor) && FirstMatch(s.dir, actor, victim) && ValidUser(user) && Agrees(s, user, shown)
    ensures Agrees(s.(dir := Unlink(s.dir, victim)), user, if actor == user then Nothing else shown)
  {
    UnlinkedAll(s.dir, actor, victim);
  }

  lemma AgreesStep(s: Store, step: Step, user: string, shown: Shown)
    requires Inv(s) && Enabled(s, step) && ValidUser(user) && Agrees(s, user, shown)
    ensures Agrees(Apply(s, step), user, ShownAfter(shown, step, user))
  {
    match step
    case BeginUpload(_, u, _, _, _) =>
      if u == user {
        AgreesOwnBegin(s, step, shown);
      } else {
        AgreesOthersBegin(s, step, user, shown);
      }
    case OpenFails(u, victim) => AgreesUnlink(s, u, victim, user, shown);
    case Remove(u, victim) => AgreesUnlink(s, u, victim, user, shown);
    case _ =>
  }

  lemma AgreesGets(s: Store, user: string, shown: Shown, answer: Option<(string, Bytes)>)
    requires Inv(s) && ValidUser(user) && Agrees(s, user, shown)
    ensures Gets(s, user, answer) <==> answer == Answer(shown)
  {
  }

  /** In every interleaving of every user's requests, a lookup has exactly one possible answer, and it
      is the one the user's own requests determine: the upload begun last, empty until it has been
      read, and untouched by earlier uploads that finish after it. */
  lemma {:induction false} LookupShowsLastBegun(s: Store, steps: seq<Step>, user: string, shown: Shown,
                                                 answer: Option<(string, Bytes)>)
    requires Inv(s) && Run(s, steps) && ValidUser(user) && Agrees(s, user, shown)
    ensures Gets(Final(s, steps), user, answer) <==> answer == Answer(ShownBy(shown, steps, user))
    decreases |steps|
  {
    if steps == [] {
      AgreesGets(s, user, shown, answer);
    } else {
      SoundStep(s, steps[0]);
      AgreesStep(s, steps[0], user, shown);
      LookupShowsLastBegun(Apply(s, steps[0]), steps[1..], user, ShownAfter(shown, steps[0], user), answer);
    }
  }

  /** Neither begins an upload nor removes anything for the user. */
  predicate Quiet(step: Step, user: string) {
    !((step.BeginUpload? || step.OpenFails? || step.Remove?) && step.user == user)
  }

  lemma {:induction false} PendingFinishes(shown: Shown, steps: seq<Step>, user: string)
    requires shown.Pending? || shown.File?
    requires forall i :: 0 <= i < |steps| ==> Quiet(steps[i], user)
    requires forall i :: 0 <= i < |steps| && steps[i].UploadFails? ==> !shown.Pending? || steps[i].task != shown.task
    requires shown.Pending? ==> FinishUpload(shown.task) in steps
    ensures ShownBy(shown, steps, user) == File(shown.name, shown.content)
    decreases |steps|
  {
    if steps != [] {
      PendingFinishes(ShownAfter(shown, steps[0], user), steps[1..], user);
    }
  }

  lemma {:induction false} QuietKeepsName(shown: Shown, steps: seq<Step>, user: string)
    requires !shown.Nothing? && forall i :: 0 <= i < |steps| ==> Quiet(steps[i], user)
    ensures !ShownBy(shown, steps, user).Nothing? && ShownBy(shown, steps, user).name == shown.name
    decreases |steps|
  {
    if steps != [] {
      QuietKeepsName(ShownAfter(shown, steps[0], user), steps[1..], user);
    }
  }

  /** The response opens the file some time after the lookup found its name. Unless the user begins an
      upload or a removal in between, it still opens the upload begun last, with what has been read of
      it by then. */
  lemma OpenedLater(s: Store, steps: seq<Step>, user: string, shown: Shown, name: string)
    requires Inv(s) && Run(s, steps) && ValidUser(user) && Agrees(s, user, shown)
    requires FirstMatch(s.dir, user, Some(name)) && forall i :: 0 <= i < |steps| ==> Quiet(steps[i], user)
    ensures Read(Final(s, steps), name).Some?
    ensures Answer(ShownBy(shown, steps, user)) == Some((name, Read(Final(s, steps), name).value))
  {
    QuietKeepsName(shown, steps, user);
    var answer := Answer(ShownBy(shown, steps, user));
    LookupShowsLastBegun(s, steps, user, shown, answer);
  }

  lemma {:induction false} ShownConcat(shown: Shown, a: seq<Step>, b: seq<Step>, user: string)
    ensures ShownBy(shown, a + b, user) == ShownBy(ShownBy(shown, a, user), b, user)
    decreases |a|
  {
    if a == [] {
      assert a + b == b;
    } else {
      assert (a + b)[1..] == a[1..] + b;
      ShownConcat(ShownAfter(shown, a[0], user), a[1..], b, user);
    }
  }

  /** Last writer is visible: when the upload a user began last, with an extension, has finished without
      error, a lookup returns its contents, whenever the user's earlier uploads finish. */
  lemma LastWriterVisible(s: Store, before: seq<Step>, begun: Step, after: seq<Step>, shown: Shown,
                          answer: Option<(string, Bytes)>)
    requires begun.BeginUpload? && Extension(begun.filename) != ""
    requires Inv(s) && Run(s, before + [begun] + after) && ValidUser(begun.user) && Agrees(s, begun.user, shown)
    requires forall i :: 0 <= i < |after| ==> Quiet(after[i], begun.user)
    requires forall i :: 0 <= i < |after| && after[i].UploadFails? ==> after[i].task != begun.task
    requires FinishUpload(begun.task) in after
    ensures Gets(Final(s, before + [begun] + after), begun.user, answer) <==>
            answer == Some((begun.user + Extension(begun.filename), begun.content))
  {
    var user := begun.user;
    LookupShowsLastBegun(s, before + [begun] + after, user, shown, answer);
    ShownConcat(shown, before + [begun], after, user);
    ShownConcat(shown, before, [begun], user);
    var pending := ShownBy(ShownBy(shown, before, user), [begun], user);
    assert [begun][1..] == [];
    assert pending == Pending(begun.task, user + Extension(begun.filename), begun.content);
    PendingFinishes(pending, after, user);
  }
}

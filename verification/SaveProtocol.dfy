/** The optimistic-revision save protocol of both workspace stores: a gate per path, read the revision,
    compare, write a temporary file in pieces, rename it over the target, leave.

    Directory entries point at inodes, so that a reader that opened a file keeps reading what it opened. */
module SaveProtocol {
  import opened Optional
  import opened Text

  /** How a workspace becomes text, and the revision a text carries. */
  datatype Codec = Codec(render: (string, nat) -> string, revision: string -> nat)

  ghost predicate RoundTrips(codec: Codec) { forall p: string, r: nat :: codec.revision(codec.render(p, r)) == r }

  datatype Request = Request(path: string, payload: string, expected: Option<int>)

  datatype Outcome = Saved(revision: nat) | Conflict | Failed

  datatype Phase =
    | Waiting
    | Entered
    | Loading(inode: nat, read: nat)
    | Comparing(current: nat)
    | Writing(base: nat, temporary: nat, written: nat)
    | Leaving(outcome: Outcome)
    | Done(result: Outcome)

  datatype Saver = Saver(request: Request, phase: Phase)

  datatype Reader = Reader(path: string, inode: nat, seen: string)

  datatype Commit = Commit(saver: nat, base: nat, revision: nat, inode: nat, text: string)

  /** `held` is the set of gates whose count is zero; `log` only records what was renamed into place. */
  datatype State = State(
    directory: map<string, nat>, inodes: map<nat, string>, held: set<string>,
    savers: map<nat, Saver>, readers: map<nat, Reader>, log: Log)

  const INITIAL: State := State(map[], map[], {}, map[], map[], map[])

  type Log = map<string, seq<Commit>>

  function LogOf(log: Log, path: string): seq<Commit> { if path in log then log[path] else [] }

  /** The lock table ignores case. */
  function Gate(saver: Saver): string { Fold(saver.request.path) }

  predicate Holding(saver: Saver) { !saver.phase.Waiting? && !saver.phase.Done? }

  datatype Action =
    | Begin(saver: nat, request: Request) | Enter(saver: nat) | Cancel(saver: nat)
    | FindAbsent(saver: nat) | Open(saver: nat) | Read(saver: nat, count: nat) | Loaded(saver: nat)
    | Reject(saver: nat) | CreateTemporary(saver: nat, inode: nat) | Write(saver: nat, count: nat) | Rename(saver: nat)
    | Fail(saver: nat) | Leave(saver: nat)
    | StartReading(reader: nat, path: string) | ReadOn(reader: nat, count: nat)

  function Content(codec: Codec, saver: Saver): string
    requires saver.phase.Writing?
  {
    codec.render(saver.request.payload, saver.phase.base + 1)
  }

  predicate Matches(request: Request, current: nat) { request.expected.None? || request.expected.value == current }

  predicate Enabled(s: State, codec: Codec, a: Action) {
    match a
    case Begin(p, _) => p !in s.savers
    case StartReading(r, path) => r !in s.readers && path in s.directory && s.directory[path] in s.inodes
    case ReadOn(r, n) =>
      r in s.readers && s.readers[r].inode in s.inodes && |s.readers[r].seen| + n <= |s.inodes[s.readers[r].inode]|
    case _ => a.saver in s.savers && SaverEnabled(s, codec, a)
  }

  predicate SaverEnabled(s: State, codec: Codec, a: Action)
    requires !a.StartReading? && !a.ReadOn? && a.saver in s.savers
  {
    var saver := s.savers[a.saver];
    var ph := saver.phase;
    match a
    case Begin(_, _) => false
    case Enter(_) => ph.Waiting? && Gate(saver) !in s.held
    case Cancel(_) => ph.Waiting?
    case FindAbsent(_) => ph.Entered? && saver.request.path !in s.directory
    case Open(_) => ph.Entered? && saver.request.path in s.directory
    case Read(_, n) => ph.Loading? && ph.inode in s.inodes && ph.read + n <= |s.inodes[ph.inode]|
    case Loaded(_) => ph.Loading? && ph.inode in s.inodes && ph.read == |s.inodes[ph.inode]|
    case Reject(_) => ph.Comparing? && !Matches(saver.request, ph.current)
    case CreateTemporary(_, i) => ph.Comparing? && Matches(saver.request, ph.current) && i !in s.inodes
    case Write(_, n) => ph.Writing? && ph.temporary in s.inodes && ph.written + n <= |Content(codec, saver)|
    case Rename(_) => ph.Writing? && ph.temporary in s.inodes && ph.written == |Content(codec, saver)|
    case Fail(_) => ph.Entered? || ph.Loading? || ph.Comparing? || ph.Writing?
    case Leave(_) => ph.Leaving?
  }

  function To(s: State, p: nat, phase: Phase): State
    requires p in s.savers
  {
    s.(savers := s.savers[p := s.savers[p].(phase := phase)])
  }

  function Apply(s: State, codec: Codec, a: Action): State
    requires Enabled(s, codec, a)
  {
    match a
    case Begin(p, request) => s.(savers := s.savers[p := Saver(request, Waiting)])
    case Enter(p) => To(s, p, Entered).(held := s.held + {Gate(s.savers[p])})
    case Cancel(p) => To(s, p, Done(Failed))
    case FindAbsent(p) => To(s, p, Comparing(0))
    case Open(p) => To(s, p, Loading(s.directory[s.savers[p].request.path], 0))
    case Read(p, n) => var ph := s.savers[p].phase; To(s, p, Loading(ph.inode, ph.read + n))
    case Loaded(p) => To(s, p, Comparing(codec.revision(s.inodes[s.savers[p].phase.inode])))
    case Reject(p) => To(s, p, Leaving(Conflict))
    case CreateTemporary(p, i) => To(s, p, Writing(s.savers[p].phase.current, i, 0)).(inodes := s.inodes[i := ""])
    case Write(p, n) =>
      var ph, text := s.savers[p].phase, Content(codec, s.savers[p]);
      To(s, p, Writing(ph.base, ph.temporary, ph.written + n))
      .(inodes := s.inodes[ph.temporary := s.inodes[ph.temporary] + text[ph.written..ph.written + n]])
    case Rename(p) =>
      var ph, path := s.savers[p].phase, s.savers[p].request.path;
      var commit := Commit(p, ph.base, ph.base + 1, ph.temporary, s.inodes[ph.temporary]);
      To(s, p, Leaving(Saved(ph.base + 1)))
      .(directory := s.directory[path := ph.temporary], log := s.log[path := LogOf(s.log, path) + [commit]])
    case Fail(p) => To(s, p, Leaving(Failed))
    case Leave(p) => To(s, p, Done(s.savers[p].phase.outcome)).(held := s.held - {Gate(s.savers[p])})
    case StartReading(r, path) => s.(readers := s.readers[r := Reader(path, s.directory[path], "")])
    case ReadOn(r, n) =>
      var reader := s.readers[r];
      var text := s.inodes[reader.inode];
      s.(readers := s.readers[r := reader.(seen := text[..|reader.seen| + n])])
  }

  predicate Reaches(from_: State, codec: Codec, actions: seq<Action>, s: State)
    decreases |actions|
  {
    if actions == [] then from_ == s
    else Enabled(from_, codec, actions[0]) && Reaches(Apply(from_, codec, actions[0]), codec, actions[1..], s)
  }

  // ---- the invariant ----

  /** The gate of a path admits one saver at a time. */
  predicate Exclusive(held: set<string>, savers: map<nat, Saver>) {
    (forall p :: p in savers && Holding(savers[p]) ==> Gate(savers[p]) in held)
    && forall p, q :: p in savers && q in savers && p != q && Holding(savers[p]) && Holding(savers[q])
                      ==> Gate(savers[p]) != Gate(savers[q])
  }

  predicate Committed(log: Log, inode: nat) { exists path :: path in log && inode in Inodes(log[path]) }

  function Inodes(commits: seq<Commit>): set<nat> { set c | c in commits :: c.inode }

  /** Temporary files hold a prefix of what their saver writes, and belong to that saver alone. */
  predicate TemporaryOk(log: Log, inodes: map<nat, string>, codec: Codec, saver: Saver) {
    saver.phase.Writing? ==>
      var ph := saver.phase;
      ph.temporary in inodes && !Committed(log, ph.temporary) && ph.written <= |Content(codec, saver)|
      && inodes[ph.temporary] == Content(codec, saver)[..ph.written]
  }

  predicate Unshared(savers: map<nat, Saver>) {
    forall p, q :: p in savers && q in savers && p != q && savers[p].phase.Writing? && savers[q].phase.Writing?
                   ==> savers[p].phase.temporary != savers[q].phase.temporary
  }

  function Result(phase: Phase): Option<Outcome> {
    match phase case Leaving(o) => Some(o) case Done(o) => Some(o) case _ => None
  }

  /** A save may go on top of that many versions when it asks for no revision, or for the last of them; a workspace
      that is not there yet has revision 0. */
  predicate Expects(request: Request, versions: nat) { request.expected == None || request.expected == Some(versions) }

  /** Commit `i` of a path: made directly on revision `i`, for the saver that asked for it. */
  predicate CommitOk(inodes: map<nat, string>, savers: map<nat, Saver>, codec: Codec, path: string, i: nat, c: Commit) {
    c.base == i && c.revision == i + 1 && c.inode in inodes && inodes[c.inode] == c.text
    && c.saver in savers
    && var saver := savers[c.saver];
       saver.request.path == path && Expects(saver.request, i) && c.text == codec.render(saver.request.payload, i + 1)
       && Result(saver.phase) == Some(Saved(i + 1))
  }

  predicate CommitsOk(inodes: map<nat, string>, savers: map<nat, Saver>, codec: Codec, path: string, commits: seq<Commit>) {
    forall i :: 0 <= i < |commits| ==> CommitOk(inodes, savers, codec, path, i, commits[i])
  }

  /** The directory shows the last commit of every path. */
  predicate DirectoryOk(directory: map<string, nat>, log: Log) {
    directory.Keys == log.Keys
    && forall path :: path in log ==> log[path] != [] && directory[path] == log[path][|log[path]| - 1].inode
  }

  predicate OutcomeOk(log: Log, p: nat, path: string, outcome: Outcome) {
    outcome.Saved? ==> 1 <= outcome.revision <= |LogOf(log, path)| && LogOf(log, path)[outcome.revision - 1].saver == p
  }

  /** What a saver believes about its file is true while it is inside the gate. */
  predicate SaverOk(directory: map<string, nat>, log: Log, p: nat, saver: Saver) {
    var path := saver.request.path;
    match saver.phase
    case Loading(inode, _) => path in directory && directory[path] == inode
    case Comparing(c) => c == |LogOf(log, path)|
    case Writing(c, _, _) => c == |LogOf(log, path)| && Matches(saver.request, c)
    case Leaving(o) => OutcomeOk(log, p, path, o)
    case Done(o) => OutcomeOk(log, p, path, o)
    case _ => true
  }

  predicate ReaderOk(log: Log, inodes: map<nat, string>, reader: Reader) {
    reader.inode in Inodes(LogOf(log, reader.path)) && reader.inode in inodes && reader.seen <= inodes[reader.inode]
  }

  predicate Inv(s: State, codec: Codec) {
    Exclusive(s.held, s.savers) && Unshared(s.savers) && DirectoryOk(s.directory, s.log)
    && (forall path :: path in s.log ==> CommitsOk(s.inodes, s.savers, codec, path, s.log[path]))
    && (forall p :: p in s.savers ==> SaverOk(s.directory, s.log, p, s.savers[p]))
    && (forall p :: p in s.savers ==> TemporaryOk(s.log, s.inodes, codec, s.savers[p]))
    && (forall r :: r in s.readers ==> ReaderOk(s.log, s.inodes, s.readers[r]))
  }

  // ---- every step keeps it ----

  /** Saver `p` takes a step; the others, and what was decided before, stay. */
  predicate Moves(s: State, s': State, p: nat) {
    s'.savers.Keys == s.savers.Keys + {p} && (forall q :: q in s.savers && q != p ==> s'.savers[q] == s.savers[q])
    && (p in s.savers ==>
          s'.savers[p].request == s.savers[p].request
          && (Result(s.savers[p].phase).Some? ==> Result(s'.savers[p].phase) == Result(s.savers[p].phase)))
  }

  /** Only `p`'s own temporary file changes. */
  predicate WritesOwn(s: State, s': State, p: nat) {
    forall i :: i in s.inodes ==>
      i in s'.inodes
      && (s'.inodes[i] == s.inodes[i] || (p in s.savers && s.savers[p].phase.Writing? && i == s.savers[p].phase.temporary))
  }

  /** The temporary file of `p` is the one it had, or a new one. */
  predicate OwnTemporary(s: State, s': State, p: nat)
    requires p in s'.savers
  {
    s'.savers[p].phase.Writing? ==>
      s'.savers[p].phase.temporary !in s.inodes
      || (p in s.savers && s.savers[p].phase.Writing? && s'.savers[p].phase.temporary == s.savers[p].phase.temporary)
  }

  lemma CommittedKept(s: State, s': State, codec: Codec, p: nat, path: string, i: nat)
    requires Inv(s, codec) && Moves(s, s', p) && WritesOwn(s, s', p)
    requires path in s.log && i < |s.log[path]|
    ensures var c := s.log[path][i]; c.inode in s.inodes && c.inode in s'.inodes && s'.inodes[c.inode] == s.inodes[c.inode]
    ensures CommitOk(s'.inodes, s'.savers, codec, path, i, s.log[path][i])
  {
    hide Exclusive, Unshared, DirectoryOk, SaverOk, ReaderOk, Content;
    var c := s.log[path][i];
    assert CommitsOk(s.inodes, s.savers, codec, path, s.log[path]);
    assert CommitOk(s.inodes, s.savers, codec, path, i, c);
    assert c.inode in Inodes(s.log[path]);
    assert Committed(s.log, c.inode);
    if p in s.savers { assert TemporaryOk(s.log, s.inodes, codec, s.savers[p]); }
  }

  lemma ReaderKept(s: State, s': State, codec: Codec, p: nat, r: nat)
    requires Inv(s, codec) && Moves(s, s', p) && WritesOwn(s, s', p) && r in s.readers
    ensures ReaderOk(s.log, s'.inodes, s.readers[r])
  {
    hide Inv, Moves, WritesOwn, CommitOk;
    var reader := s.readers[r];
    assert ReaderOk(s.log, s.inodes, reader) by { InvParts(s, codec); }
    var path := reader.path;
    var c :| c in LogOf(s.log, path) && c.inode == reader.inode;
    var i :| 0 <= i < |LogOf(s.log, path)| && LogOf(s.log, path)[i] == c;
    CommittedKept(s, s', codec, p, path, i);
  }

  lemma InvParts(s: State, codec: Codec)
    requires Inv(s, codec)
    ensures Exclusive(s.held, s.savers) && Unshared(s.savers) && DirectoryOk(s.directory, s.log)
    ensures forall path :: path in s.log ==> CommitsOk(s.inodes, s.savers, codec, path, s.log[path])
    ensures forall p :: p in s.savers ==> SaverOk(s.directory, s.log, p, s.savers[p])
    ensures forall p :: p in s.savers ==> TemporaryOk(s.log, s.inodes, codec, s.savers[p])
    ensures forall r :: r in s.readers ==> ReaderOk(s.log, s.inodes, s.readers[r])
  {
  }

  lemma OtherTemporaryKept(s: State, s': State, codec: Codec, p: nat, q: nat)
    requires Inv(s, codec) && Moves(s, s', p) && WritesOwn(s, s', p) && q in s.savers && q != p
    ensures TemporaryOk(s.log, s'.inodes, codec, s.savers[q])
  {
    hide Exclusive, DirectoryOk, CommitsOk, SaverOk, ReaderOk, Content, Committed;
    assert TemporaryOk(s.log, s.inodes, codec, s.savers[q]);
  }

  lemma UnsharedKept(s: State, s': State, codec: Codec, p: nat)
    requires Inv(s, codec) && Moves(s, s', p) && OwnTemporary(s, s', p)
    ensures Unshared(s'.savers)
  {
    hide Exclusive, DirectoryOk, CommitsOk, SaverOk, ReaderOk, Content, Committed;
    forall q | q in s'.savers && q != p && s'.savers[p].phase.Writing? && s'.savers[q].phase.Writing?
      ensures s'.savers[p].phase.temporary != s'.savers[q].phase.temporary
    {
      assert TemporaryOk(s.log, s.inodes, codec, s.savers[q]);
    }
  }

  /** A step of one saver that renames nothing. */
  lemma NoCommitKeeps(s: State, s': State, codec: Codec, p: nat)
    requires Inv(s, codec) && Moves(s, s', p) && WritesOwn(s, s', p) && OwnTemporary(s, s', p)
    requires s'.directory == s.directory && s'.log == s.log && s'.readers == s.readers
    requires Exclusive(s'.held, s'.savers)
    requires SaverOk(s'.directory, s'.log, p, s'.savers[p]) && TemporaryOk(s'.log, s'.inodes, codec, s'.savers[p])
    ensures Inv(s', codec)
  {
    hide Exclusive, SaverOk, ReaderOk, TemporaryOk, CommitOk, WritesOwn, OwnTemporary, Unshared, DirectoryOk;
    UnsharedKept(s, s', codec, p);
    forall path | path in s'.log ensures CommitsOk(s'.inodes, s'.savers, codec, path, s'.log[path]) {
      forall i | 0 <= i < |s.log[path]| ensures CommitOk(s'.inodes, s'.savers, codec, path, i, s.log[path][i]) {
        CommittedKept(s, s', codec, p, path, i);
      }
    }
    forall q | q in s'.savers && q != p
      ensures SaverOk(s'.directory, s'.log, q, s'.savers[q]) && TemporaryOk(s'.log, s'.inodes, codec, s'.savers[q])
    {
      OtherTemporaryKept(s, s', codec, p, q);
    }
    forall r | r in s'.readers ensures ReaderOk(s'.log, s'.inodes, s'.readers[r]) {
      ReaderKept(s, s', codec, p, r);
    }
  }

  lemma ExclusiveKept(s: State, s': State, p: nat)
    requires Exclusive(s.held, s.savers) && Moves(s, s', p) && s'.held == s.held
    requires Holding(s'.savers[p]) ==> p in s.savers && Holding(s.savers[p])
    ensures Exclusive(s'.held, s'.savers)
  {
    hide Fold;
  }

  lemma EnterKeeps(s: State, codec: Codec, p: nat)
    requires Inv(s, codec) && Enabled(s, codec, Enter(p))
    ensures Inv(Apply(s, codec, Enter(p)), codec)
  {
    hide Inv, SaverOk, ReaderOk, TemporaryOk, CommitOk, Unshared, DirectoryOk, Fold;
    InvParts(s, codec);
    var s' := Apply(s, codec, Enter(p));
    assert SaverOk(s'.directory, s'.log, p, s'.savers[p]) && TemporaryOk(s'.log, s'.inodes, codec, s'.savers[p]) by {
      QuietPhase(s', codec, p);
    }
    NoCommitKeeps(s, s', codec, p);
  }

  /** Phases about which nothing is claimed. */
  lemma QuietPhase(s: State, codec: Codec, p: nat)
    requires p in s.savers
    requires var ph := s.savers[p].phase; ph.Waiting? || ph.Entered? || (Result(ph).Some? && !Result(ph).value.Saved?)
    ensures SaverOk(s.directory, s.log, p, s.savers[p]) && TemporaryOk(s.log, s.inodes, codec, s.savers[p])
  {
  }

  lemma LeaveKeeps(s: State, codec: Codec, p: nat)
    requires Inv(s, codec) && Enabled(s, codec, Leave(p))
    ensures Inv(Apply(s, codec, Leave(p)), codec)
  {
    hide Inv, ReaderOk, TemporaryOk, CommitOk, Unshared, DirectoryOk, Fold, Exclusive, LogOf;
    InvParts(s, codec);
    var s' := Apply(s, codec, Leave(p));
    assert SaverOk(s.directory, s.log, p, s.savers[p]);
    assert TemporaryOk(s'.log, s'.inodes, codec, s'.savers[p]) by { NotWriting(s', codec, p); }
    LeaveExclusive(s, codec, p);
    NoCommitKeeps(s, s', codec, p);
  }

  lemma LeaveExclusive(s: State, codec: Codec, p: nat)
    requires Exclusive(s.held, s.savers) && Enabled(s, codec, Leave(p))
    ensures var s' := Apply(s, codec, Leave(p)); Exclusive(s'.held, s'.savers)
  {
    hide Fold;
  }

  lemma NotWriting(s: State, codec: Codec, p: nat)
    requires p in s.savers && !s.savers[p].phase.Writing?
    ensures TemporaryOk(s.log, s.inodes, codec, s.savers[p])
  {
  }

  /** Steps of a saver outside the gate, and steps inside it that end the attempt. */
  lemma QuietKeeps(s: State, s': State, codec: Codec, p: nat)
    requires Inv(s, codec) && Moves(s, s', p)
    requires s' == s.(savers := s'.savers)
    requires var ph := s'.savers[p].phase; ph.Waiting? || (Result(ph).Some? && !Result(ph).value.Saved?)
    requires Holding(s'.savers[p]) ==> p in s.savers && Holding(s.savers[p])
    ensures Inv(s', codec)
  {
    hide Inv, SaverOk, ReaderOk, TemporaryOk, CommitOk, Unshared, DirectoryOk, Fold;
    InvParts(s, codec);
    ExclusiveKept(s, s', p);
    QuietPhase(s', codec, p);
    NoCommitKeeps(s, s', codec, p);
  }

  /** Finding and reading the file touches nothing but the saver's own phase ... */
  lemma ReadMoves(s: State, codec: Codec, a: Action)
    requires Enabled(s, codec, a) && (a.FindAbsent? || a.Open? || a.Read?)
    ensures var s', p := Apply(s, codec, a), a.saver;
            Moves(s, s', p) && WritesOwn(s, s', p) && OwnTemporary(s, s', p) && s' == s.(savers := s'.savers)
            && Holding(s.savers[p]) && Holding(s'.savers[p]) && !s'.savers[p].phase.Writing?
  {
    hide Fold, Content;
  }

  /** ... and what it believes about the file is true under the gate. */
  lemma ReadBelieves(s: State, codec: Codec, a: Action)
    requires Enabled(s, codec, a) && (a.FindAbsent? || a.Open? || a.Read?) && DirectoryOk(s.directory, s.log)
    requires SaverOk(s.directory, s.log, a.saver, s.savers[a.saver])
    ensures SaverOk(s.directory, s.log, a.saver, Apply(s, codec, a).savers[a.saver])
  {
    hide Fold, Content, OutcomeOk;
  }

  lemma ReadKeeps(s: State, codec: Codec, a: Action)
    requires Inv(s, codec) && Enabled(s, codec, a) && (a.FindAbsent? || a.Open? || a.Read?)
    ensures Inv(Apply(s, codec, a), codec)
  {
    hide Inv, ReaderOk, TemporaryOk, Unshared, Content, CommitsOk, Apply, SaverOk, Exclusive, Moves, WritesOwn, OwnTemporary,
      DirectoryOk, Holding;
    InvParts(s, codec);
    var s', p := Apply(s, codec, a), a.saver;
    ReadMoves(s, codec, a);
    MovesIn(s, s', p);
    ReadBelieves(s, codec, a);
    ExclusiveKept(s, s', p);
    NotWriting(s', codec, p);
    NoCommitKeeps(s, s', codec, p);
  }

  lemma MovesIn(s: State, s': State, p: nat)
    requires Moves(s, s', p)
    ensures p in s'.savers
  {
  }

  /** What is read under the gate is the last revision. */
  lemma RevisionRead(s: State, codec: Codec, p: nat)
    requires Inv(s, codec) && Enabled(s, codec, Loaded(p)) && RoundTrips(codec)
    ensures codec.revision(s.inodes[s.savers[p].phase.inode]) == |LogOf(s.log, s.savers[p].request.path)|
  {
    hide ReaderOk, TemporaryOk, Unshared, Fold, Content, Exclusive;
    var path := s.savers[p].request.path;
    assert SaverOk(s.directory, s.log, p, s.savers[p]);
    var k := |s.log[path]| - 1;
    assert CommitOk(s.inodes, s.savers, codec, path, k, s.log[path][k]);
  }

  lemma LoadedKeeps(s: State, codec: Codec, p: nat)
    requires Inv(s, codec) && Enabled(s, codec, Loaded(p)) && RoundTrips(codec)
    ensures Inv(Apply(s, codec, Loaded(p)), codec)
  {
    hide Inv, ReaderOk, TemporaryOk, Unshared, Fold, Content, CommitsOk, RoundTrips, DirectoryOk;
    InvParts(s, codec);
    var s' := Apply(s, codec, Loaded(p));
    ExclusiveKept(s, s', p);
    RevisionRead(s, codec, p);
    NotWriting(s', codec, p);
    NoCommitKeeps(s, s', codec, p);
  }

  lemma CreateMoves(s: State, codec: Codec, p: nat, i: nat)
    requires Enabled(s, codec, CreateTemporary(p, i))
    ensures var s' := Apply(s, codec, CreateTemporary(p, i));
            Moves(s, s', p) && WritesOwn(s, s', p) && OwnTemporary(s, s', p)
            && s' == s.(savers := s'.savers, inodes := s.inodes[i := ""]) && Holding(s.savers[p]) && p in s'.savers
            && s'.savers[p] == s.savers[p].(phase := Writing(s.savers[p].phase.current, i, 0))
            && Matches(s.savers[p].request, s.savers[p].phase.current) && i !in s.inodes
  {
    hide Fold, Content, Matches;
  }

  lemma CreateKeeps(s: State, codec: Codec, p: nat, i: nat)
    requires Inv(s, codec) && Enabled(s, codec, CreateTemporary(p, i))
    ensures Inv(Apply(s, codec, CreateTemporary(p, i)), codec)
  {
    hide Inv, ReaderOk, Unshared, CommitsOk, DirectoryOk, Exclusive, Apply, Moves, WritesOwn, OwnTemporary, Committed, Matches;
    InvParts(s, codec);
    var s' := Apply(s, codec, CreateTemporary(p, i));
    CreateMoves(s, codec, p, i);
    ExclusiveKept(s, s', p);
    assert SaverOk(s.directory, s.log, p, s.savers[p]);
    if Committed(s.log, i) { CommittedStored(s, codec, i); }
    NoCommitKeeps(s, s', codec, p);
  }

  lemma WriteMoves(s: State, codec: Codec, p: nat, n: nat)
    requires Enabled(s, codec, Write(p, n))
    ensures var s', ph := Apply(s, codec, Write(p, n)), s.savers[p].phase;
            Moves(s, s', p) && WritesOwn(s, s', p) && OwnTemporary(s, s', p) && Holding(s.savers[p]) && p in s'.savers
            && s'.savers[p] == s.savers[p].(phase := Writing(ph.base, ph.temporary, ph.written + n))
            && s' == s.(savers := s'.savers, inodes := s.inodes[ph.temporary :=
                 s.inodes[ph.temporary] + Content(codec, s.savers[p])[ph.written..ph.written + n]])
            && ph.written + n <= |Content(codec, s.savers[p])|
  {
    hide Fold, Content, Matches;
  }

  lemma WriteKeeps(s: State, codec: Codec, p: nat, n: nat)
    requires Inv(s, codec) && Enabled(s, codec, Write(p, n))
    ensures Inv(Apply(s, codec, Write(p, n)), codec)
  {
    hide Inv, ReaderOk, Unshared, CommitsOk, DirectoryOk, Exclusive, Committed, LogOf, Apply, Moves, WritesOwn, OwnTemporary,
      Matches;
    InvParts(s, codec);
    var s' := Apply(s, codec, Write(p, n));
    WriteMoves(s, codec, p, n);
    ExclusiveKept(s, s', p);
    assert SaverOk(s.directory, s.log, p, s.savers[p]) && TemporaryOk(s.log, s.inodes, codec, s.savers[p]);
    var ph, text := s.savers[p].phase, Content(codec, s.savers[p]);
    assert text[..ph.written] + text[ph.written..ph.written + n] == text[..ph.written + n];
    NoCommitKeeps(s, s', codec, p);
  }

  lemma CommittedStored(s: State, codec: Codec, i: nat)
    requires Inv(s, codec) && Committed(s.log, i)
    ensures i in s.inodes
  {
    hide SaverOk, ReaderOk, TemporaryOk, Unshared, Exclusive, DirectoryOk;
    var path :| path in s.log && i in Inodes(s.log[path]);
    var c :| c in s.log[path] && c.inode == i;
    var k :| 0 <= k < |s.log[path]| && s.log[path][k] == c;
    assert CommitOk(s.inodes, s.savers, codec, path, k, s.log[path][k]);
  }

  // ---- the rename ----

  lemma RenamedOther(s: State, codec: Codec, p: nat, q: nat)
    requires Inv(s, codec) && Enabled(s, codec, Rename(p)) && q in s.savers && q != p
    ensures var s' := Apply(s, codec, Rename(p)); SaverOk(s'.directory, s'.log, q, s'.savers[q])
  {
    hide CommitsOk, ReaderOk, TemporaryOk, Unshared, Fold, Content, DirectoryOk;
    assert SaverOk(s.directory, s.log, q, s.savers[q]);
    if s.savers[q].request.path == s.savers[p].request.path {
      assert !Holding(s.savers[q]);
    }
  }

  lemma RenamedSaver(s: State, codec: Codec, p: nat, q: nat)
    requires Inv(s, codec) && Enabled(s, codec, Rename(p)) && q in s.savers
    ensures var s' := Apply(s, codec, Rename(p)); SaverOk(s'.directory, s'.log, q, s'.savers[q])
  {
    hide CommitsOk, ReaderOk, TemporaryOk, Unshared, Fold, Content, Exclusive, DirectoryOk;
    if q == p {
      assert SaverOk(s.directory, s.log, p, s.savers[p]);
    } else {
      RenamedOther(s, codec, p, q);
    }
  }

  lemma RenamedCommits(s: State, codec: Codec, p: nat, path: string)
    requires Inv(s, codec) && Enabled(s, codec, Rename(p))
    ensures var s' := Apply(s, codec, Rename(p)); path in s'.log ==> CommitsOk(s'.inodes, s'.savers, codec, path, s'.log[path])
  {
    hide ReaderOk, Unshared, Fold, DirectoryOk, Exclusive, CommitOk;
    var s' := Apply(s, codec, Rename(p));
    if path in s'.log {
      forall i | 0 <= i < |s'.log[path]| ensures CommitOk(s'.inodes, s'.savers, codec, path, i, s'.log[path][i]) {
        if i < |LogOf(s.log, path)| {
          CommittedKept(s, s', codec, p, path, i);
        } else {
          NewCommit(s, codec, p);
        }
      }
    }
  }

  /** What is renamed into place is the whole text, made directly on the revision that was read. */
  lemma NewCommit(s: State, codec: Codec, p: nat)
    requires Inv(s, codec) && Enabled(s, codec, Rename(p))
    ensures var s', path := Apply(s, codec, Rename(p)), s.savers[p].request.path;
            var k := |LogOf(s.log, path)|;
            |s'.log[path]| == k + 1 && CommitOk(s'.inodes, s'.savers, codec, path, k, s'.log[path][k])
  {
    hide CommitsOk, ReaderOk, Unshared, Fold, DirectoryOk, Exclusive, Committed;
    assert SaverOk(s.directory, s.log, p, s.savers[p]) && TemporaryOk(s.log, s.inodes, codec, s.savers[p]);
    var text := Content(codec, s.savers[p]);
    assert text[..|text|] == text;
  }

  function Extended(log: Log, path: string, c: Commit): Log { log[path := LogOf(log, path) + [c]] }

  lemma {:induction false} ExtendedInodes(log: Log, path: string, c: Commit, other: string)
    ensures Inodes(LogOf(Extended(log, path, c), other)) ==
            Inodes(LogOf(log, other)) + if other == path then {c.inode} else {}
  {
    hide Inodes;
    if other == path { InodesAppend(LogOf(log, path), c); }
  }

  lemma CommittedAfter(log: Log, path: string, c: Commit, i: nat)
    requires Committed(Extended(log, path, c), i)
    ensures i == c.inode || Committed(log, i)
  {
    hide Inodes;
    var other :| other in Extended(log, path, c) && i in Inodes(Extended(log, path, c)[other]);
    ExtendedInodes(log, path, c, other);
    if i != c.inode {
      assert Inodes([]) == {} by { NoInodes(); }
      assert other in log;
    }
  }

  lemma RenamedTemporary(s: State, codec: Codec, p: nat, q: nat)
    requires Inv(s, codec) && Enabled(s, codec, Rename(p)) && q in s.savers
    ensures var s' := Apply(s, codec, Rename(p)); TemporaryOk(s'.log, s'.inodes, codec, s'.savers[q])
  {
    hide CommitsOk, ReaderOk, Fold, DirectoryOk, Exclusive, SaverOk, Content, Committed, LogOf;
    var s' := Apply(s, codec, Rename(p));
    assert TemporaryOk(s.log, s.inodes, codec, s.savers[q]);
    if q != p && s.savers[q].phase.Writing? {
      var ph := s.savers[p].phase;
      var c := Commit(p, ph.base, ph.base + 1, ph.temporary, s.inodes[ph.temporary]);
      assert s'.log == Extended(s.log, s.savers[p].request.path, c);
      if Committed(s'.log, s.savers[q].phase.temporary) {
        CommittedAfter(s.log, s.savers[p].request.path, c, s.savers[q].phase.temporary);
      }
    }
  }

  lemma NoInodes()
    ensures Inodes([]) == {}
  {
  }

  lemma InodesAppend(commits: seq<Commit>, c: Commit)
    ensures Inodes(commits + [c]) == Inodes(commits) + {c.inode}
  {
    forall i | i in Inodes(commits) + {c.inode} ensures i in Inodes(commits + [c]) {
      if i == c.inode {
        assert (commits + [c])[|commits|] == c;
      } else {
        var d :| d in commits && d.inode == i;
        assert d in commits + [c];
      }
    }
  }

  lemma ReaderExtends(log: Log, inodes: map<nat, string>, reader: Reader, path: string, c: Commit)
    requires ReaderOk(log, inodes, reader)
    ensures ReaderOk(Extended(log, path, c), inodes, reader)
  {
    hide Inodes, LogOf;
    ExtendedInodes(log, path, c, reader.path);
  }

  lemma RenamedReader(s: State, codec: Codec, p: nat, r: nat)
    requires Enabled(s, codec, Rename(p)) && r in s.readers && ReaderOk(s.log, s.inodes, s.readers[r])
    ensures var s' := Apply(s, codec, Rename(p)); ReaderOk(s'.log, s'.inodes, s'.readers[r])
  {
    hide ReaderOk, Content, LogOf;
    var ph := s.savers[p].phase;
    var c := Commit(p, ph.base, ph.base + 1, ph.temporary, s.inodes[ph.temporary]);
    assert Apply(s, codec, Rename(p)).log == Extended(s.log, s.savers[p].request.path, c);
    ReaderExtends(s.log, s.inodes, s.readers[r], s.savers[p].request.path, c);
  }

  lemma RenamedExclusive(s: State, codec: Codec, p: nat)
    requires Exclusive(s.held, s.savers) && Enabled(s, codec, Rename(p))
    ensures var s' := Apply(s, codec, Rename(p)); Exclusive(s'.held, s'.savers)
  {
    hide Fold, Content, LogOf;
  }

  lemma RenamedUnshared(s: State, codec: Codec, p: nat)
    requires Unshared(s.savers) && Enabled(s, codec, Rename(p))
    ensures Unshared(Apply(s, codec, Rename(p)).savers)
  {
    hide Fold, Content, LogOf;
  }

  lemma RenamedDirectory(s: State, codec: Codec, p: nat)
    requires DirectoryOk(s.directory, s.log) && Enabled(s, codec, Rename(p))
    ensures var s' := Apply(s, codec, Rename(p)); DirectoryOk(s'.directory, s'.log)
  {
    hide Fold, Content, LogOf;
  }

  lemma RenamedShape(s: State, codec: Codec, p: nat)
    requires Exclusive(s.held, s.savers) && Unshared(s.savers) && DirectoryOk(s.directory, s.log) && Enabled(s, codec, Rename(p))
    ensures var s' := Apply(s, codec, Rename(p));
            Exclusive(s'.held, s'.savers) && Unshared(s'.savers) && DirectoryOk(s'.directory, s'.log)
  {
    hide Exclusive, Unshared, DirectoryOk, Apply;
    RenamedExclusive(s, codec, p);
    RenamedUnshared(s, codec, p);
    RenamedDirectory(s, codec, p);
  }

  lemma RenameKeeps(s: State, codec: Codec, p: nat)
    requires Inv(s, codec) && Enabled(s, codec, Rename(p))
    ensures Inv(Apply(s, codec, Rename(p)), codec)
  {
    hide CommitsOk, SaverOk, ReaderOk, TemporaryOk, Fold, Content, Exclusive, Unshared, DirectoryOk;
    var s' := Apply(s, codec, Rename(p));
    RenamedShape(s, codec, p);
    forall path | path in s'.log ensures CommitsOk(s'.inodes, s'.savers, codec, path, s'.log[path]) {
      RenamedCommits(s, codec, p, path);
    }
    forall q | q in s'.savers ensures SaverOk(s'.directory, s'.log, q, s'.savers[q]) { RenamedSaver(s, codec, p, q); }
    forall q | q in s'.savers ensures TemporaryOk(s'.log, s'.inodes, codec, s'.savers[q]) { RenamedTemporary(s, codec, p, q); }
    forall r | r in s'.readers ensures ReaderOk(s'.log, s'.inodes, s'.readers[r]) { RenamedReader(s, codec, p, r); }
  }

  // ---- readers ----

  lemma StartKeeps(s: State, codec: Codec, r: nat, path: string)
    requires Inv(s, codec) && Enabled(s, codec, StartReading(r, path))
    ensures Inv(Apply(s, codec, StartReading(r, path)), codec)
  {
    hide CommitsOk, SaverOk, TemporaryOk, Exclusive, Unshared, Fold;
    var s' := Apply(s, codec, StartReading(r, path));
    var last := s.log[path][|s.log[path]| - 1];
    assert last in s.log[path];
  }

  lemma ReadOnKeeps(s: State, codec: Codec, r: nat, n: nat)
    requires Inv(s, codec) && Enabled(s, codec, ReadOn(r, n))
    ensures Inv(Apply(s, codec, ReadOn(r, n)), codec)
  {
    hide CommitsOk, SaverOk, TemporaryOk, Exclusive, Unshared, DirectoryOk, Fold, Inodes;
    assert ReaderOk(s.log, s.inodes, s.readers[r]);
  }

  lemma EndKeeps(s: State, codec: Codec, a: Action)
    requires Inv(s, codec) && Enabled(s, codec, a) && (a.Begin? || a.Cancel? || a.Reject? || a.Fail?)
    ensures Inv(Apply(s, codec, a), codec)
  {
    hide Inv, Fold, Content;
    QuietKeeps(s, Apply(s, codec, a), codec, a.saver);
  }

  lemma StepKeeps(s: State, codec: Codec, a: Action)
    requires RoundTrips(codec) && Inv(s, codec) && Enabled(s, codec, a)
    ensures Inv(Apply(s, codec, a), codec)
  {
    hide Inv, Fold, Content, RoundTrips, Apply, Enabled;
    match a
    case Begin(_, _) => EndKeeps(s, codec, a);
    case Enter(p) => EnterKeeps(s, codec, p);
    case Cancel(_) => EndKeeps(s, codec, a);
    case FindAbsent(_) => ReadKeeps(s, codec, a);
    case Open(_) => ReadKeeps(s, codec, a);
    case Read(_, _) => ReadKeeps(s, codec, a);
    case Loaded(p) => LoadedKeeps(s, codec, p);
    case Reject(_) => EndKeeps(s, codec, a);
    case CreateTemporary(p, i) => CreateKeeps(s, codec, p, i);
    case Write(p, n) => WriteKeeps(s, codec, p, n);
    case Rename(p) => RenameKeeps(s, codec, p);
    case Fail(_) => EndKeeps(s, codec, a);
    case Leave(p) => LeaveKeeps(s, codec, p);
    case StartReading(r, path) => StartKeeps(s, codec, r, path);
    case ReadOn(r, n) => ReadOnKeeps(s, codec, r, n);
  }

  lemma {:induction false} RunKeeps(from_: State, codec: Codec, actions: seq<Action>, s: State)
    requires RoundTrips(codec) && Inv(from_, codec) && Reaches(from_, codec, actions, s)
    ensures Inv(s, codec)
    decreases |actions|
  {
    hide Inv, Enabled, Apply, RoundTrips;
    if actions != [] {
      StepKeeps(from_, codec, actions[0]);
      RunKeeps(Apply(from_, codec, actions[0]), codec, actions[1..], s);
    }
  }

  /** Every interleaving of savers and readers, started without files, keeps the invariant. */
  lemma ReachableInv(codec: Codec, actions: seq<Action>, s: State)
    requires RoundTrips(codec) && Reaches(INITIAL, codec, actions, s)
    ensures Inv(s, codec)
  {
    RunKeeps(INITIAL, codec, actions, s);
  }

  // ---- what the protocol promises ----

  /** Committed revisions are 1, 2, 3, ...; each is committed directly on the one before it, by a saver that
      expected that one or expected nothing, and is that saver's text as a whole. */
  lemma RevisionsAreConsecutive(codec: Codec, actions: seq<Action>, s: State, path: string, i: nat)
    requires RoundTrips(codec) && Reaches(INITIAL, codec, actions, s) && i < |LogOf(s.log, path)|
    ensures var c := LogOf(s.log, path)[i];
            c.revision == i + 1 && c.base == i && c.saver in s.savers
            && s.savers[c.saver].request.path == path
            && (s.savers[c.saver].request.expected == None || s.savers[c.saver].request.expected == Some(i))
            && c.text == codec.render(s.savers[c.saver].request.payload, i + 1)
  {
    hide Exclusive, Unshared, DirectoryOk, SaverOk, TemporaryOk, ReaderOk, Reaches;
    ReachableInv(codec, actions, s);
    assert CommitOk(s.inodes, s.savers, codec, path, i, s.log[path][i]);
  }

  /** No lost update: of the saves of one path that expected the same revision, at most one is saved. */
  lemma OneCommitPerExpectation(codec: Codec, actions: seq<Action>, s: State, p: nat, q: nat, m: nat, n: nat)
    requires RoundTrips(codec) && Reaches(INITIAL, codec, actions, s) && p in s.savers && q in s.savers
    requires Result(s.savers[p].phase) == Some(Saved(m)) && Result(s.savers[q].phase) == Some(Saved(n))
    requires s.savers[p].request.path == s.savers[q].request.path
    requires s.savers[p].request.expected.Some? && s.savers[p].request.expected == s.savers[q].request.expected
    ensures p == q && m == n && s.savers[p].request.expected == Some(m - 1)
  {
    hide Inv, Reaches, RoundTrips;
    SavedIsLogged(codec, actions, s, p, m);
    SavedIsLogged(codec, actions, s, q, n);
  }

  lemma SavedIsLogged(codec: Codec, actions: seq<Action>, s: State, p: nat, m: nat)
    requires RoundTrips(codec) && Reaches(INITIAL, codec, actions, s)
    requires p in s.savers && Result(s.savers[p].phase) == Some(Saved(m))
    ensures var path := s.savers[p].request.path;
            1 <= m <= |LogOf(s.log, path)| && LogOf(s.log, path)[m - 1].saver == p && Expects(s.savers[p].request, m - 1)
  {
    hide Exclusive, Unshared, DirectoryOk, CommitsOk, TemporaryOk, ReaderOk, Reaches;
    ReachableInv(codec, actions, s);
    assert SaverOk(s.directory, s.log, p, s.savers[p]);
    RevisionsAreConsecutive(codec, actions, s, s.savers[p].request.path, m - 1);
  }

  /** What a reader outside the gate has seen is always a prefix of one committed version, and all of that
      version once the reader reaches the end of the file. */
  lemma ReadersSeeWholeVersions(codec: Codec, actions: seq<Action>, s: State, r: nat) returns (i: nat)
    requires RoundTrips(codec) && Reaches(INITIAL, codec, actions, s) && r in s.readers
    ensures var reader := s.readers[r];
            i < |LogOf(s.log, reader.path)| && reader.seen <= LogOf(s.log, reader.path)[i].text
            && reader.inode in s.inodes
            && (|reader.seen| == |s.inodes[reader.inode]| ==> reader.seen == LogOf(s.log, reader.path)[i].text)
  {
    hide Exclusive, Unshared, DirectoryOk, SaverOk, TemporaryOk, Reaches;
    ReachableInv(codec, actions, s);
    var reader := s.readers[r];
    assert ReaderOk(s.log, s.inodes, reader);
    var commits := LogOf(s.log, reader.path);
    var c :| c in commits && c.inode == reader.inode;
    i :| 0 <= i < |commits| && commits[i] == c;
    assert CommitOk(s.inodes, s.savers, codec, reader.path, i, s.log[reader.path][i]);
  }

  // ---- refinement of an atomic save ----

  function Versions(commits: seq<Commit>): (r: seq<string>)
    ensures |r| == |commits| && forall i :: 0 <= i < |r| ==> r[i] == commits[i].text
  {
    seq(|commits|, i requires 0 <= i < |commits| => commits[i].text)
  }

  /** The specification: a save takes place in one step. */
  function AtomicSave(codec: Codec, versions: seq<string>, request: Request): (seq<string>, Outcome) {
    if request.expected == None || request.expected == Some(|versions|) then
      (versions + [codec.render(request.payload, |versions| + 1)], Saved(|versions| + 1))
    else (versions, Conflict)
  }

  /** A saver that compares is turned away exactly when it asks for another revision than the number of commits, and
      goes on exactly otherwise. */
  lemma ComparisonExactly(s: State, codec: Codec, p: nat, inode: nat)
    requires Inv(s, codec) && p in s.savers && s.savers[p].phase.Comparing?
    ensures var expected, last := s.savers[p].request.expected, |LogOf(s.log, s.savers[p].request.path)|;
            (Enabled(s, codec, Reject(p)) <==> expected.Some? && expected.value != last)
            && (Enabled(s, codec, CreateTemporary(p, inode)) <==> !(expected.Some? && expected.value != last) && inode !in s.inodes)
  {
    hide Exclusive, Unshared, DirectoryOk, CommitsOk, TemporaryOk, ReaderOk, Fold;
    assert SaverOk(s.directory, s.log, p, s.savers[p]);
  }

  function VersionsAt(s: State, path: string): seq<string> { Versions(LogOf(s.log, path)) }

  /** The step in which a save is decided. */
  predicate Decides(a: Action) { a.Rename? || a.Reject? }

  lemma RenameIsAtomic(s: State, codec: Codec, p: nat)
    requires Inv(s, codec) && Enabled(s, codec, Rename(p))
    ensures var s', request := Apply(s, codec, Rename(p)), s.savers[p].request;
            AtomicSave(codec, VersionsAt(s, request.path), request)
              == (VersionsAt(s', request.path), Saved(s.savers[p].phase.base + 1))
  {
    hide Exclusive, Unshared, DirectoryOk, CommitsOk, ReaderOk, Committed, Fold;
    assert SaverOk(s.directory, s.log, p, s.savers[p]) && TemporaryOk(s.log, s.inodes, codec, s.savers[p]);
    var text := Content(codec, s.savers[p]);
    assert text[..|text|] == text;
    assert VersionsAt(Apply(s, codec, Rename(p)), s.savers[p].request.path) == VersionsAt(s, s.savers[p].request.path) + [text];
  }

  lemma RejectIsAtomic(s: State, codec: Codec, p: nat)
    requires Inv(s, codec) && Enabled(s, codec, Reject(p))
    ensures var request := s.savers[p].request;
            AtomicSave(codec, VersionsAt(s, request.path), request) == (VersionsAt(s, request.path), Conflict)
  {
    hide Exclusive, Unshared, DirectoryOk, CommitsOk, ReaderOk, TemporaryOk, Fold;
    assert SaverOk(s.directory, s.log, p, s.savers[p]);
  }

  /** A save that asks for nothing or for the last revision adds its text as the next version; any other is a conflict and
      changes nothing. Both are decided in one step, for this path alone. */
  lemma DecisionIsAtomic(s: State, codec: Codec, a: Action)
    requires Inv(s, codec) && Enabled(s, codec, a) && Decides(a)
    ensures var s', request := Apply(s, codec, a), s.savers[a.saver].request;
            var before, after, result := VersionsAt(s, request.path), VersionsAt(s', request.path), Result(s'.savers[a.saver].phase);
            result.Some? && AtomicSave(codec, before, request) == (after, result.value)
            && (request.expected == None || request.expected == Some(|before|) ==>
                  result.value == Saved(|before| + 1) && after == before + [codec.render(request.payload, |before| + 1)])
            && (request.expected != None && request.expected != Some(|before|) ==> result.value == Conflict && after == before)
            && forall other: string :: other != request.path ==> VersionsAt(s', other) == VersionsAt(s, other)
  {
    hide Inv, Versions, Content;
    if a.Rename? { RenameIsAtomic(s, codec, a.saver); } else { RejectIsAtomic(s, codec, a.saver); }
  }

  /** Every other step changes no version and decides nothing. */
  lemma OtherStepsDecideNothing(s: State, codec: Codec, a: Action, q: nat)
    requires Enabled(s, codec, a) && !Decides(a)
    ensures var s' := Apply(s, codec, a);
            s'.log == s.log && s'.directory == s.directory
            && (q in s'.savers && Result(s'.savers[q].phase).Some? && !Result(s'.savers[q].phase).value.Failed? ==>
                  q in s.savers && Result(s.savers[q].phase) == Result(s'.savers[q].phase))
  {
  }

  /** The atomic run that a concurrent run stands for: the decided saves, in the order of their decisions. */
  function Decided(from_: State, codec: Codec, actions: seq<Action>, s: State): seq<Request>
    requires Reaches(from_, codec, actions, s)
    decreases |actions|
  {
    if actions == [] then []
    else
      (if Decides(actions[0]) then [from_.savers[actions[0].saver].request] else [])
      + Decided(Apply(from_, codec, actions[0]), codec, actions[1..], s)
  }

  function AtomicRun(codec: Codec, versions: map<string, seq<string>>, requests: seq<Request>): map<string, seq<string>>
    decreases |requests|
  {
    if requests == [] then versions
    else
      var path := requests[0].path;
      var before := if path in versions then versions[path] else [];
      AtomicRun(codec, versions[path := AtomicSave(codec, before, requests[0]).0], requests[1..])
  }

  ghost predicate Shows(versions: map<string, seq<string>>, s: State) {
    forall path: string :: (if path in versions then versions[path] else []) == VersionsAt(s, path)
  }

  /** Every interleaving leaves the files as the atomic saves would, taken in the order of their decisions. */
  lemma {:induction false} RunIsAtomic(from_: State, codec: Codec, actions: seq<Action>, s: State, versions: map<string, seq<string>>)
    requires RoundTrips(codec) && Inv(from_, codec) && Reaches(from_, codec, actions, s) && Shows(versions, from_)
    ensures Shows(AtomicRun(codec, versions, Decided(from_, codec, actions, s)), s)
    decreases |actions|
  {
    hide Inv, Enabled, Apply, RoundTrips, VersionsAt, AtomicSave, Decides;
    if actions != [] {
      var a := actions[0];
      var next := Apply(from_, codec, a);
      StepKeeps(from_, codec, a);
      var rest := Decided(next, codec, actions[1..], s);
      if Decides(a) {
        HasSaver(from_, codec, a);
        var request := from_.savers[a.saver].request;
        DecisionIsAtomic(from_, codec, a);
        assert ([request] + rest)[1..] == rest;
        var before := if request.path in versions then versions[request.path] else [];
        RunIsAtomic(next, codec, actions[1..], s, versions[request.path := AtomicSave(codec, before, request).0]);
      } else {
        OtherStepsDecideNothing(from_, codec, a, 0);
        assert forall path: string :: VersionsAt(next, path) == VersionsAt(from_, path) by { SameLogSameVersions(from_, next); }
        assert [] + rest == rest;
        RunIsAtomic(next, codec, actions[1..], s, versions);
      }
    }
  }

  lemma HasSaver(s: State, codec: Codec, a: Action)
    requires Enabled(s, codec, a) && Decides(a)
    ensures !a.StartReading? && !a.ReadOn? && a.saver in s.savers
  {
  }

  lemma SameLogSameVersions(s: State, s': State)
    requires s.log == s'.log
    ensures forall path: string :: VersionsAt(s', path) == VersionsAt(s, path)
  {
  }

  // ---- gates open again ----

  /** Some saver inside answers for every closed gate. */
  predicate Staffed(s: State) {
    forall k :: k in s.held ==> exists p :: p in s.savers && Holding(s.savers[p]) && Gate(s.savers[p]) == k
  }

  lemma HeldAfter(s: State, codec: Codec, a: Action)
    requires Enabled(s, codec, a)
    ensures Apply(s, codec, a).held ==
            if a.Enter? then s.held + {Gate(s.savers[a.saver])}
            else if a.Leave? then s.held - {Gate(s.savers[a.saver])} else s.held
  {
    hide Fold, Content, Matches, LogOf;
  }

  lemma HolderStays(s: State, codec: Codec, a: Action, p: nat)
    requires Enabled(s, codec, a) && p in s.savers && Holding(s.savers[p]) && a != Leave(p)
    ensures var s' := Apply(s, codec, a); p in s'.savers && Holding(s'.savers[p]) && Gate(s'.savers[p]) == Gate(s.savers[p])
  {
    hide Fold, Content, Matches, LogOf;
  }

  lemma EnteredHolds(s: State, codec: Codec, p: nat)
    requires Enabled(s, codec, Enter(p))
    ensures var s' := Apply(s, codec, Enter(p)); p in s'.savers && Holding(s'.savers[p]) && Gate(s'.savers[p]) == Gate(s.savers[p])
  {
    hide Fold;
  }

  lemma StepStaffed(s: State, codec: Codec, a: Action)
    requires Staffed(s) && Enabled(s, codec, a)
    ensures Staffed(Apply(s, codec, a))
  {
    hide Apply, Gate, Holding, SaverEnabled;
    var s' := Apply(s, codec, a);
    HeldAfter(s, codec, a);
    forall k | k in s'.held ensures exists p :: p in s'.savers && Holding(s'.savers[p]) && Gate(s'.savers[p]) == k {
      if k in s.held {
        var p :| p in s.savers && Holding(s.savers[p]) && Gate(s.savers[p]) == k;
        HolderStays(s, codec, a, p);
      } else {
        EnteredHolds(s, codec, a.saver);
      }
    }
  }

  lemma {:induction false} RunStaffed(from_: State, codec: Codec, actions: seq<Action>, s: State)
    requires Staffed(from_) && Reaches(from_, codec, actions, s)
    ensures Staffed(s)
    decreases |actions|
  {
    hide Enabled, Apply, Staffed;
    if actions != [] {
      StepStaffed(from_, codec, actions[0]);
      RunStaffed(Apply(from_, codec, actions[0]), codec, actions[1..], s);
    }
  }

  /** A waiting saver can enter exactly when no saver of a path with the same gate is inside. */
  lemma GateOpens(codec: Codec, actions: seq<Action>, s: State, p: nat)
    requires RoundTrips(codec) && Reaches(INITIAL, codec, actions, s) && p in s.savers && s.savers[p].phase.Waiting?
    ensures Enabled(s, codec, Enter(p)) <==>
              forall q :: q in s.savers && Holding(s.savers[q]) ==> Fold(s.savers[q].request.path) != Fold(s.savers[p].request.path)
  {
    hide Unshared, DirectoryOk, CommitsOk, SaverOk, TemporaryOk, ReaderOk, Reaches, Fold, RoundTrips;
    ReachableInv(codec, actions, s);
    RunStaffed(INITIAL, codec, actions, s);
  }

  // ---- and a save can be finished ----

  lemma {:induction false} ReachesNext(from_: State, codec: Codec, actions: seq<Action>, s: State, a: Action)
    requires Reaches(from_, codec, actions, s) && Enabled(s, codec, a)
    ensures Reaches(from_, codec, actions + [a], Apply(s, codec, a))
    decreases |actions|
  {
    hide Enabled, Apply;
    if actions != [] {
      assert (actions + [a])[1..] == actions[1..] + [a];
      ReachesNext(Apply(from_, codec, actions[0]), codec, actions[1..], s, a);
    } else {
      assert [a][1..] == [];
    }
  }

  /** One more step of a run that keeps the invariant. */
  lemma Onward(from_: State, codec: Codec, actions: seq<Action>, s: State, a: Action) returns (longer: seq<Action>, s': State)
    requires RoundTrips(codec) && Inv(s, codec) && Reaches(from_, codec, actions, s) && Enabled(s, codec, a)
    ensures s' == Apply(s, codec, a) && Inv(s', codec) && Reaches(from_, codec, longer, s')
  {
    hide *;
    StepKeeps(s, codec, a);
    ReachesNext(from_, codec, actions, s, a);
    longer, s' := actions + [a], Apply(s, codec, a);
  }

  /** A saver's step changes its own phase only, apart from the step that renames. */
  predicate Alike(s: State, s': State, p: nat) {
    p in s.savers && p in s'.savers && s'.savers[p].request == s.savers[p].request && s'.log == s.log
  }

  lemma StepAlike(s: State, codec: Codec, a: Action)
    requires Enabled(s, codec, a) && !a.StartReading? && !a.ReadOn? && !a.Begin? && !a.Rename?
    ensures Alike(s, Apply(s, codec, a), a.saver)
  {
    hide Content, Fold;
  }

  lemma FileIsThere(s: State, codec: Codec, path: string)
    requires Inv(s, codec) && path in s.directory
    ensures s.directory[path] in s.inodes
  {
    hide Exclusive, Unshared, SaverOk, TemporaryOk, ReaderOk;
    var n := |s.log[path]| - 1;
    assert CommitOk(s.inodes, s.savers, codec, path, n, s.log[path][n]);
  }

  lemma OpenedIsThere(s: State, codec: Codec, p: nat)
    requires Inv(s, codec) && p in s.savers && s.savers[p].phase.Loading?
    ensures s.savers[p].phase.inode in s.inodes
  {
    hide Exclusive, Unshared, DirectoryOk, CommitsOk, TemporaryOk, ReaderOk;
    assert SaverOk(s.directory, s.log, p, s.savers[p]);
    FileIsThere(s, codec, s.savers[p].request.path);
  }

  /** Inside the gate a saver gets to its comparison. */
  lemma CanCompare(s: State, codec: Codec, p: nat) returns (actions: seq<Action>, s': State)
    requires RoundTrips(codec) && Inv(s, codec) && p in s.savers && s.savers[p].phase.Entered?
    ensures Reaches(s, codec, actions, s') && Inv(s', codec) && Alike(s, s', p) && s'.savers[p].phase.Comparing?
  {
    hide Inv, RoundTrips, Fold, LogOf, Content;
    if s.savers[p].request.path in s.directory {
      StepAlike(s, codec, Open(p));
      var a1, s1 := Onward(s, codec, [], s, Open(p));
      OpenedIsThere(s1, codec, p);
      var n := |s1.inodes[s1.savers[p].phase.inode]|;
      StepAlike(s1, codec, Read(p, n));
      var a2, s2 := Onward(s, codec, a1, s1, Read(p, n));
      StepAlike(s2, codec, Loaded(p));
      actions, s' := Onward(s, codec, a2, s2, Loaded(p));
    } else {
      StepAlike(s, codec, FindAbsent(p));
      actions, s' := Onward(s, codec, [], s, FindAbsent(p));
    }
  }

  lemma {:induction false} Unused(numbers: set<nat>) returns (n: nat)
    ensures forall m :: m in numbers ==> m < n
  {
    n := 0;
    if numbers != {} {
      var m :| m in numbers;
      var above := Unused(numbers - {m});
      n := if m < above then above else m + 1;
      assert forall k :: k in numbers ==> k == m || k in numbers - {m};
    }
  }

  /** A saver that may go on writes its file as a whole. */
  lemma CanWrite(s: State, codec: Codec, p: nat) returns (actions: seq<Action>, s': State)
    requires RoundTrips(codec) && Inv(s, codec) && p in s.savers && s.savers[p].phase.Comparing?
    requires var request := s.savers[p].request; Expects(request, |LogOf(s.log, request.path)|)
    ensures Reaches(s, codec, actions, s') && Inv(s', codec) && Alike(s, s', p) && Enabled(s', codec, Rename(p))
  {
    hide Inv, RoundTrips, Fold, LogOf, Committed;
    var inode := Unused(s.inodes.Keys);
    ComparisonExactly(s, codec, p, inode);
    StepAlike(s, codec, CreateTemporary(p, inode));
    var a1, s1 := Onward(s, codec, [], s, CreateTemporary(p, inode));
    var n := |Content(codec, s1.savers[p])|;
    StepAlike(s1, codec, Write(p, n));
    actions, s' := Onward(s, codec, a1, s1, Write(p, n));
  }

  lemma {:induction false} ReachesOn(a: State, codec: Codec, first: seq<Action>, b: State, second: seq<Action>, c: State)
    requires Reaches(a, codec, first, b) && Reaches(b, codec, second, c)
    ensures Reaches(a, codec, first + second, c)
    decreases |first|
  {
    hide Enabled, Apply;
    if first != [] {
      assert (first + second)[1..] == first[1..] + second;
      ReachesOn(Apply(a, codec, first[0]), codec, first[1..], b, second, c);
    } else {
      assert first + second == second;
    }
  }

  /** A saver that has compared gets its decision. */
  lemma CanDecide(s: State, codec: Codec, p: nat) returns (actions: seq<Action>, s': State)
    requires RoundTrips(codec) && Inv(s, codec) && p in s.savers && s.savers[p].phase.Comparing?
    ensures var request := s.savers[p].request;
            Reaches(s, codec, actions, s') && Inv(s', codec) && p in s'.savers && s'.savers[p].phase.Leaving?
            && AtomicSave(codec, VersionsAt(s, request.path), request) == (VersionsAt(s', request.path), s'.savers[p].phase.outcome)
  {
    hide Inv, RoundTrips, Fold, LogOf, AtomicSave, Content;
    var request := s.savers[p].request;
    ComparisonExactly(s, codec, p, 0);
    if Enabled(s, codec, Reject(p)) {
      DecisionIsAtomic(s, codec, Reject(p));
      actions, s' := Onward(s, codec, [], s, Reject(p));
    } else {
      var a1, s1 := CanWrite(s, codec, p);
      DecisionIsAtomic(s1, codec, Rename(p));
      actions, s' := Onward(s, codec, a1, s1, Rename(p));
    }
  }

  /** Whatever the others have done: a waiting saver whose gate is open can finish on its own, with the result and the
      versions of an atomic save. */
  lemma CanSave(s: State, codec: Codec, p: nat) returns (actions: seq<Action>, s': State)
    requires RoundTrips(codec) && Inv(s, codec) && p in s.savers && s.savers[p].phase.Waiting? && Gate(s.savers[p]) !in s.held
    ensures var request := s.savers[p].request;
            Reaches(s, codec, actions, s') && p in s'.savers && s'.savers[p].phase.Done?
            && AtomicSave(codec, VersionsAt(s, request.path), request) == (VersionsAt(s', request.path), s'.savers[p].phase.result)
  {
    hide Inv, RoundTrips, Fold, LogOf, AtomicSave, Content, Reaches, VersionsAt;
    var path := s.savers[p].request.path;
    Unmoved(s, codec);
    StepAlike(s, codec, Enter(p));
    var a1, s1 := Onward(s, codec, [], s, Enter(p));
    var a2, s2 := CanCompare(s1, codec, p);
    ReachesOn(s, codec, a1, s1, a2, s2);
    var a3, s3 := CanDecide(s2, codec, p);
    ReachesOn(s, codec, a1 + a2, s2, a3, s3);
    SameLogSameVersions(s, s2);
    StepAlike(s3, codec, Leave(p));
    actions, s' := Onward(s, codec, a1 + a2 + a3, s3, Leave(p));
    SameLogSameVersions(s3, s');
  }

  lemma LastVersion(s: State, codec: Codec, path: string)
    requires Inv(s, codec) && VersionsAt(s, path) != []
    ensures path in s.directory && s.directory[path] in s.inodes
    ensures s.inodes[s.directory[path]] == VersionsAt(s, path)[|VersionsAt(s, path)| - 1]
  {
    hide Exclusive, Unshared, SaverOk, TemporaryOk, ReaderOk;
    var n := |s.log[path]| - 1;
    assert CommitOk(s.inodes, s.savers, codec, path, n, s.log[path][n]);
  }

  lemma ReadingStarts(s: State, codec: Codec, r: nat, path: string)
    requires r !in s.readers && path in s.directory && s.directory[path] in s.inodes
    ensures Enabled(s, codec, StartReading(r, path))
    ensures Apply(s, codec, StartReading(r, path)) == s.(readers := s.readers[r := Reader(path, s.directory[path], "")])
  {
  }

  lemma ReadingEnds(s: State, codec: Codec, r: nat)
    requires r in s.readers && s.readers[r].seen == "" && s.readers[r].inode in s.inodes
    ensures var text := s.inodes[s.readers[r].inode];
            Enabled(s, codec, ReadOn(r, |text|))
            && Apply(s, codec, ReadOn(r, |text|)) == s.(readers := s.readers[r := s.readers[r].(seen := text)])
  {
    var text := s.inodes[s.readers[r].inode];
    assert text[..|text|] == text;
  }

  /** A new reader of a file that is there can read all of it, and then has seen the last version that was committed. */
  lemma CanRead(s: State, codec: Codec, r: nat, path: string) returns (actions: seq<Action>, s': State)
    requires RoundTrips(codec) && Inv(s, codec) && r !in s.readers && VersionsAt(s, path) != []
    ensures Reaches(s, codec, actions, s') && r in s'.readers
    ensures s'.readers[r].path == path && s'.readers[r].seen == VersionsAt(s, path)[|VersionsAt(s, path)| - 1]
  {
    hide RoundTrips, Inv, Enabled, Apply, VersionsAt, Reaches;
    LastVersion(s, codec, path);
    ReadingStarts(s, codec, r, path);
    Unmoved(s, codec);
    var a1, s1 := Onward(s, codec, [], s, StartReading(r, path));
    ReadingEnds(s1, codec, r);
    actions, s' := Onward(s, codec, a1, s1, ReadOn(r, |s1.inodes[s1.readers[r].inode]|));
  }

  lemma Unmoved(s: State, codec: Codec)
    ensures Reaches(s, codec, [], s)
  {
  }
}

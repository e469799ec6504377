/**
 * The content store under concurrent puts: each put checks, writes a temporary file in pieces, and renames it to the
 * path of its content's hash. Any step may fail or be a process's last, and a temporary name that is free again may be
 * taken again.
 */
module ContentStore {
  import opened Outcomes

  type Bytes = seq<nat>
  type Hash = nat
  type Inode = nat
  type Pid = nat

  // a temporary name, in the folder of its content's path
  datatype Temp = Temp(folder: nat, name: nat)

  /** The folder of a store path: the first two digits of its hash, which the numbering of hashes puts last. */
  function Folder(hash: Hash): nat {
    hash % 0x100
  }

  // where one put stands; while it writes it holds its file open, whatever becomes of the file's name
  datatype Writer =
    | Asked(data: Bytes)
    | Missing(data: Bytes)
    | Writing(data: Bytes, temp: Temp, inode: Inode, count: nat)
    | Written(data: Bytes, temp: Temp)
    | Replaced(data: Bytes, temp: Temp)
    | Failing(data: Bytes, temp: Temp)
    | Raised(data: Bytes)
    | Returned(data: Bytes)
    | Refused(data: Bytes)
    | Crashed

  // the bytes of every file ever made, and the files at store paths and at temporary names
  datatype Directory = Directory(files: map<Inode, Bytes>, stored: map<Hash, Inode>, temps: map<Temp, Inode>)

  // the store, and every put started so far
  datatype State = State(dir: Directory, writers: map<Pid, Writer>)

  const EMPTY := State(Directory(map[], map[], map[]), map[])

  function Holds(dir: Directory, inode: Inode): Bytes {
    if inode in dir.files then dir.files[inode] else []
  }

  // ----- the file system

  function Create(dir: Directory, t: Temp, inode: Inode): Directory {
    dir.(files := dir.files[inode := []], temps := dir.temps[t := inode])
  }

  function Write(dir: Directory, inode: Inode, data: Bytes): Directory {
    dir.(files := dir.files[inode := data])
  }

  function Rename(dir: Directory, t: Temp, hash: Hash): Directory
    requires t in dir.temps
  {
    dir.(stored := dir.stored[hash := dir.temps[t]], temps := dir.temps - {t})
  }

  function Remove(dir: Directory, t: Temp): Directory {
    dir.(temps := dir.temps - {t})
  }

  // ----- one step of a put

  predicate StartStep(before: State, after: State, pid: Pid) {
    pid !in before.writers && pid in after.writers && after.writers[pid].Asked?
    && after == before.(writers := before.writers[pid := after.writers[pid]])
  }

  // a step that changes one put's standing and the directory
  predicate Becomes(before: State, after: State, pid: Pid, dir: Directory, writer: Writer) {
    after == State(dir, before.writers[pid := writer])
  }

  // a step that leaves the directory as it is
  predicate Moves(before: State, after: State, pid: Pid, writer: Writer) {
    Becomes(before, after, pid, before.dir, writer)
  }

  /** put: nothing is written when the target exists; after an error it returns when the target exists by then. */
  predicate PutStep(sha: Bytes -> Hash, before: State, after: State, pid: Pid)
    requires pid in before.writers
  {
    match before.writers[pid]
    case Asked(data) =>
      Moves(before, after, pid, if sha(data) in before.dir.stored then Returned(data) else Missing(data))
    case Raised(data) =>
      Moves(before, after, pid, if sha(data) in before.dir.stored then Returned(data) else Refused(data))
    case _ => false
  }

  // the next piece goes to the open file
  ghost predicate PieceStep(before: State, after: State, pid: Pid, data: Bytes, t: Temp, inode: Inode, count: nat) {
    exists more :: count < more <= |data|
                   && Becomes(before, after, pid, Write(before.dir, inode, data[..more]), Writing(data, t, inode, more))
  }

  // a new file under a name that is free in the content's folder
  ghost predicate TakeStep(sha: Bytes -> Hash, before: State, after: State, pid: Pid, data: Bytes) {
    exists t, inode :: t !in before.dir.temps && t.folder == Folder(sha(data)) && inode !in before.dir.files
                       && Becomes(before, after, pid, Create(before.dir, t, inode), Writing(data, t, inode, 0))
  }

  /**
   * _write_atomic: a new temporary file, its pieces, the rename, and the removal of whatever has the temporary name
   * then. Every system call may fail.
   */
  ghost predicate WriteStep(sha: Bytes -> Hash, before: State, after: State, pid: Pid)
    requires pid in before.writers
  {
    match before.writers[pid]
    case Missing(data) =>
      Moves(before, after, pid, Raised(data)) || TakeStep(sha, before, after, pid, data)
    case Writing(data, t, inode, count) =>
      || Moves(before, after, pid, Failing(data, t))
      || (count == |data| && Moves(before, after, pid, Written(data, t)))
      || PieceStep(before, after, pid, data, t, inode, count)
    case Written(data, t) =>
      || Moves(before, after, pid, Failing(data, t))
      || (t in before.dir.temps
          && Becomes(before, after, pid, Rename(before.dir, t, sha(data)), Replaced(data, t)))
    case Replaced(data, t) =>
      || Moves(before, after, pid, Raised(data))
      || Becomes(before, after, pid, Remove(before.dir, t), Returned(data))
    case Failing(data, t) =>
      || Moves(before, after, pid, Raised(data))
      || Becomes(before, after, pid, Remove(before.dir, t), Raised(data))
    case _ => false
  }

  ghost predicate StepOf(sha: Bytes -> Hash, before: State, after: State, pid: Pid) {
    || StartStep(before, after, pid)
    || (pid in before.writers
        && (|| Moves(before, after, pid, Crashed)
            || PutStep(sha, before, after, pid)
            || WriteStep(sha, before, after, pid)))
  }

  ghost predicate Step(sha: Bytes -> Hash, before: State, after: State) {
    exists pid :: StepOf(sha, before, after, pid)
  }

  ghost predicate Steps(sha: Bytes -> Hash, states: seq<State>) {
    states != [] && forall i | 0 <= i < |states| - 1 :: Step(sha, states[i], states[i + 1])
  }

  ghost predicate Run(sha: Bytes -> Hash, states: seq<State>) {
    Steps(sha, states) && states[0] == EMPTY
  }

  // ----- reuse of a temporary name

  // a put takes a name that another, after its rename, has yet to remove
  ghost predicate TakesNameOf(before: State, after: State, pid: Pid, other: Pid) {
    && pid in before.writers && before.writers[pid].Missing? && pid in after.writers && after.writers[pid].Writing?
    && other in before.writers && before.writers[other].Replaced?
    && before.writers[other].temp == after.writers[pid].temp
  }

  ghost predicate Reuses(before: State, after: State) {
    exists pid, other :: TakesNameOf(before, after, pid, other)
  }

  ghost predicate ReuseFree(states: seq<State>) {
    forall i | 0 <= i < |states| - 1 :: !Reuses(states[i], states[i + 1])
  }

  // the state can come to be, with no name reused on the way
  ghost predicate Leads(sha: Bytes -> Hash, from: State, to: State) {
    exists states :: Steps(sha, states) && ReuseFree(states) && states[0] == from && states[|states| - 1] == to
  }

  // ----- reading

  datatype ReadError = NotFound | Mismatch

  /** get: the stored bytes, when they still have the hash they are stored under. */
  function Get(sha: Bytes -> Hash, state: State, hash: Hash): Result<Bytes, ReadError> {
    if hash !in state.dir.stored then Err(NotFound)
    else
      var data := Holds(state.dir, state.dir.stored[hash]);
      if sha(data) != hash then Err(Mismatch) else Ok(data)
  }

  // ----- what every step keeps

  function TempOf(writer: Writer): Option<Temp> {
    match writer
    case Writing(_, t, _, _) => Some(t)
    case Written(_, t) => Some(t)
    case Replaced(_, t) => Some(t)
    case Failing(_, t) => Some(t)
    case _ => None
  }

  // what the directory holds for one put
  ghost predicate WriterFits(sha: Bytes -> Hash, dir: Directory, writer: Writer) {
    match writer
    case Writing(data, t, inode, count) =>
      count <= |data| && t in dir.temps && dir.temps[t] == inode && Holds(dir, inode) == data[..count]
    case Written(data, t) => t in dir.temps && Holds(dir, dir.temps[t]) == data
    case Replaced(data, t) => t !in dir.temps && sha(data) in dir.stored
    case Failing(data, t) => t in dir.temps
    case Returned(data) => sha(data) in dir.stored
    case _ => true
  }

  // no other put has the name
  ghost predicate Own(state: State, pid: Pid, t: Temp) {
    forall q | q in state.writers && q != pid :: TempOf(state.writers[q]) != Some(t)
  }

  ghost predicate OwnTemps(state: State) {
    forall p | p in state.writers :: TempOf(state.writers[p]).Some? ==> Own(state, p, TempOf(state.writers[p]).value)
  }

  // every file at a store path holds exactly the bytes of its hash
  ghost predicate Intact(sha: Bytes -> Hash, dir: Directory) {
    forall h | h in dir.stored :: sha(Holds(dir, dir.stored[h])) == h
  }

  // a temporary file has one name
  ghost predicate Apart(dir: Directory) {
    && (forall h | h in dir.stored :: dir.stored[h] in dir.files)
    && (forall t | t in dir.temps :: dir.temps[t] in dir.files)
    && (forall t, h | t in dir.temps && h in dir.stored :: dir.stored[h] != dir.temps[t])
    && (forall t, u | t in dir.temps && u in dir.temps && t != u :: dir.temps[t] != dir.temps[u])
  }

  ghost predicate Sound(sha: Bytes -> Hash, state: State) {
    && Intact(sha, state.dir) && Apart(state.dir) && OwnTemps(state)
    && forall p | p in state.writers :: WriterFits(sha, state.dir, state.writers[p])
  }

  // nothing but the name `t` and the file `inode`, which has no other temporary name, differs for another put
  ghost predicate OnlyFile(before: Directory, after: Directory, t: Temp, inode: Inode) {
    && before.stored.Keys <= after.stored.Keys
    && (forall u | u != t :: (u in after.temps <==> u in before.temps)
                             && (u in before.temps ==> after.temps[u] == before.temps[u] != inode))
    && (forall n | n != inode :: Holds(after, n) == Holds(before, n))
  }

  lemma Kept(sha: Bytes -> Hash, before: State, after: State, pid: Pid, t: Temp, inode: Inode, writer: Writer)
    requires Sound(sha, before) && after.writers == before.writers[pid := writer]
    requires Intact(sha, after.dir) && Apart(after.dir)
    requires Own(before, pid, t) && OnlyFile(before.dir, after.dir, t, inode)
    requires WriterFits(sha, after.dir, writer) && (TempOf(writer).Some? ==> TempOf(writer).value == t)
    ensures Sound(sha, after)
  {
    hide Holds, Intact, Apart;
    forall q | q in after.writers && q != pid
      ensures WriterFits(sha, after.dir, after.writers[q])
      ensures TempOf(after.writers[q]).Some? ==> Own(after, q, TempOf(after.writers[q]).value)
    {
      assert WriterFits(sha, before.dir, before.writers[q]);
      assert TempOf(before.writers[q]).Some? ==> Own(before, q, TempOf(before.writers[q]).value);
    }
  }

  // a step that leaves the directory alone
  lemma MovedKeeps(sha: Bytes -> Hash, before: State, after: State, pid: Pid, writer: Writer)
    requires Sound(sha, before) && Moves(before, after, pid, writer)
    requires WriterFits(sha, before.dir, writer)
    requires TempOf(writer).Some? ==> pid in before.writers && TempOf(before.writers[pid]) == TempOf(writer)
    ensures Sound(sha, after)
  {
    hide Holds, Intact, Apart;
    forall q | q in after.writers
      ensures TempOf(after.writers[q]).Some? ==> Own(after, q, TempOf(after.writers[q]).value)
    {
      if q in before.writers {
        assert TempOf(before.writers[q]).Some? ==> Own(before, q, TempOf(before.writers[q]).value);
      }
    }
  }

  // a free name that is not reused is no other put's
  lemma FreeOwned(sha: Bytes -> Hash, before: State, after: State, pid: Pid, t: Temp)
    requires Sound(sha, before) && t !in before.dir.temps && !Reuses(before, after)
    requires pid in before.writers && before.writers[pid].Missing?
    requires pid in after.writers && after.writers[pid].Writing? && after.writers[pid].temp == t
    ensures Own(before, pid, t)
  {
    hide Intact, Apart, OwnTemps;
    forall q | q in before.writers && q != pid
      ensures TempOf(before.writers[q]) != Some(t)
    {
      assert !TakesNameOf(before, after, pid, q);
      assert WriterFits(sha, before.dir, before.writers[q]);
    }
  }

  lemma CreateKeeps(sha: Bytes -> Hash, dir: Directory, t: Temp, inode: Inode)
    requires Intact(sha, dir) && Apart(dir) && t !in dir.temps && inode !in dir.files
    ensures Intact(sha, Create(dir, t, inode)) && Apart(Create(dir, t, inode))
    ensures OnlyFile(dir, Create(dir, t, inode), t, inode)
  {
  }

  lemma TakeKeeps(sha: Bytes -> Hash, before: State, after: State, pid: Pid, t: Temp, inode: Inode, data: Bytes)
    requires Sound(sha, before) && pid in before.writers && before.writers[pid].Missing?
    requires t !in before.dir.temps && inode !in before.dir.files
    requires Becomes(before, after, pid, Create(before.dir, t, inode), Writing(data, t, inode, 0))
    requires !Reuses(before, after)
    ensures Sound(sha, after)
  {
    hide Reuses, OwnTemps, Intact, Apart, OnlyFile;
    FreeOwned(sha, before, after, pid, t);
    CreateKeeps(sha, before.dir, t, inode);
    Kept(sha, before, after, pid, t, inode, Writing(data, t, inode, 0));
  }

  lemma PieceKeeps(
      sha: Bytes -> Hash, before: State, after: State, pid: Pid, data: Bytes, t: Temp, inode: Inode, count: nat)
    requires Sound(sha, before) && pid in before.writers && before.writers[pid] == Writing(data, t, inode, count)
    requires PieceStep(before, after, pid, data, t, inode, count)
    ensures Sound(sha, after)
  {
    assert WriterFits(sha, before.dir, before.writers[pid]);
    var more :| count < more <= |data|
      && Becomes(before, after, pid, Write(before.dir, inode, data[..more]), Writing(data, t, inode, more));
    Kept(sha, before, after, pid, t, inode, Writing(data, t, inode, more));
  }

  lemma RenameKeeps(sha: Bytes -> Hash, before: State, after: State, pid: Pid, data: Bytes, t: Temp)
    requires Sound(sha, before) && pid in before.writers && before.writers[pid] == Written(data, t)
    requires t in before.dir.temps
    requires Becomes(before, after, pid, Rename(before.dir, t, sha(data)), Replaced(data, t))
    ensures Sound(sha, after)
  {
    assert WriterFits(sha, before.dir, before.writers[pid]);
    Kept(sha, before, after, pid, t, before.dir.temps[t], Replaced(data, t));
  }

  lemma RemoveKeeps(sha: Bytes -> Hash, before: State, after: State, pid: Pid, t: Temp, writer: Writer)
    requires Sound(sha, before) && pid in before.writers && TempOf(before.writers[pid]) == Some(t)
    requires Becomes(before, after, pid, Remove(before.dir, t), writer)
    requires TempOf(writer).None? && WriterFits(sha, before.dir, writer)
    ensures Sound(sha, after)
  {
    var inode := SpareInode(before.dir.temps.Values);
    Kept(sha, before, after, pid, t, inode, writer);
  }

  lemma SpareInode(used: set<Inode>) returns (n: Inode)
    ensures n !in used
  {
    n := 0;
    ghost var left := used;
    while n in used
      invariant left <= used && forall u | u in used && u !in left :: u < n
      decreases |left|
    {
      left := left - {n};
      n := n + 1;
    }
  }

  lemma FitsOf(sha: Bytes -> Hash, state: State, pid: Pid)
    requires Sound(sha, state) && pid in state.writers
    ensures WriterFits(sha, state.dir, state.writers[pid])
  {
  }

  lemma WriteKeeps(sha: Bytes -> Hash, before: State, after: State, pid: Pid)
    requires Sound(sha, before) && pid in before.writers && WriteStep(sha, before, after, pid)
    requires !Reuses(before, after)
    ensures Sound(sha, after)
  {
    hide Sound, Reuses, PieceStep;
    FitsOf(sha, before, pid);
    match before.writers[pid]
    case Missing(data) =>
      if TakeStep(sha, before, after, pid, data) {
        var t, inode :| t !in before.dir.temps && inode !in before.dir.files
          && Becomes(before, after, pid, Create(before.dir, t, inode), Writing(data, t, inode, 0));
        TakeKeeps(sha, before, after, pid, t, inode, data);
      } else {
        MovedKeeps(sha, before, after, pid, Raised(data));
      }
    case Writing(data, t, inode, count) =>
      if PieceStep(before, after, pid, data, t, inode, count) {
        PieceKeeps(sha, before, after, pid, data, t, inode, count);
      } else {
        MovedKeeps(sha, before, after, pid, after.writers[pid]);
      }
    case Written(data, t) =>
      if Moves(before, after, pid, Failing(data, t)) {
        MovedKeeps(sha, before, after, pid, Failing(data, t));
      } else {
        RenameKeeps(sha, before, after, pid, data, t);
      }
    case Replaced(data, t) =>
      if Moves(before, after, pid, Raised(data)) {
        MovedKeeps(sha, before, after, pid, Raised(data));
      } else {
        RemoveKeeps(sha, before, after, pid, t, Returned(data));
      }
    case Failing(data, t) =>
      if Moves(before, after, pid, Raised(data)) {
        MovedKeeps(sha, before, after, pid, Raised(data));
      } else {
        RemoveKeeps(sha, before, after, pid, t, Raised(data));
      }
  }

  lemma PutKeeps(sha: Bytes -> Hash, before: State, after: State, pid: Pid)
    requires Sound(sha, before) && pid in before.writers && PutStep(sha, before, after, pid)
    ensures Sound(sha, after)
  {
    MovedKeeps(sha, before, after, pid, after.writers[pid]);
  }

  /** A step keeps the store intact unless it reuses a temporary name. */
  lemma StepKeeps(sha: Bytes -> Hash, before: State, after: State)
    requires Sound(sha, before) && Step(sha, before, after) && !Reuses(before, after)
    ensures Sound(sha, after)
  {
    hide Sound, WriteStep, PutStep, Reuses;
    var pid :| StepOf(sha, before, after, pid);
    if pid in before.writers && WriteStep(sha, before, after, pid) {
      WriteKeeps(sha, before, after, pid);
    } else if pid in before.writers && PutStep(sha, before, after, pid) {
      PutKeeps(sha, before, after, pid);
    } else {
      MovedKeeps(sha, before, after, pid, after.writers[pid]);
    }
  }

  lemma {:induction false} StepsKeep(sha: Bytes -> Hash, states: seq<State>, i: nat)
    requires Steps(sha, states) && ReuseFree(states) && Sound(sha, states[0]) && i < |states|
    ensures Sound(sha, states[i])
  {
    hide Sound, Step, Reuses;
    if i == 0 {
    } else {
      StepsKeep(sha, states, i - 1);
      assert Step(sha, states[i - 1], states[i - 1 + 1]) && !Reuses(states[i - 1], states[i - 1 + 1]);
      StepKeeps(sha, states[i - 1], states[i]);
    }
  }

  /**
   * Over every run that reuses no name: whatever the interleaving, the failures and the crashes, each stored file is
   * whole.
   */
  lemma RunKeeps(sha: Bytes -> Hash, states: seq<State>, i: nat)
    requires Run(sha, states) && ReuseFree(states) && i < |states|
    ensures Sound(sha, states[i])
  {
    hide Steps, ReuseFree;
    StepsKeep(sha, states, i);
  }

  /** No step loses stored content. */
  lemma StepStores(sha: Bytes -> Hash, before: State, after: State)
    requires Step(sha, before, after)
    ensures before.dir.stored.Keys <= after.dir.stored.Keys
  {
  }

  lemma {:induction false} StoredStays(sha: Bytes -> Hash, states: seq<State>, i: nat, j: nat)
    requires Run(sha, states) && i <= j < |states|
    ensures states[i].dir.stored.Keys <= states[j].dir.stored.Keys
    decreases j
  {
    hide Step;
    if i >= j {
    } else {
      StoredStays(sha, states, i, j - 1);
      assert Step(sha, states[j - 1], states[j - 1 + 1]);
      StepStores(sha, states[j - 1], states[j]);
    }
  }

  ghost predicate Injective(sha: Bytes -> Hash) {
    forall a, b :: sha(a) == sha(b) ==> a == b
  }

  /** A put that has returned leaves its content readable, whole, from then on. */
  lemma ReturnedStaysReadable(sha: Bytes -> Hash, states: seq<State>, i: nat, j: nat, pid: Pid)
    requires Injective(sha) && Run(sha, states) && ReuseFree(states) && i <= j < |states|
    requires pid in states[i].writers && states[i].writers[pid].Returned?
    ensures var data := states[i].writers[pid].data; Get(sha, states[j], sha(data)) == Ok(data)
  {
    hide Run, ReuseFree;
    RunKeeps(sha, states, i);
    RunKeeps(sha, states, j);
    StoredStays(sha, states, i, j);
    FitsOf(sha, states[i], pid);
  }

  /** A run that reuses no name reads no bytes that do not match their hash. */
  lemma NeverMismatched(sha: Bytes -> Hash, states: seq<State>, i: nat, hash: Hash)
    requires Run(sha, states) && ReuseFree(states) && i < |states|
    ensures Get(sha, states[i], hash) != Err(Mismatch)
  {
    hide Run, ReuseFree;
    RunKeeps(sha, states, i);
  }

  /** A put whose content is stored by any writer does not fail after that, names reused or not. */
  lemma StoredNeverRefused(sha: Bytes -> Hash, states: seq<State>, i: nat, j: nat, pid: Pid)
    requires Run(sha, states) && i <= j < |states| - 1
    requires pid in states[j].writers && pid in states[j + 1].writers
    requires !states[j].writers[pid].Refused? && states[j + 1].writers[pid].Refused?
    ensures sha(states[j + 1].writers[pid].data) !in states[i].dir.stored
  {
    hide Step;
    StoredStays(sha, states, i, j);
    RefusedUnstored(sha, states[j], states[j + 1], pid);
  }

  lemma RefusedUnstored(sha: Bytes -> Hash, before: State, after: State, pid: Pid)
    requires Step(sha, before, after) && pid in before.writers && pid in after.writers
    requires !before.writers[pid].Refused? && after.writers[pid].Refused?
    ensures sha(after.writers[pid].data) !in before.dir.stored
  {
  }

  // ----- what a reuse leads to

  lemma Stays(sha: Bytes -> Hash, state: State)
    ensures Leads(sha, state, state)
  {
    assert Steps(sha, [state]) && ReuseFree([state]);
    assert [state][0] == state;
  }

  lemma LeadsOn(sha: Bytes -> Hash, from: State, here: State, next: State, pid: Pid)
    requires Leads(sha, from, here) && StepOf(sha, here, next, pid) && !Reuses(here, next)
    ensures Leads(sha, from, next)
  {
    hide StepOf, Reuses;
    var states :| Steps(sha, states) && ReuseFree(states) && states[0] == from && states[|states| - 1] == here;
    var more := states + [next];
    assert Step(sha, here, next);
    forall i | 0 <= i < |more| - 1
      ensures Step(sha, more[i], more[i + 1]) && !Reuses(more[i], more[i + 1])
    {
      if i < |states| - 1 {
        assert Step(sha, states[i], states[i + 1]) && !Reuses(states[i], states[i + 1]);
      }
    }
    assert more[|more| - 1] == next;
  }

  // only a put that takes a name can reuse one
  lemma OtherSteps(before: State, after: State, pid: Pid, writer: Writer)
    requires after.writers == before.writers[pid := writer]
    requires writer.Writing? ==> pid in before.writers && !before.writers[pid].Missing?
    ensures !Reuses(before, after)
  {
  }

  /**
   * A third put can do harm to one of `mine`: some content of the same folder is not stored yet, and it, or the empty
   * file it starts as, has another hash.
   */
  ghost predicate Harmful(sha: Bytes -> Hash, dir: Directory, mine: Bytes, data: Bytes) {
    && sha(data) !in dir.stored && Folder(sha(data)) == Folder(sha(mine))
    && (sha([]) != sha(mine) || sha(data) != sha(mine))
  }

  ghost predicate ReuseHarms(sha: Bytes -> Hash, before: State, after: State) {
    forall pid, other | TakesNameOf(before, after, pid, other) ::
      exists data :: Harmful(sha, after.dir, after.writers[pid].data, data)
  }

  // `pid` has just taken the name `t` that `other` has yet to remove
  ghost predicate Doubled(sha: Bytes -> Hash, state: State, pid: Pid, other: Pid, t: Temp) {
    && pid in state.writers && state.writers[pid].Writing?
    && state.writers[pid].temp == t && state.writers[pid].count == 0
    && pid != other
    && other in state.writers && state.writers[other].Replaced? && state.writers[other].temp == t
    && (forall q | q in state.writers && q != pid && q != other :: TempOf(state.writers[q]) != Some(t))
    && state.writers[pid].inode in state.dir.files
    && t.folder == Folder(sha(state.writers[pid].data))
  }

  // `pid` still has the name `t` in mind; the file there is `last`'s, and still empty
  ghost predicate Stolen(sha: Bytes -> Hash, state: State, pid: Pid, last: Pid, t: Temp, inode: Inode, data: Bytes) {
    && pid in state.writers && state.writers[pid].Writing?
    && state.writers[pid].temp == t && state.writers[pid].count == 0
    && pid != last && last in state.writers && state.writers[last] == Writing(data, t, inode, 0)
    && t in state.dir.temps && state.dir.temps[t] == inode
    && Holds(state.dir, inode) == [] && state.writers[pid].inode != inode
    && (sha([]) != sha(state.writers[pid].data) || sha(data) != sha(state.writers[pid].data))
  }

  lemma SparePid(writers: map<Pid, Writer>) returns (pid: Pid)
    ensures pid !in writers
  {
    pid := SpareInode(writers.Keys);
  }

  /** The other put removes the file of the one that took its name, and a third takes the name once more. */
  lemma NameStolen(sha: Bytes -> Hash, state: State, pid: Pid, other: Pid, t: Temp, data: Bytes)
    returns (after: State, last: Pid, inode: Inode)
    requires Doubled(sha, state, pid, other, t) && Harmful(sha, state.dir, state.writers[pid].data, data)
    ensures Leads(sha, state, after) && Stolen(sha, after, pid, last, t, inode, data)
  {
    hide Leads, Reuses;
    Stays(sha, state);
    last := SparePid(state.writers);
    inode := SpareInode(state.dir.files.Keys);
    var returned := Returned(state.writers[other].data);
    var gone := State(Remove(state.dir, t), state.writers[other := returned]);
    assert WriteStep(sha, state, gone, other);
    OtherSteps(state, gone, other, returned);
    LeadsOn(sha, state, state, gone, other);
    var asked := gone.(writers := gone.writers[last := Asked(data)]);
    assert StartStep(gone, asked, last);
    OtherSteps(gone, asked, last, Asked(data));
    LeadsOn(sha, state, gone, asked, last);
    var missing := asked.(writers := asked.writers[last := Missing(data)]);
    assert PutStep(sha, asked, missing, last);
    OtherSteps(asked, missing, last, Missing(data));
    LeadsOn(sha, state, asked, missing, last);
    after := State(Create(missing.dir, t, inode), missing.writers[last := Writing(data, t, inode, 0)]);
    assert TakeStep(sha, missing, after, last, data);
    assert WriteStep(sha, missing, after, last);
    NoneHolds(missing, after, last, t);
    LeadsOn(sha, state, missing, after, last);
  }

  // a name no put holds after its rename
  lemma NoneHolds(before: State, after: State, pid: Pid, t: Temp)
    requires pid in after.writers && after.writers[pid].Writing? && after.writers[pid].temp == t
    requires after.writers == before.writers[pid := after.writers[pid]]
    requires forall q | q in before.writers :: before.writers[q].Replaced? ==> before.writers[q].temp != t
    ensures !Reuses(before, after)
  {
  }

  /** The put renames the file that has the name now, which is empty or comes to hold another content. */
  lemma WrongFile(
      sha: Bytes -> Hash, from: State, state: State, pid: Pid, last: Pid, t: Temp, inode: Inode, data: Bytes)
    returns (after: State)
    requires Leads(sha, from, state) && Stolen(sha, state, pid, last, t, inode, data)
    ensures Leads(sha, from, after) && !Intact(sha, after.dir)
  {
    hide Leads, Reuses;
    var writer := state.writers[pid];
    var mine, own := writer.data, writer.inode;
    var ready := state;
    if mine != [] {
      assert mine[..|mine|] == mine;
      ready := State(Write(state.dir, own, mine), state.writers[pid := Writing(mine, t, own, |mine|)]);
      assert PieceStep(state, ready, pid, mine, t, own, 0);
      assert WriteStep(sha, state, ready, pid);
      OtherSteps(state, ready, pid, Writing(mine, t, own, |mine|));
      LeadsOn(sha, from, state, ready, pid);
    }
    assert ready.writers[pid] == Writing(mine, t, own, |mine|);
    var written := ready.(writers := ready.writers[pid := Written(mine, t)]);
    assert WriteStep(sha, ready, written, pid);
    OtherSteps(ready, written, pid, Written(mine, t));
    LeadsOn(sha, from, ready, written, pid);
    var replaced := State(Rename(written.dir, t, sha(mine)), written.writers[pid := Replaced(mine, t)]);
    assert WriteStep(sha, written, replaced, pid);
    OtherSteps(written, replaced, pid, Replaced(mine, t));
    LeadsOn(sha, from, written, replaced, pid);
    if sha([]) != sha(mine) {
      assert replaced.dir.stored[sha(mine)] == inode && Holds(replaced.dir, inode) == [];
      return replaced;
    }
    assert data[..|data|] == data;
    after := State(Write(replaced.dir, inode, data), replaced.writers[last := Writing(data, t, inode, |data|)]);
    assert PieceStep(replaced, after, last, data, t, inode, 0);
    assert WriteStep(sha, replaced, after, last);
    OtherSteps(replaced, after, last, Writing(data, t, inode, |data|));
    LeadsOn(sha, from, replaced, after, last);
    assert after.dir.stored[sha(mine)] == inode && Holds(after.dir, inode) == data;
  }

  lemma ReuseDoubles(sha: Bytes -> Hash, before: State, after: State) returns (pid: Pid, other: Pid, t: Temp)
    requires Sound(sha, before) && Step(sha, before, after) && Reuses(before, after)
    ensures TakesNameOf(before, after, pid, other) && Doubled(sha, after, pid, other, t)
  {
    hide Step, Intact, Apart;
    pid, other :| TakesNameOf(before, after, pid, other);
    t := after.writers[pid].temp;
    Takes(sha, before, after, pid);
    TakenFile(sha, before, after, pid, before.writers[pid].data);
    assert Own(before, other, t);
  }

  lemma Takes(sha: Bytes -> Hash, before: State, after: State, pid: Pid)
    requires Step(sha, before, after) && pid in before.writers && before.writers[pid].Missing?
    requires pid in after.writers && after.writers[pid].Writing?
    ensures TakeStep(sha, before, after, pid, before.writers[pid].data)
  {
    hide Create, Write, Rename, Remove;
    var p :| StepOf(sha, before, after, p);
    assert after.writers == before.writers[p := after.writers[p]];
  }

  lemma TakenFile(sha: Bytes -> Hash, before: State, after: State, pid: Pid, data: Bytes)
    requires pid in before.writers && TakeStep(sha, before, after, pid, data)
    ensures pid in after.writers && after.writers[pid].Writing? && after.writers[pid].count == 0
    ensures after.writers[pid].inode in after.dir.files && after.writers[pid].temp.folder == Folder(sha(data))
    ensures after.writers[pid].data == data
    ensures after.writers == before.writers[pid := after.writers[pid]]
  {
  }

  /**
   * One step decides: after a run that reused no name, the store stays intact whatever follows, as long as no name is
   * reused later, if and only if the next step reuses none. A reuse is taken to be one a third put can make harmful.
   */
  lemma ReuseDecides(sha: Bytes -> Hash, states: seq<State>, next: State)
    requires Run(sha, states) && ReuseFree(states) && Step(sha, states[|states| - 1], next)
    requires ReuseHarms(sha, states[|states| - 1], next)
    ensures Reuses(states[|states| - 1], next) <==> exists after :: Leads(sha, next, after) && !Intact(sha, after.dir)
  {
    hide Step, Reuses, ReuseFree, Intact, Doubled, Stolen, Harmful, Leads;
    var now := states[|states| - 1];
    RunKeeps(sha, states, |states| - 1);
    if Reuses(now, next) {
      var pid, other, t := ReuseDoubles(sha, now, next);
      assert TakesNameOf(now, next, pid, other);
      var data :| Harmful(sha, next.dir, next.writers[pid].data, data);
      DoubledPid(sha, next, pid, other, t);
      var stolen, last, inode := NameStolen(sha, next, pid, other, t, data);
      var after := WrongFile(sha, next, stolen, pid, last, t, inode, data);
    } else {
      StepKeeps(sha, now, next);
      forall after | Leads(sha, next, after)
        ensures Intact(sha, after.dir)
      {
        LeadsKeeps(sha, next, after);
      }
    }
  }

  lemma DoubledPid(sha: Bytes -> Hash, state: State, pid: Pid, other: Pid, t: Temp)
    requires Doubled(sha, state, pid, other, t)
    ensures pid in state.writers && state.writers[pid].Writing?
  {
  }

  lemma LeadsKeeps(sha: Bytes -> Hash, from: State, to: State)
    requires Sound(sha, from) && Leads(sha, from, to)
    ensures Sound(sha, to)
  {
    hide Sound, ReuseFree;
    var states :| Steps(sha, states) && ReuseFree(states) && states[0] == from && states[|states| - 1] == to;
    StepsKeep(sha, states, |states| - 1);
  }

  // ----- a run that reuses a name

  // a step on from a state that can come to be
  lemma WritesOn(sha: Bytes -> Hash, here: State, next: State, pid: Pid, writer: Writer)
    requires Leads(sha, EMPTY, here) && pid in here.writers && WriteStep(sha, here, next, pid)
    requires next.writers == here.writers[pid := writer] && !here.writers[pid].Missing?
    ensures Leads(sha, EMPTY, next)
  {
    hide Leads, Reuses, WriteStep;
    OtherSteps(here, next, pid, writer);
    LeadsOn(sha, EMPTY, here, next, pid);
  }

  // two puts find their contents missing
  lemma BothMissing(sha: Bytes -> Hash, a: Bytes, b: Bytes) returns (state: State)
    ensures Leads(sha, EMPTY, state) && state == State(EMPTY.dir, map[0 := Missing(a), 1 := Missing(b)])
  {
    hide Leads, Reuses;
    Stays(sha, EMPTY);
    var first := State(EMPTY.dir, map[0 := Asked(a)]);
    assert StartStep(EMPTY, first, 0);
    OtherSteps(EMPTY, first, 0, Asked(a));
    LeadsOn(sha, EMPTY, EMPTY, first, 0);
    var both := first.(writers := first.writers[1 := Asked(b)]);
    assert StartStep(first, both, 1);
    OtherSteps(first, both, 1, Asked(b));
    LeadsOn(sha, EMPTY, first, both, 1);
    var missing := both.(writers := both.writers[0 := Missing(a)]);
    assert PutStep(sha, both, missing, 0);
    OtherSteps(both, missing, 0, Missing(a));
    LeadsOn(sha, EMPTY, both, missing, 0);
    state := missing.(writers := missing.writers[1 := Missing(b)]);
    assert PutStep(sha, missing, state, 1);
    OtherSteps(missing, state, 1, Missing(b));
    LeadsOn(sha, EMPTY, missing, state, 1);
  }

  // one of them takes a name, writes its file and renames it
  lemma FirstReplaced(sha: Bytes -> Hash, a: Bytes, b: Bytes) returns (state: State)
    ensures Leads(sha, EMPTY, state)
    ensures state.writers == map[0 := Replaced(a, Temp(Folder(sha(a)), 0)), 1 := Missing(b)]
    ensures state.dir == Directory(map[0 := a], map[sha(a) := 0], map[])
  {
    hide Leads, Reuses;
    var here := BothMissing(sha, a, b);
    var t := Temp(Folder(sha(a)), 0);
    var taken := State(Create(here.dir, t, 0), here.writers[0 := Writing(a, t, 0, 0)]);
    assert TakeStep(sha, here, taken, 0, a);
    assert WriteStep(sha, here, taken, 0);
    NoneHolds(here, taken, 0, t);
    LeadsOn(sha, EMPTY, here, taken, 0);
    var full := taken;
    if a != [] {
      assert a[..|a|] == a;
      full := State(Write(taken.dir, 0, a), taken.writers[0 := Writing(a, t, 0, |a|)]);
      assert PieceStep(taken, full, 0, a, t, 0, 0);
      WritesOn(sha, taken, full, 0, Writing(a, t, 0, |a|));
    }
    var written := full.(writers := full.writers[0 := Written(a, t)]);
    WritesOn(sha, full, written, 0, Written(a, t));
    state := State(Rename(written.dir, t, sha(a)), written.writers[0 := Replaced(a, t)]);
    WritesOn(sha, written, state, 0, Replaced(a, t));
  }

  /** For any two contents of one folder, a run that reuses no name reaches a state whose next step reuses one. */
  lemma ReuseHappens(sha: Bytes -> Hash, a: Bytes, b: Bytes) returns (now: State, next: State)
    requires Folder(sha(a)) == Folder(sha(b))
    ensures Leads(sha, EMPTY, now) && Step(sha, now, next) && Reuses(now, next)
    ensures next.dir.stored.Keys == {sha(a)} && next.writers.Keys == {0, 1}
    ensures next.writers[0].Replaced? && next.writers[1].Writing? && next.writers[1].data == b
  {
    hide Leads;
    now := FirstReplaced(sha, a, b);
    var t := Temp(Folder(sha(a)), 0);
    next := State(Create(now.dir, t, 1), now.writers[1 := Writing(b, t, 1, 0)]);
    assert TakeStep(sha, now, next, 1, b);
    assert StepOf(sha, now, next, 1);
    assert TakesNameOf(now, next, 1, 0);
  }

  /**
   * So the store can break: for two contents of one folder with different hashes, the second not hashed as the empty
   * file, a run with one reuse leaves a file under another hash than its own.
   */
  lemma StoreBreaks(sha: Bytes -> Hash, a: Bytes, b: Bytes) returns (now: State, next: State, after: State)
    requires Folder(sha(a)) == Folder(sha(b)) && sha(a) != sha(b) && sha([]) != sha(b)
    ensures Leads(sha, EMPTY, now) && Step(sha, now, next) && Reuses(now, next)
    ensures Leads(sha, next, after) && !Intact(sha, after.dir)
  {
    hide Reuses, Step, Intact;
    now, next := ReuseHappens(sha, a, b);
    var states :| Steps(sha, states) && ReuseFree(states) && states[0] == EMPTY && states[|states| - 1] == now;
    hide Leads;
    assert Harmful(sha, next.dir, b, b);
    ReuseDecides(sha, states, next);
    after :| Leads(sha, next, after) && !Intact(sha, after.dir);
  }
}

/** Refs with compare-and-swap updates and a per-ref hash-chained history. */
module RefStore {
  import opened Prelude
  import opened Hex

  datatype Ref = Ref(target: bytes, updatedAt: int, actor: string, pushId: string)

  datatype Kind = FastForward | Forced | Deletion

  /** A row of the history table; before and after are the targets. */
  datatype Entry = Entry(id: bytes, parent: Option<bytes>, time: int, actor: string, name: string,
                         before: Option<bytes>, after: bytes, pushId: string, kind: Kind)

  /** What the JSON text that is hashed says. */
  datatype Content = Content(time: int, actor: string, name: string, oldHex: string, newHex: string,
                             pushId: string, parentHex: Option<string>, kind: Kind)

  /** The JSON encoding followed by the hash. */
  type Digest = Content -> bytes

  datatype Db = Db(refs: map<string, Ref>, history: seq<Entry>)

  /** A nil slice is None. */
  datatype Op =
    | SetRefFF(name: string, expected: Option<bytes>, target: Option<bytes>, time: int, actor: string, pushId: string)
    | ForceSetRef(name: string, target: Option<bytes>, time: int, actor: string, pushId: string)
    | DeleteRef(name: string, expected: Option<bytes>, time: int, actor: string, pushId: string)

  datatype RefError = Mismatch | NotFound | NullTarget | DuplicateId

  function HexOf(target: Option<bytes>): string {
    match target case Some(t) => HexEncode(t) case None => ""
  }

  function ContentOf(e: Entry): Content {
    Content(e.time, e.actor, e.name, HexOf(e.before), HexEncode(e.after), e.pushId,
            match e.parent case Some(p) => Some(HexEncode(p)) case None => None, e.kind)
  }

  function Current(refs: map<string, Ref>, name: string): Option<bytes> {
    if name in refs then Some(refs[name].target) else None
  }

  /** The id of the ref's latest entry. */
  function LastId(history: seq<Entry>, name: string): Option<bytes> {
    if history == [] then None
    else
      var last := history[|history| - 1];
      if last.name == name then Some(last.id) else LastId(history[..|history| - 1], name)
  }

  function MakeEntry(h: Digest, db: Db, name: string, before: Option<bytes>, after: bytes, time: int, actor: string, pushId: string, kind: Kind): Entry {
    var e := Entry([], LastId(db.history, name), time, actor, name, before, after, pushId, kind);
    e.(id := h(ContentOf(e)))
  }

  predicate HasId(history: seq<Entry>, id: bytes) {
    exists i :: 0 <= i < |history| && history[i].id == id
  }

  // --------------------------------------------------------- specification

  /** Why an operation is turned down before it writes. */
  function Refusal(db: Db, op: Op): Option<RefError> {
    var current := Current(db.refs, op.name);
    match op
    case SetRefFF(_, expected, target, _, _, _) =>
      if expected != current then Some(Mismatch) else if target.None? then Some(NullTarget) else None
    case ForceSetRef(_, target, _, _, _) => if target.None? then Some(NullTarget) else None
    case DeleteRef(_, expected, _, _, _) =>
      if current.None? then Some(NotFound)
      else if expected.Some? && expected != current then Some(Mismatch)
      else None
  }

  function EntryFor(h: Digest, db: Db, op: Op): Entry
    requires Refusal(db, op).None?
  {
    var current := Current(db.refs, op.name);
    match op
    case SetRefFF(name, expected, target, time, actor, pushId) =>
      MakeEntry(h, db, name, expected, target.value, time, actor, pushId, FastForward)
    case ForceSetRef(name, target, time, actor, pushId) =>
      MakeEntry(h, db, name, current, target.value, time, actor, pushId, Forced)
    case DeleteRef(name, _, time, actor, pushId) =>
      MakeEntry(h, db, name, current, [], time, actor, pushId, Deletion)
  }

  function RefsAfter(db: Db, op: Op): map<string, Ref>
    requires Refusal(db, op).None?
  {
    if op.DeleteRef? then db.refs - {op.name}
    else db.refs[op.name := Ref(op.target.value, op.time, op.actor, op.pushId)]
  }

  /** One operation inside a transaction.  A duplicate entry id is noticed only
      after the refs table has been written. */
  function Exec(h: Digest, db: Db, op: Op): (Db, Option<RefError>) {
    match Refusal(db, op)
    case Some(error) => (db, Some(error))
    case None =>
      var e := EntryFor(h, db, op);
      var refs := RefsAfter(db, op);
      if HasId(db.history, e.id) then (db.(refs := refs), Some(DuplicateId))
      else (Db(refs, db.history + [e]), None)
  }

  function ExecAll(h: Digest, db: Db, ops: seq<Op>): (Db, Option<RefError>)
    decreases |ops|
  {
    if ops == [] then (db, None)
    else
      var (next, error) := Exec(h, db, ops[0]);
      if error.Some? then (next, error) else ExecAll(h, next, ops[1..])
  }

  /** A transaction that fails is rolled back. */
  function Commit(h: Digest, db: Db, ops: seq<Op>): (Db, Option<RefError>) {
    var (next, error) := ExecAll(h, db, ops);
    if error.Some? then (db, error) else (next, None)
  }

  function Run(h: Digest, db: Db, txs: seq<seq<Op>>): Db
    decreases |txs|
  {
    if txs == [] then db else Commit(h, Run(h, db, txs[..|txs| - 1]), txs[|txs| - 1]).0
  }

  const EMPTY := Db(map[], [])

  // ---------------------------------------------------------------- history

  /** The entries of one ref, oldest first. */
  function LogOf(history: seq<Entry>, name: string): seq<Entry> {
    if history == [] then []
    else
      var last := history[|history| - 1];
      LogOf(history[..|history| - 1], name) + if last.name == name then [last] else []
  }

  /** The target a ref has once an entry is its latest. */
  function ValueAfter(e: Entry): Option<bytes> {
    if e.kind.Deletion? then None else Some(e.after)
  }

  function Replayed(log: seq<Entry>): Option<bytes> {
    if log == [] then None else ValueAfter(log[|log| - 1])
  }

  function HeadId(log: seq<Entry>): Option<bytes> {
    if log == [] then None else Some(log[|log| - 1].id)
  }

  /** Each entry's id is its content's hash, its parent the entry before, and
      its old target what the entry before left. */
  ghost predicate Chained(h: Digest, name: string, log: seq<Entry>) {
    forall i :: 0 <= i < |log| ==>
      && log[i].name == name && log[i].id == h(ContentOf(log[i]))
      && log[i].parent == HeadId(log[..i]) && log[i].before == Replayed(log[..i])
      && (log[i].kind.Deletion? ==> log[i].after == [])
  }

  ghost predicate Consistent(h: Digest, db: Db) {
    && (forall name :: Chained(h, name, LogOf(db.history, name)) && Current(db.refs, name) == Replayed(LogOf(db.history, name)))
    && (forall i, j :: 0 <= i < j < |db.history| ==> db.history[i].id != db.history[j].id)
  }

  lemma {:induction false} LastIdIsHead(history: seq<Entry>, name: string)
    ensures LastId(history, name) == HeadId(LogOf(history, name))
  {
    if history != [] { LastIdIsHead(history[..|history| - 1], name); }
  }

  lemma LogMore(history: seq<Entry>, e: Entry, name: string)
    ensures LogOf(history + [e], name) == LogOf(history, name) + if e.name == name then [e] else []
  {
    assert (history + [e])[..|history|] == history;
  }

  lemma ChainedMore(h: Digest, name: string, log: seq<Entry>, e: Entry)
    requires Chained(h, name, log) && e.name == name && e.id == h(ContentOf(e))
    requires e.parent == HeadId(log) && e.before == Replayed(log) && (e.kind.Deletion? ==> e.after == [])
    ensures Chained(h, name, log + [e])
  {
    var more := log + [e];
    assert more[..|log|] == log;
    forall i | 0 <= i < |log| ensures more[..i] == log[..i] && more[i] == log[i] { }
  }

  /** An operation that goes through keeps log and refs in step. */
  lemma ExecKeepsConsistent(h: Digest, db: Db, op: Op)
    requires Consistent(h, db) && Exec(h, db, op).1.None?
    ensures Consistent(h, Exec(h, db, op).0)
    ensures db.history < Exec(h, db, op).0.history
  {
    hide Chained, Replayed, HeadId, LogOf, LastId, ContentOf;
    var next := Exec(h, db, op).0;
    var e := EntryFor(h, db, op);
    var n := |db.history|;
    forall name
      ensures Chained(h, name, LogOf(next.history, name)) && Current(next.refs, name) == Replayed(LogOf(next.history, name))
    {
      LogMore(db.history, e, name);
      if name == e.name {
        EntryLinks(h, db, op);
        ChainedMore(h, name, LogOf(db.history, name), e);
        ReplayedMore(LogOf(db.history, name), e);
      } else {
        assert LogOf(db.history, name) + [] == LogOf(db.history, name);
      }
    }
    forall i, j | 0 <= i < j < |next.history| ensures next.history[i].id != next.history[j].id {
      if j == n { assert !HasId(db.history, e.id); assert db.history[i].id != e.id; }
    }
  }

  lemma ReplayedMore(log: seq<Entry>, e: Entry)
    ensures Replayed(log + [e]) == ValueAfter(e)
  {
  }

  lemma EntryLinks(h: Digest, db: Db, op: Op)
    requires Consistent(h, db) && Refusal(db, op).None?
    ensures var e := EntryFor(h, db, op);
            var log := LogOf(db.history, e.name);
            && e.name == op.name && e.id == h(ContentOf(e))
            && e.parent == HeadId(log) && e.before == Replayed(log) && (e.kind.Deletion? ==> e.after == [])
            && Current(RefsAfter(db, op), e.name) == ValueAfter(e)
  {
    hide Chained, HeadId, Replayed, LogOf;
    LastIdIsHead(db.history, op.name);
    var e := EntryFor(h, db, op);
    assert ContentOf(e.(id := [])) == ContentOf(e);
  }

  lemma {:induction false} ExecAllKeepsConsistent(h: Digest, db: Db, ops: seq<Op>)
    requires Consistent(h, db) && ExecAll(h, db, ops).1.None?
    ensures Consistent(h, ExecAll(h, db, ops).0) && db.history <= ExecAll(h, db, ops).0.history
    decreases |ops|
  {
    hide Exec, Consistent;
    if ops != [] {
      ExecKeepsConsistent(h, db, ops[0]);
      ExecAllKeepsConsistent(h, Exec(h, db, ops[0]).0, ops[1..]);
    }
  }

  /** After any run of transactions: every ref is at its last entry's target,
      every old target is what the entry before left, every parent is the entry
      before, ids are distinct, and history only grows. */
  lemma {:induction false} RunKeepsConsistent(h: Digest, db: Db, txs: seq<seq<Op>>)
    requires Consistent(h, db)
    ensures Consistent(h, Run(h, db, txs)) && db.history <= Run(h, db, txs).history
    decreases |txs|
  {
    hide ExecAll, Consistent;
    if txs != [] {
      var n := |txs| - 1;
      RunKeepsConsistent(h, db, txs[..n]);
      var before := Run(h, db, txs[..n]);
      if ExecAll(h, before, txs[n]).1.None? { ExecAllKeepsConsistent(h, before, txs[n]); }
    }
  }

  lemma EmptyIsConsistent(h: Digest)
    ensures Consistent(h, EMPTY)
  {
  }

  lemma EveryRunIsConsistent(h: Digest, txs: seq<seq<Op>>)
    ensures Consistent(h, Run(h, EMPTY, txs))
  {
    EmptyIsConsistent(h);
    RunKeepsConsistent(h, EMPTY, txs);
  }

  /** One new row that says what happened; no other ref has changed. */
  ghost predicate Recorded(db: Db, next: Db, op: Op, kind: Kind, after: bytes) {
    && |next.history| == |db.history| + 1 && db.history < next.history
    && (var e := next.history[|db.history|];
        && e.name == op.name && e.kind == kind && e.before == Current(db.refs, op.name) && e.after == after
        && e.time == op.time && e.actor == op.actor && e.pushId == op.pushId)
    && forall other :: other != op.name ==> Current(next.refs, other) == Current(db.refs, other)
  }

  /** A forced update goes through exactly when the target is not nil and the
      entry is new. */
  lemma ForceOutcome(h: Digest, db: Db, op: Op)
    requires op.ForceSetRef?
    ensures var (next, error) := Commit(h, db, [op]);
            && (error.None? <==> op.target.Some? && !HasId(db.history, EntryFor(h, db, op).id))
            && (if error.None? then Current(next.refs, op.name) == op.target && Recorded(db, next, op, Forced, op.target.value) else next == db)
  {
    CommitOne(h, db, op);
  }

  /** A deletion goes through exactly when the ref exists, has the expected
      value if one is given, and the entry is new. */
  lemma DeleteOutcome(h: Digest, db: Db, op: Op)
    requires op.DeleteRef?
    ensures var (next, error) := Commit(h, db, [op]);
            var current := Current(db.refs, op.name);
            && (error.None? <==>
                  current.Some? && (op.expected.None? || op.expected == current) && !HasId(db.history, EntryFor(h, db, op).id))
            && (error == Some(NotFound) <==> current.None?)
            && (if error.None? then Current(next.refs, op.name) == None && Recorded(db, next, op, Deletion, []) else next == db)
  {
    CommitOne(h, db, op);
  }

  lemma CommitOne(h: Digest, db: Db, op: Op)
    ensures var (next, error) := Exec(h, db, op);
            Commit(h, db, [op]) == if error.Some? then (db, error) else (next, None)
  {
    assert [op][1..] == [];
    assert ExecAll(h, Exec(h, db, op).0, []) == (Exec(h, db, op).0, None);
  }

  /** A compare-and-swap goes through exactly when the ref has the expected
      value (none when none is expected), the new target is not nil and the entry
      is new; afterwards the ref has the new target and no other ref changed. */
  lemma SwapOutcome(h: Digest, db: Db, op: Op)
    requires op.SetRefFF?
    ensures var (next, error) := Commit(h, db, [op]);
            && (error.None? <==>
                  && Current(db.refs, op.name) == op.expected && op.target.Some?
                  && !HasId(db.history, EntryFor(h, db, op).id))
            && (if error.None? then Current(next.refs, op.name) == op.target && Recorded(db, next, op, FastForward, op.target.value) else next == db)
  {
    CommitOne(h, db, op);
  }

  // --------------------------------------------------- whole transactions

  /** What an operation leaves its ref as; nothing when it deletes it. */
  function Given(op: Op): Option<Ref> {
    match op
    case DeleteRef(_, _, _, _, _) => None
    case _ => if op.target.None? then None else Some(Ref(op.target.value, op.time, op.actor, op.pushId))
  }

  function RefAt(refs: map<string, Ref>, name: string): Option<Ref> {
    if name in refs then Some(refs[name]) else None
  }

  /** What the last of the operations on a ref leaves it as, or what it was. */
  function LastGiven(db: Db, ops: seq<Op>, name: string): Option<Ref>
    decreases |ops|
  {
    if ops == [] then RefAt(db.refs, name)
    else
      var n := |ops| - 1;
      if ops[n].name == name then Given(ops[n]) else LastGiven(db, ops[..n], name)
  }

  function TargetOf(ref: Option<Ref>): Option<bytes> {
    match ref case Some(r) => Some(r.target) case None => None
  }

  /** An operation that cannot be applied to a ref with this value. */
  predicate Unfit(current: Option<bytes>, op: Op) {
    match op
    case SetRefFF(_, expected, target, _, _, _) => current != expected || target.None?
    case ForceSetRef(_, target, _, _, _) => target.None?
    case DeleteRef(_, expected, _, _, _) => current.None? || (expected.Some? && current != expected)
  }

  /** The row says which operation it was, and what the ref was before. */
  predicate Records(e: Entry, op: Op, before: Option<bytes>) {
    && e.name == op.name && e.time == op.time && e.actor == op.actor && e.pushId == op.pushId && e.before == before
    && match op
       case SetRefFF(_, _, target, _, _, _) => e.kind == FastForward && Some(e.after) == target
       case ForceSetRef(_, target, _, _, _) => e.kind == Forced && Some(e.after) == target
       case DeleteRef(_, _, _, _, _) => e.kind == Deletion && e.after == []
  }

  /** One operation: when it goes through, and everything it changes. */
  lemma ExecOutcome(h: Digest, db: Db, op: Op)
    ensures var (next, error) := Exec(h, db, op);
            && (Unfit(Current(db.refs, op.name), op) <==> Refusal(db, op).Some?)
            && (error.Some? <==> Unfit(Current(db.refs, op.name), op) || HasId(db.history, EntryFor(h, db, op).id))
            && (error == Some(NotFound) <==> op.DeleteRef? && Current(db.refs, op.name).None?)
            && (error == Some(Mismatch) <==>
                  (op.SetRefFF? || (op.DeleteRef? && Current(db.refs, op.name).Some? && op.expected.Some?)) && op.expected != Current(db.refs, op.name))
            && (error == Some(DuplicateId) ==> !Unfit(Current(db.refs, op.name), op))
            && (error.None? ==>
                  && |next.history| == |db.history| + 1 && db.history <= next.history
                  && Records(next.history[|db.history|], op, Current(db.refs, op.name))
                  && forall name :: RefAt(next.refs, name) == if name == op.name then Given(op) else RefAt(db.refs, name))
  {
  }

  lemma {:induction false} ExecAllSnoc(h: Digest, db: Db, ops: seq<Op>)
    requires ops != []
    ensures var n := |ops| - 1;
            var (mid, error) := ExecAll(h, db, ops[..n]);
            ExecAll(h, db, ops) == if error.Some? then (mid, error) else Exec(h, mid, ops[n])
    decreases |ops|
  {
    hide Exec;
    var n := |ops| - 1;
    var first := Exec(h, db, ops[0]);
    if n == 0 {
      assert ops[1..] == [];
    } else if first.1.None? {
      assert ops[1..][..n - 1] == ops[..n][1..];
      ExecAllSnoc(h, first.0, ops[1..]);
    }
  }

  /** A transaction goes on where a shorter one stopped. */
  lemma CommitSnoc(h: Digest, db: Db, ops: seq<Op>)
    requires ops != []
    ensures var n := |ops| - 1;
            var (mid, error) := Commit(h, db, ops[..n]);
            var (next, last) := Exec(h, mid, ops[n]);
            Commit(h, db, ops) == if error.Some? then (db, error) else if last.Some? then (db, last) else (next, None)
  {
    hide ExecAll, Exec;
    ExecAllSnoc(h, db, ops);
  }

  /** One new row for every operation, in order, with what its ref was before it. */
  ghost predicate AllRecorded(db: Db, next: Db, ops: seq<Op>) {
    && |next.history| == |db.history| + |ops| && db.history <= next.history
    && forall i :: 0 <= i < |ops| ==>
         Records(next.history[|db.history| + i], ops[i], TargetOf(LastGiven(db, ops[..i], ops[i].name)))
  }

  /** After a transaction that goes through every operation has its row; every ref
      is as its last operation leaves it, and every other ref as it was. */
  lemma {:induction false} CommitRecordsAll(h: Digest, db: Db, ops: seq<Op>)
    requires Commit(h, db, ops).1.None?
    ensures AllRecorded(db, Commit(h, db, ops).0, ops)
    ensures forall name :: RefAt(Commit(h, db, ops).0.refs, name) == LastGiven(db, ops, name)
    decreases |ops|
  {
    hide Exec, Records, Given, Commit, AllRecorded, RefAt;
    if ops == [] {
      NothingCommitted(h, db);
      NothingRecorded(db);
    } else {
      var n := |ops| - 1;
      CommitSnoc(h, db, ops);
      CommitRecordsAll(h, db, ops[..n]);
      var mid, next := Commit(h, db, ops[..n]).0, Commit(h, db, ops).0;
      assert Exec(h, mid, ops[n]) == (next, None);
      ExecOutcome(h, mid, ops[n]);
      CurrentIsTarget(mid.refs, ops[n].name);
      RecordsOneMore(db, mid, next, ops);
    }
  }

  lemma NothingRecorded(db: Db)
    ensures AllRecorded(db, db, [])
  {
  }

  lemma RecordsOneMore(db: Db, mid: Db, next: Db, ops: seq<Op>)
    requires ops != [] && AllRecorded(db, mid, ops[..|ops| - 1])
    requires |next.history| == |mid.history| + 1 && mid.history <= next.history
    requires var n := |ops| - 1;
             Records(next.history[|mid.history|], ops[n], TargetOf(LastGiven(db, ops[..n], ops[n].name)))
    ensures AllRecorded(db, next, ops)
  {
    hide Records, LastGiven, TargetOf;
    var n := |ops| - 1;
    forall i | 0 <= i < |ops|
      ensures Records(next.history[|db.history| + i], ops[i], TargetOf(LastGiven(db, ops[..i], ops[i].name)))
    {
      if i < n {
        assert ops[..n][..i] == ops[..i] && ops[..n][i] == ops[i];
        assert next.history[|db.history| + i] == mid.history[|db.history| + i];
      }
    }
  }

  lemma NothingCommitted(h: Digest, db: Db)
    ensures Commit(h, db, []) == (db, None)
  {
  }

  lemma CurrentIsTarget(refs: map<string, Ref>, name: string)
    ensures Current(refs, name) == TargetOf(RefAt(refs, name))
  {
  }

  /** Operation number i is turned down: the ones before it go through, and it
      does not fit what they leave, or its entry's id is already there. */
  ghost predicate TurnedDown(h: Digest, db: Db, ops: seq<Op>, i: nat) {
    && i < |ops| && Commit(h, db, ops[..i]).1.None?
    && (|| Unfit(TargetOf(LastGiven(db, ops[..i], ops[i].name)), ops[i])
        || (var mid := Commit(h, db, ops[..i]).0; Refusal(mid, ops[i]).None? && HasId(mid.history, EntryFor(h, mid, ops[i]).id)))
  }

  /** A transaction fails exactly when one of its operations is turned down, and
      then nothing has changed. */
  lemma {:induction false} CommitFailsIff(h: Digest, db: Db, ops: seq<Op>)
    ensures Commit(h, db, ops).1.Some? <==> exists i :: TurnedDown(h, db, ops, i)
    ensures Commit(h, db, ops).1.Some? ==> Commit(h, db, ops).0 == db
    decreases |ops|
  {
    hide Exec, Commit, LastGiven, Unfit;
    if ops == [] {
      NothingCommitted(h, db);
    } else {
      var n := |ops| - 1;
      CommitSnoc(h, db, ops);
      CommitFailsIff(h, db, ops[..n]);
      forall i | 0 <= i < n ensures TurnedDown(h, db, ops[..n], i) <==> TurnedDown(h, db, ops, i) {
        assert ops[..n][..i] == ops[..i] && ops[..n][i] == ops[i];
      }
      if Commit(h, db, ops[..n]).1.None? { LastTurnedDown(h, db, ops); }
    }
  }

  lemma LastTurnedDown(h: Digest, db: Db, ops: seq<Op>)
    requires ops != [] && Commit(h, db, ops[..|ops| - 1]).1.None?
    ensures TurnedDown(h, db, ops, |ops| - 1) <==> Exec(h, Commit(h, db, ops[..|ops| - 1]).0, ops[|ops| - 1]).1.Some?
  {
    hide Commit, LastGiven;
    var n := |ops| - 1;
    var mid := Commit(h, db, ops[..n]).0;
    CommitRecordsAll(h, db, ops[..n]);
    CurrentIsTarget(mid.refs, ops[n].name);
  }

  // --------------------------------------------------------- empty targets

  /** Reading the target columns alone, an empty new target means deleted. */
  function ColumnValue(log: seq<Entry>): Option<bytes> {
    if log == [] || log[|log| - 1].after == [] then None else Some(log[|log| - 1].after)
  }

  ghost predicate ReadsByColumns(db: Db) {
    forall name ::
      var log := LogOf(db.history, name);
      && Current(db.refs, name) == ColumnValue(log)
      && forall i :: 0 <= i < |log| ==> log[i].before == ColumnValue(log[..i])
  }

  /** The target columns alone tell the story exactly when no entry other than
      a deletion has an empty target, which the HTTP handlers see to. */
  lemma ColumnsSufficeIffNoEmptyTarget(h: Digest, db: Db)
    requires Consistent(h, db)
    ensures ReadsByColumns(db) <==> forall e :: e in db.history ==> e.kind.Deletion? || e.after != []
  {
    hide LogOf;
    if forall e :: e in db.history ==> e.kind.Deletion? || e.after != [] {
      forall name
        ensures var log := LogOf(db.history, name);
                && Current(db.refs, name) == ColumnValue(log)
                && forall i :: 0 <= i < |log| ==> log[i].before == ColumnValue(log[..i])
      {
        var log := LogOf(db.history, name);
        LogMembers(db.history, name);
        forall i | 0 <= i <= |log| ensures ColumnValue(log[..i]) == Replayed(log[..i]) { ColumnIsReplayed(log, i); }
        assert log[..|log|] == log;
      }
    }
    if ReadsByColumns(db) {
      forall e | e in db.history ensures e.kind.Deletion? || e.after != [] { NotAnEmptyTarget(h, db, e); }
    }
  }

  lemma NotAnEmptyTarget(h: Digest, db: Db, e: Entry)
    requires Consistent(h, db) && ReadsByColumns(db) && e in db.history
    ensures e.kind.Deletion? || e.after != []
  {
    hide LogOf, Chained, Replayed, ColumnValue;
    var log := LogOf(db.history, e.name);
    LogMembers(db.history, e.name);
    var i :| 0 <= i < |log| && log[i] == e;
    LastOf(log[..i + 1]);
    if i + 1 < |log| {
      BeforeIsReplayed(h, e.name, log, i + 1);
    } else {
      assert log[..i + 1] == log;
    }
  }

  lemma BeforeIsReplayed(h: Digest, name: string, log: seq<Entry>, i: nat)
    requires Chained(h, name, log) && i < |log|
    ensures log[i].before == Replayed(log[..i])
  {
  }

  lemma LastOf(log: seq<Entry>)
    requires log != []
    ensures var last := log[|log| - 1];
            && Replayed(log) == ValueAfter(last)
            && ColumnValue(log) == if last.after == [] then None else Some(last.after)
  {
  }

  /** An empty target is stored, yet the columns read as a deletion. */
  lemma EmptyTargetLooksDeleted(h: Digest, name: string)
    ensures var db := Commit(h, EMPTY, [SetRefFF(name, None, Some([]), 0, "", "")]).0;
            Current(db.refs, name) == Some([]) && ColumnValue(LogOf(db.history, name)) == None
  {
    var op := SetRefFF(name, None, Some([]), 0, "", "");
    CommitOne(h, EMPTY, op);
    LogMore([], EntryFor(h, EMPTY, op), name);
  }

  lemma ColumnIsReplayed(log: seq<Entry>, i: nat)
    requires i <= |log| && forall e :: e in log ==> (e.kind.Deletion? <==> e.after == [])
    ensures ColumnValue(log[..i]) == Replayed(log[..i])
  {
    if i > 0 { assert log[..i][i - 1] == log[i - 1]; assert log[i - 1] in log; }
  }

  lemma {:induction false} LogMembers(history: seq<Entry>, name: string)
    ensures forall e :: e in LogOf(history, name) <==> e in history && e.name == name
  {
    if history != [] { LogMembers(history[..|history| - 1], name); }
  }

  // ------------------------------------------------------------- hash chain

  /** Two different contents of the logs have the same hash. */
  ghost predicate Collides(h: Digest, a: seq<Entry>, b: seq<Entry>) {
    exists i, j :: 0 <= i < |a| && 0 <= j < |b| && ContentOf(a[i]) != ContentOf(b[j]) && h(ContentOf(a[i])) == h(ContentOf(b[j]))
  }

  ghost predicate SameContents(a: seq<Entry>, b: seq<Entry>) {
    |a| == |b| && forall i :: 0 <= i < |a| ==> ContentOf(a[i]) == ContentOf(b[i])
  }

  /** The head id commits to the whole log: two logs with one head id agree
      entry by entry, or else show a collision of the hash. */
  lemma {:induction false} HeadCommitsToLog(h: Digest, m: string, a: seq<Entry>, n: string, b: seq<Entry>)
    requires Chained(h, m, a) && Chained(h, n, b) && HeadId(a) == HeadId(b)
    ensures SameContents(a, b) || Collides(h, a, b)
    decreases |a|
  {
    hide ContentOf, SameContents, Collides;
    if a == [] {
      NoEntries();
    } else {
      var i, j := |a| - 1, |b| - 1;
      if ContentOf(a[i]) == ContentOf(b[j]) {
        ContentFixesParent(a[i], b[j]);
        PrefixChained(h, m, a, i);
        PrefixChained(h, n, b, j);
        HeadCommitsToLog(h, m, a[..i], n, b[..j]);
        OneMoreAgrees(h, a, b);
      } else {
        LastsCollide(h, a, b);
      }
    }
  }

  lemma NoEntries()
    ensures SameContents([], [])
  {
  }

  lemma LastsCollide(h: Digest, a: seq<Entry>, b: seq<Entry>)
    requires a != [] && b != []
    requires var d, e := a[|a| - 1], b[|b| - 1];
             d.id == h(ContentOf(d)) && e.id == h(ContentOf(e)) && d.id == e.id && ContentOf(d) != ContentOf(e)
    ensures Collides(h, a, b)
  {
  }

  lemma OneMoreAgrees(h: Digest, a: seq<Entry>, b: seq<Entry>)
    requires a != [] && b != [] && ContentOf(a[|a| - 1]) == ContentOf(b[|b| - 1])
    requires var x, y := a[..|a| - 1], b[..|b| - 1]; SameContents(x, y) || Collides(h, x, y)
    ensures SameContents(a, b) || Collides(h, a, b)
  {
    hide ContentOf;
    var x, y := a[..|a| - 1], b[..|b| - 1];
    if Collides(h, x, y) {
      var k, l :| 0 <= k < |x| && 0 <= l < |y| && ContentOf(x[k]) != ContentOf(y[l]) && h(ContentOf(x[k])) == h(ContentOf(y[l]));
      assert x[k] == a[k] && y[l] == b[l];
    } else {
      forall k | 0 <= k < |a| ensures ContentOf(a[k]) == ContentOf(b[k]) {
        if k < |x| { assert x[k] == a[k] && y[k] == b[k]; }
      }
    }
  }

  lemma PrefixChained(h: Digest, name: string, log: seq<Entry>, n: nat)
    requires Chained(h, name, log) && n <= |log|
    ensures Chained(h, name, log[..n])
  {
    hide ContentOf, HeadId, Replayed;
    forall i | 0 <= i < n ensures log[..n][..i] == log[..i] && log[..n][i] == log[i] { }
  }

  lemma ContentFixesParent(d: Entry, e: Entry)
    requires ContentOf(d) == ContentOf(e)
    ensures d.parent == e.parent && d.after == e.after
    ensures d.before != e.before ==> d.before in [None, Some([])] && e.before in [None, Some([])]
  {
    HexInjective(d.after, e.after);
    if d.parent.Some? && e.parent.Some? { HexInjective(d.parent.value, e.parent.value); }
    HexInjective(if d.before.Some? then d.before.value else [], if e.before.Some? then e.before.value else []);
  }

  /** Without empty targets the rows themselves agree. */
  lemma HeadCommitsToRows(h: Digest, m: string, a: seq<Entry>, n: string, b: seq<Entry>)
    requires Chained(h, m, a) && Chained(h, n, b) && HeadId(a) == HeadId(b)
    requires forall e :: e in a + b ==> e.before != Some([])
    ensures a == b || Collides(h, a, b)
  {
    hide ContentOf, HeadId, Replayed;
    HeadCommitsToLog(h, m, a, n, b);
    if SameContents(a, b) {
      forall i | 0 <= i < |a| ensures a[i] == b[i] {
        assert a[i] in a + b && b[i] in a + b;
        ContentFixesParent(a[i], b[i]);
        ContentFixesFields(a[i], b[i]);
      }
    }
  }

  lemma ContentFixesFields(d: Entry, e: Entry)
    requires ContentOf(d) == ContentOf(e)
    ensures d.(id := e.id, parent := e.parent, before := e.before, after := e.after) == e
  {
  }

  // --------------------------------------------------------------- the store

  class RefTable {
    const digest: Digest
    var refs: map<string, Ref>
    var history: seq<Entry>

    constructor (digest: Digest)
      ensures this.digest == digest && State() == EMPTY
    {
      this.digest, refs, history := digest, map[], [];
    }

    function State(): Db
      reads this
    {
      Db(refs, history)
    }

    method AppendHistory(e: Entry) returns (error: Option<RefError>)
      modifies `history
      ensures error == if HasId(old(history), e.id) then Some(DuplicateId) else None
      ensures history == if error.Some? then old(history) else old(history) + [e]
    {
      for i := 0 to |history|
        invariant forall k :: 0 <= k < i ==> history[k].id != e.id
        invariant history == old(history)
      {
        if history[i].id == e.id { return Some(DuplicateId); }
      }
      history := history + [e];
      return None;
    }

    method SetRefFF(name: string, expected: Option<bytes>, target: Option<bytes>, time: int, actor: string, pushId: string)
      returns (error: Option<RefError>)
      modifies this
      ensures (State(), error) == Exec(digest, old(State()), Op.SetRefFF(name, expected, target, time, actor, pushId))
    {
      var current := if name in refs then Some(refs[name].target) else None;
      if expected.None? && current.Some? { return Some(Mismatch); }
      if expected.Some? {
        if current.None? { return Some(Mismatch); }
        if expected.value != current.value { return Some(Mismatch); }
      }
      var e := MakeEntry(digest, State(), name, expected, if target.Some? then target.value else [], time, actor, pushId, FastForward);
      if target.None? { return Some(NullTarget); }
      refs := refs[name := Ref(target.value, time, actor, pushId)];
      error := AppendHistory(e);
    }

    method ForceSetRef(name: string, target: Option<bytes>, time: int, actor: string, pushId: string)
      returns (error: Option<RefError>)
      modifies this
      ensures (State(), error) == Exec(digest, old(State()), Op.ForceSetRef(name, target, time, actor, pushId))
    {
      var current := if name in refs then Some(refs[name].target) else None;
      if target.None? { return Some(NullTarget); }
      var e := MakeEntry(digest, State(), name, current, target.value, time, actor, pushId, Forced);
      refs := refs[name := Ref(target.value, time, actor, pushId)];
      error := AppendHistory(e);
    }

    method DeleteRef(name: string, expected: Option<bytes>, time: int, actor: string, pushId: string)
      returns (error: Option<RefError>)
      modifies this
      ensures (State(), error) == Exec(digest, old(State()), Op.DeleteRef(name, expected, time, actor, pushId))
    {
      if name !in refs { return Some(NotFound); }
      var current := refs[name].target;
      if expected.Some? && expected.value != current { return Some(Mismatch); }
      var e := MakeEntry(digest, State(), name, Some(current), [], time, actor, pushId, Deletion);
      refs := refs - {name};
      error := AppendHistory(e);
    }

    /** All of the operations, or none of them. */
    method Transaction(ops: seq<Op>) returns (error: Option<RefError>)
      modifies this
      ensures (State(), error) == Commit(digest, old(State()), ops)
    {
      hide Exec;
      var savedRefs, savedHistory := refs, history;
      ghost var rest := ops;
      for i := 0 to |ops|
        invariant rest == ops[i..]
        invariant ExecAll(digest, State(), rest) == ExecAll(digest, old(State()), ops)
      {
        match ops[i] {
        case SetRefFF(name, expected, target, time, actor, pushId) => error := SetRefFF(name, expected, target, time, actor, pushId);
        case ForceSetRef(name, target, time, actor, pushId) => error := ForceSetRef(name, target, time, actor, pushId);
        case DeleteRef(name, expected, time, actor, pushId) => error := DeleteRef(name, expected, time, actor, pushId);
        }
        if error.Some? {
          refs, history := savedRefs, savedHistory;
          return;
        }
        assert ops[i..][1..] == ops[i + 1..];
        rest := rest[1..];
      }
      return None;
    }
  }
}

/** Three-way merge: of units, of one file, of whole file maps. */
module ThreeWayMerge {
  import opened LinkedLists
  import opened Prelude

  datatype UnitKind = Function | Class | Method | Const | Variable | Import | Export | Type | Module

  datatype UnitKey = UnitKey(file: string, symbolPath: seq<string>, kind: UnitKind)

  /** Units are compared by the hash of their content. */
  datatype MergeUnit = MergeUnit(key: UnitKey, kind: UnitKind, name: string, signature: string, bodyHash: bytes, content: bytes)

  datatype ConflictKind =
    | DeleteVsModify | ModifyVsDelete | ConcurrentCreate
    | APISignatureDiverged | BodyDiverged | ConstValueConflict | ImportAlias

  datatype Conflict = FileConflict(kind: ConflictKind, path: string)
                    | UnitConflict(kind: ConflictKind, key: UnitKey, base: Option<MergeUnit>, left: Option<MergeUnit>, right: Option<MergeUnit>,
                                   leftDiff: string, rightDiff: string)

  /** A merged unit (none when deleted) or a conflict. */
  datatype Outcome = Clean(merged: Option<MergeUnit>) | Conflicted(conflict: Conflict)

  // ------------------------------------------------------------------- units

  predicate Equivalent(a: Option<MergeUnit>, b: Option<MergeUnit>) {
    match (a, b)
    case (None, None) => true
    case (Some(x), Some(y)) => x.bodyHash == y.bodyHash
    case _ => false
  }

  predicate Changed(u: Option<MergeUnit>, base: Option<MergeUnit>) {
    !Equivalent(u, base)
  }

  function BothChanged(kind: ConflictKind, base: MergeUnit, left: MergeUnit, right: MergeUnit): Outcome {
    Conflicted(UnitConflict(kind, base.key, Some(base), Some(left), Some(right), "", ""))
  }

  function MergeCreatedUnit(left: Option<MergeUnit>, right: Option<MergeUnit>): Outcome {
    if left.Some? && right.None? then Clean(left)
    else if right.Some? && left.None? then Clean(right)
    else if left.Some? && right.Some? then
      if Equivalent(left, right) then Clean(left)
      else Conflicted(UnitConflict(ConcurrentCreate, left.value.key, None, left, right, "", ""))
    else Clean(None)
  }

  function MergeFunctionUnit(base: MergeUnit, left: MergeUnit, right: MergeUnit): Outcome {
    var sigLeftChanged := left.signature != base.signature;
    var sigRightChanged := right.signature != base.signature;
    if sigLeftChanged && sigRightChanged && left.signature != right.signature then
      Conflicted(UnitConflict(APISignatureDiverged, base.key, Some(base), Some(left), Some(right),
                              base.signature + " -> " + left.signature, base.signature + " -> " + right.signature))
    else if sigLeftChanged && !sigRightChanged then Clean(Some(left))
    else if sigRightChanged && !sigLeftChanged then Clean(Some(right))
    else if left.bodyHash != right.bodyHash then BothChanged(BodyDiverged, base, left, right)
    else Clean(Some(left))
  }

  function MergeByHash(kind: ConflictKind, base: MergeUnit, left: MergeUnit, right: MergeUnit): Outcome {
    if left.bodyHash != right.bodyHash then BothChanged(kind, base, left, right) else Clean(Some(left))
  }

  function MergeChangedUnit(base: MergeUnit, left: MergeUnit, right: MergeUnit): Outcome {
    match base.kind
    case Function | Method => MergeFunctionUnit(base, left, right)
    case Const | Variable => MergeByHash(ConstValueConflict, base, left, right)
    case Import => MergeByHash(ImportAlias, base, left, right)
    case _ => MergeByHash(BodyDiverged, base, left, right)
  }

  function MergeOneUnit(base: Option<MergeUnit>, left: Option<MergeUnit>, right: Option<MergeUnit>): Outcome {
    if Equivalent(base, left) && Equivalent(base, right) then Clean(base)
    else if base.None? then MergeCreatedUnit(left, right)
    else if left.None? && right.Some? then
      if Equivalent(right, base) then Clean(None)
      else Conflicted(UnitConflict(DeleteVsModify, base.value.key, base, None, right, "", ""))
    else if right.None? && left.Some? then
      if Equivalent(left, base) then Clean(None)
      else Conflicted(UnitConflict(ModifyVsDelete, base.value.key, base, left, None, "", ""))
    else if left.None? && right.None? then Clean(None)
    else if Equivalent(base, right) && Changed(left, base) then Clean(left)
    else if Equivalent(base, left) && Changed(right, base) then Clean(right)
    else MergeChangedUnit(base.value, left.value, right.value)
  }

  /** A side equivalent to the base yields the other side. */
  lemma UnchangedSideYields(base: Option<MergeUnit>, left: Option<MergeUnit>, right: Option<MergeUnit>)
    ensures Equivalent(left, base) ==> MergeOneUnit(base, left, right).Clean? && Equivalent(MergeOneUnit(base, left, right).merged, right)
    ensures Equivalent(right, base) ==> MergeOneUnit(base, left, right).Clean? && Equivalent(MergeOneUnit(base, left, right).merged, left)
    ensures Equivalent(left, base) && Changed(right, base) ==> MergeOneUnit(base, left, right).merged == right
    ensures Equivalent(right, base) && Changed(left, base) ==> MergeOneUnit(base, left, right).merged == left
  {
  }

  /** Whether exactly one side changed the signature of a function that all
      three versions have. */
  predicate OneSignatureChanged(base: Option<MergeUnit>, left: Option<MergeUnit>, right: Option<MergeUnit>) {
    && base.Some? && left.Some? && right.Some?
    && (base.value.kind.Function? || base.value.kind.Method?)
    && (left.value.signature != base.value.signature) != (right.value.signature != base.value.signature)
  }

  /** Two changes that differ merge cleanly exactly when they are to a function
      or method and only one changes its signature; that one is kept whole. */
  lemma CleanMergeOfTwoChanges(base: Option<MergeUnit>, left: Option<MergeUnit>, right: Option<MergeUnit>)
    requires Changed(left, base) && Changed(right, base) && Changed(left, right)
    ensures MergeOneUnit(base, left, right).Clean? <==> OneSignatureChanged(base, left, right)
    ensures OneSignatureChanged(base, left, right) ==>
              MergeOneUnit(base, left, right).merged == if left.value.signature != base.value.signature then left else right
  {
  }

  /** Two equivalent changes merge to either, unless they are to a function or
      method that all three versions have, with two new signatures. */
  lemma EquivalentChangesMerge(base: Option<MergeUnit>, left: Option<MergeUnit>, right: Option<MergeUnit>)
    requires Changed(left, base) && Changed(right, base) && Equivalent(left, right)
    ensures var split := && base.Some? && left.Some? && (base.value.kind.Function? || base.value.kind.Method?)
                         && left.value.signature != base.value.signature && right.value.signature != base.value.signature
                         && left.value.signature != right.value.signature;
            && (MergeOneUnit(base, left, right).Clean? <==> !split)
            && (!split ==> Equivalent(MergeOneUnit(base, left, right).merged, left))
  {
  }

  /** A conflict shows the three versions as they are, under the base's key, or of
      two creations the left one's, and its kind tells what happened. */
  lemma ConflictTellsWhy(base: Option<MergeUnit>, left: Option<MergeUnit>, right: Option<MergeUnit>)
    requires MergeOneUnit(base, left, right).Conflicted?
    ensures var c := MergeOneUnit(base, left, right).conflict;
            && c.UnitConflict? && c.base == base && c.left == left && c.right == right
            && (base.None? ==> left.Some? && right.Some? && c.kind == ConcurrentCreate && c.key == left.value.key)
            && (base.Some? ==> c.key == base.value.key)
            && (base.Some? && left.None? ==> right.Some? && c.kind == DeleteVsModify)
            && (base.Some? && right.None? ==> left.Some? && c.kind == ModifyVsDelete)
            && (base.Some? && left.Some? && right.Some? ==>
                  match base.value.kind
                  case Const | Variable => c.kind == ConstValueConflict
                  case Import => c.kind == ImportAlias
                  case Function | Method =>
                    var split := && left.value.signature != base.value.signature && right.value.signature != base.value.signature
                                 && left.value.signature != right.value.signature;
                    c.kind == if split then APISignatureDiverged else BodyDiverged
                  case _ => c.kind == BodyDiverged)
  {
  }

  function MirrorKind(k: ConflictKind): ConflictKind {
    match k case DeleteVsModify => ModifyVsDelete case ModifyVsDelete => DeleteVsModify case _ => k
  }

  /** The same conflict seen from the other side; two concurrent creations are
      reported under the left one's key. */
  predicate Mirrors(c: Conflict, d: Conflict) {
    match (c, d)
    case (FileConflict(k, path), FileConflict(k', path')) => k' == MirrorKind(k) && path' == path
    case (UnitConflict(k, key, b, l, r, dl, dr), UnitConflict(k', key', b', l', r', dl', dr')) =>
      && k' == MirrorKind(k) && b' == b && l' == r && r' == l && dl' == dr && dr' == dl
      && (if k == ConcurrentCreate then l.Some? && r.Some? && key == l.value.key && key' == r.value.key else key' == key)
    case _ => false
  }

  predicate MirroredOutcome(x: Outcome, y: Outcome) {
    match (x, y)
    case (Clean(u), Clean(v)) => Equivalent(u, v)
    case (Conflicted(c), Conflicted(d)) => Mirrors(c, d)
    case _ => false
  }

  lemma SwapChangedMirrors(base: MergeUnit, left: MergeUnit, right: MergeUnit)
    ensures MirroredOutcome(MergeChangedUnit(base, left, right), MergeChangedUnit(base, right, left))
  {
  }

  /** Swapping the sides gives an equivalent unit or the mirrored conflict. */
  lemma SwapMirrors(base: Option<MergeUnit>, left: Option<MergeUnit>, right: Option<MergeUnit>)
    ensures MirroredOutcome(MergeOneUnit(base, left, right), MergeOneUnit(base, right, left))
  {
    hide MergeChangedUnit;
    if base.Some? && left.Some? && right.Some? { SwapChangedMirrors(base.value, left.value, right.value); }
  }

  // ------------------------------------------------------------------- files

  type Units = map<string, MergeUnit>

  /** Extraction of units from a file, and rebuilding a file from units. */
  datatype Language = Language(
    extract: (string, bytes) -> Result<Units, string>,
    rebuild: Units -> bytes)

  /** The merged content (none when deleted), conflicts, or a failed extraction. */
  datatype FileMerge = Merged(content: Option<bytes>) | Diverged(conflicts: seq<Conflict>) | Failed(error: string)

  function At<V>(m: map<string, V>, k: string): Option<V> {
    if k in m then Some(m[k]) else None
  }

  function MergeCreated(path: string, left: Option<bytes>, right: Option<bytes>): FileMerge {
    if left.Some? && right.None? then Merged(left)
    else if right.Some? && left.None? then Merged(right)
    else if left.Some? && right.Some? then
      if left == right then Merged(left) else Diverged([FileConflict(ConcurrentCreate, path)])
    else Merged(None)
  }

  /** The cases settled without looking at units. */
  function WholeFile(path: string, base: Option<bytes>, left: Option<bytes>, right: Option<bytes>): Option<FileMerge> {
    if base.None? then Some(MergeCreated(path, left, right))
    else if left.None? && right.None? then Some(Merged(None))
    else if left.None? then
      if base == right then Some(Merged(None)) else Some(Diverged([FileConflict(DeleteVsModify, path)]))
    else if right.None? then
      if base == left then Some(Merged(None)) else Some(Diverged([FileConflict(ModifyVsDelete, path)]))
    else if left == right then Some(Merged(left))
    else if base == left then Some(Merged(right))
    else if base == right then Some(Merged(left))
    else None
  }

  /** How a file came to differ on both sides, when a version is missing. */
  function KindOfChange(base: Option<bytes>, left: Option<bytes>): ConflictKind {
    if base.None? then ConcurrentCreate else if left.None? then DeleteVsModify else ModifyVsDelete
  }

  /** Two different changes, with a version missing. */
  predicate ChangedApart(base: Option<bytes>, left: Option<bytes>, right: Option<bytes>) {
    left != base && right != base && left != right && (base.None? || left.None? || right.None?)
  }

  function OutcomeAt(b: Units, l: Units, r: Units, key: string): Outcome {
    MergeOneUnit(At(b, key), At(l, key), At(r, key))
  }

  function Keys(b: Units, l: Units, r: Units): set<string> {
    b.Keys + l.Keys + r.Keys
  }

  /** The conflicts are those of the conflicting keys, each once, in some order. */
  ghost predicate ListsConflicts(b: Units, l: Units, r: Units, done: set<string>, conflicts: seq<Conflict>, order: seq<string>) {
    && |order| == |conflicts|
    && NoDuplicates(order)
    && (forall k :: k in order <==> k in done && OutcomeAt(b, l, r, k).Conflicted?)
    && (forall i :: 0 <= i < |order| ==> conflicts[i] == OutcomeAt(b, l, r, order[i]).conflict)
  }

  /** The units that survive, key by key. */
  function CleanUnits(b: Units, l: Units, r: Units, done: set<string>): Units {
    map k | k in done && OutcomeAt(b, l, r, k).Clean? && OutcomeAt(b, l, r, k).merged.Some? :: OutcomeAt(b, l, r, k).merged.value
  }

  /** A unit that a side left as it was survives as the other side has it. */
  lemma UnitSurvives(b: Units, l: Units, r: Units, key: string)
    ensures var merged := At(CleanUnits(b, l, r, Keys(b, l, r)), key);
            && (Equivalent(At(l, key), At(b, key)) ==> Equivalent(merged, At(r, key)))
            && (Equivalent(At(r, key), At(b, key)) ==> Equivalent(merged, At(l, key)))
            && (Equivalent(At(l, key), At(b, key)) && Changed(At(r, key), At(b, key)) ==> merged == At(r, key))
            && (Equivalent(At(r, key), At(b, key)) && Changed(At(l, key), At(b, key)) ==> merged == At(l, key))
  {
    hide MergeOneUnit;
    UnchangedSideYields(At(b, key), At(l, key), At(r, key));
  }

  ghost predicate UnitsMerge(lang: Language, b: Units, l: Units, r: Units, result: FileMerge) {
    if forall k :: k in Keys(b, l, r) ==> OutcomeAt(b, l, r, k).Clean? then
      result == Merged(Some(lang.rebuild(CleanUnits(b, l, r, Keys(b, l, r)))))
    else
      result.Diverged? && exists order :: ListsConflicts(b, l, r, Keys(b, l, r), result.conflicts, order)
  }

  predicate Unreadable(lang: Language, path: string, base: Option<bytes>, left: Option<bytes>, right: Option<bytes>) {
    && WholeFile(path, base, left, right).None?
    && (lang.extract(path, base.value).Err? || lang.extract(path, left.value).Err? || lang.extract(path, right.value).Err?)
  }

  /** What merging a file may result in; only the order of conflicts is open. */
  ghost predicate FileResult(lang: Language, path: string, base: Option<bytes>, left: Option<bytes>, right: Option<bytes>, result: FileMerge) {
    match WholeFile(path, base, left, right)
    case Some(whole) => result == whole
    case None =>
      if Unreadable(lang, path, base, left, right) then result.Failed?
      else UnitsMerge(lang, lang.extract(path, base.value).value, lang.extract(path, left.value).value, lang.extract(path, right.value).value, result)
  }

  method MergeUnits(lang: Language, b: Units, l: Units, r: Units) returns (result: FileMerge)
    ensures UnitsMerge(lang, b, l, r, result)
  {
    hide OutcomeAt, CleanUnits, ListsConflicts, UnitsMerge;
    var left := Keys(b, l, r);
    var mergedUnits: Units, conflicts: seq<Conflict> := map[], [];
    ghost var done: set<string>, order: seq<string> := {}, [];
    NoUnits(b, l, r);
    while left != {}
      invariant done + left == Keys(b, l, r) && done !! left
      invariant mergedUnits == CleanUnits(b, l, r, done)
      invariant ListsConflicts(b, l, r, done, conflicts, order)
      decreases |left|
    {
      var key :| key in left;
      CleanMore(b, l, r, done, key);
      match OutcomeAt(b, l, r, key) {
        case Conflicted(conflict) =>
          ConflictMore(b, l, r, done, conflicts, order, key);
          conflicts := conflicts + [conflict];
          order := order + [key];
        case Clean(merged) =>
          NoConflictMore(b, l, r, done, conflicts, order, key);
          if merged.Some? { mergedUnits := mergedUnits[key := merged.value]; }
      }
      left := left - {key};
      done := done + {key};
    }
    assert done == Keys(b, l, r);
    AllUnits(lang, b, l, r, conflicts, order);
    if |conflicts| > 0 { return Diverged(conflicts); }
    return Merged(Some(lang.rebuild(mergedUnits)));
  }

  lemma NoUnits(b: Units, l: Units, r: Units)
    ensures CleanUnits(b, l, r, {}) == map[] && ListsConflicts(b, l, r, {}, [], [])
  {
  }

  lemma CleanMore(b: Units, l: Units, r: Units, done: set<string>, key: string)
    requires key !in done
    ensures CleanUnits(b, l, r, done + {key}) ==
              match OutcomeAt(b, l, r, key)
              case Clean(Some(u)) => CleanUnits(b, l, r, done)[key := u]
              case _ => CleanUnits(b, l, r, done)
  {
    hide OutcomeAt;
  }

  lemma AllUnits(lang: Language, b: Units, l: Units, r: Units, conflicts: seq<Conflict>, order: seq<string>)
    requires ListsConflicts(b, l, r, Keys(b, l, r), conflicts, order)
    ensures UnitsMerge(lang, b, l, r, if |conflicts| > 0 then Diverged(conflicts)
                                      else Merged(Some(lang.rebuild(CleanUnits(b, l, r, Keys(b, l, r))))))
  {
    hide OutcomeAt, CleanUnits;
    if |conflicts| > 0 {
      assert order[0] in order;
    } else {
      assert forall k :: k in Keys(b, l, r) ==> k !in order;
    }
  }

  lemma ConflictMore(b: Units, l: Units, r: Units, done: set<string>, conflicts: seq<Conflict>, order: seq<string>, key: string)
    requires ListsConflicts(b, l, r, done, conflicts, order) && key !in done && OutcomeAt(b, l, r, key).Conflicted?
    ensures ListsConflicts(b, l, r, done + {key}, conflicts + [OutcomeAt(b, l, r, key).conflict], order + [key])
  {
    hide OutcomeAt;
  }

  lemma NoConflictMore(b: Units, l: Units, r: Units, done: set<string>, conflicts: seq<Conflict>, order: seq<string>, key: string)
    requires ListsConflicts(b, l, r, done, conflicts, order) && OutcomeAt(b, l, r, key).Clean?
    ensures ListsConflicts(b, l, r, done + {key}, conflicts, order)
  {
    hide OutcomeAt;
  }

  method MergeFile(lang: Language, path: string, base: Option<bytes>, left: Option<bytes>, right: Option<bytes>) returns (result: FileMerge)
    ensures FileResult(lang, path, base, left, right, result)
    ensures left == right ==> result == Merged(left)
    ensures left == base ==> result == Merged(right)
    ensures right == base ==> result == Merged(left)
    ensures ChangedApart(base, left, right) ==>
              result == Diverged([FileConflict(KindOfChange(base, left), path)])
  {
    hide UnitsMerge;
    var whole := WholeFile(path, base, left, right);
    if whole.Some? { return whole.value; }
    var baseUnits := lang.extract(path, base.value);
    if baseUnits.Err? { return Failed("extracting base units: " + baseUnits.error); }
    var leftUnits := lang.extract(path, left.value);
    if leftUnits.Err? { return Failed("extracting left units: " + leftUnits.error); }
    var rightUnits := lang.extract(path, right.value);
    if rightUnits.Err? { return Failed("extracting right units: " + rightUnits.error); }
    result := MergeUnits(lang, baseUnits.value, leftUnits.value, rightUnits.value);
  }

  // --------------------------------------------------------------- file maps

  type Files = map<string, bytes>

  datatype MergeResult = MergeResult(success: bool, files: Files, conflicts: seq<Conflict>, filesModified: nat)

  function Paths(base: Files, left: Files, right: Files): set<string> {
    base.Keys + left.Keys + right.Keys
  }

  function Concat(order: seq<string>, outcomes: map<string, FileMerge>): seq<Conflict>
    requires forall p :: p in order ==> p in outcomes
  {
    if order == [] then []
    else
      var n := |order| - 1;
      Concat(order[..n], outcomes) + ConflictsOf(outcomes[order[n]])
  }

  function ConflictsOf(file: FileMerge): seq<Conflict> {
    match file case Diverged(cs) => cs case _ => []
  }

  function MergedFiles(outcomes: map<string, FileMerge>): Files {
    map p | p in outcomes && outcomes[p].Merged? && outcomes[p].content.Some? :: outcomes[p].content.value
  }

  lemma MergedFilesMore(outcomes: map<string, FileMerge>, path: string, file: FileMerge)
    requires path !in outcomes
    ensures path !in MergedFiles(outcomes)
    ensures MergedFiles(outcomes[path := file]) ==
              if file.Merged? && file.content.Some? then MergedFiles(outcomes)[path := file.content.value] else MergedFiles(outcomes)
  {
  }

  lemma OutcomesMore(lang: Language, base: Files, left: Files, right: Files, outcomes: map<string, FileMerge>, path: string, file: FileMerge)
    requires Outcomes(lang, base, left, right, outcomes.Keys, outcomes)
    requires FileResult(lang, path, At(base, path), At(left, path), At(right, path), file) && !file.Failed?
    ensures outcomes[path := file].Keys == outcomes.Keys + {path}
    ensures Outcomes(lang, base, left, right, outcomes.Keys + {path}, outcomes[path := file])
  {
    hide FileResult;
  }

  ghost predicate Outcomes(lang: Language, base: Files, left: Files, right: Files, done: set<string>, outcomes: map<string, FileMerge>) {
    && outcomes.Keys == done
    && forall p :: p in done ==> FileResult(lang, p, At(base, p), At(left, p), At(right, p), outcomes[p]) && !outcomes[p].Failed?
  }

  /** The result is made of the files' outcomes and nothing else. */
  ghost predicate Collects(outcomes: map<string, FileMerge>, order: seq<string>, result: MergeResult) {
    && NoDuplicates(order)
    && (forall p :: p in order <==> p in outcomes)
    && result.conflicts == Concat(order, outcomes)
    && (result.success <==> forall p :: p in outcomes ==> outcomes[p].Merged?)
    && result.files == MergedFiles(outcomes)
    && result.filesModified == |result.files|
  }

  predicate SomeUnreadable(lang: Language, base: Files, left: Files, right: Files) {
    exists p :: p in Paths(base, left, right) && Unreadable(lang, p, At(base, p), At(left, p), At(right, p))
  }

  /** Every file is merged on its own; an unreadable one fails the whole. */
  method MergeFiles(lang: Language, base: Files, left: Files, right: Files)
    returns (r: Result<MergeResult, string>, ghost outcomes: map<string, FileMerge>, ghost order: seq<string>)
    ensures r.Err? <==> SomeUnreadable(lang, base, left, right)
    ensures r.Ok? ==> Outcomes(lang, base, left, right, Paths(base, left, right), outcomes) && Collects(outcomes, order, r.value)
    ensures left == base || right == base ==>
              r.Ok? && r.value.success && r.value.conflicts == [] && r.value.files == if left == base then right else left
    ensures forall p :: r.Ok? && (At(left, p) == At(right, p) || At(right, p) == At(base, p)) ==> At(r.value.files, p) == At(left, p)
    ensures forall p :: r.Ok? && At(left, p) == At(base, p) ==> At(r.value.files, p) == At(right, p)
    ensures forall p :: r.Ok? && ChangedApart(At(base, p), At(left, p), At(right, p)) ==>
              && !r.value.success && p !in r.value.files
              && FileConflict(KindOfChange(At(base, p), At(left, p)), p) in r.value.conflicts
  {
    hide FileResult, Unreadable, Collects, Outcomes, Collected, Paths;
    var todo := Paths(base, left, right);
    var result := MergeResult(true, map[], [], 0);
    outcomes, order := map[], [];
    ghost var done: set<string> := {};
    NothingCollected(lang, base, left, right);
    while todo != {}
      invariant done + todo == Paths(base, left, right) && done !! todo && outcomes.Keys == done
      invariant Outcomes(lang, base, left, right, done, outcomes)
      invariant Collects(outcomes, order, result)
      invariant forall p :: p in done ==> !Unreadable(lang, p, At(base, p), At(left, p), At(right, p))
      decreases |todo|
    {
      var path :| path in todo;
      var file := MergeFile(lang, path, At(base, path), At(left, path), At(right, path));
      FailsIffUnreadable(lang, path, At(base, path), At(left, path), At(right, path), file);
      if left == base || right == base { NothingToExtract(lang, base, left, right); }
      if file.Failed? { return Err("merging " + path + ": " + file.error), outcomes, order; }
      CollectMore(outcomes, order, result, path, file);
      OutcomesMore(lang, base, left, right, outcomes, path, file);
      result := AddFile(result, path, file);
      TakeOne(done, todo, path);
      outcomes := outcomes[path := file];
      order := order + [path];
      todo := todo - {path};
      done := done + {path};
    }
    assert done == Paths(base, left, right);
    if left == base || right == base { UnchangedMapYields(lang, base, left, right, outcomes, order, result); }
    forall p { PathInMaps(lang, base, left, right, outcomes, order, result, p); }
    return Ok(result), outcomes, order;
  }

  lemma TakeOne(done: set<string>, todo: set<string>, path: string)
    requires done !! todo && path in todo
    ensures (done + {path}) !! (todo - {path}) && (done + {path}) + (todo - {path}) == done + todo
  {
  }

  method AddFile(result: MergeResult, path: string, file: FileMerge) returns (more: MergeResult)
    ensures more == Collected(result, path, file)
  {
    more := result;
    match file {
      case Diverged(conflicts) =>
        more := more.(success := false, conflicts := more.conflicts + conflicts);
      case Merged(content) =>
        if content.Some? {
          more := more.(files := more.files[path := content.value], filesModified := more.filesModified + 1);
        }
      case Failed(_) =>
    }
  }

  lemma NothingCollected(lang: Language, base: Files, left: Files, right: Files)
    ensures Outcomes(lang, base, left, right, {}, map[])
    ensures Collects(map[], [], MergeResult(true, map[], [], 0))
  {
  }

  lemma FailsIffUnreadable(lang: Language, path: string, base: Option<bytes>, left: Option<bytes>, right: Option<bytes>, file: FileMerge)
    requires FileResult(lang, path, base, left, right, file)
    ensures file.Failed? <==> Unreadable(lang, path, base, left, right)
  {
  }

  function Collected(result: MergeResult, path: string, file: FileMerge): MergeResult {
    match file
    case Diverged(conflicts) => result.(success := false, conflicts := result.conflicts + conflicts)
    case Merged(Some(content)) => result.(files := result.files[path := content], filesModified := result.filesModified + 1)
    case _ => result
  }

  lemma CollectMore(outcomes: map<string, FileMerge>, order: seq<string>, result: MergeResult, path: string, file: FileMerge)
    requires Collects(outcomes, order, result) && path !in outcomes && !file.Failed?
    ensures Collects(outcomes[path := file], order + [path], Collected(result, path, file))
  {
    hide MergedFiles, Concat, NoDuplicates;
    MemberOnce(order, path);
    ConcatMore(order, outcomes, path, file);
    MergedFilesMore(outcomes, path, file);
    assert result.conflicts + [] == result.conflicts;
    assert path !in order;
    assert forall p :: p in order + [path] <==> p in order || p == path;
    var more := outcomes[path := file];
    assert file.Merged? ==> ((forall p :: p in more ==> more[p].Merged?) <==> forall p :: p in outcomes ==> outcomes[p].Merged?);
  }

  lemma MemberOnce(order: seq<string>, path: string)
    requires NoDuplicates(order) && path !in order
    ensures NoDuplicates(order + [path])
  {
  }

  lemma ConcatMore(order: seq<string>, outcomes: map<string, FileMerge>, path: string, file: FileMerge)
    requires path !in outcomes && forall p :: p in order ==> p in outcomes
    ensures forall p :: p in order + [path] ==> p in outcomes[path := file]
    ensures Concat(order + [path], outcomes[path := file]) == Concat(order, outcomes) + ConflictsOf(file)
  {
    assert (order + [path])[..|order|] == order;
    SameConcat(order, outcomes, outcomes[path := file]);
  }

  lemma {:induction false} SameConcat(order: seq<string>, outcomes: map<string, FileMerge>, more: map<string, FileMerge>)
    requires forall p :: p in order ==> p in outcomes && p in more && more[p] == outcomes[p]
    ensures Concat(order, more) == Concat(order, outcomes)
  {
    if order != [] { SameConcat(order[..|order| - 1], outcomes, more); }
  }

  // -------------------------------------------------------------------- laws

  /** The same change on both sides is taken; two different changes of which one is
      a deletion or both are creations are a conflict of that kind, whatever the
      language; three versions that all differ are left to their units. */
  lemma BothSidesChanged(lang: Language, path: string, base: Option<bytes>, left: Option<bytes>, right: Option<bytes>, result: FileMerge)
    requires FileResult(lang, path, base, left, right, result)
    ensures left == right ==> result == Merged(left)
    ensures ChangedApart(base, left, right) ==> result == Diverged([FileConflict(KindOfChange(base, left), path)])
    ensures base.Some? && left.Some? && right.Some? && left != base && right != base && left != right ==>
              match (lang.extract(path, base.value), lang.extract(path, left.value), lang.extract(path, right.value))
              case (Ok(b), Ok(l), Ok(r)) => UnitsMerge(lang, b, l, r, result)
              case _ => result.Failed?
  {
    hide UnitsMerge;
  }

  /** What becomes of one path in a merge of maps: a side that did not change it
      yields, the same change is taken, and two different changes with a version
      missing are reported and nothing is kept of them. */
  lemma PathInMaps(lang: Language, base: Files, left: Files, right: Files, outcomes: map<string, FileMerge>, order: seq<string>,
                   result: MergeResult, p: string)
    requires Outcomes(lang, base, left, right, Paths(base, left, right), outcomes) && Collects(outcomes, order, result)
    ensures var (b, l, r) := (At(base, p), At(left, p), At(right, p));
            && (l == r || r == b ==> At(result.files, p) == l)
            && (l == b ==> At(result.files, p) == r)
            && (ChangedApart(b, l, r) ==>
                  !result.success && p !in result.files && FileConflict(KindOfChange(b, l), p) in result.conflicts)
  {
    hide FileResult, Outcomes, Paths, Concat;
    OutcomeKeys(lang, base, left, right, outcomes);
    PathsOfThree(base, left, right, p);
    if p in outcomes {
      var (b, l, r) := (At(base, p), At(left, p), At(right, p));
      OutcomeAtPath(lang, base, left, right, outcomes, p);
      UnchangedFileYields(lang, p, b, l, r, outcomes[p]);
      BothSidesChanged(lang, p, b, l, r, outcomes[p]);
      ConflictsCollected(order, outcomes, p);
    }
  }

  lemma PathsOfThree(base: Files, left: Files, right: Files, p: string)
    ensures p in Paths(base, left, right) <==> At(base, p).Some? || At(left, p).Some? || At(right, p).Some?
  {
  }

  lemma {:induction false} ConflictsCollected(order: seq<string>, outcomes: map<string, FileMerge>, p: string)
    requires Known(order, outcomes) && p in order
    ensures forall c :: c in ConflictsOf(outcomes[p]) ==> c in Concat(order, outcomes)
  {
    var n := |order| - 1;
    if p != order[n] { ConflictsCollected(order[..n], outcomes, p); }
  }

  lemma UnchangedFileYields(lang: Language, path: string, base: Option<bytes>, left: Option<bytes>, right: Option<bytes>, result: FileMerge)
    requires FileResult(lang, path, base, left, right, result)
    ensures left == base ==> result == Merged(right)
    ensures right == base ==> result == Merged(left)
  {
  }

  /** With an unchanged side no file's units are looked at. */
  lemma NothingToExtract(lang: Language, base: Files, left: Files, right: Files)
    requires left == base || right == base
    ensures !SomeUnreadable(lang, base, left, right)
  {
    forall p | p in Paths(base, left, right) ensures !Unreadable(lang, p, At(base, p), At(left, p), At(right, p)) {
      assert WholeFile(p, At(base, p), At(left, p), At(right, p)).Some?;
    }
  }

  /** An unchanged side of a whole map yields exactly the other side's map. */
  lemma UnchangedMapYields(lang: Language, base: Files, left: Files, right: Files, outcomes: map<string, FileMerge>, order: seq<string>, result: MergeResult)
    requires Outcomes(lang, base, left, right, Paths(base, left, right), outcomes) && Collects(outcomes, order, result)
    requires left == base || right == base
    ensures result.success && result.conflicts == [] && result.files == if left == base then right else left
  {
    hide FileResult, Outcomes, MergedFiles, Paths, Concat;
    var other := if left == base then right else left;
    PathsOfTwo(base, left, right);
    OutcomeKeys(lang, base, left, right, outcomes);
    forall p | p in outcomes ensures outcomes[p] == Merged(At(other, p)) {
      OutcomeAtPath(lang, base, left, right, outcomes, p);
      UnchangedFileYields(lang, p, At(base, p), At(left, p), At(right, p), outcomes[p]);
    }
    AllMergedNoConflicts(order, outcomes);
    FilesAre(outcomes, other);
  }

  lemma PathsOfTwo(base: Files, left: Files, right: Files)
    ensures left.Keys <= Paths(base, left, right) && right.Keys <= Paths(base, left, right)
    ensures Paths(base, left, right) == Paths(base, right, left)
  {
  }

  lemma OutcomeKeys(lang: Language, base: Files, left: Files, right: Files, outcomes: map<string, FileMerge>)
    requires Outcomes(lang, base, left, right, Paths(base, left, right), outcomes)
    ensures outcomes.Keys == Paths(base, left, right)
  {
  }

  lemma OutcomeAtPath(lang: Language, base: Files, left: Files, right: Files, outcomes: map<string, FileMerge>, p: string)
    requires Outcomes(lang, base, left, right, Paths(base, left, right), outcomes) && p in outcomes
    ensures FileResult(lang, p, At(base, p), At(left, p), At(right, p), outcomes[p]) && !outcomes[p].Failed?
  {
  }

  lemma FilesAre(outcomes: map<string, FileMerge>, other: Files)
    requires other.Keys <= outcomes.Keys && forall p :: p in outcomes ==> outcomes[p] == Merged(At(other, p))
    ensures MergedFiles(outcomes) == other
  {
  }

  lemma {:induction false} AllMergedNoConflicts(order: seq<string>, outcomes: map<string, FileMerge>)
    requires forall p :: p in order ==> p in outcomes && outcomes[p].Merged?
    ensures Concat(order, outcomes) == []
  {
    if order != [] { AllMergedNoConflicts(order[..|order| - 1], outcomes); }
  }

  /** The conflicts of the two lists mirror each other one to one: the i-th of cs
      is the mirror of number pairing[i] of ds. */
  ghost predicate Pairs(cs: seq<Conflict>, ds: seq<Conflict>, pairing: seq<nat>) {
    && |pairing| == |cs| == |ds|
    && (forall i, j :: 0 <= i < j < |pairing| ==> pairing[i] != pairing[j])
    && (forall i :: 0 <= i < |pairing| ==> pairing[i] < |ds| && Mirrors(cs[i], ds[pairing[i]]))
  }

  ghost predicate Mirrored(cs: seq<Conflict>, ds: seq<Conflict>) {
    exists pairing :: Pairs(cs, ds, pairing)
  }

  lemma {:induction false} PlacesOf(order: seq<string>, order': seq<string>) returns (places: seq<nat>)
    requires forall k :: k in order ==> k in order'
    ensures |places| == |order| && forall i :: 0 <= i < |order| ==> places[i] < |order'| && order'[places[i]] == order[i]
  {
    places := [];
    if order != [] {
      var n := |order| - 1;
      var before := PlacesOf(order[..n], order');
      assert order[n] in order;
      var j :| 0 <= j < |order'| && order'[j] == order[n];
      places := before + [j];
    }
  }

  /** Lists without duplicates and with the same members are equally long. */
  lemma SameLength(a: seq<string>, b: seq<string>)
    requires NoDuplicates(a) && NoDuplicates(b) && forall k :: k in a <==> k in b
    ensures |a| == |b|
  {
    CountMembers(a);
    CountMembers(b);
    assert (set k | k in a) == (set k | k in b);
  }

  lemma {:induction false} CountMembers(a: seq<string>)
    requires NoDuplicates(a)
    ensures |set k | k in a| == |a|
  {
    if a != [] {
      var n := |a| - 1;
      CountMembers(a[..n]);
      assert (set k | k in a) == (set k | k in a[..n]) + {a[n]};
    }
  }

  lemma MirroredConflicts(b: Units, l: Units, r: Units, cs: seq<Conflict>, order: seq<string>, ds: seq<Conflict>, order': seq<string>)
    requires ListsConflicts(b, l, r, Keys(b, l, r), cs, order)
    requires ListsConflicts(b, r, l, Keys(b, r, l), ds, order')
    ensures Mirrored(cs, ds)
  {
    hide Mirrors, MergeOneUnit;
    assert Keys(b, l, r) == Keys(b, r, l);
    forall k ensures k in order <==> k in order' { SwapMirrors(At(b, k), At(l, k), At(r, k)); }
    SameLength(order, order');
    var places := PlacesOf(order, order');
    forall i | 0 <= i < |places| ensures Mirrors(cs[i], ds[places[i]]) {
      SwapMirrors(At(b, order[i]), At(l, order[i]), At(r, order[i]));
      assert order[i] in order && order'[places[i]] in order';
    }
    assert Pairs(cs, ds, places);
  }

  ghost predicate SameUnits(u: Units, v: Units) {
    u.Keys == v.Keys && forall k :: k in u ==> u[k].bodyHash == v[k].bodyHash
  }

  /** Both contents are rebuilt from units that are equivalent key by key. */
  ghost predicate RebuiltAlike(lang: Language, x: FileMerge, y: FileMerge) {
    exists u, v :: SameUnits(u, v) && x == Merged(Some(lang.rebuild(u))) && y == Merged(Some(lang.rebuild(v)))
  }

  /** The units that survive have the same keys, and are equivalent key by key. */
  lemma SwappedUnitsAreEquivalent(b: Units, l: Units, r: Units)
    ensures SameUnits(CleanUnits(b, l, r, Keys(b, l, r)), CleanUnits(b, r, l, Keys(b, r, l)))
  {
    hide MergeOneUnit;
    var x, y := CleanUnits(b, l, r, Keys(b, l, r)), CleanUnits(b, r, l, Keys(b, r, l));
    forall k ensures k in x <==> k in y {
      SwapMirrors(At(b, k), At(l, k), At(r, k));
    }
    forall k | k in x ensures x[k].bodyHash == y[k].bodyHash {
      SwapMirrors(At(b, k), At(l, k), At(r, k));
    }
  }

  lemma SwappedUnitsMerge(lang: Language, b: Units, l: Units, r: Units, x: FileMerge, y: FileMerge)
    requires UnitsMerge(lang, b, l, r, x) && UnitsMerge(lang, b, r, l, y)
    ensures x.Merged? <==> y.Merged?
    ensures x.Diverged? ==> y.Diverged? && Mirrored(x.conflicts, y.conflicts)
    ensures x.Merged? ==> RebuiltAlike(lang, x, y)
  {
    hide Mirrors, MergeOneUnit, CleanUnits, ListsConflicts, SameUnits;
    SwappedUnitsAreEquivalent(b, l, r);
    assert Keys(b, l, r) == Keys(b, r, l);
    forall k | k in Keys(b, l, r) ensures OutcomeAt(b, l, r, k).Clean? <==> OutcomeAt(b, r, l, k).Clean? {
      SwapMirrors(At(b, k), At(l, k), At(r, k));
    }
    if x.Diverged? {
      var order :| ListsConflicts(b, l, r, Keys(b, l, r), x.conflicts, order);
      var order' :| ListsConflicts(b, r, l, Keys(b, r, l), y.conflicts, order');
      MirroredConflicts(b, l, r, x.conflicts, order, y.conflicts, order');
    }
  }

  /** Swapping the sides of a file: clean stays clean, with the same content when
      no units were looked at and content rebuilt from equivalent units when they
      were; conflicts are mirrored one to one; failures stay. */
  lemma SwappedFile(lang: Language, path: string, base: Option<bytes>, left: Option<bytes>, right: Option<bytes>, x: FileMerge, y: FileMerge)
    requires FileResult(lang, path, base, left, right, x) && FileResult(lang, path, base, right, left, y)
    ensures x.Failed? <==> y.Failed?
    ensures x.Merged? <==> y.Merged?
    ensures x.Diverged? ==> Mirrored(x.conflicts, y.conflicts)
    ensures x.Merged? ==> if WholeFile(path, base, left, right).Some? then x == y else RebuiltAlike(lang, x, y)
  {
    hide UnitsMerge, Mirrored, RebuiltAlike;
    SettledEitherWay(path, base, left, right);
    FailsIffUnreadable(lang, path, base, left, right, x);
    FailsIffUnreadable(lang, path, base, right, left, y);
    if WholeFile(path, base, left, right).Some? {
      SwappedWholeFile(path, base, left, right);
    } else if !Unreadable(lang, path, base, left, right) {
      SwappedUnitsMerge(lang, lang.extract(path, base.value).value, lang.extract(path, left.value).value, lang.extract(path, right.value).value, x, y);
    }
  }

  lemma SettledEitherWay(path: string, base: Option<bytes>, left: Option<bytes>, right: Option<bytes>)
    ensures WholeFile(path, base, left, right).Some? <==> WholeFile(path, base, right, left).Some?
  {
  }

  lemma SwappedWholeFile(path: string, base: Option<bytes>, left: Option<bytes>, right: Option<bytes>)
    requires WholeFile(path, base, left, right).Some?
    ensures match (WholeFile(path, base, left, right), WholeFile(path, base, right, left))
            case (Some(Merged(c)), Some(Merged(d))) => c == d
            case (Some(Diverged(cs)), Some(Diverged(ds))) => Mirrored(cs, ds)
            case _ => false
  {
    var x, y := WholeFile(path, base, left, right).value, WholeFile(path, base, right, left).value;
    if x.Diverged? {
      assert Pairs(x.conflicts, y.conflicts, [0]);
    }
  }

  /** Swapping the sides of whole maps: all in all and file by file, the
      conflicts are mirrored one to one, clean stays clean, and the same files
      come through. */
  lemma SwappedMaps(lang: Language, base: Files, left: Files, right: Files,
                    outcomes: map<string, FileMerge>, order: seq<string>, x: MergeResult,
                    outcomes': map<string, FileMerge>, order': seq<string>, y: MergeResult)
    requires Outcomes(lang, base, left, right, Paths(base, left, right), outcomes) && Collects(outcomes, order, x)
    requires Outcomes(lang, base, right, left, Paths(base, right, left), outcomes') && Collects(outcomes', order', y)
    ensures x.success <==> y.success
    ensures Mirrored(x.conflicts, y.conflicts)
    ensures outcomes.Keys == outcomes'.Keys
    ensures forall p :: p in outcomes && outcomes[p].Diverged? ==>
              outcomes'[p].Diverged? && Mirrored(outcomes[p].conflicts, outcomes'[p].conflicts)
    ensures forall p :: p in outcomes && WholeFile(p, At(base, p), At(left, p), At(right, p)).Some? ==> At(x.files, p) == At(y.files, p)
    ensures x.files.Keys == y.files.Keys
  {
    hide FileResult, WholeFile, Mirrored, Concat, Outcomes, Paths, MergedFiles, ConflictsOf;
    SwappedOutcomes(lang, base, left, right, outcomes, outcomes');
    FilesAreOutcomes(outcomes);
    FilesAreOutcomes(outcomes');
    MirroredConcat(order, outcomes, order', outcomes');
    forall p | p in outcomes && outcomes[p].Diverged?
      ensures outcomes'[p].Diverged? && Mirrored(outcomes[p].conflicts, outcomes'[p].conflicts)
    {
      ConflictsAre(outcomes[p]);
      ConflictsAre(outcomes'[p]);
    }
  }

  lemma ConflictsAre(file: FileMerge)
    ensures ConflictsOf(file) == if file.Diverged? then file.conflicts else []
  {
  }

  /** The same, path by path. */
  lemma SwappedOutcomes(lang: Language, base: Files, left: Files, right: Files,
                        outcomes: map<string, FileMerge>, outcomes': map<string, FileMerge>)
    requires Outcomes(lang, base, left, right, Paths(base, left, right), outcomes)
    requires Outcomes(lang, base, right, left, Paths(base, right, left), outcomes')
    ensures outcomes.Keys == outcomes'.Keys
    ensures forall p :: p in outcomes ==>
              && !outcomes[p].Failed? && !outcomes'[p].Failed? && (outcomes[p].Merged? <==> outcomes'[p].Merged?)
              && Mirrored(ConflictsOf(outcomes[p]), ConflictsOf(outcomes'[p]))
              && (p in MergedFiles(outcomes) <==> p in MergedFiles(outcomes'))
              && (WholeFile(p, At(base, p), At(left, p), At(right, p)).Some? ==> At(MergedFiles(outcomes), p) == At(MergedFiles(outcomes'), p))
  {
    hide FileResult, WholeFile, Mirrored, Outcomes, Paths, MergedFiles;
    PathsOfTwo(base, left, right);
    OutcomeKeys(lang, base, left, right, outcomes);
    OutcomeKeys(lang, base, right, left, outcomes');
    NoneMirrored();
    forall p | p in outcomes
      ensures !outcomes[p].Failed? && !outcomes'[p].Failed? && (outcomes[p].Merged? <==> outcomes'[p].Merged?)
      ensures Mirrored(ConflictsOf(outcomes[p]), ConflictsOf(outcomes'[p]))
      ensures p in MergedFiles(outcomes) <==> p in MergedFiles(outcomes')
      ensures WholeFile(p, At(base, p), At(left, p), At(right, p)).Some? ==> At(MergedFiles(outcomes), p) == At(MergedFiles(outcomes'), p)
    {
      OutcomeAtPath(lang, base, left, right, outcomes, p);
      OutcomeAtPath(lang, base, right, left, outcomes', p);
      SwappedFile(lang, p, At(base, p), At(left, p), At(right, p), outcomes[p], outcomes'[p]);
      FileAt(outcomes, p);
      FileAt(outcomes', p);
      if outcomes[p].Merged? { SamePresence(lang, p, At(base, p), At(left, p), At(right, p), outcomes[p], outcomes'[p]); }
    }
  }

  lemma NoneMirrored()
    ensures Mirrored([], [])
  {
    assert Pairs([], [], []);
  }

  ghost predicate Known(order: seq<string>, outcomes: map<string, FileMerge>) {
    forall p :: p in order ==> p in outcomes
  }

  lemma {:induction false} ConcatAppend(a: seq<string>, b: seq<string>, outcomes: map<string, FileMerge>)
    requires Known(a, outcomes) && Known(b, outcomes)
    ensures Known(a + b, outcomes) && Concat(a + b, outcomes) == Concat(a, outcomes) + Concat(b, outcomes)
  {
    hide ConflictsOf;
    if b == [] {
      assert a + b == a;
    } else {
      var n := |b| - 1;
      var last := ConflictsOf(outcomes[b[n]]);
      assert (a + b)[..|a + b| - 1] == a + b[..n];
      ConcatAppend(a, b[..n], outcomes);
      assert Concat(a, outcomes) + (Concat(b[..n], outcomes) + last) == Concat(a, outcomes) + Concat(b[..n], outcomes) + last;
    }
  }

  lemma ConcatAround(a: seq<string>, p: string, b: seq<string>, outcomes: map<string, FileMerge>)
    requires Known(a, outcomes) && p in outcomes && Known(b, outcomes)
    ensures Known(a + [p] + b, outcomes) && Known(a + b, outcomes)
    ensures Concat(a + [p] + b, outcomes) == Concat(a, outcomes) + ConflictsOf(outcomes[p]) + Concat(b, outcomes)
    ensures Concat(a + b, outcomes) == Concat(a, outcomes) + Concat(b, outcomes)
  {
    hide ConflictsOf;
    ConcatAppend(a, b, outcomes);
    assert (a + [p])[..|a|] == a;
    ConcatAppend(a + [p], b, outcomes);
  }

  /** A mirrored block put in the middle of one list and at the end of the other. */
  lemma BlockMirrored(cs: seq<Conflict>, a: seq<Conflict>, b: seq<Conflict>, c: seq<Conflict>, d: seq<Conflict>)
    requires Mirrored(cs, a + b) && Mirrored(c, d)
    ensures Mirrored(cs + c, a + d + b)
  {
    hide Mirrors;
    var f :| Pairs(cs, a + b, f);
    var g :| Pairs(c, d, g);
    var left := seq(|f|, i requires 0 <= i < |f| => if f[i] < |a| then f[i] else f[i] + |d|);
    var right := seq(|g|, i requires 0 <= i < |g| => |a| + g[i]);
    var ds := a + d + b;
    forall i | 0 <= i < |f| ensures left[i] < |ds| && ds[left[i]] == (a + b)[f[i]] { }
    forall i | 0 <= i < |g| ensures right[i] < |ds| && ds[right[i]] == d[g[i]] { }
    TwoPairings(cs, c, ds, left, right, |a|, |d|);
  }

  /** Pairings into disjoint places make one pairing. */
  lemma TwoPairings(cs: seq<Conflict>, c: seq<Conflict>, ds: seq<Conflict>, left: seq<nat>, right: seq<nat>, from: nat, size: nat)
    requires |left| == |cs| && |right| == |c| && |ds| == |cs| + |c|
    requires forall i, j :: 0 <= i < j < |left| ==> left[i] != left[j]
    requires forall i, j :: 0 <= i < j < |right| ==> right[i] != right[j]
    requires forall i :: 0 <= i < |left| ==> left[i] < |ds| && !(from <= left[i] < from + size) && Mirrors(cs[i], ds[left[i]])
    requires forall i :: 0 <= i < |right| ==> right[i] < |ds| && from <= right[i] < from + size && Mirrors(c[i], ds[right[i]])
    ensures Mirrored(cs + c, ds)
  {
    hide Mirrors;
    var all := left + right;
    forall i | 0 <= i < |all| ensures Mirrors((cs + c)[i], ds[all[i]]) {
      if i < |left| { assert all[i] == left[i]; } else { assert all[i] == right[i - |left|]; }
    }
    BlockPairs(cs + c, ds, all);
  }

  lemma BlockPairs(cs: seq<Conflict>, ds: seq<Conflict>, pairing: seq<nat>)
    requires Pairs(cs, ds, pairing)
    ensures Mirrored(cs, ds)
  {
  }

  lemma {:induction false} MirroredConcat(order: seq<string>, outcomes: map<string, FileMerge>, order': seq<string>, outcomes': map<string, FileMerge>)
    requires NoDuplicates(order) && NoDuplicates(order') && Known(order, outcomes) && Known(order', outcomes')
    requires forall p :: p in order <==> p in order'
    requires forall p :: p in order ==> Mirrored(ConflictsOf(outcomes[p]), ConflictsOf(outcomes'[p]))
    ensures Mirrored(Concat(order, outcomes), Concat(order', outcomes'))
    decreases |order|
  {
    hide Mirrored, ConflictsOf, NoDuplicates;
    if order == [] {
      EmptyLists(order, order');
      NoneMirrored();
    } else {
      var n := |order| - 1;
      var p := order[n];
      assert p in order;
      var j :| 0 <= j < |order'| && order'[j] == p;
      var a, b := order'[..j], order'[j + 1..];
      assert order' == a + [p] + b && Without(order', j) == a + b && Without(order, n) == order[..n];
      WithoutMembers(order, n);
      WithoutMembers(order', j);
      MirroredConcat(order[..n], outcomes, a + b, outcomes');
      ConcatAround(a, p, b, outcomes');
      BlockMirrored(Concat(order[..n], outcomes), Concat(a, outcomes'), Concat(b, outcomes'),
                    ConflictsOf(outcomes[p]), ConflictsOf(outcomes'[p]));
    }
  }

  lemma EmptyLists(order: seq<string>, order': seq<string>)
    requires NoDuplicates(order) && NoDuplicates(order') && order == [] && forall p :: p in order <==> p in order'
    ensures order' == []
  {
    SameLength(order, order');
  }

  /** A file merged by units is present whichever way round. */
  lemma SamePresence(lang: Language, path: string, base: Option<bytes>, left: Option<bytes>, right: Option<bytes>, x: FileMerge, y: FileMerge)
    requires FileResult(lang, path, base, left, right, x) && FileResult(lang, path, base, right, left, y)
    requires x.Merged? && y.Merged?
    ensures x.content.Some? <==> y.content.Some?
  {
    SettledEitherWay(path, base, left, right);
    if WholeFile(path, base, left, right).Some? { SwappedWholeFile(path, base, left, right); }
  }

  lemma FilesAreOutcomes(outcomes: map<string, FileMerge>)
    ensures MergedFiles(outcomes).Keys <= outcomes.Keys
  {
  }

  lemma FileAt(outcomes: map<string, FileMerge>, p: string)
    requires p in outcomes
    ensures At(MergedFiles(outcomes), p) == if outcomes[p].Merged? then outcomes[p].content else None
  {
  }
}

/** Commit objects as text, and serving a snapshot through one. */
module CommitText {
  import opened Prelude
  import opened Hex
  import opened TreeEntries
  import opened SnapshotTree
  import opened TreeObjects
  import opened GitGraph
  import opened GitGraphReach
  import opened GitGraphDepth
  import GitPack

  const NEWLINE: byte := 10

  /** A Go string's bytes; every char of one is a byte. */
  function Bytes(s: string): bytes {
    seq(|s|, i requires 0 <= i < |s| => s[i] as int % 256)
  }

  function Text(s: bytes): string {
    seq(|s|, i requires 0 <= i < |s| => s[i] as char)
  }

  /** "tree ", "parent ", the fixed author and committer lines, "Kai ref " and
      "target ". */
  const TREE_PREFIX: bytes := [116, 114, 101, 101, 32]
  const PARENT_PREFIX: bytes := [112, 97, 114, 101, 110, 116, 32]
  const AUTHOR_LINE: bytes :=
    [97, 117, 116, 104, 111, 114, 32, 75, 97, 105, 32, 60, 107, 97, 105, 64, 108, 111, 99, 97, 108, 62, 32, 48, 32, 43, 48, 48, 48, 48]
  const COMMITTER_LINE: bytes :=
    [99, 111, 109, 109, 105, 116, 116, 101, 114, 32, 75, 97, 105, 32, 60, 107, 97, 105, 64, 108, 111, 99, 97, 108, 62, 32, 48, 32, 43, 48, 48, 48, 48]
  const REF_PREFIX: bytes := [75, 97, 105, 32, 114, 101, 102, 32]
  const TARGET_PREFIX: bytes := [116, 97, 114, 103, 101, 116, 32]

  datatype TreeLine = Named(oid: string) | NoTree | SlicePanic

  // ----------------------------------------------------------------- reading

  /** The first tree line decides; a short one makes the slice panic. */
  function TreeOf(lines: seq<bytes>): TreeLine {
    if lines == [] then NoTree
    else if TREE_PREFIX <= lines[0] then
      if |lines[0]| < 45 then SlicePanic else Named(Text(lines[0][5..45]))
    else TreeOf(lines[1..])
  }

  function ParentsOf(lines: seq<bytes>): seq<string> {
    if lines == [] then []
    else (if PARENT_PREFIX <= lines[0] && |lines[0]| >= 47 then [Text(lines[0][7..47])] else []) + ParentsOf(lines[1..])
  }

  method ExtractTreeOID(commitData: bytes) returns (r: TreeLine)
    ensures r == TreeOf(Split(commitData, NEWLINE))
  {
    var lines := Split(commitData, NEWLINE);
    ghost var rest := lines;
    for i := 0 to |lines|
      invariant rest == lines[i..] && TreeOf(rest) == TreeOf(lines)
    {
      assert lines[i..][1..] == lines[i + 1..];
      if TREE_PREFIX <= lines[i] {
        return if |lines[i]| < 45 then SlicePanic else Named(Text(lines[i][5..45]));
      }
      rest := rest[1..];
    }
    return NoTree;
  }

  method ExtractParentOIDs(commitData: bytes) returns (parents: seq<string>)
    ensures parents == ParentsOf(Split(commitData, NEWLINE))
  {
    var lines := Split(commitData, NEWLINE);
    parents := [];
    ghost var rest := lines;
    for i := 0 to |lines|
      invariant rest == lines[i..] && parents + ParentsOf(rest) == ParentsOf(lines)
    {
      assert lines[i..][1..] == lines[i + 1..];
      if PARENT_PREFIX <= lines[i] && |lines[i]| >= 47 {
        assert parents + ([Text(lines[i][7..47])] + ParentsOf(rest[1..])) == parents + [Text(lines[i][7..47])] + ParentsOf(rest[1..]);
        parents := parents + [Text(lines[i][7..47])];
      } else {
        assert [] + ParentsOf(rest[1..]) == ParentsOf(rest[1..]);
      }
      rest := rest[1..];
    }
    assert parents + [] == parents;
  }

  // ----------------------------------------------------------------- writing

  function Line(s: bytes): bytes { s + [NEWLINE] }

  /** The text of a synthetic commit. */
  function CommitData(refName: bytes, targetHex: bytes, treeOid: bytes): bytes {
    Line(TREE_PREFIX + treeOid)
    + (Line(AUTHOR_LINE) + (Line(COMMITTER_LINE) + (Line([]) + (Line(REF_PREFIX + refName) + TargetLine(targetHex)))))
  }

  function TargetLine(targetHex: bytes): bytes {
    if targetHex == [] then [] else Line(TARGET_PREFIX + targetHex)
  }

  method BuildCommitObject(c: GitPack.Codec, refName: bytes, targetHex: bytes, treeOid: string) returns (o: GitPack.GitObject)
    ensures o == GitPack.MakeObject(c, GitPack.COMMIT, CommitData(refName, targetHex, Bytes(treeOid)))
  {
    hide Bytes;
    var body := Line(TREE_PREFIX + Bytes(treeOid));
    body := body + Line(AUTHOR_LINE);
    body := body + (Line(COMMITTER_LINE) + [NEWLINE]);
    body := body + Line(REF_PREFIX + refName);
    if targetHex != [] {
      body := body + Line(TARGET_PREFIX + targetHex);
    } else {
      assert body == body + TargetLine(targetHex);
    }
    Grouping(Line(TREE_PREFIX + Bytes(treeOid)), Line(AUTHOR_LINE), Line(COMMITTER_LINE), Line(REF_PREFIX + refName), TargetLine(targetHex));
    o := GitPack.MakeObject(c, GitPack.COMMIT, body);
  }

  lemma Grouping(a: bytes, b: bytes, c: bytes, d: bytes, e: bytes)
    ensures a + (b + (c + (Line([]) + (d + e)))) == a + b + (c + [NEWLINE]) + d + e
  {
    assert Line([]) == [NEWLINE];
  }

  lemma {:induction false} SplitConcat(a: bytes, b: bytes)
    ensures Split(Line(a) + b, NEWLINE) == Split(a, NEWLINE) + Split(b, NEWLINE)
  {
    var all := Line(a) + b;
    if a == [] {
      assert all == [NEWLINE] + b;
      assert all[1..] == b;
    } else {
      assert all[1..] == Line(a[1..]) + b;
      SplitConcat(a[1..], b);
    }
  }

  lemma {:induction false} SplitAfter(p: bytes, s: bytes)
    requires NEWLINE !in p
    ensures Split(p + s, NEWLINE) == [p + Split(s, NEWLINE)[0]] + Split(s, NEWLINE)[1..]
  {
    if p == [] {
      assert p + s == s;
      var parts := Split(s, NEWLINE);
      assert p + parts[0] == parts[0] && parts == [parts[0]] + parts[1..];
    } else {
      assert (p + s)[1..] == p[1..] + s;
      SplitAfter(p[1..], s);
      var first := Split(s, NEWLINE)[0];
      assert p + first == [p[0]] + (p[1..] + first);
    }
  }

  lemma SplitOneLine(p: bytes)
    requires NEWLINE !in p
    ensures Split(p, NEWLINE) == [p]
  {
    SplitAfter(p, []);
    assert p + [] == p;
  }

  lemma {:induction false} ParentsConcat(a: seq<bytes>, b: seq<bytes>)
    ensures ParentsOf(a + b) == ParentsOf(a) + ParentsOf(b)
  {
    if a == [] {
      assert a + b == b;
    } else {
      assert (a + b)[1..] == a[1..] + b;
      ParentsConcat(a[1..], b);
    }
  }

  /** The parents among the lines that a text with line breaks in it makes. */
  function ParentsIn(text: bytes): seq<string> {
    ParentsOf(Split(text, NEWLINE))
  }

  lemma ParentsJoined(first: bytes, rest: bytes)
    ensures ParentsIn(Line(first) + rest) == ParentsIn(first) + ParentsIn(rest)
  {
    SplitConcat(first, rest);
    ParentsConcat(Split(first, NEWLINE), Split(rest, NEWLINE));
  }

  /** A line that does not begin like a parent line, whatever follows. */
  lemma NotAParent(p: bytes, s: bytes)
    requires NEWLINE !in p && p != [] && p[0] != 112
    ensures ParentsIn(p + s) == ParentsOf(Split(s, NEWLINE)[1..])
  {
    SplitAfter(p, s);
    assert PARENT_PREFIX[0] == 112;
    assert [] + ParentsOf(Split(s, NEWLINE)[1..]) == ParentsOf(Split(s, NEWLINE)[1..]);
  }

  lemma NotAParentLine(p: bytes)
    requires NEWLINE !in p && (p == [] || p[0] != 112)
    ensures ParentsIn(p) == []
  {
    if p == [] {
      assert ParentsOf([[]]) == [] + ParentsOf([]);
    } else {
      NotAParent(p, []);
      assert p + [] == p;
    }
  }

  /** The tree is read back; parents are found only where the ref name or the
      target has a line break in it. */
  lemma CommitReadsBack(refName: bytes, targetHex: bytes, treeOid: bytes)
    requires |treeOid| == 40 && NEWLINE !in treeOid
    ensures TreeOf(Split(CommitData(refName, targetHex, treeOid), NEWLINE)) == Named(Text(treeOid))
    ensures ParentsIn(CommitData(refName, targetHex, treeOid)) ==
              ParentsOf(Split(refName, NEWLINE)[1..]) + ParentsOf(Split(targetHex, NEWLINE)[1..])
  {
    hide Split;
    var first := TREE_PREFIX + treeOid;
    var rest := Line(AUTHOR_LINE) + (Line(COMMITTER_LINE) + (Line([]) + (Line(REF_PREFIX + refName) + TargetLine(targetHex))));
    SplitConcat(first, rest);
    SplitOneLine(first);
    assert first[5..45] == treeOid;
    CommitParents(refName, targetHex, treeOid);
  }

  lemma CommitParents(refName: bytes, targetHex: bytes, treeOid: bytes)
    requires NEWLINE !in treeOid
    ensures ParentsIn(CommitData(refName, targetHex, treeOid)) ==
              ParentsOf(Split(refName, NEWLINE)[1..]) + ParentsOf(Split(targetHex, NEWLINE)[1..])
  {
    hide Split, ParentsOf, ParentsIn;
    var afterRef := TargetLine(targetHex);
    var afterBlank := Line(REF_PREFIX + refName) + afterRef;
    var afterCommitter := Line([]) + afterBlank;
    var afterAuthor := Line(COMMITTER_LINE) + afterCommitter;
    ParentsJoined(TREE_PREFIX + treeOid, Line(AUTHOR_LINE) + afterAuthor);
    ParentsJoined(AUTHOR_LINE, afterAuthor);
    ParentsJoined(COMMITTER_LINE, afterCommitter);
    ParentsJoined([], afterBlank);
    ParentsJoined(REF_PREFIX + refName, afterRef);
    NotAParentLine(TREE_PREFIX + treeOid);
    NotAParentLine(AUTHOR_LINE);
    NotAParentLine(COMMITTER_LINE);
    NotAParentLine([]);
    NotAParent(REF_PREFIX, refName);
    TargetParents(targetHex);
  }

  /** The lines of a synthetic commit, when neither the ref name nor the target has a
      line break in it. */
  lemma CommitLines(refName: bytes, targetHex: bytes, treeOid: bytes)
    requires NEWLINE !in treeOid && NEWLINE !in refName && NEWLINE !in targetHex
    ensures Split(CommitData(refName, targetHex, treeOid), NEWLINE) ==
              [TREE_PREFIX + treeOid, AUTHOR_LINE, COMMITTER_LINE, [], REF_PREFIX + refName]
              + (if targetHex == [] then [] else [TARGET_PREFIX + targetHex]) + [[]]
  {
    hide Split, Line;
    var afterRef := TargetLine(targetHex);
    var afterBlank := Line(REF_PREFIX + refName) + afterRef;
    var afterCommitter := Line([]) + afterBlank;
    var afterAuthor := Line(COMMITTER_LINE) + afterCommitter;
    SplitNothing();
    OneLineFirst(TREE_PREFIX + treeOid, Line(AUTHOR_LINE) + afterAuthor);
    OneLineFirst(AUTHOR_LINE, afterAuthor);
    OneLineFirst(COMMITTER_LINE, afterCommitter);
    OneLineFirst([], afterBlank);
    OneLineFirst(REF_PREFIX + refName, afterRef);
    if targetHex != [] {
      OneLineFirst(TARGET_PREFIX + targetHex, []);
      assert Line(TARGET_PREFIX + targetHex) + [] == afterRef;
    }
    var a, b, d, e := TREE_PREFIX + treeOid, AUTHOR_LINE, COMMITTER_LINE, REF_PREFIX + refName;
    FiveThen(a, b, d, [], e, Split(afterRef, NEWLINE));
  }

  lemma FiveThen(a: bytes, b: bytes, c: bytes, d: bytes, e: bytes, rest: seq<bytes>)
    ensures [a] + ([b] + ([c] + ([d] + ([e] + rest)))) == [a, b, c, d, e] + rest
  {
  }

  /** What the fixed parts say. */
  lemma FixedText()
    ensures Text(TREE_PREFIX) == "tree " && Text(REF_PREFIX) == "Kai ref " && Text(TARGET_PREFIX) == "target "
    ensures Text(AUTHOR_LINE) == "author Kai <kai@local> 0 +0000"
    ensures Text(COMMITTER_LINE) == "committer Kai <kai@local> 0 +0000"
  {
    hide Text;
    PrefixText();
    AuthorText();
    CommitterText();
  }

  lemma PrefixText()
    ensures Text(TREE_PREFIX) == "tree " && Text(REF_PREFIX) == "Kai ref " && Text(TARGET_PREFIX) == "target "
  {
  }

  lemma AuthorText()
    ensures Text(AUTHOR_LINE) == "author Kai <kai@local> 0 +0000"
  {
  }

  lemma CommitterText()
    ensures Text(COMMITTER_LINE) == "committer Kai <kai@local> 0 +0000"
  {
  }

  lemma OneLineFirst(line: bytes, rest: bytes)
    requires NEWLINE !in line
    ensures Split(Line(line) + rest, NEWLINE) == [line] + Split(rest, NEWLINE)
  {
    SplitConcat(line, rest);
    SplitOneLine(line);
  }

  /** The text of a commit: header lines, a blank line, the message. */
  function CommitOf(header: bytes, message: bytes): bytes {
    Line(header) + (Line([]) + message)
  }

  /** Parents are looked for in the whole text, so the ones read are the header's
      if and only if the message has no line that looks like one. */
  lemma ParentsAreTheHeaders(header: bytes, message: bytes)
    ensures ParentsIn(CommitOf(header, message)) == ParentsIn(header) + ParentsIn(message)
    ensures ParentsIn(CommitOf(header, message)) == ParentsIn(header) <==> ParentsIn(message) == []
  {
    hide ParentsIn;
    ParentsJoined(header, Line([]) + message);
    ParentsJoined([], message);
    NotAParentLine([]);
    assert ParentsIn(header) + ([] + ParentsIn(message)) == ParentsIn(header) + ParentsIn(message);
    if ParentsIn(header) + ParentsIn(message) == ParentsIn(header) {
      assert |ParentsIn(message)| == 0;
    }
  }

  function Letters(n: nat): bytes { seq(n, _ => 97) }

  /** A commit without a parent whose message quotes a parent line. */
  lemma QuotedParentIsRead()
    ensures var header := TREE_PREFIX + Letters(40);
            && ParentsIn(header) == []
            && ParentsIn(CommitOf(header, PARENT_PREFIX + Letters(40))) == [Text(Letters(40))]
  {
    hide Split;
    var header, quoted := TREE_PREFIX + Letters(40), PARENT_PREFIX + Letters(40);
    NotAParentLine(header);
    SplitOneLine(quoted);
    assert quoted[7..47] == Letters(40);
    var lines: seq<bytes> := [quoted];
    assert lines[1..] == [] && ParentsOf(lines) == [Text(Letters(40))] + ParentsOf(lines[1..]);
    ParentsAreTheHeaders(header, quoted);
  }

  lemma TargetParents(targetHex: bytes)
    ensures ParentsIn(TargetLine(targetHex)) == ParentsOf(Split(targetHex, NEWLINE)[1..])
  {
    hide Split, ParentsOf;
    SplitNothing();
    NotAParentLine([]);
    assert Split([], NEWLINE)[1..] == [];
    if targetHex != [] {
      NotAParent(TARGET_PREFIX, targetHex);
      ParentsJoined(TARGET_PREFIX + targetHex, []);
      assert Line(TARGET_PREFIX + targetHex) + [] == Line(TARGET_PREFIX + targetHex);
    }
  }

  lemma SplitNothing()
    ensures Split([], NEWLINE) == [[]] && ParentsOf([]) == [] && ParentsIn([]) == []
  {
    var lines := Split([], NEWLINE);
    assert lines[1..] == [] && !(PARENT_PREFIX <= lines[0]);
    assert ParentsOf(lines) == [] + ParentsOf(lines[1..]);
  }

  // ------------------------------------------------- collecting real objects

  type ObjectMap = map<string, GitPack.GitObject>

  /** The links the walk finds in an object; a commit whose tree line makes the
      slice panic is broken. */
  function NodeOf(o: GitPack.GitObject): Node {
    if o.kind == GitPack.COMMIT then
      var lines := Split(o.data, NEWLINE);
      Commit(match TreeOf(lines) case Named(oid) => oid case _ => "", ParentsOf(lines), TreeOf(lines).SlicePanic?)
    else if o.kind == GitPack.TREE then
      var entries := ParseEntries(o.data);
      Tree(seq(|entries|, i requires 0 <= i < |entries| => entries[i].oid))
    else Blob
  }

  function GraphOf(objects: ObjectMap): Graph {
    map oid | oid in objects :: NodeOf(objects[oid])
  }

  /** The trees among the objects, as a reader of trees sees them. */
  function TreeStore(objects: ObjectMap): map<string, bytes> {
    map oid | oid in objects && objects[oid].kind == GitPack.TREE :: objects[oid].data
  }

  /** What a path resolves to is reachable. */
  lemma {:induction false} ResolvedIsReachable(objects: ObjectMap, oid: string, path: Path, blob: string)
    requires Resolves(TreeStore(objects), oid, path, blob)
    ensures Reaches(GraphOf(objects), oid, blob)
    decreases |path|
  {
    hide ParseEntries;
    var entries := ParseEntries(objects[oid].data);
    var e :| e in entries && e.name == path[0] &&
             if |path| == 1 then e.mode != DIR_MODE && e.oid == blob
             else e.mode == DIR_MODE && Resolves(TreeStore(objects), e.oid, path[1..], blob);
    var i :| 0 <= i < |entries| && entries[i] == e;
    var node := GraphOf(objects)[oid];
    assert node.entries[i] == e.oid;
    if |path| > 1 { ResolvedIsReachable(objects, e.oid, path[1..], blob); } else { ReachesItself(GraphOf(objects), blob); }
    assert e.oid in Links(GraphOf(objects), oid);
    ReachesThrough(GraphOf(objects), oid, e.oid, blob);
  }

  /** The objects made for a ref are all present, as they were made. */
  ghost predicate Present(objects: ObjectMap, made: seq<GitPack.GitObject>) {
    forall o :: o in made ==> o.oid in objects && objects[o.oid] == o
  }

  lemma PresentTreesAreStored(c: GitPack.Codec, objects: ObjectMap, made: seq<GitPack.GitObject>)
    requires Present(objects, made) && Trees(c, made, true)
    ensures Stores(TreeStore(objects), made)
  {
  }

  lemma {:induction false} HexText(raw: bytes)
    ensures |HexEncode(raw)| == 2 * |raw|
    ensures forall i :: 0 <= i < |HexEncode(raw)| ==> HexEncode(raw)[i] in "0123456789abcdef"
  {
    if raw != [] {
      HexText(raw[1..]);
      HexDigitIsDigit(raw[0] as int / 16);
      HexDigitIsDigit(raw[0] as int % 16);
    }
  }

  lemma HexDigitIsDigit(n: nat)
    requires n < 16
    ensures HexDigit(n) in "0123456789abcdef"
  {
  }

  lemma DigitIsByte(d: char)
    requires d in "0123456789abcdef"
    ensures d as int < 256 && d as int != NEWLINE
  {
  }

  lemma OidText(oid: string)
    requires IsCanonical(oid)
    ensures |Bytes(oid)| == 40 && NEWLINE !in Bytes(oid) && Text(Bytes(oid)) == oid
  {
    hide HexEncode, HexDecode;
    var raw := OidBytes(oid).value;
    HexText(raw);
    TextOfDigits(oid);
  }

  lemma TextOfDigits(t: string)
    requires forall i :: 0 <= i < |t| ==> t[i] in "0123456789abcdef"
    ensures |Bytes(t)| == |t| && NEWLINE !in Bytes(t) && Text(Bytes(t)) == t
  {
    BytesOfDigits(t);
    hide Bytes;
    var s := Bytes(t);
    forall i | 0 <= i < |t| ensures Text(s)[i] == t[i] { assert s[i] == t[i] as int; }
    assert |Text(s)| == |t|;
  }

  lemma SmallByte(n: nat)
    requires n < 256
    ensures n % 256 == n
  {
  }

  lemma BytesOfDigits(t: string)
    requires forall i :: 0 <= i < |t| ==> t[i] in "0123456789abcdef"
    ensures |Bytes(t)| == |t| && forall i :: 0 <= i < |t| ==> Bytes(t)[i] == t[i] as int && Bytes(t)[i] != NEWLINE
  {
    forall i | 0 <= i < |t| ensures Bytes(t)[i] == t[i] as int && Bytes(t)[i] != NEWLINE {
      DigitIsByte(t[i]);
      SmallByte(t[i] as int);
      assert Bytes(t)[i] == t[i] as int % 256;
    }
  }

  /** The synthetic commit over a tree, and what the walk finds in it. */
  lemma CommitLinks(c: GitPack.Codec, objects: ObjectMap, commit: GitPack.GitObject, refName: bytes, targetHex: bytes, treeOid: string)
    requires IsCanonical(treeOid)
    requires commit == GitPack.MakeObject(c, GitPack.COMMIT, CommitData(refName, targetHex, Bytes(treeOid)))
    requires Present(objects, [commit])
    ensures var g := GraphOf(objects);
            commit.oid in g && g[commit.oid].Commit? && g[commit.oid].tree == treeOid && treeOid != "" && !g[commit.oid].broken
    ensures treeOid in Links(GraphOf(objects), commit.oid)
  {
    hide Split, CommitData, Bytes, Text, IsCanonical;
    OidText(treeOid);
    CommitReadsBack(refName, targetHex, Bytes(treeOid));
    assert commit in [commit];
    CanonicalIsNotEmpty(treeOid);
  }

  lemma CanonicalIsNotEmpty(oid: string)
    requires IsCanonical(oid)
    ensures oid != ""
  {
    OidText(oid);
  }

  // ------------------------------------------------------------------ panics

  /** The commit's first tree line is too short to slice. */
  predicate ShortTreeLine(objects: ObjectMap, oid: string) {
    oid in objects && objects[oid].kind == GitPack.COMMIT && TreeOf(Split(objects[oid].data, NEWLINE)).SlicePanic?
  }

  /** Collecting from an object map that is well typed from the tip panics only
      if the limit allows a commit with a short tree line; without a limit, and
      with limit 1 or 2, exactly then. */
  lemma CollectionPanics(objects: ObjectMap, tip: string, limit: nat)
    requires Typed(GraphOf(objects), tip) && NotOther(GraphOf(objects), tip)
    ensures var g := GraphOf(objects);
            var short := exists c :: InLimit(g, tip, c, limit) && ShortTreeLine(objects, c);
            && (CommitPanics(g, tip, 1, limit, START) ==> short)
            && (limit <= 2 ==> (CommitPanics(g, tip, 1, limit, START) <==> short))
  {
    hide Collected, CommitPanics, Typed, Split, ParseEntries;
    var g := GraphOf(objects);
    assert forall x :: x in g && g[x].Commit? && g[x].broken <==> ShortTreeLine(objects, x);
    if CommitPanics(g, tip, 1, limit, START) { PanicNeedsBroken(g, tip, limit); }
    if limit <= 2 { BrokenPanics(g, tip, limit); }
  }

  /** A pushed commit that says no more than a tree line without a name is one. */
  lemma EmptyTreeNamePanics(oid: string, maxDepth: nat)
    ensures var objects := map[oid := GitPack.GitObject(GitPack.COMMIT, Line(TREE_PREFIX), oid)];
            ShortTreeLine(objects, oid) && CommitPanics(GraphOf(objects), oid, 1, maxDepth, START)
  {
    SplitConcat(TREE_PREFIX, []);
    SplitOneLine(TREE_PREFIX);
    assert Line(TREE_PREFIX) + [] == Line(TREE_PREFIX);
  }
}

/** Rename detection: a greedy matching of removed functions to added ones by
    the similarity of their bodies, in whatever order the maps are walked. */
module Renames {
  import opened Prelude
  import opened EditDistance

  /** Function name to body. */
  type Functions = map<string, bytes>

  datatype Rename = Rename(oldName: string, newName: string, similarity: real)

  /** Functions of the first version that the second does not have, and whose
      body is known. */
  predicate Gone(name: string, from: Functions, to: Functions) {
    name in from && name !in to && from[name] != []
  }

  predicate Similar(a: bytes, b: bytes, threshold: real) {
    Similarity(a, b) > 0.0 && Similarity(a, b) >= threshold
  }

  function OldNames(rs: seq<Rename>): set<string> { set r | r in rs :: r.oldName }

  function NewNames(rs: seq<Rename>): set<string> { set r | r in rs :: r.newName }

  /** Each rename pairs a removed function with an added one that is similar
      enough, and no function is used twice. */
  ghost predicate Matching(rs: seq<Rename>, before: Functions, after: Functions, threshold: real) {
    && (forall r :: r in rs ==>
          && Gone(r.oldName, before, after) && Gone(r.newName, after, before)
          && Similar(before[r.oldName], after[r.newName], threshold)
          && r.similarity == Similarity(before[r.oldName], after[r.newName]))
    && (forall i, j :: 0 <= i < j < |rs| ==> rs[i].oldName != rs[j].oldName && rs[i].newName != rs[j].newName)
  }

  /** Every rename took the best partner still free at its turn. */
  ghost predicate GreedyChoices(rs: seq<Rename>, before: Functions, after: Functions) {
    forall k, name :: 0 <= k < |rs| && Gone(rs[k].oldName, before, after) && Gone(name, after, before) && name !in NewNames(rs[..k]) ==>
      Similarity(before[rs[k].oldName], after[name]) <= rs[k].similarity
  }

  /** Among these removed functions, none is left that could be paired with an
      added function that is still free. */
  ghost predicate Exhausted(removed: set<string>, rs: seq<Rename>, before: Functions, after: Functions, threshold: real) {
    forall gone, name ::
      (gone in removed && Gone(gone, before, after) && gone !in OldNames(rs)
       && Gone(name, after, before) && name !in NewNames(rs)) ==>
      !Similar(before[gone], after[name], threshold)
  }

  method DetectRenames(before: Functions, after: Functions, threshold: real) returns (signals: seq<Rename>)
    ensures Matching(signals, before, after, threshold)
    ensures GreedyChoices(signals, before, after)
    ensures Exhausted(before.Keys, signals, before, after, threshold)
  {
    var removed := before.Keys - after.Keys;
    var added := after.Keys - before.Keys;
    var usedAdded: set<string> := {};
    signals := [];
    var rest := removed;
    while rest != {}
      invariant rest <= removed
      invariant usedAdded == NewNames(signals) && OldNames(signals) !! rest
      invariant Matching(signals, before, after, threshold)
      invariant GreedyChoices(signals, before, after)
      invariant Exhausted(removed - rest, signals, before, after, threshold)
      decreases rest
    {
      var gone :| gone in rest;
      rest := rest - {gone};
      if before[gone] == [] { continue; }
      var best, similarity := FindBest(before[gone], after, added, usedAdded, threshold);
      if best.Some? {
        usedAdded := usedAdded + {best.value};
        var signal := Rename(gone, best.value, similarity);
        NamesAdded(signals, signal);
        MatchingAdded(signals, signal, before, after, threshold);
        GreedyAdded(signals, signal, before, after);
        signals := signals + [signal];
      }
    }
  }

  /** The most similar added function that is free, has a body and reaches the
      threshold. */
  method FindBest(body: bytes, after: Functions, added: set<string>, used: set<string>, threshold: real)
    returns (best: Option<string>, bestSimilarity: real)
    requires added <= after.Keys
    ensures best.None? ==> forall name :: name in added - used && after[name] != [] ==> !Similar(body, after[name], threshold)
    ensures best.Some? ==>
      && best.value in added - used && after[best.value] != []
      && bestSimilarity == Similarity(body, after[best.value]) && Similar(body, after[best.value], threshold)
      && forall name :: name in added - used && after[name] != [] ==> Similarity(body, after[name]) <= bestSimilarity
  {
    best, bestSimilarity := None, 0.0;
    var rest := added;
    while rest != {}
      invariant rest <= added
      invariant best.None? ==> bestSimilarity == 0.0
      invariant best.Some? ==>
        && best.value in added - used && after[best.value] != []
        && bestSimilarity == Similarity(body, after[best.value]) && Similar(body, after[best.value], threshold)
      invariant forall name :: name in added - rest - used && after[name] != [] ==>
        Similarity(body, after[name]) <= bestSimilarity || !Similar(body, after[name], threshold)
      decreases rest
    {
      var name :| name in rest;
      rest := rest - {name};
      if name in used || after[name] == [] { continue; }
      var similarity := Similarity(body, after[name]);
      if similarity > bestSimilarity && similarity >= threshold {
        best, bestSimilarity := Some(name), similarity;
      }
    }
    if best.Some? {
      forall name | name in added - used && after[name] != [] ensures Similarity(body, after[name]) <= bestSimilarity {
        if Similarity(body, after[name]) > bestSimilarity { assert Similar(body, after[name], threshold); }
      }
    }
  }

  lemma NamesAdded(rs: seq<Rename>, r: Rename)
    ensures NewNames(rs + [r]) == NewNames(rs) + {r.newName} && OldNames(rs + [r]) == OldNames(rs) + {r.oldName}
  {
  }

  lemma MatchingAdded(rs: seq<Rename>, r: Rename, before: Functions, after: Functions, threshold: real)
    requires Matching(rs, before, after, threshold)
    requires Matching([r], before, after, threshold)
    requires r.oldName !in OldNames(rs) && r.newName !in NewNames(rs)
    ensures Matching(rs + [r], before, after, threshold)
  {
    hide Similarity, Similar, Gone;
    var all := rs + [r];
    assert forall s :: s in all ==> s in rs || s in [r];
    forall i, j | 0 <= i < j < |all| ensures all[i].oldName != all[j].oldName && all[i].newName != all[j].newName {
      assert rs[i] in rs;
    }
  }

  lemma GreedyAdded(rs: seq<Rename>, r: Rename, before: Functions, after: Functions)
    requires GreedyChoices(rs, before, after) && Gone(r.oldName, before, after)
    requires forall name :: Gone(name, after, before) && name !in NewNames(rs) ==>
      Similarity(before[r.oldName], after[name]) <= r.similarity
    ensures GreedyChoices(rs + [r], before, after)
  {
    hide Similarity;
    var all := rs + [r];
    forall k, name | 0 <= k < |all| && Gone(all[k].oldName, before, after) && Gone(name, after, before) && name !in NewNames(all[..k])
      ensures Similarity(before[all[k].oldName], after[name]) <= all[k].similarity
    {
      assert all[..k] == rs[..k];
      if k == |rs| { assert rs[..k] == rs; }
    }
  }
}

/** A linked list as the sequence of its elements, front first; an element is
    told from others by identity. */
module LinkedLists {

  ghost predicate NoDuplicates<T>(s: seq<T>) {
    forall i, j :: 0 <= i < j < |s| ==> s[i] != s[j]
  }

  function Without<T>(s: seq<T>, k: nat): seq<T>
    requires k < |s|
  {
    s[..k] + s[k + 1..]
  }

  function Remove<T(==)>(s: seq<T>, e: T): seq<T> {
    if s == [] then [] else if s[0] == e then s[1..] else [s[0]] + Remove(s[1..], e)
  }

  lemma {:induction false} RemoveIsWithout<T>(s: seq<T>, k: nat)
    requires k < |s| && NoDuplicates(s)
    ensures Remove(s, s[k]) == Without(s, k)
  {
    if k > 0 {
      RemoveIsWithout(s[1..], k - 1);
      assert Without(s, k) == [s[0]] + Without(s[1..], k - 1);
    }
  }

  lemma WithoutMembers<T>(s: seq<T>, k: nat)
    requires k < |s| && NoDuplicates(s)
    ensures NoDuplicates(Without(s, k))
    ensures forall x :: x in Without(s, k) <==> x in s && x != s[k]
  {
    forall x | x in s && x != s[k] ensures x in Without(s, k) {
      var i :| 0 <= i < |s| && s[i] == x;
      assert Without(s, k)[if i < k then i else i - 1] == x;
    }
  }

  function MoveToFront<T(==)>(s: seq<T>, e: T): seq<T> {
    if e in s then [e] + Remove(s, e) else s
  }

  lemma WithoutKeepsFront<T>(s: seq<T>, k: nat)
    requires k < |s|
    ensures |Without(s, k)| == |s| - 1 && Without(s, k)[..k] == s[..k]
  {
  }
}

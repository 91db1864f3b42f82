/** Optional values, and applying a partial operation to every element. */
module Wrappers {
  datatype Option<+T> = None | Some(value: T)

  /** f applied to every element of s, or None when it fails on some element. */
  function Collect<A, B>(s: seq<A>, f: A -> Option<B>): (r: Option<seq<B>>)
    ensures r.Some? ==> |r.value| == |s|
  {
    if s == [] then Some([])
    else
      var n := |s| - 1;
      match Collect(s[..n], f)
      case None => None
      case Some(bs) =>
        match f(s[n])
        case None => None
        case Some(b) => Some(bs + [b])
  }

  /** Collecting one more element of s extends the result by its image. */
  lemma CollectStep<A, B>(s: seq<A>, i: nat, f: A -> Option<B>, bs: seq<B>, b: B)
    requires i < |s| && Collect(s[..i], f) == Some(bs) && f(s[i]) == Some(b)
    ensures Collect(s[..i + 1], f) == Some(bs + [b])
  {
    assert s[..i + 1][..i] == s[..i];
  }

  /** Collect succeeds exactly when f succeeds on every element, and then
      holds f's results in order. */
  lemma {:induction false} CollectSpec<A, B>(s: seq<A>, f: A -> Option<B>)
    ensures Collect(s, f).Some? <==> forall i :: 0 <= i < |s| ==> f(s[i]).Some?
    ensures Collect(s, f).Some? ==> forall i :: 0 <= i < |s| ==> Collect(s, f).value[i] == f(s[i]).value
  {
    if s != [] {
      var n := |s| - 1;
      CollectSpec(s[..n], f);
      assert forall i :: 0 <= i < n ==> s[..n][i] == s[i];
    }
  }

  /** Collect fails exactly when some element maps to None. */
  lemma CollectNone<A, B>(s: seq<A>, f: A -> Option<B>)
    ensures Collect(s, f).None? <==> exists x :: x in s && f(x).None?
  {
    CollectSpec(s, f);
    if Collect(s, f).None? {
      var i :| 0 <= i < |s| && f(s[i]).None?;
      assert s[i] in s;
    }
  }
}

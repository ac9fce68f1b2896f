/** What the XML, the URI and the packet code all ask of texts. */
module Texts {
  predicate Without(s: string, c: char) {
    forall i :: 0 <= i < |s| ==> s[i] != c
  }

  /** A string that ends at the first `end`: everything before it. */
  function Until<T(==)>(s: seq<T>, end: T): (r: seq<T>)
    ensures r <= s && forall i :: 0 <= i < |r| ==> r[i] != end
    ensures |r| < |s| ==> s[|r|] == end
  {
    if s == [] || s[0] == end then [] else [s[0]] + Until(s[1..], end)
  }

  lemma {:induction false} UntilIsUnique<T>(s: seq<T>, end: T, k: nat)
    requires k <= |s| && (forall i :: 0 <= i < k ==> s[i] != end) && (k < |s| ==> s[k] == end)
    ensures Until(s, end) == s[..k]
  {
    if k > 0 {
      assert s[..k] == [s[0]] + s[1..][..k - 1];
      UntilIsUnique(s[1..], end, k - 1);
    }
  }
}

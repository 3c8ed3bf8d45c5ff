/** Sequence surgery shared by the models: what an erase and an insert at an index leave behind. */
module Lists {

  function RemoveAt<T>(s: seq<T>, k: nat): (r: seq<T>)
    requires k < |s|
    ensures |r| == |s| - 1
  {
    s[..k] + s[k + 1..]
  }

  function InsertAt<T>(s: seq<T>, k: nat, x: T): (r: seq<T>)
    requires k <= |s|
    ensures |r| == |s| + 1 && r[k] == x
  {
    s[..k] + [x] + s[k..]
  }

  lemma {:induction false} RemoveFromSuffix<T>(a: seq<T>, s: seq<T>, j: nat)
    requires j < |s|
    ensures (a + s)[|a| + j] == s[j]
    ensures RemoveAt(a + s, |a| + j) == a + RemoveAt(s, j)
  {
  }

  lemma {:induction false} RemoveFromPrefix<T>(a: seq<T>, s: seq<T>, j: nat)
    requires j < |a|
    ensures (a + s)[j] == a[j]
    ensures RemoveAt(a + s, j) == RemoveAt(a, j) + s
  {
  }

  /** Where the elements of a list are after the removal of element `k`, and back. */
  lemma {:induction false} ElementAfterRemoval<T>(s: seq<T>, k: nat, i: nat)
    requires k < |s| && i < |s| && i != k
    ensures RemoveAt(s, k)[if i < k then i else i - 1] == s[i]
  {
  }

  lemma {:induction false} ElementBeforeRemoval<T>(s: seq<T>, k: nat, i: nat)
    requires k < |s| && i < |s| - 1
    ensures RemoveAt(s, k)[i] == s[if i < k then i else i + 1]
  {
  }

  lemma {:induction false} RemoveFromTail<T>(s: seq<T>, k: nat)
    requires 0 < k < |s|
    ensures RemoveAt(s, k) == [s[0]] + RemoveAt(s[1..], k - 1)
  {
  }

  lemma {:induction false} RemoveLast<T>(a: seq<T>, x: T)
    ensures RemoveAt(a + [x], |a|) == a
  {
  }

  lemma {:induction false} RemoveBetween<T>(a: seq<T>, x: T, s: seq<T>)
    ensures RemoveAt(a + [x] + s, |a|) == a + s
  {
  }

  lemma {:induction false} InsertThenRemove<T>(s: seq<T>, k: nat, x: T)
    requires k <= |s|
    ensures RemoveAt(InsertAt(s, k, x), k) == s
  {
    assert s == s[..k] + s[k..];
    RemoveBetween(s[..k], x, s[k..]);
  }

  lemma {:induction false} InsertBetween<T>(a: seq<T>, s: seq<T>, x: T)
    ensures InsertAt(a + s, |a|, x) == a + [x] + s
  {
  }

  /** Moving an element of the suffix to its front. */
  lemma {:induction false} MoveToFront<T>(a: seq<T>, s: seq<T>, j: nat)
    requires j < |s|
    ensures (a + s)[|a| + j] == s[j]
    ensures InsertAt(RemoveAt(a + s, |a| + j), |a|, s[j]) == a + [s[j]] + RemoveAt(s, j)
  {
    hide RemoveAt, InsertAt;
    RemoveFromSuffix(a, s, j);
    InsertBetween(a, RemoveAt(s, j), s[j]);
  }

  lemma {:induction false} SplitFirst<T>(a: seq<T>, s: seq<T>)
    requires s != []
    ensures a + s == a + [s[0]] + RemoveAt(s, 0)
  {
  }

  lemma {:induction false} ReplaceBetween<T>(a: seq<T>, x: T, s: seq<T>, y: T)
    ensures |a| < |a + [x] + s| && (a + [x] + s)[|a|] == x
    ensures (a + [x] + s)[|a| := y] == a + [y] + s
  {
  }

  lemma {:induction false} RemoveMultiset<T>(s: seq<T>, k: nat)
    requires k < |s|
    ensures multiset(s) == multiset(RemoveAt(s, k)) + multiset{s[k]}
  {
    assert s == s[..k] + [s[k]] + s[k + 1..];
  }

  lemma {:induction false} InsertMultiset<T>(s: seq<T>, k: nat, x: T)
    requires k <= |s|
    ensures multiset(InsertAt(s, k, x)) == multiset(s) + multiset{x}
  {
    assert s == s[..k] + s[k..];
  }

  lemma {:induction false} HeadMultiset<T>(s: seq<T>)
    requires s != []
    ensures multiset(s) == multiset{s[0]} + multiset(s[1..])
  {
    assert s == [s[0]] + s[1..];
  }

  lemma {:induction false} CancelMultiset<T>(a: multiset<T>, b: multiset<T>, c: multiset<T>)
    requires a + c == b + c
    ensures a == b
  {
    forall x
      ensures a[x] == b[x]
    {
      assert (a + c)[x] == (b + c)[x];
    }
  }

  lemma {:induction false} ExchangeMultisets<T>(x: multiset<T>, y: multiset<T>, a: multiset<T>, b: multiset<T>, c: multiset<T>, d: multiset<T>)
    requires a + b == c + d
    ensures (x + a) + (y + b) == (y + c) + (x + d)
  {
    assert (x + a) + (y + b) == (x + y) + (a + b);
    assert (y + c) + (x + d) == (x + y) + (c + d);
  }

  lemma {:induction false} Regroup<T>(a: seq<T>, b: seq<T>, c: seq<T>, d: seq<T>)
    ensures (a + b + c) + d == a + (b + (c + d))
  {
  }

  lemma {:induction false} FirstTwo<T>(s: seq<T>)
    requires |s| >= 2
    ensures s == [s[0]] + ([s[1]] + s[2..])
  {
  }
}

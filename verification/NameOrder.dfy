/** The alphabetical order of directory entries. */
module NameOrder {

  /** Byte-wise comparison of strings, as Go's `<=`. */
  predicate NameLe(a: string, b: string) {
    a == [] || (b != [] && (a[0] < b[0] || (a[0] == b[0] && NameLe(a[1..], b[1..]))))
  }

  /** `a` is a prefix of `b`, or the two differ first at a place where `a` has the
      smaller character. */
  ghost predicate Precedes(a: string, b: string) {
    a <= b || exists k :: 0 <= k < |a| && k < |b| && a[..k] == b[..k] && a[k] < b[k]
  }

  /** The recursive comparison is the alphabetical order. */
  lemma {:induction false} NameLeIff(a: string, b: string)
    ensures NameLe(a, b) <==> Precedes(a, b)
    decreases |a|
  {
    if a != [] && b != [] {
      if a[0] == b[0] {
        NameLeIff(a[1..], b[1..]);
        PrecedesTail(a, b);
      } else {
        assert a[..0] == b[..0];
      }
    }
  }

  lemma PrecedesTail(a: string, b: string)
    requires a != [] && b != [] && a[0] == b[0]
    ensures Precedes(a, b) <==> Precedes(a[1..], b[1..])
  {
    assert a == [a[0]] + a[1..] && b == [b[0]] + b[1..];
    if k :| 0 <= k < |a| && k < |b| && a[..k] == b[..k] && a[k] < b[k] {
      assert a[1..][..k - 1] == a[..k][1..] == b[..k][1..] == b[1..][..k - 1];
      assert a[1..][k - 1] < b[1..][k - 1];
    }
    if k :| 0 <= k < |a[1..]| && k < |b[1..]| && a[1..][..k] == b[1..][..k] && a[1..][k] < b[1..][k] {
      assert a[..k + 1] == [a[0]] + a[1..][..k] && b[..k + 1] == [b[0]] + b[1..][..k];
      assert a[k + 1] < b[k + 1];
    }
  }

  /** In alphabetical order. */
  ghost predicate Alphabetical(s: seq<string>) {
    forall i, j | 0 <= i < j < |s| :: Precedes(s[i], s[j])
  }

  lemma SortedIsAlphabetical(s: seq<string>)
    ensures SortedNames(s) <==> Alphabetical(s)
  {
    forall i, j | 0 <= i < j < |s| ensures NameLe(s[i], s[j]) <==> Precedes(s[i], s[j]) { NameLeIff(s[i], s[j]); }
  }

  lemma {:induction false} NameLeTotal(a: string, b: string)
    ensures NameLe(a, b) || NameLe(b, a)
  {
    if a != [] && b != [] && a[0] == b[0] { NameLeTotal(a[1..], b[1..]); }
  }

  lemma {:induction false} NameLeTransitive(a: string, b: string, c: string)
    requires NameLe(a, b) && NameLe(b, c)
    ensures NameLe(a, c)
  {
    if a != [] && a[0] == b[0] && b[0] == c[0] { NameLeTransitive(a[1..], b[1..], c[1..]); }
  }

  lemma {:induction false} NameLeAntisymmetric(a: string, b: string)
    requires NameLe(a, b) && NameLe(b, a)
    ensures a == b
  {
    if a != [] {
      NameLeAntisymmetric(a[1..], b[1..]);
      assert a == [a[0]] + a[1..] && b == [b[0]] + b[1..];
    }
  }

  ghost predicate SortedNames(s: seq<string>) {
    forall i, j | 0 <= i < j < |s| :: NameLe(s[i], s[j])
  }

  /** A listing is determined by which names occur how often. */
  lemma {:induction false} SortedNamesUnique(a: seq<string>, b: seq<string>)
    requires SortedNames(a) && SortedNames(b) && multiset(a) == multiset(b)
    ensures a == b
    decreases |a|
  {
    assert |multiset(a)| == |a| && |multiset(b)| == |b|;
    if a != [] {
      FirstNames(a, b);
      assert a == [a[0]] + a[1..] && b == [b[0]] + b[1..];
      assert multiset(a[1..]) == multiset(a) - multiset{a[0]};
      assert multiset(b[1..]) == multiset(b) - multiset{b[0]};
      SortedNamesUnique(a[1..], b[1..]);
    }
  }

  lemma FirstNames(a: seq<string>, b: seq<string>)
    requires SortedNames(a) && SortedNames(b) && multiset(a) == multiset(b) && a != [] && b != []
    ensures a[0] == b[0]
  {
    assert a[0] in multiset(b) && b[0] in multiset(a);
    var i :| 0 <= i < |b| && b[i] == a[0];
    var j :| 0 <= j < |a| && a[j] == b[0];
    NameLeTotal(a[0], a[0]);
    NameLeTotal(b[0], b[0]);
    NameLeAntisymmetric(a[0], b[0]);
  }
}

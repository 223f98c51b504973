/**
 * The behaviour of a Doctrine ArrayCollection as the entities use it:
 * `contains` (strict identity), append, `removeElement` (drops the first
 * occurrence) and `clear`. Order is kept; keys are not modelled.
 */
module Collection {

  predicate NoDuplicates<T(==)>(s: seq<T>) {
    forall i, j :: 0 <= i < j < |s| ==> s[i] != s[j]
  }

  /** The members of a collection, order and multiplicity forgotten. */
  function Elements<T>(s: seq<T>): set<T> {
    set i | 0 <= i < |s| :: s[i]
  }

  lemma InElements<T>(s: seq<T>, y: T)
    ensures y in Elements(s) <==> y in s
  {
    if y in s {
      var i :| 0 <= i < |s| && s[i] == y;
    }
  }

  lemma ElementsSnoc<T>(s: seq<T>, x: T)
    ensures Elements(s + [x]) == Elements(s) + {x}
  {
    var r := s + [x];
    forall y | y in Elements(r) ensures y in Elements(s) + {x} {
      var i :| 0 <= i < |r| && r[i] == y;
      if i < |s| {
        assert s[i] == y;
      }
    }
    forall y | y in Elements(s) + {x} ensures y in Elements(r) {
      if y == x {
        assert r[|s|] == y;
      } else {
        var i :| 0 <= i < |s| && s[i] == y;
        assert r[i] == y;
      }
    }
  }

  /** `if (!$c->contains($x)) { $c[] = $x; }` */
  function Added<T(==)>(s: seq<T>, x: T): (r: seq<T>)
    ensures x in r
    ensures Elements(r) == Elements(s) + {x}
    ensures NoDuplicates(s) ==> NoDuplicates(r)
    ensures |r| == if x in s then |s| else |s| + 1
    ensures x in s ==> r == s
    ensures r[..|s|] == s
  {
    if x in s then
      InElements(s, x);
      s
    else
      var r := s + [x];
      assert r[..|s|] == s;
      ElementsSnoc(s, x);
      r
  }

  /** Position of the first occurrence (`array_search` with strict comparison). */
  function FirstIndex<T(==)>(s: seq<T>, x: T): (k: nat)
    requires x in s
    ensures k < |s| && s[k] == x && x !in s[..k]
  {
    if s[0] == x then 0
    else
      var k := FirstIndex(s[1..], x);
      assert s[..k + 1] == [s[0]] + s[1..][..k];
      k + 1
  }

  /** Deleting position `k` keeps every other member. */
  lemma DeleteAtElements<T>(s: seq<T>, k: nat)
    requires k < |s|
    ensures Elements(s[..k] + s[k + 1..]) - {s[k]} == Elements(s) - {s[k]}
  {
    var r := s[..k] + s[k + 1..];
    forall i | 0 <= i < |r| ensures r[i] in Elements(s) {
      var i' := if i < k then i else i + 1;
      assert r[i] == s[i'];
    }
    forall i | 0 <= i < |s| && s[i] != s[k] ensures s[i] in Elements(r) {
      var i' := if i < k then i else i - 1;
      assert r[i'] == s[i];
    }
  }

  /** Deleting position `k` of a duplicate-free sequence leaves no duplicate and no `s[k]`. */
  lemma DeleteAtNoDuplicates<T>(s: seq<T>, k: nat)
    requires k < |s|
    ensures NoDuplicates(s) ==> NoDuplicates(s[..k] + s[k + 1..]) && s[k] !in s[..k] + s[k + 1..]
  {
    var r := s[..k] + s[k + 1..];
    if NoDuplicates(s) {
      forall i, j | 0 <= i < j < |r| ensures r[i] != r[j] {
        var i' := if i < k then i else i + 1;
        var j' := if j < k then j else j + 1;
        assert r[i] == s[i'] && r[j] == s[j'];
      }
      forall i | 0 <= i < |r| ensures r[i] != s[k] {
        var i' := if i < k then i else i + 1;
        assert r[i] == s[i'];
      }
    }
  }

  /** `$c->removeElement($x)`: removes the first occurrence, if any; the others keep their order. */
  function Removed<T(==)>(s: seq<T>, x: T): (r: seq<T>)
    ensures x !in s ==> r == s
    ensures x in s ==> |r| == |s| - 1
    ensures Elements(r) - {x} == Elements(s) - {x}
    ensures NoDuplicates(s) ==> NoDuplicates(r) && x !in r
    ensures multiset(r) == multiset(s) - multiset{x}
    ensures x in s ==> r[..FirstIndex(s, x)] == s[..FirstIndex(s, x)] && r[FirstIndex(s, x)..] == s[FirstIndex(s, x) + 1..]
  {
    if x !in s then
      assert multiset{x} !! multiset(s);
      s
    else
      var k := FirstIndex(s, x);
      var r := s[..k] + s[k + 1..];
      DeleteAtElements(s, k);
      DeleteAtNoDuplicates(s, k);
      assert s == s[..k] + [x] + s[k + 1..];
      assert r[..k] == s[..k] && r[k..] == s[k + 1..];
      r
  }

  /**
   * The collection obtained by adding each element of `xs`, in order, to an
   * empty collection: `clear()` followed by one `add` per element.
   */
  function Dedup<T(==)>(xs: seq<T>): (r: seq<T>)
    ensures NoDuplicates(r)
    ensures |r| <= |xs|
  {
    if |xs| == 0 then [] else Added(Dedup(xs[..|xs| - 1]), xs[|xs| - 1])
  }

  /** The deduplicated collection holds exactly the elements that were added. */
  lemma {:induction false} DedupElements<T>(xs: seq<T>)
    ensures Elements(Dedup(xs)) == Elements(xs)
  {
    if |xs| > 0 {
      var init := xs[..|xs| - 1];
      DedupElements(init);
      assert xs == init + [xs[|xs| - 1]];
      ElementsSnoc(init, xs[|xs| - 1]);
    }
  }

  /** A duplicate-free sequence is already its own deduplication. */
  lemma {:induction false} DedupOfDistinct<T>(xs: seq<T>)
    requires NoDuplicates(xs)
    ensures Dedup(xs) == xs
  {
    if |xs| > 0 {
      var init := xs[..|xs| - 1];
      assert NoDuplicates(init);
      DedupOfDistinct(init);
      assert xs[|xs| - 1] !in init;
      InElements(init, xs[|xs| - 1]);
      InElements(Dedup(init), xs[|xs| - 1]);
      assert xs == init + [xs[|xs| - 1]];
    }
  }

  /** One more element: deduplicating a longer prefix adds its last element. */
  lemma DedupSnoc<T>(xs: seq<T>, i: nat)
    requires i < |xs|
    ensures Dedup(xs[..i + 1]) == Added(Dedup(xs[..i]), xs[i])
  {
    assert xs[..i + 1][..i] == xs[..i];
  }

  /** Deduplicating twice is deduplicating once. */
  lemma DedupIdempotent<T>(xs: seq<T>)
    ensures Dedup(Dedup(xs)) == Dedup(xs)
  {
    DedupOfDistinct(Dedup(xs));
  }

  /** Adding an element that is already present keeps the collection as it is. */
  lemma AddedIdempotent<T>(s: seq<T>, x: T)
    ensures Added(Added(s, x), x) == Added(s, x)
  {
  }

  /** Removing one element leaves the membership of every other element as it was. */
  lemma InRemoved<T>(s: seq<T>, x: T, y: T)
    requires y != x
    ensures y in Removed(s, x) <==> y in s
  {
    assert multiset(Removed(s, x))[y] == multiset(s)[y];
  }

  /** Removing an element just added to a collection that lacked it gives the collection back. */
  lemma RemovedUndoesAdded<T>(s: seq<T>, x: T)
    requires x !in s
    ensures Removed(Added(s, x), x) == s
  {
    var t := s + [x];
    assert FirstIndex(t, x) == |s| by {
      assert t[..|s|] == s;
    }
    assert t[..|s|] == s;
  }
}

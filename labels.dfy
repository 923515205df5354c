/** The label alphabet of the OCR model.

    The label file is a flat object from decimal class ids to labels. Once
    parsed, it is the sequence of its (id, label) entries in whatever order
    the object yields them. The alphabet is that sequence sorted ascending by
    id (with a stable sort), with the ids then dropped: index i of the
    alphabet is the label of the i-th smallest id.
 */
module Labels {

  /** One parsed entry of the label file: a class id and its label. */
  type Entry = (nat, string)

  /** Ids never decrease along s. */
  predicate SortedByKey(s: seq<Entry>) {
    forall i, j | 0 <= i < j < |s| :: s[i].0 <= s[j].0
  }

  /** Ids strictly increase along s. */
  predicate StrictlySortedByKey(s: seq<Entry>) {
    forall i, j | 0 <= i < j < |s| :: s[i].0 < s[j].0
  }

  /** No two entries of s share an id. */
  predicate DistinctKeys(s: seq<Entry>) {
    forall i, j | 0 <= i < j < |s| :: s[i].0 != s[j].0
  }

  /** Inserts e into the sorted s, before the first entry whose id is not
      smaller than e's. */
  function Insert(e: Entry, s: seq<Entry>): (r: seq<Entry>)
    requires SortedByKey(s)
    ensures SortedByKey(r)
    ensures multiset(r) == multiset(s) + multiset{e}
    ensures |r| == |s| + 1
    ensures r[0] == e || (s != [] && r[0] == s[0])
  {
    if s == [] || e.0 <= s[0].0 then
      ConsSorted(e, s);
      [e] + s
    else
      var rest := Insert(e, s[1..]);
      ConsSorted(s[0], rest);
      assert multiset(s) == multiset{s[0]} + multiset(s[1..]) by {
        assert s == [s[0]] + s[1..];
      }
      [s[0]] + rest
  }

  /** An entry whose id is not above the first id of a sorted sequence can
      go in front of it. */
  lemma ConsSorted(x: Entry, s: seq<Entry>)
    requires SortedByKey(s)
    requires s != [] ==> x.0 <= s[0].0
    ensures SortedByKey([x] + s)
  {
    var r := [x] + s;
    forall i, j | 0 <= i < j < |r| ensures r[i].0 <= r[j].0 {
      if i == 0 {
        assert r[j] == s[j - 1];
      } else {
        assert r[i] == s[i - 1] && r[j] == s[j - 1];
      }
    }
  }

  /** The stable sort of the entries by id. */
  function SortByKey(s: seq<Entry>): (r: seq<Entry>)
    ensures SortedByKey(r)
    ensures multiset(r) == multiset(s)
    ensures |r| == |s|
  {
    if s == [] then []
    else
      assert s == [s[0]] + s[1..];
      Insert(s[0], SortByKey(s[1..]))
  }

  /** The labels of s, in order, with the ids dropped. */
  function LabelsOf(s: seq<Entry>): (r: seq<string>)
  {
    seq(|s|, i requires 0 <= i < |s| => s[i].1)
  }

  /** Number of entries of s whose id is smaller than k. */
  function CountBelow(s: seq<Entry>, k: nat): (n: nat)
  {
    if s == [] then 0
    else (if s[0].0 < k then 1 else 0) + CountBelow(s[1..], k)
  }

  /** The alphabet built from the parsed label file: entry i of the result
      is the label that the file pairs with an id having exactly i smaller
      ids in the file. */
  function Alphabet(entries: seq<Entry>): (alphabet: seq<string>)
    ensures |alphabet| == |entries|
    ensures forall i | 0 <= i < |alphabet| ::
      (SortByKey(entries)[i].0, alphabet[i]) in entries
    ensures DistinctKeys(entries) ==> forall i | 0 <= i < |alphabet| ::
      CountBelow(entries, SortByKey(entries)[i].0) == i
  {
    SortedMembers(entries);
    SortedRanks(entries);
    LabelsOf(SortByKey(entries))
  }

  /** Every sorted entry is an entry of the file. */
  lemma SortedMembers(entries: seq<Entry>)
    ensures forall i | 0 <= i < |entries| :: SortByKey(entries)[i] in entries
  {
    var sorted := SortByKey(entries);
    forall i | 0 <= i < |sorted| ensures sorted[i] in entries {
      assert sorted[i] in multiset(entries);
    }
  }

  /** With distinct ids, the id at sorted position i has exactly i smaller
      ids in the file. */
  lemma SortedRanks(entries: seq<Entry>)
    ensures DistinctKeys(entries) ==>
      forall i | 0 <= i < |entries| :: CountBelow(entries, SortByKey(entries)[i].0) == i
  {
    if DistinctKeys(entries) {
      var sorted := SortByKey(entries);
      SortedStrictly(entries);
      forall i | 0 <= i < |sorted| ensures CountBelow(entries, sorted[i].0) == i {
        CountBelowSort(entries, sorted[i].0);
        CountBelowStrictlySorted(sorted, i);
      }
    }
  }

  /** Inserting e adds one to the count below k exactly when e's id is below k. */
  lemma {:induction false} CountBelowInsert(e: Entry, s: seq<Entry>, k: nat)
    requires SortedByKey(s)
    ensures CountBelow(Insert(e, s), k) == (if e.0 < k then 1 else 0) + CountBelow(s, k)
  {
    if s == [] || e.0 <= s[0].0 {
      assert ([e] + s)[1..] == s;
    } else {
      CountBelowInsert(e, s[1..], k);
      assert ([s[0]] + Insert(e, s[1..]))[1..] == Insert(e, s[1..]);
    }
  }

  /** Sorting does not change how many ids lie below k. */
  lemma {:induction false} CountBelowSort(s: seq<Entry>, k: nat)
    ensures CountBelow(SortByKey(s), k) == CountBelow(s, k)
  {
    if s != [] {
      CountBelowSort(s[1..], k);
      CountBelowInsert(s[0], SortByKey(s[1..]), k);
    }
  }

  /** When every id of s is at least k, no id lies below k. */
  lemma {:induction false} CountBelowNone(s: seq<Entry>, k: nat)
    requires forall i | 0 <= i < |s| :: k <= s[i].0
    ensures CountBelow(s, k) == 0
  {
    if s != [] {
      CountBelowNone(s[1..], k);
    }
  }

  /** In a strictly sorted sequence, exactly i ids lie below the id at index i. */
  lemma {:induction false} CountBelowStrictlySorted(s: seq<Entry>, i: nat)
    requires StrictlySortedByKey(s)
    requires i < |s|
    ensures CountBelow(s, s[i].0) == i
  {
    if i == 0 {
      CountBelowNone(s[1..], s[0].0);
    } else {
      CountBelowStrictlySorted(s[1..], i - 1);
    }
  }

  /** Inserting an entry whose id is new keeps a sequence strictly sorted. */
  lemma {:induction false} InsertStrictly(e: Entry, s: seq<Entry>)
    requires StrictlySortedByKey(s)
    requires forall i | 0 <= i < |s| :: s[i].0 != e.0
    ensures StrictlySortedByKey(Insert(e, s))
  {
    if s != [] && s[0].0 < e.0 {
      var rest := Insert(e, s[1..]);
      InsertStrictly(e, s[1..]);
      assert s[0].0 < rest[0].0;
    }
  }

  /** Sorting entries with distinct ids yields strictly increasing ids. */
  lemma {:induction false} SortedStrictly(s: seq<Entry>)
    requires DistinctKeys(s)
    ensures StrictlySortedByKey(SortByKey(s))
  {
    if s != [] {
      SortedStrictly(s[1..]);
      var sorted := SortByKey(s[1..]);
      forall i | 0 <= i < |sorted| ensures sorted[i].0 != s[0].0 {
        assert sorted[i] in multiset(s[1..]);
      }
      InsertStrictly(s[0], sorted);
    }
  }

  /** Removing the first entry removes one copy of it from the multiset. */
  lemma MultisetTail(a: seq<Entry>)
    requires a != []
    ensures multiset(a[1..]) == multiset(a) - multiset{a[0]}
  {
    assert a == [a[0]] + a[1..];
  }

  /** Two strictly sorted sequences holding the same entries start with the
      same entry. */
  lemma SameFirst(a: seq<Entry>, b: seq<Entry>)
    requires StrictlySortedByKey(a) && StrictlySortedByKey(b)
    requires multiset(a) == multiset(b)
    requires a != [] && b != []
    ensures a[0] == b[0]
  {
    assert a[0] in multiset(b) && b[0] in multiset(a);
    var j :| 0 <= j < |b| && b[j] == a[0];
    var i :| 0 <= i < |a| && a[i] == b[0];
    assert a[0].0 <= a[i].0 == b[0].0 <= b[j].0 == a[0].0;
  }

  /** The entries after the first of a strictly sorted sequence are
      strictly sorted. */
  lemma StrictlySortedTail(a: seq<Entry>)
    requires StrictlySortedByKey(a) && a != []
    ensures StrictlySortedByKey(a[1..])
  {
  }

  /** Sequences with the same first entry and the same remaining entries
      are equal. */
  lemma SameHeadAndTail(a: seq<Entry>, b: seq<Entry>)
    requires a != [] && b != [] && a[0] == b[0] && a[1..] == b[1..]
    ensures a == b
  {
    assert a == [a[0]] + a[1..] && b == [b[0]] + b[1..];
  }

  /** Two strictly sorted sequences holding the same entries are equal. */
  lemma {:induction false} StrictlySortedUnique(a: seq<Entry>, b: seq<Entry>)
    requires StrictlySortedByKey(a) && StrictlySortedByKey(b)
    requires multiset(a) == multiset(b)
    ensures a == b
  {
    if a != [] && b != [] {
      SameFirst(a, b);
      MultisetTail(a);
      MultisetTail(b);
      StrictlySortedTail(a);
      StrictlySortedTail(b);
      StrictlySortedUnique(a[1..], b[1..]);
      SameHeadAndTail(a, b);
    }
  }

  /** The alphabet depends only on the (id, label) pairs of the file, not on
      the order in which the parsed object yields them. */
  lemma AlphabetOrderIndependent(a: seq<Entry>, b: seq<Entry>)
    requires DistinctKeys(a) && DistinctKeys(b)
    requires multiset(a) == multiset(b)
    ensures Alphabet(a) == Alphabet(b)
  {
    SortedStrictly(a);
    SortedStrictly(b);
    StrictlySortedUnique(SortByKey(a), SortByKey(b));
  }

  /** A label file {"2": b, "0": a, "1": c} gives the alphabet a, c, b. */
  lemma AlphabetExample(a: string, b: string, c: string)
    ensures Alphabet([(2, b), (0, a), (1, c)]) == [a, c, b]
  {
    SortExample(a, b, c);
    LabelsExample(a, b, c);
  }

  /** The label step of the example above. */
  lemma LabelsExample(a: string, b: string, c: string)
    ensures LabelsOf([(0, a), (1, c), (2, b)]) == [a, c, b]
  {
    var three := [(0, a), (1, c), (2, b)];
    assert LabelsOf(three)[0] == a && LabelsOf(three)[1] == c && LabelsOf(three)[2] == b;
  }

  /** The sort step of the example above. */
  lemma SortExample(a: string, b: string, c: string)
    ensures SortByKey([(2, b), (0, a), (1, c)]) == [(0, a), (1, c), (2, b)]
  {
    var file := [(2, b), (0, a), (1, c)];
    var one := [(1, c)];
    var two := [(0, a), (1, c)];
    assert SortByKey(one) == one by {
      assert one[1..] == [];
    }
    assert SortByKey(file[1..]) == two by {
      assert file[1..] == [(0, a)] + one;
      assert Insert((0, a), one) == two;
    }
    assert Insert((2, b), two) == [(0, a), (1, c), (2, b)] by {
      assert two[1..] == one && one[1..] == [];
      assert Insert((2, b), one) == [(1, c), (2, b)];
    }
  }
}

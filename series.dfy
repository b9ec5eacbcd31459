/**
 * The one-dimensional column operations the protein-aware split is built
 * from: `unique()` on a column, the boolean `isin` mask, mask negation
 * (`~`) and boolean-mask filtering. A column is a sequence of cell values
 * compared only by equality.
 */
module Series {

  /** No value occurs twice. */
  predicate Distinct<T(==)>(s: seq<T>) {
    forall i, j | 0 <= i < j < |s| :: s[i] != s[j]
  }

  /** The values occurring in a column. */
  function Elements<T>(s: seq<T>): set<T> {
    set x | x in s
  }

  /** Position of the first occurrence of `x`. */
  function FirstIndex<T(==)>(s: seq<T>, x: T): (i: nat)
    requires x in s
    ensures i < |s| && s[i] == x
    ensures forall j | 0 <= j < i :: s[j] != x
  {
    if s[0] == x then 0 else 1 + FirstIndex(s[1..], x)
  }

  /**
   * `unique()`: the values of a column, each once, in order of first
   * appearance. Built from the back: the last cell is appended when it has
   * not been seen before it.
   */
  function Unique<T(==)>(s: seq<T>): (u: seq<T>)
    ensures Distinct(u)
    ensures forall x | x in u :: x in s
    ensures forall x | x in s :: x in u
    decreases |s|
  {
    if s == [] then []
    else
      var init, last := s[..|s| - 1], s[|s| - 1];
      assert s == init + [last];
      var u := Unique(init);
      if last in u then u else u + [last]
  }

  /** Mask that is true where the cell is one of `values` (`isin`). */
  function IsIn<T(==)>(s: seq<T>, values: seq<T>): (mask: seq<bool>)
    ensures |mask| == |s|
    ensures forall i | 0 <= i < |s| :: mask[i] == (s[i] in values)
  {
    seq(|s|, i requires 0 <= i < |s| => s[i] in values)
  }

  /** The mask operator `~`. */
  function Negate(mask: seq<bool>): (r: seq<bool>)
    ensures |r| == |mask|
    ensures forall i | 0 <= i < |mask| :: r[i] == !mask[i]
  {
    seq(|mask|, i requires 0 <= i < |mask| => !mask[i])
  }

  /** Boolean-mask indexing: the cells whose mask entry is true, in order. */
  function Filter<T>(s: seq<T>, mask: seq<bool>): (r: seq<T>)
    requires |mask| == |s|
    decreases |s|
  {
    if s == [] then []
    else
      var n := |s| - 1;
      Filter(s[..n], mask[..n]) + (if mask[n] then [s[n]] else [])
  }

  /** The indices whose mask entry is true, in increasing order. */
  function Positions(mask: seq<bool>): (p: seq<nat>)
    ensures forall j | 0 <= j < |p| :: p[j] < |mask| && mask[p[j]]
    ensures forall j, k | 0 <= j < k < |p| :: p[j] < p[k]
    ensures forall i | 0 <= i < |mask| && mask[i] :: i in p
    decreases |mask|
  {
    if mask == [] then []
    else
      var n := |mask| - 1;
      var p := Positions(mask[..n]);
      if mask[n] then p + [n] else p
  }

  // ---------------------------------------------------------------------
  // Unique

  lemma {:induction false} FirstIndexOfPrefix<T>(s: seq<T>, t: seq<T>, x: T)
    requires x in s
    ensures FirstIndex(s + t, x) == FirstIndex(s, x)
  {
    if s[0] != x {
      assert (s + t)[1..] == s[1..] + t;
      FirstIndexOfPrefix(s[1..], t, x);
    }
  }

  /** `unique()` lists the values in the order in which they first appear. */
  lemma {:induction false} UniqueInFirstAppearanceOrder<T>(s: seq<T>)
    ensures forall i, j | 0 <= i < j < |Unique(s)| ::
      FirstIndex(s, Unique(s)[i]) < FirstIndex(s, Unique(s)[j])
  {
    if s != [] {
      var n := |s| - 1;
      var init, last := s[..n], s[n];
      assert s == init + [last];
      UniqueInFirstAppearanceOrder(init);
      var u', u := Unique(init), Unique(s);
      forall x | x in init ensures FirstIndex(s, x) == FirstIndex(init, x) && FirstIndex(s, x) < n {
        FirstIndexOfPrefix(init, [last], x);
      }
      if last !in init {
        assert u == u' + [last];
        assert FirstIndex(s, last) == n;
      }
    }
  }

  /** Mask of the cells that are the first occurrence of their value. */
  function FirstOccurrences<T(==)>(s: seq<T>): (mask: seq<bool>)
    ensures |mask| == |s|
  {
    seq(|s|, i requires 0 <= i < |s| => FirstIndex(s, s[i]) == i)
  }

  /**
   * `unique()` is the column with every repeated cell dropped: it keeps a
   * cell exactly when no earlier cell holds the same value.
   */
  lemma {:induction false} UniqueKeepsFirstOccurrences<T>(s: seq<T>)
    ensures Unique(s) == Filter(s, FirstOccurrences(s))
  {
    if s != [] {
      var n := |s| - 1;
      var init, last := s[..n], s[n];
      assert s == init + [last];
      UniqueKeepsFirstOccurrences(init);
      var mask := FirstOccurrences(s);
      forall i | 0 <= i < n ensures mask[i] == FirstOccurrences(init)[i] {
        FirstIndexOfPrefix(init, [last], s[i]);
      }
      assert mask[..n] == FirstOccurrences(init);
      assert mask[n] <==> last !in init;
    }
  }

  /** A column without repeats has as many cells as distinct values. */
  lemma {:induction false} DistinctCardinality<T>(s: seq<T>)
    requires Distinct(s)
    ensures |Elements(s)| == |s|
  {
    if s != [] {
      var n := |s| - 1;
      DistinctCardinality(s[..n]);
      assert Elements(s) == Elements(s[..n]) + {s[n]};
      assert s[n] !in Elements(s[..n]);
    }
  }

  /**
   * Drawing as many distinct values as a column of distinct values holds,
   * and only values from it, draws all of them.
   */
  lemma FullDrawTakesAll<T>(draw: seq<T>, population: seq<T>)
    requires Distinct(draw) && Distinct(population) && |draw| == |population|
    requires forall x | x in draw :: x in population
    ensures Elements(draw) == Elements(population)
  {
    var a, b := Elements(draw), Elements(population);
    DistinctCardinality(draw);
    DistinctCardinality(population);
    assert a <= b;
    assert |b - a| == |b| - |a|;
  }

  /** `len(unique())` counts the distinct values of the column. */
  lemma UniqueLength<T>(s: seq<T>)
    ensures |Unique(s)| == |Elements(s)|
  {
    DistinctCardinality(Unique(s));
    assert Elements(Unique(s)) == Elements(s);
  }

  // ---------------------------------------------------------------------
  // Filter

  /** Mask filtering keeps exactly the cells at the true positions, in order. */
  lemma {:induction false} FilterAt<T>(s: seq<T>, mask: seq<bool>)
    requires |mask| == |s|
    ensures |Filter(s, mask)| == |Positions(mask)|
    ensures forall j | 0 <= j < |Positions(mask)| :: Filter(s, mask)[j] == s[Positions(mask)[j]]
  {
    if s != [] {
      var n := |s| - 1;
      FilterAt(s[..n], mask[..n]);
    }
  }

  /** A cell survives filtering exactly when it stands at a true position. */
  lemma FilterMembership<T>(s: seq<T>, mask: seq<bool>, x: T)
    requires |mask| == |s|
    ensures x in Filter(s, mask) <==> exists i | 0 <= i < |s| :: mask[i] && s[i] == x
  {
    FilterAt(s, mask);
    var p := Positions(mask);
    if x in Filter(s, mask) {
      var j :| 0 <= j < |p| && Filter(s, mask)[j] == x;
      assert mask[p[j]] && s[p[j]] == x;
    }
    if i :| 0 <= i < |s| && mask[i] && s[i] == x {
      var j :| 0 <= j < |p| && p[j] == i;
      assert Filter(s, mask)[j] == x;
    }
  }

  /**
   * A mask and its negation split a column in two: together the two halves
   * hold every cell exactly as often as the column does.
   */
  lemma {:induction false} FilterComplement<T>(s: seq<T>, mask: seq<bool>)
    requires |mask| == |s|
    ensures multiset(Filter(s, mask)) + multiset(Filter(s, Negate(mask))) == multiset(s)
    ensures |Filter(s, mask)| + |Filter(s, Negate(mask))| == |s|
  {
    if s != [] {
      var n := |s| - 1;
      assert Negate(mask)[..n] == Negate(mask[..n]);
      FilterComplement(s[..n], mask[..n]);
      assert s == s[..n] + [s[n]];
    }
  }

  /** All-true and all-false masks. */
  lemma {:induction false} FilterConstant<T>(s: seq<T>, mask: seq<bool>)
    requires |mask| == |s|
    ensures (forall i | 0 <= i < |s| :: mask[i]) ==> Filter(s, mask) == s
    ensures (forall i | 0 <= i < |s| :: !mask[i]) ==> Filter(s, mask) == []
  {
    if s != [] {
      var n := |s| - 1;
      FilterConstant(s[..n], mask[..n]);
      assert s == s[..n] + [s[n]];
    }
  }
}

/**
 * The protein-aware train/test split of the SIESTA training script and the
 * selection of its model inputs. Every row belongs to one protein (the cell
 * in the protein column); a random subset of the distinct proteins is sent
 * to the test partition with all of its rows, and the rest, with all of
 * theirs, to the training partition, so that no protein has variants on
 * both sides.
 *
 * The random draw of `np.random.choice(..., replace=False)` is a parameter
 * here: any sequence of distinct proteins, taken from the table, of the
 * size the split asks for. The float `test_size` is an exact fraction.
 */
module Siesta {
  import opened Series
  import opened Results
  import opened Frames

  /** The share of proteins held out for testing, `num / den`. */
  datatype Fraction = Fraction(num: int, den: nat) {
    predicate Valid() { den > 0 }
  }

  /** The two partitions, as `protein_aware_split` returns them. */
  datatype Split<V> = Split(train: Frame<V>, test: Frame<V>)

  /** The inputs handed to the scaler and the classifier. */
  datatype TrainingData<V> = TrainingData(xTrain: Frame<V>, yTrain: seq<V>, xTest: Frame<V>, yTest: seq<V>)

  const PROTEIN_COL: string := "uniprotID"
  const LABEL_COL: string := "labels"
  /** `test_size=0.2` */
  const TEST_SIZE: Fraction := Fraction(1, 5)
  /** The nine feature columns, in the order the model sees them. */
  const FEATURES: seq<string> := [
    "Cα-Dist", "dRMS Local", "ΔSASA Normalized", "ΔCα-pLDDT",
    "MJ Potential Mutant", "Entropy", "PSSM Native", "Hydrophobicity", "substitutionMatrix"]

  // ---------------------------------------------------------------------
  // The number of test proteins

  /** Python's `int()` applied to the quotient `p / d`: truncation toward zero. */
  function TruncatedDiv(p: int, d: nat): (q: int)
    requires d > 0
    ensures 0 <= p ==> 0 <= q && q * d <= p < q * d + d
    ensures p < 0 ==> q <= 0 && p <= q * d && q * d - d < p
  {
    if 0 <= p then
      DivisionBounds(p, d);
      p / d
    else
      var m := (-p) / d;
      DivisionBounds(-p, d);
      NegateProduct(m, d);
      -m
  }

  /**
   * `n_test = int(len(unique_proteins) * test_size)`: the floor of the
   * product for a non-negative fraction, none for a zero fraction and every
   * protein for the fraction one.
   */
  function TestCount(groups: nat, testSize: Fraction): (n: int)
    requires testSize.Valid()
    ensures 0 <= testSize.num ==>
      0 <= n && n * testSize.den <= groups * testSize.num < n * testSize.den + testSize.den
    ensures testSize.num < 0 ==> n <= 0
    ensures 0 <= testSize.num <= testSize.den ==> n <= groups
    ensures testSize.num == 0 ==> n == 0
    ensures testSize.num == testSize.den ==> n == groups
  {
    var num, d := testSize.num, testSize.den;
    var p := groups * num;
    var n := TruncatedDiv(p, d);
    assert 0 <= num ==> 0 <= p by {
      if 0 <= num {
        MultiplyMonotone(0, num, groups);
      }
    }
    assert num < 0 ==> p <= 0 by {
      if num < 0 {
        MultiplyMonotone(num, 0, groups);
      }
    }
    assert 0 <= num <= d ==> n <= groups by {
      if 0 <= num <= d {
        MultiplyMonotone(num, d, groups);
        if n > groups {
          MultiplyMonotone(groups + 1, n, d);
        }
      }
    }
    assert num == d ==> n == groups by {
      if num == d && n < groups {
        MultiplyMonotone(n + 1, groups, d);
      }
    }
    n
  }

  /** The quotient of Euclidean division brackets the dividend. */
  lemma DivisionBounds(p: nat, d: nat)
    requires d > 0
    ensures 0 <= p / d && (p / d) * d <= p < (p / d) * d + d
  {
    assert p == (p / d) * d + p % d;
  }

  lemma NegateProduct(m: int, d: int)
    ensures (-m) * d == -(m * d)
  {
  }

  lemma MultiplyMonotone(a: int, b: int, c: nat)
    requires a <= b
    ensures a * c <= b * c && c * a <= c * b
  {
  }

  // ---------------------------------------------------------------------
  // The split

  /** The distinct proteins of the table, in order of first appearance. */
  function Proteins<V(==)>(df: Frame<V>, proteinCol: string): (proteins: seq<V>)
    requires df.Valid() && proteinCol in df.columns
    ensures Distinct(proteins) && Elements(proteins) == Elements(ColumnValues(df, proteinCol))
  {
    Unique(ColumnValues(df, proteinCol))
  }

  /** What sampling `size` values without replacement from `population` yields. */
  predicate IsDraw<V(==)>(population: seq<V>, size: nat, draw: seq<V>) {
    |draw| == size && Distinct(draw) && forall x | x in draw :: x in population
  }

  /**
   * The sampler's promise: whenever the split gets as far as sampling, the
   * draw holds the requested number of distinct proteins of the table.
   */
  predicate DrawFits<V(==)>(df: Frame<V>, proteinCol: string, testSize: Fraction, draw: seq<V>)
    requires df.Valid() && testSize.Valid()
  {
    proteinCol in df.columns ==>
      var proteins := Proteins(df, proteinCol);
      var n := TestCount(|proteins|, testSize);
      0 <= n <= |proteins| ==> IsDraw(proteins, n, draw)
  }

  /**
   * `protein_aware_split(df, protein_col, test_size)` with the sampler's
   * draw given: a KeyError when the protein column is absent, numpy's
   * ValueError when the sample size is negative or exceeds the number of
   * proteins, and otherwise the rows whose protein was drawn (test) and the
   * others (train).
   */
  function ProteinAwareSplit<V(==)>(df: Frame<V>, proteinCol: string, testSize: Fraction, draw: seq<V>)
    : (r: Result<Split<V>, Error>)
    requires df.Valid() && testSize.Valid()
    requires DrawFits(df, proteinCol, testSize, draw)
    ensures proteinCol !in df.columns ==> r == Err(KeyError([proteinCol]))
    ensures proteinCol in df.columns ==>
      var groups := |Proteins(df, proteinCol)|;
      var n := TestCount(groups, testSize);
      && (n < 0 ==> r == Err(NegativeSampleSize(n)))
      && (groups < n ==> r == Err(SampleLargerThanPopulation(n, groups)))
      && (0 <= n <= groups ==> r.Ok?)
    ensures r.Ok? ==> r.value.train.Valid() && r.value.test.Valid()
    ensures r.Ok? ==> r.value.train.columns == df.columns && r.value.test.columns == df.columns
  {
    match Column(df, proteinCol)
    case Err(e) => Err(e)
    case Ok(col) =>
      var proteins := Unique(col);
      var nTest := TestCount(|proteins|, testSize);
      if nTest < 0 then Err(NegativeSampleSize(nTest))
      else if nTest > |proteins| then Err(SampleLargerThanPopulation(nTest, |proteins|))
      else
        var testProteins := draw;
        var inTest := IsIn(col, testProteins);
        Ok(Split(Where(df, Negate(inTest)), Where(df, inTest)))
  }

  /** The preconditions of the split, gathered. */
  predicate CanSplit<V(==)>(df: Frame<V>, proteinCol: string, testSize: Fraction, draw: seq<V>) {
    df.Valid() && testSize.Valid() && DrawFits(df, proteinCol, testSize, draw)
  }

  /** The mask `isin(test_proteins)` over the table's rows. */
  function TestMask<V(==)>(df: Frame<V>, proteinCol: string, draw: seq<V>): (mask: seq<bool>)
    requires df.Valid() && proteinCol in df.columns
    ensures |mask| == |df.rows|
  {
    IsIn(ColumnValues(df, proteinCol), draw)
  }

  /** With a fraction in [0, 1] the split fails only for an absent protein column. */
  lemma SplitSucceedsForUnitFraction<V>(df: Frame<V>, proteinCol: string, testSize: Fraction, draw: seq<V>)
    requires CanSplit(df, proteinCol, testSize, draw)
    requires 0 <= testSize.num <= testSize.den
    ensures ProteinAwareSplit(df, proteinCol, testSize, draw).Ok? <==> proteinCol in df.columns
  {
  }

  /** The partitions are the two mask filterings of the table. */
  lemma SplitIsMaskFiltering<V>(df: Frame<V>, proteinCol: string, testSize: Fraction, draw: seq<V>)
    requires CanSplit(df, proteinCol, testSize, draw)
    requires ProteinAwareSplit(df, proteinCol, testSize, draw).Ok?
    ensures proteinCol in df.columns
    ensures var s := ProteinAwareSplit(df, proteinCol, testSize, draw).value;
      var mask := TestMask(df, proteinCol, draw);
      s.test.rows == Filter(df.rows, mask) && s.train.rows == Filter(df.rows, Negate(mask))
  {
  }

  /**
   * A row of the table lands in the test partition exactly when its
   * protein was drawn, and in the training partition exactly when it was
   * not; the rows of each partition all carry proteins of their side.
   */
  lemma RowsFollowTheirProtein<V>(df: Frame<V>, proteinCol: string, testSize: Fraction, draw: seq<V>)
    requires CanSplit(df, proteinCol, testSize, draw)
    requires ProteinAwareSplit(df, proteinCol, testSize, draw).Ok?
    ensures proteinCol in df.columns
    ensures var s := ProteinAwareSplit(df, proteinCol, testSize, draw).value;
      var k := IndexOf(df.columns, proteinCol);
      && (forall i | 0 <= i < |df.rows| :: df.rows[i] in s.test.rows <==> df.rows[i][k] in draw)
      && (forall i | 0 <= i < |df.rows| :: df.rows[i] in s.train.rows <==> df.rows[i][k] !in draw)
      && (forall i | 0 <= i < |s.test.rows| :: s.test.rows[i][k] in draw)
      && (forall i | 0 <= i < |s.train.rows| :: s.train.rows[i][k] !in draw)
  {
    SplitIsMaskFiltering(df, proteinCol, testSize, draw);
    var s := ProteinAwareSplit(df, proteinCol, testSize, draw).value;
    var k := IndexOf(df.columns, proteinCol);
    var mask := TestMask(df, proteinCol, draw);
    forall i | 0 <= i < |df.rows|
      ensures df.rows[i] in s.test.rows <==> df.rows[i][k] in draw
      ensures df.rows[i] in s.train.rows <==> df.rows[i][k] !in draw
    {
      FilterMembership(df.rows, mask, df.rows[i]);
      FilterMembership(df.rows, Negate(mask), df.rows[i]);
    }
    forall i | 0 <= i < |s.test.rows| ensures s.test.rows[i][k] in draw {
      FilterMembership(df.rows, mask, s.test.rows[i]);
    }
    forall i | 0 <= i < |s.train.rows| ensures s.train.rows[i][k] !in draw {
      FilterMembership(df.rows, Negate(mask), s.train.rows[i]);
    }
  }

  /** Together the partitions hold every row of the table exactly once. */
  lemma SplitCoversInput<V>(df: Frame<V>, proteinCol: string, testSize: Fraction, draw: seq<V>)
    requires CanSplit(df, proteinCol, testSize, draw)
    requires ProteinAwareSplit(df, proteinCol, testSize, draw).Ok?
    ensures var s := ProteinAwareSplit(df, proteinCol, testSize, draw).value;
      && multiset(s.train.rows) + multiset(s.test.rows) == multiset(df.rows)
      && |s.train.rows| + |s.test.rows| == |df.rows|
  {
    SplitIsMaskFiltering(df, proteinCol, testSize, draw);
    FilterComplement(df.rows, TestMask(df, proteinCol, draw));
  }

  /** `part` is `whole` read at the increasing positions `at`. */
  ghost predicate ReadsInOrder<T>(part: seq<T>, whole: seq<T>, at: seq<nat>) {
    && |part| == |at|
    && (forall j | 0 <= j < |at| :: at[j] < |whole| && part[j] == whole[at[j]])
    && (forall j, k | 0 <= j < k < |at| :: at[j] < at[k])
  }

  /**
   * Each partition keeps the table's row order: it is the table read at
   * increasing positions, which are exactly the positions of the rows whose
   * protein was drawn (test) or not drawn (train).
   */
  lemma SplitPreservesOrder<V>(df: Frame<V>, proteinCol: string, testSize: Fraction, draw: seq<V>)
    requires CanSplit(df, proteinCol, testSize, draw)
    requires ProteinAwareSplit(df, proteinCol, testSize, draw).Ok?
    ensures proteinCol in df.columns
    ensures var s := ProteinAwareSplit(df, proteinCol, testSize, draw).value;
      var k := IndexOf(df.columns, proteinCol);
      var mask := TestMask(df, proteinCol, draw);
      && ReadsInOrder(s.test.rows, df.rows, Positions(mask))
      && ReadsInOrder(s.train.rows, df.rows, Positions(Negate(mask)))
      && (forall i | 0 <= i < |df.rows| :: i in Positions(mask) <==> df.rows[i][k] in draw)
      && (forall i | 0 <= i < |df.rows| :: i in Positions(Negate(mask)) <==> df.rows[i][k] !in draw)
  {
    SplitIsMaskFiltering(df, proteinCol, testSize, draw);
    var mask := TestMask(df, proteinCol, draw);
    FilterAt(df.rows, mask);
    FilterAt(df.rows, Negate(mask));
  }

  /** The protein column of each partition, and what it holds. */
  lemma PartitionProteins<V>(df: Frame<V>, proteinCol: string, testSize: Fraction, draw: seq<V>)
    requires CanSplit(df, proteinCol, testSize, draw)
    requires ProteinAwareSplit(df, proteinCol, testSize, draw).Ok?
    ensures proteinCol in df.columns
    ensures var s := ProteinAwareSplit(df, proteinCol, testSize, draw).value;
      var proteins := Elements(Proteins(df, proteinCol));
      && Elements(ColumnValues(s.test, proteinCol)) == Elements(draw)
      && Elements(ColumnValues(s.train, proteinCol)) == proteins - Elements(draw)
      && Elements(draw) <= proteins
  {
    SplitIsMaskFiltering(df, proteinCol, testSize, draw);
    var s := ProteinAwareSplit(df, proteinCol, testSize, draw).value;
    var col := ColumnValues(df, proteinCol);
    var mask := TestMask(df, proteinCol, draw);
    ColumnOfWhere(df, mask, proteinCol);
    ColumnOfWhere(df, Negate(mask), proteinCol);
    var testCol, trainCol := ColumnValues(s.test, proteinCol), ColumnValues(s.train, proteinCol);
    assert testCol == Filter(col, mask);
    assert trainCol == Filter(col, Negate(mask));
    forall x | x in col
      ensures x in testCol <==> x in draw
      ensures x in trainCol <==> x !in draw
    {
      FilterMembership(col, mask, x);
      FilterMembership(col, Negate(mask), x);
    }
    forall x | x in testCol ensures x in col {
      FilterMembership(col, mask, x);
    }
    forall x | x in trainCol ensures x in col {
      FilterMembership(col, Negate(mask), x);
    }
    assert Elements(draw) <= Elements(col);
  }

  /** No protein has rows in both partitions, and together they hold every protein. */
  lemma SplitSeparatesProteins<V>(df: Frame<V>, proteinCol: string, testSize: Fraction, draw: seq<V>)
    requires CanSplit(df, proteinCol, testSize, draw)
    requires ProteinAwareSplit(df, proteinCol, testSize, draw).Ok?
    ensures proteinCol in df.columns
    ensures var s := ProteinAwareSplit(df, proteinCol, testSize, draw).value;
      var testProteins := Elements(ColumnValues(s.test, proteinCol));
      var trainProteins := Elements(ColumnValues(s.train, proteinCol));
      && testProteins !! trainProteins
      && testProteins + trainProteins == Elements(ColumnValues(df, proteinCol))
  {
    PartitionProteins(df, proteinCol, testSize, draw);
  }

  /**
   * The test partition holds exactly `n_test` distinct proteins and the
   * training partition the remaining ones.
   */
  lemma SplitProteinCounts<V>(df: Frame<V>, proteinCol: string, testSize: Fraction, draw: seq<V>)
    requires CanSplit(df, proteinCol, testSize, draw)
    requires ProteinAwareSplit(df, proteinCol, testSize, draw).Ok?
    ensures proteinCol in df.columns
    ensures var s := ProteinAwareSplit(df, proteinCol, testSize, draw).value;
      var groups := |Proteins(df, proteinCol)|;
      var n := TestCount(groups, testSize);
      && |Unique(ColumnValues(s.test, proteinCol))| == n
      && |Unique(ColumnValues(s.train, proteinCol))| == groups - n
  {
    PartitionProteins(df, proteinCol, testSize, draw);
    var s := ProteinAwareSplit(df, proteinCol, testSize, draw).value;
    var proteins := Proteins(df, proteinCol);
    UniqueLength(ColumnValues(s.test, proteinCol));
    UniqueLength(ColumnValues(s.train, proteinCol));
    DistinctCardinality(draw);
    DistinctCardinality(proteins);
  }

  /** A fraction giving no test proteins leaves the test partition empty. */
  lemma SplitWithNoTestProteins<V>(df: Frame<V>, proteinCol: string, testSize: Fraction, draw: seq<V>)
    requires CanSplit(df, proteinCol, testSize, draw) && proteinCol in df.columns
    requires TestCount(|Proteins(df, proteinCol)|, testSize) == 0
    ensures ProteinAwareSplit(df, proteinCol, testSize, draw).Ok?
    ensures var s := ProteinAwareSplit(df, proteinCol, testSize, draw).value;
      s.test.rows == [] && s.train.rows == df.rows
  {
    SplitIsMaskFiltering(df, proteinCol, testSize, draw);
    var mask := TestMask(df, proteinCol, draw);
    assert draw == [];
    FilterConstant(df.rows, mask);
    FilterConstant(df.rows, Negate(mask));
  }

  /** A fraction giving every protein to the test side leaves training empty. */
  lemma SplitWithAllProteinsInTest<V>(df: Frame<V>, proteinCol: string, testSize: Fraction, draw: seq<V>)
    requires CanSplit(df, proteinCol, testSize, draw) && proteinCol in df.columns
    requires TestCount(|Proteins(df, proteinCol)|, testSize) == |Proteins(df, proteinCol)|
    ensures ProteinAwareSplit(df, proteinCol, testSize, draw).Ok?
    ensures var s := ProteinAwareSplit(df, proteinCol, testSize, draw).value;
      s.train.rows == [] && s.test.rows == df.rows
  {
    SplitIsMaskFiltering(df, proteinCol, testSize, draw);
    var proteins := Proteins(df, proteinCol);
    var col := ColumnValues(df, proteinCol);
    var mask := TestMask(df, proteinCol, draw);
    FullDrawTakesAll(draw, proteins);
    forall i | 0 <= i < |df.rows| ensures mask[i] {
      assert col[i] in Elements(proteins);
    }
    FilterConstant(df.rows, mask);
    FilterConstant(df.rows, Negate(mask));
  }

  /**
   * The script's own setting: with `test_size=0.2` a table of ten proteins
   * puts exactly two of them in the test partition and eight in training.
   */
  lemma TenProteinsGiveTwoForTesting<V>(df: Frame<V>, draw: seq<V>)
    requires CanSplit(df, PROTEIN_COL, TEST_SIZE, draw) && PROTEIN_COL in df.columns
    requires |Proteins(df, PROTEIN_COL)| == 10
    ensures ProteinAwareSplit(df, PROTEIN_COL, TEST_SIZE, draw).Ok?
    ensures var s := ProteinAwareSplit(df, PROTEIN_COL, TEST_SIZE, draw).value;
      && |Unique(ColumnValues(s.test, PROTEIN_COL))| == 2
      && |Unique(ColumnValues(s.train, PROTEIN_COL))| == 8
  {
    assert TestCount(10, TEST_SIZE) == 2;
    SplitProteinCounts(df, PROTEIN_COL, TEST_SIZE, draw);
  }

  // ---------------------------------------------------------------------
  // Model inputs

  lemma FeaturesAreDistinct()
    ensures Distinct(FEATURES)
  {
  }

  /**
   * `x = df[features]` and `y = df['labels']` for the training and then the
   * test partition; the first absent column raises a KeyError.
   */
  function PrepareData<V>(split: Split<V>): (r: Result<TrainingData<V>, Error>)
    requires split.train.Valid() && split.test.Valid()
    requires split.train.columns == split.test.columns
    ensures r.Ok? <==> (forall f | f in FEATURES :: f in split.train.columns) && LABEL_COL in split.train.columns
    ensures r.Err? && (exists f | f in FEATURES :: f !in split.train.columns) ==>
      r.error == KeyError(MissingColumns(split.train.columns, FEATURES))
    ensures r.Err? && (forall f | f in FEATURES :: f in split.train.columns) ==> r.error == KeyError([LABEL_COL])
    ensures r.Ok? ==> var d := r.value;
      && d.xTrain.Valid() && d.xTest.Valid()
      && d.xTrain.columns == FEATURES && d.xTest.columns == FEATURES
      && |d.xTrain.rows| == |d.yTrain| == |split.train.rows|
      && |d.xTest.rows| == |d.yTest| == |split.test.rows|
      && d.yTrain == ColumnValues(split.train, LABEL_COL)
      && d.yTest == ColumnValues(split.test, LABEL_COL)
    ensures r.Ok? ==> var d := r.value;
      forall i, j | 0 <= i < |split.train.rows| && 0 <= j < |FEATURES| ::
        d.xTrain.rows[i][j] == split.train.rows[i][IndexOf(split.train.columns, FEATURES[j])]
    ensures r.Ok? ==> var d := r.value;
      forall i, j | 0 <= i < |split.test.rows| && 0 <= j < |FEATURES| ::
        d.xTest.rows[i][j] == split.test.rows[i][IndexOf(split.test.columns, FEATURES[j])]
  {
    FeaturesAreDistinct();
    match Select(split.train, FEATURES)
    case Err(e) => Err(e)
    case Ok(xTrain) =>
      match Column(split.train, LABEL_COL)
      case Err(e) => Err(e)
      case Ok(yTrain) =>
        match Select(split.test, FEATURES)
        case Err(e) => Err(e)
        case Ok(xTest) =>
          match Column(split.test, LABEL_COL)
          case Err(e) => Err(e)
          case Ok(yTest) => Ok(TrainingData(xTrain, yTrain, xTest, yTest))
  }

  /**
   * The script from the split to the model inputs: it reaches the model
   * exactly when the table has the protein column, the label column and all
   * nine feature columns; otherwise it stops with a KeyError before any
   * model is fitted.
   */
  function TrainingInputs<V(==)>(df: Frame<V>, draw: seq<V>): (r: Result<TrainingData<V>, Error>)
    requires CanSplit(df, PROTEIN_COL, TEST_SIZE, draw)
    ensures r.Ok? <==>
      && PROTEIN_COL in df.columns && LABEL_COL in df.columns
      && forall f | f in FEATURES :: f in df.columns
    ensures r.Err? ==> r.error.KeyError?
  {
    match ProteinAwareSplit(df, PROTEIN_COL, TEST_SIZE, draw)
    case Err(e) => Err(e)
    case Ok(split) => PrepareData(split)
  }
}

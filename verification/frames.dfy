/**
 The data frame the analytics functions receive: named columns of nullable
 cells, the derived `converted` column, and pandas' `Series.unique()`.
 */
module Frames {

  datatype Option<+T> = None | Some(value: T)

  /** One cell of a column: a null (None or NaN), a string, or a boolean. */
  datatype Cell = Null | Text(text: string) | Flag(flag: bool)

  /** Name of the column the conversion step adds to the frame. */
  const ConvertedColumn: string := "converted"

  /** The two arm labels the lift and the posterior are hard-wired to. */
  const LabelA: Cell := Text("A")
  const LabelB: Cell := Text("B")

  /** A column-major data frame: every named column holds one cell per row. */
  datatype Frame = Frame(height: nat, cols: map<string, seq<Cell>>) {

    predicate Valid() {
      forall c :: c in cols ==> |cols[c]| == height
    }

    /** pandas' `DataFrame.empty`: no rows, or no columns at all. */
    predicate Empty() {
      height == 0 || |cols| == 0
    }
  }

  ghost predicate Distinct<T>(s: seq<T>) {
    forall i, j :: 0 <= i < j < |s| ==> s[i] != s[j]
  }

  ghost function Elements<T>(s: seq<T>): set<T> {
    set x | x in s
  }

  /** A column of booleans only, as the derived `converted` column is. */
  predicate BooleanColumn(s: seq<Cell>) {
    forall i :: 0 <= i < |s| ==> s[i].Flag?
  }

  /** `~series.isnull()`: a row is converted exactly when its event-2 cell is not null. */
  function ConvertedFlags(event2: seq<Cell>): (c: seq<Cell>)
    ensures |c| == |event2|
    ensures forall i :: 0 <= i < |event2| ==> c[i] == Flag(event2[i] != Null)
  {
    if |event2| == 0 then []
    else ConvertedFlags(event2[..|event2| - 1]) + [Flag(event2[|event2| - 1] != Null)]
  }

  /**
   `df["converted"] = ~df[event2].isnull()`: adds (or overwrites) the
   `converted` column and leaves every other column as it was.
   */
  function AddConverted(f: Frame, event2: string): (g: Frame)
    requires f.Valid() && event2 in f.cols
    ensures g.Valid() && g.height == f.height
    ensures g.cols.Keys == f.cols.Keys + {ConvertedColumn}
    ensures BooleanColumn(g.cols[ConvertedColumn])
    ensures forall i :: 0 <= i < f.height ==>
              (g.cols[ConvertedColumn][i] == Flag(true) <==> f.cols[event2][i] != Null)
    ensures forall c :: c in f.cols && c != ConvertedColumn ==> g.cols[c] == f.cols[c]
  {
    Frame(f.height, f.cols[ConvertedColumn := ConvertedFlags(f.cols[event2])])
  }

  /** `Series.unique()`: every value of the column once, nulls included. */
  function Unique(s: seq<Cell>): (u: seq<Cell>)
    ensures Distinct(u)
    ensures forall x :: x in u <==> x in s
    ensures |u| <= |s|
  {
    if |s| == 0 then []
    else
      var u := Unique(s[..|s| - 1]);
      if s[|s| - 1] in u then u else u + [s[|s| - 1]]
  }

  /** A sequence without repetitions has as many elements as its set of values. */
  lemma {:induction false} DistinctCardinality<T>(s: seq<T>)
    requires Distinct(s)
    ensures |Elements(s)| == |s|
  {
    if |s| > 0 {
      var k := |s| - 1;
      DistinctCardinality(s[..k]);
      assert Elements(s) == Elements(s[..k]) + {s[k]};
      assert s[k] !in Elements(s[..k]);
    }
  }

  /** The number of distinct values `unique()` reports is the size of the column's value set. */
  lemma UniqueCount(s: seq<Cell>)
    ensures |Unique(s)| == |Elements(s)|
  {
    DistinctCardinality(Unique(s));
    assert Elements(Unique(s)) == Elements(s);
  }

  /**
   The two-arm test `len(u) == 2 and "A" in u and "B" in u` on `u = unique()`
   holds exactly when the column's values are the labels A and B and nothing else.
   */
  lemma TwoArmGuard(s: seq<Cell>)
    ensures (|Unique(s)| == 2 && LabelA in Unique(s) && LabelB in Unique(s))
            <==> Elements(s) == {LabelA, LabelB}
  {
    UniqueCount(s);
    if Elements(s) == {LabelA, LabelB} {
      assert LabelA in s && LabelB in s;
    }
    if |Unique(s)| == 2 && LabelA in Unique(s) && LabelB in Unique(s) {
      var e := Elements(s);
      assert {LabelA, LabelB} <= e;
      assert |e - {LabelA, LabelB}| == |e| - |{LabelA, LabelB}|;
      assert e - {LabelA, LabelB} == {};
    }
  }

  /** A map on exactly the labels A and B is the two-entry map of its values. */
  lemma TwoEntryMap<V>(m: map<Cell, V>)
    requires m.Keys == {LabelA, LabelB}
    ensures m == map[LabelA := m[LabelA], LabelB := m[LabelB]]
  {
    var expected := map[LabelA := m[LabelA], LabelB := m[LabelB]];
    forall g | g in m ensures m[g] == expected[g] {}
    assert m == expected;
  }
}

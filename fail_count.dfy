/** The fail-count report of 20250520/11372010_ex1.py: the students with
    four or more scores below 60, read from a table whose first column is
    the student's name and whose other columns are scores. */
module FailCount {
  import opened Wrappers

  /** A cell as the CSV reader gives it: text, a number, or an empty cell
      (NaN). */
  datatype Field = Text(text: string) | Number(value: real) | Empty

  type Row = seq<Field>

  const PassMark: real := 60.0
  const MinFails: nat := 4
  const NotComparable: string := "'<' not supported between instances of 'str' and 'int'"

  /** `df.iloc[:, 1:]` for one row: every column but the first. */
  function Scores(row: Row): (r: seq<Field>)
    ensures |r| == if row == [] then 0 else |row| - 1
  {
    if row == [] then [] else row[1..]
  }

  /** `score < 60` for one cell: an empty cell compares false. */
  predicate Fails(f: Field) {
    f.Number? && f.value < PassMark
  }

  /** `(score_only < 60).sum(axis=1)` for one row. */
  function FailCount(scores: seq<Field>): (n: nat)
    ensures n <= |scores|
  {
    if scores == [] then 0 else (if Fails(scores[0]) then 1 else 0) + FailCount(scores[1..])
  }

  /** The count adds up over any split of the scores, and a single score
      counts 1 exactly when it is a number below 60. */
  lemma {:induction false} FailCountAppend(s: seq<Field>, t: seq<Field>)
    ensures FailCount(s + t) == FailCount(s) + FailCount(t)
    decreases |s|
  {
    if s == [] {
      assert s + t == t;
    } else {
      assert (s + t)[1..] == s[1..] + t;
      FailCountAppend(s[1..], t);
    }
  }

  lemma {:induction false} FailCountOne(f: Field)
    ensures FailCount([f]) == if f.Number? && f.value < PassMark then 1 else 0
  {
    assert [f][1..] == [];
  }

  /** All scores fail exactly when the count is the number of scores. */
  lemma {:induction false} FailCountAll(s: seq<Field>)
    ensures FailCount(s) == |s| <==> forall i :: 0 <= i < |s| ==> Fails(s[i])
    decreases |s|
  {
    if s != [] {
      FailCountAll(s[1..]);
      if forall i :: 0 <= i < |s| ==> Fails(s[i]) {
        assert forall i :: 0 <= i < |s[1..]| ==> Fails(s[1..][i]) by {
          forall i | 0 <= i < |s[1..]| ensures Fails(s[1..][i]) {
            assert s[1..][i] == s[i + 1];
          }
        }
      }
      if FailCount(s) == |s| {
        forall i | 0 <= i < |s| ensures Fails(s[i]) {
          if i > 0 { assert s[i] == s[1..][i - 1]; }
        }
      }
    }
  }

  predicate Selected(row: Row) {
    FailCount(Scores(row)) >= MinFails
  }

  /** `df[fail_counts >= 4]`: the rows with four or more fails, whole and
      in their order. */
  function Select(table: seq<Row>): seq<Row> {
    if table == [] then []
    else (if Selected(table[0]) then [table[0]] else []) + Select(table[1..])
  }

  /** A text cell among the scores: comparing it with 60 raises. */
  predicate HasText(table: seq<Row>) {
    exists i, j :: 0 <= i < |table| && 0 <= j < |Scores(table[i])| && Scores(table[i])[j].Text?
  }

  /** The script's result: the selected rows, or the TypeError a text score
      raises. The input table is a value and stays as it was. */
  function FailingStudents(table: seq<Row>): (r: Result<seq<Row>>)
    ensures r.Err? <==> HasText(table)
  {
    if HasText(table) then Err(NotComparable) else Ok(Select(table))
  }

  /** A row is selected exactly when it is in the table with at least four
      fails. */
  lemma {:induction false} SelectMembers(table: seq<Row>, row: Row)
    ensures row in Select(table) <==> row in table && FailCount(Scores(row)) >= MinFails
    decreases |table|
  {
    if table != [] {
      SelectMembers(table[1..], row);
      assert row in table <==> row == table[0] || row in table[1..];
    }
  }

  /** Selection keeps the order of the rows: it splits over any split of
      the table. */
  lemma {:induction false} SelectAppend(a: seq<Row>, b: seq<Row>)
    ensures Select(a + b) == Select(a) + Select(b)
    decreases |a|
  {
    if a == [] {
      assert a + b == b;
    } else {
      var head := if Selected(a[0]) then [a[0]] else [];
      calc {
        Select(a + b);
      == { assert (a + b)[0] == a[0] && (a + b)[1..] == a[1..] + b; }
        head + Select(a[1..] + b);
      == { SelectAppend(a[1..], b); }
        head + (Select(a[1..]) + Select(b));
      ==
        (head + Select(a[1..])) + Select(b);
      }
    }
  }

  /** The result has no more rows than the table. */
  lemma {:induction false} SelectShrinks(table: seq<Row>)
    ensures |Select(table)| <= |table|
    decreases |table|
  {
    if table != [] {
      SelectShrinks(table[1..]);
    }
  }
}

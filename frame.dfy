/** A pandas DataFrame as the stages see it: a header of column names and rows that map a
    column name to a cell, where a cell is a string or missing (NaN). Also the bookkeeping
    that the row passes share: counting rows and deciding where a rate-limit pause falls. */
module Frame {

  datatype Option<+T> = None | Some(value: T)

  /** One cell; `None` is pandas' NaN (an empty field in the CSV, or no such column). */
  type Cell = Option<string>

  /** One row, keyed by column name. */
  type Row = map<string, Cell>

  /** `row[col]`, where a column the row lacks reads as NaN. */
  function CellOf(row: Row, col: string): Cell {
    if col in row then row[col] else None
  }

  /** `df.loc[i, col] if col in df.columns else default`. */
  function Field(columns: seq<string>, row: Row, col: string, default: Cell): Cell {
    if col in columns then CellOf(row, col) else default
  }

  /** `x and not pd.isna(x)`: the cell holds a non-empty string. Its negation is
      `pd.isna(x) or x == ""`. */
  predicate Present(c: Cell) {
    c.Some? && c.value != ""
  }

  /** The header after `df[col] = ...` (a new column goes last). */
  function WithColumn(columns: seq<string>, col: string): (header: seq<string>)
    ensures col in header
    ensures forall c :: c in columns ==> c in header
    ensures |header| == |columns| + (if col in columns then 0 else 1)
  {
    if col in columns then columns else columns + [col]
  }

  /** `df[col] = ""`: every row's cell in `col` becomes the empty string. */
  function ClearColumn(rows: seq<Row>, col: string): (cleared: seq<Row>)
    ensures |cleared| == |rows|
    ensures forall i :: 0 <= i < |rows| ==> cleared[i] == rows[i][col := Some("")]
  {
    seq(|rows|, i requires 0 <= i < |rows| => rows[i][col := Some("")])
  }

  /** A prefix one longer is the prefix followed by the next element. */
  lemma PrefixNext<T>(s: seq<T>, i: nat)
    requires i < |s|
    ensures s[..i + 1] == s[..i] + [s[i]]
  {
  }

  /** How many rows have a blank (`isna` or `""`) cell in `col`. */
  function CountBlank(rows: seq<Row>, col: string): (n: nat)
    ensures n <= |rows|
  {
    if rows == [] then 0
    else CountBlank(rows[..|rows| - 1], col) + (if Present(CellOf(rows[|rows| - 1], col)) then 0 else 1)
  }

  /** Counting one more row adds one exactly when that row's cell is blank. */
  lemma CountBlankNext(rows: seq<Row>, col: string, i: nat)
    requires i < |rows|
    ensures CountBlank(rows[..i + 1], col) == CountBlank(rows[..i], col) + (if Present(CellOf(rows[i], col)) then 0 else 1)
  {
    assert rows[..i + 1][..i] == rows[..i];
  }

  /** The counter values at which a pass that pauses when `count % every == 0 and
      count < pending` has paused once `done` items are finished, in order. */
  function PausePoints(done: nat, pending: nat, every: int): (points: seq<nat>)
    requires every != 0
    ensures |points| <= done
  {
    if done == 0 then []
    else PausePoints(done - 1, pending, every) + (if done % every == 0 && done < pending then [done] else [])
  }

  /** A pause falls at counter value `k` exactly when `k` is a finished item count that is a
      multiple of `every` and is short of `pending`; the points are strictly increasing. */
  lemma {:induction false} PausePointsSpec(done: nat, pending: nat, every: int)
    requires every != 0
    ensures forall k :: k in PausePoints(done, pending, every) <==> 1 <= k <= done && k % every == 0 && k < pending
    ensures forall i, j :: 0 <= i < j < |PausePoints(done, pending, every)| ==>
      PausePoints(done, pending, every)[i] < PausePoints(done, pending, every)[j]
  {
    if done > 0 {
      PausePointsSpec(done - 1, pending, every);
      var before := PausePoints(done - 1, pending, every);
      forall i | 0 <= i < |before| ensures before[i] < done {
        assert before[i] in before;
      }
    }
  }

  /** Once every pending item is finished no pause comes after the last one. */
  lemma NoPauseAfterLast(pending: nat, every: int)
    requires every != 0
    ensures pending !in PausePoints(pending, pending, every)
    ensures forall k :: k in PausePoints(pending, pending, every) ==> k < pending
  {
    PausePointsSpec(pending, pending, every);
  }

  /** The row counts `k` in 1..`done` that are multiples of `every`, in order. */
  function Multiples(done: nat, every: nat): (points: seq<nat>)
    requires every > 0
    ensures |points| <= done
  {
    if done == 0 then []
    else Multiples(done - 1, every) + (if done % every == 0 then [done] else [])
  }

  lemma {:induction false} MultiplesSpec(done: nat, every: nat)
    requires every > 0
    ensures forall k :: k in Multiples(done, every) <==> 1 <= k <= done && k % every == 0
  {
    if done > 0 {
      MultiplesSpec(done - 1, every);
    }
  }
}

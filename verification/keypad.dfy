/** Key detection of the 4x4 matrix keypad driver (KeyPad::getKey).

    Every read of the column lines is replaced by a sample supplied by the
    caller: the detection sample taken with all rows driven, the sample each
    row probe would see, and the samples the debounce reads would see. The
    method reports how many of the row and debounce samples it consumed. */
module KeyPad {
  import opened Nibbles

  /** An index of one of the four row lines. */
  type Row = r: nat | r < 4

  /** The key characters of the keypad, indexed [column][row], as the
      driver's keypadValues member. */
  type KeyTable = t: seq<seq<char>> | |t| == 4 && forall c :: 0 <= c < 4 ==> |t[c]| == 4
    witness ["\0\0\0\0", "\0\0\0\0", "\0\0\0\0", "\0\0\0\0"]

  datatype Option<T> = None | Some(value: T)

  /** Number of rows probed by the row scan. */
  const RowCount := 4

  /** Largest number of reads the debounce loop makes (debounceDelay). */
  const DebounceDelay := 20

  /** The numeric 0 character: returned when the detection read finds no
      column low, the debounce loop's initial previous key, and the key of a
      sample that is not exactly one column low. */
  const NoKey: char := '\0'

  /** The character '0': returned when no row probe finds a column low. */
  const NoRowKey: char := '0'

  /** The column decode chain: the column whose line alone reads low. */
  function DecodeColumn(col: Nibble): (c: Option<Column>)
    ensures c.Some? <==> LowCount(col) == 1
    ensures c.Some? ==> IsLow(col, c.value)
  {
    if col == 0xE then Some(0)
    else if col == 0xD then Some(1)
    else if col == 0xB then Some(2)
    else if col == 0x7 then Some(3)
    else None
  }

  /** The key one debounce sample denotes on the given row. */
  function KeyOf(table: KeyTable, row: Row, col: Nibble): (k: char)
    ensures forall c: Column :: LowCount(col) == 1 && IsLow(col, c) ==> k == table[c][row]
    ensures LowCount(col) != 1 ==> k == NoKey
  {
    match DecodeColumn(col)
    case Some(c) => table[c][row]
    case None => NoKey
  }

  /** Index of the first row sample with a column low; |samples| when none has. */
  function FirstActiveRow(samples: seq<Nibble>): (r: nat)
    ensures r <= |samples|
    ensures forall i :: 0 <= i < r ==> samples[i] == AllHigh
    ensures r < |samples| ==> LowCount(samples[r]) > 0
  {
    if samples == [] then 0
    else if samples[0] != AllHigh then 0
    else 1 + FirstActiveRow(samples[1..])
  }

  /** The debounce loop from read i on, with prev the key decoded by the
      read before it: the key it returns and the number of reads made. */
  function DebounceFrom(table: KeyTable, row: Row, samples: seq<Nibble>, i: nat, prev: char): (r: (char, nat))
    requires i < |samples|
    ensures i < r.1 <= |samples|
    decreases |samples| - i
  {
    var current := KeyOf(table, row, samples[i]);
    if current == prev || i + 1 == |samples| then (current, i + 1)
    else DebounceFrom(table, row, samples, i + 1, current)
  }

  /** The whole debounce loop over the given samples, starting from prevKey = 0. */
  function Debounce(table: KeyTable, row: Row, samples: seq<Nibble>): (r: (char, nat))
    requires |samples| > 0
    ensures 1 <= r.1 <= |samples|
  {
    DebounceFrom(table, row, samples, 0, NoKey)
  }

  /** What one call of getKey returns, and how many row and debounce
      samples it reads. */
  datatype Reading = Reading(key: char, rowsProbed: nat, debounceReads: nat)

  /** The reference definition of getKey over its samples. */
  function ScanKey(table: KeyTable, detect: Nibble, rowSamples: seq<Nibble>, debounceSamples: seq<Nibble>): (r: Reading)
    requires |rowSamples| == RowCount && |debounceSamples| == DebounceDelay
    ensures r.rowsProbed <= RowCount && r.debounceReads <= DebounceDelay
  {
    if detect == AllHigh then Reading(NoKey, 0, 0)
    else
      var row := FirstActiveRow(rowSamples);
      if row == RowCount then Reading(NoRowKey, RowCount, 0)
      else
        var (key, count) := Debounce(table, row, debounceSamples);
        Reading(key, row + 1, count)
  }

  /** getKey: detection read, row scan, then debounce reads decoded against the row found. */
  method GetKey(table: KeyTable, detect: Nibble, rowSamples: seq<Nibble>, debounceSamples: seq<Nibble>)
    returns (key: char, rowsProbed: nat, debounceReads: nat)
    requires |rowSamples| == RowCount && |debounceSamples| == DebounceDelay
    ensures Reading(key, rowsProbed, debounceReads) == ScanKey(table, detect, rowSamples, debounceSamples)
    ensures detect == AllHigh ==> key == NoKey && rowsProbed == 0 && debounceReads == 0
    ensures rowsProbed <= RowCount && debounceReads <= DebounceDelay
  {
    var col := detect;
    if col == AllHigh {
      return NoKey, 0, 0;
    }

    var row := 0;
    while row < RowCount
      invariant 0 <= row <= RowCount
      invariant forall i :: 0 <= i < row ==> rowSamples[i] == AllHigh
    {
      col := rowSamples[row];
      if col != AllHigh {
        break;
      }
      row := row + 1;
    }
    assert row == FirstActiveRow(rowSamples) by {
      FirstActiveRowIsFirst(rowSamples, row);
    }
    if row == RowCount {
      return NoRowKey, RowCount, 0;
    }

    var prevKey := NoKey;
    var currentKey := NoKey;
    var i := 0;
    while i < DebounceDelay
      invariant 0 <= i <= DebounceDelay
      invariant i < DebounceDelay ==>
        DebounceFrom(table, row, debounceSamples, i, prevKey) == Debounce(table, row, debounceSamples)
      invariant i == DebounceDelay ==> (currentKey, DebounceDelay) == Debounce(table, row, debounceSamples)
    {
      col := debounceSamples[i];
      currentKey := KeyOf(table, row, col);
      if currentKey == prevKey {
        break;
      }
      prevKey := currentKey;
      i := i + 1;
    }
    key, rowsProbed := currentKey, row + 1;
    debounceReads := if i == DebounceDelay then DebounceDelay else i + 1;
  }

  /** A row index with every earlier sample high and its own sample not high
      (or the end of the samples) is the one FirstActiveRow finds. */
  lemma FirstActiveRowIsFirst(samples: seq<Nibble>, row: nat)
    requires row <= |samples|
    requires forall i :: 0 <= i < row ==> samples[i] == AllHigh
    requires row < |samples| ==> samples[row] != AllHigh
    ensures FirstActiveRow(samples) == row
  {
  }
}

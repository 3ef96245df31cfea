/** What getKey's outcome is, stated over its samples. */
module KeyPadProperties {
  import opened Nibbles
  import opened KeyPad

  /** A sample with column c alone low (0xE, 0xD, 0xB, 0x7 for columns 0 to 3)
      denotes the table's entry in column c of the row. */
  lemma KeyOfOneLow(table: KeyTable, row: Row, c: Column)
    ensures KeyOf(table, row, AllHigh - Weight(c)) == table[c][row]
  {
  }

  /** The key decoded by debounce read j. */
  function Decoded(table: KeyTable, row: Row, samples: seq<Nibble>, j: nat): char
    requires j < |samples|
  {
    KeyOf(table, row, samples[j])
  }

  /** The previous key debounce read j is compared with: 0 before the first read. */
  function Previous(table: KeyTable, row: Row, samples: seq<Nibble>, j: nat): char
    requires j < |samples|
  {
    if j == 0 then NoKey else Decoded(table, row, samples, j - 1)
  }

  /** Debounce read j agrees with the read before it, which ends the loop. */
  predicate Settles(table: KeyTable, row: Row, samples: seq<Nibble>, j: nat)
    requires j < |samples|
  {
    Decoded(table, row, samples, j) == Previous(table, row, samples, j)
  }

  /** From read i on, with the previous key as the loop holds it, the loop stops
      at the first read that settles or at the last read, and returns its key. */
  lemma {:induction false} DebounceFromSettles(table: KeyTable, row: Row, samples: seq<Nibble>, i: nat)
    requires i < |samples|
    ensures var (key, n) := DebounceFrom(table, row, samples, i, Previous(table, row, samples, i));
      && i < n <= |samples|
      && (forall j :: i <= j < n - 1 ==> !Settles(table, row, samples, j))
      && (n < |samples| ==> Settles(table, row, samples, n - 1))
      && key == Decoded(table, row, samples, n - 1)
    decreases |samples| - i
  {
    var current := KeyOf(table, row, samples[i]);
    if current != Previous(table, row, samples, i) && i + 1 < |samples| {
      assert Previous(table, row, samples, i + 1) == current;
      DebounceFromSettles(table, row, samples, i + 1);
    }
  }

  /** The debounce loop makes between 1 and |samples| reads, stops at the
      first read whose key equals the previous one (0 before the first read),
      and returns the key of its last read. */
  lemma DebounceSettlesAtFirstRepeat(table: KeyTable, row: Row, samples: seq<Nibble>)
    requires |samples| > 0
    ensures var (key, n) := Debounce(table, row, samples);
      && 1 <= n <= |samples|
      && (forall j :: 0 <= j < n - 1 ==> !Settles(table, row, samples, j))
      && (n < |samples| ==> Settles(table, row, samples, n - 1))
      && key == Decoded(table, row, samples, n - 1)
  {
    DebounceFromSettles(table, row, samples, 0);
  }

  /** A first debounce read that decodes to 0 ends the loop at once with 0. */
  lemma DebounceReleasedAtFirstRead(table: KeyTable, row: Row, samples: seq<Nibble>)
    requires |samples| > 0 && Decoded(table, row, samples, 0) == NoKey
    ensures Debounce(table, row, samples) == (NoKey, 1)
  {
  }

  /** A key held steady is returned after two reads, not after debounceDelay reads. */
  lemma DebounceStableAfterTwoReads(table: KeyTable, row: Row, samples: seq<Nibble>)
    requires |samples| >= 2
    requires Decoded(table, row, samples, 0) != NoKey
    requires Decoded(table, row, samples, 1) == Decoded(table, row, samples, 0)
    ensures Debounce(table, row, samples) == (Decoded(table, row, samples, 0), 2)
  {
    DebounceSettlesAtFirstRepeat(table, row, samples);
    assert !Settles(table, row, samples, 0) && Settles(table, row, samples, 1);
  }

  /** When no read agrees with the one before it, every read is made and the
      key of the last one is returned. */
  lemma DebounceExhausted(table: KeyTable, row: Row, samples: seq<Nibble>)
    requires |samples| > 0
    requires forall j :: 0 <= j < |samples| - 1 ==> !Settles(table, row, samples, j)
    ensures Debounce(table, row, samples) == (Decoded(table, row, samples, |samples| - 1), |samples|)
  {
    DebounceSettlesAtFirstRepeat(table, row, samples);
  }

  /** From read i on, samples after the last read made do not change the outcome. */
  lemma {:induction false} DebounceFromIgnoresLaterReads(table: KeyTable, row: Row, s: seq<Nibble>, t: seq<Nibble>, i: nat, prev: char)
    requires i < |s| == |t|
    requires var n := DebounceFrom(table, row, s, i, prev).1; s[..n] == t[..n]
    ensures DebounceFrom(table, row, s, i, prev) == DebounceFrom(table, row, t, i, prev)
    decreases |s| - i
  {
    var n := DebounceFrom(table, row, s, i, prev).1;
    assert s[i] == s[..n][i] == t[..n][i] == t[i];
    var current := KeyOf(table, row, s[i]);
    if current != prev && i + 1 < |s| {
      DebounceFromIgnoresLaterReads(table, row, s, t, i + 1, current);
    }
  }

  /** The debounce outcome depends only on the reads it makes. */
  lemma DebounceIgnoresUnreadSamples(table: KeyTable, row: Row, s: seq<Nibble>, t: seq<Nibble>)
    requires 0 < |s| == |t|
    requires var n := Debounce(table, row, s).1; s[..n] == t[..n]
    ensures Debounce(table, row, s) == Debounce(table, row, t)
  {
    DebounceFromIgnoresLaterReads(table, row, s, t, 0, NoKey);
  }

  /** Rows after the first active row, which are never probed, do not change it. */
  lemma FirstActiveRowIgnoresLaterRows(s: seq<Nibble>, t: seq<Nibble>)
    requires |s| == |t|
    requires FirstActiveRow(s) < |s|
    requires s[..FirstActiveRow(s) + 1] == t[..FirstActiveRow(s) + 1]
    ensures FirstActiveRow(t) == FirstActiveRow(s)
  {
  }

  /** Samples getKey does not read do not change what it returns: none at
      all when the detection read finds no column low, no row after the first
      row with a column low, and no debounce read after the one that ends the
      loop. */
  lemma ScanKeyIgnoresUnreadSamples(table: KeyTable, detect: Nibble,
                                    rows: seq<Nibble>, rows': seq<Nibble>,
                                    samples: seq<Nibble>, samples': seq<Nibble>)
    requires |rows| == |rows'| == RowCount && |samples| == |samples'| == DebounceDelay
    requires var r := ScanKey(table, detect, rows, samples);
      rows[..r.rowsProbed] == rows'[..r.rowsProbed] && samples[..r.debounceReads] == samples'[..r.debounceReads]
    ensures ScanKey(table, detect, rows, samples) == ScanKey(table, detect, rows', samples')
  {
    if detect != AllHigh {
      var row := FirstActiveRow(rows);
      if row < RowCount {
        FirstActiveRowIgnoresLaterRows(rows, rows');
        DebounceIgnoresUnreadSamples(table, row, samples, samples');
      } else {
        assert rows == rows[..RowCount] == rows'[..RowCount] == rows';
      }
    }
  }

  /** getKey returns 0 without further reads when the detection read finds
      no column low; '0' after four probes when no row probe finds one;
      otherwise, having probed up to and including the first row with a
      column low, the key of its last debounce read on that row: 0 or the
      table's entry for that row in one column. */
  lemma ScanKeyOutcome(table: KeyTable, detect: Nibble, rows: seq<Nibble>, samples: seq<Nibble>)
    requires |rows| == RowCount && |samples| == DebounceDelay
    ensures var r := ScanKey(table, detect, rows, samples);
      && (detect == AllHigh ==> r == Reading(NoKey, 0, 0))
      && (detect != AllHigh && (forall i :: 0 <= i < RowCount ==> rows[i] == AllHigh) ==>
            r == Reading(NoRowKey, RowCount, 0))
      && (detect != AllHigh && (exists i :: 0 <= i < RowCount && rows[i] != AllHigh) ==>
            && 1 <= r.rowsProbed <= RowCount
            && rows[r.rowsProbed - 1] != AllHigh
            && (forall i :: 0 <= i < r.rowsProbed - 1 ==> rows[i] == AllHigh)
            && 1 <= r.debounceReads <= DebounceDelay
            && (r.key == NoKey || exists c: Column :: r.key == table[c][r.rowsProbed - 1]))
  {
    if detect != AllHigh {
      var row := FirstActiveRow(rows);
      if row < RowCount {
        DebounceSettlesAtFirstRepeat(table, row, samples);
        var n := Debounce(table, row, samples).1;
        var d := DecodeColumn(samples[n - 1]);
        if d.Some? {
          assert ScanKey(table, detect, rows, samples).key == table[d.value][row];
        }
      }
    }
  }
}

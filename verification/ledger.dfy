/**
 * The reply ledger `replied_senders.csv`, modelled as its rows: `None` when the
 * file does not exist, `Some(rows)` otherwise. CSV quoting is not modelled.
 */
module Ledger {
  import opened Wrappers

  type Row = seq<string>

  /** The header written when the file is created. */
  const HeaderRow: Row := ["sender_email", "timestamp", "character_used", "fallback_used"]

  /** The `fallback_used` column. */
  function FallbackField(usedFallback: bool): (f: string)
    ensures f == "Yes" <==> usedFallback
    ensures f == "Yes" || f == "No"
  {
    if usedFallback then "Yes" else "No"
  }

  /** The row appended for one reply. */
  function ReplyRow(sender: string, timestamp: string, character: string, usedFallback: bool): Row
  {
    [sender, timestamp, character, FallbackField(usedFallback)]
  }

  /** The rows of the file; a missing file has none. */
  function RowsOf(store: Option<seq<Row>>): seq<Row>
  {
    if store.None? then [] else store.value
  }

  /** The first field of every non-empty row in `rows`. */
  function FirstFields(rows: seq<Row>): set<string>
  {
    set i | 0 <= i < |rows| && rows[i] != [] :: rows[i][0]
  }

  /**
   * `load_replied_senders`: a missing file is the empty set; otherwise the first
   * row is skipped as the header and every non-empty row contributes its first field.
   */
  function Load(store: Option<seq<Row>>): (senders: set<string>)
    ensures |RowsOf(store)| <= 1 ==> senders == {}
  {
    if store.None? || store.value == [] then {} else FirstFields(store.value[1..])
  }

  /** `save_replied_sender`: the file after one append (a header first when it did not exist). */
  function Appended(store: Option<seq<Row>>, row: Row): seq<Row>
  {
    (if store.None? then [HeaderRow] else store.value) + [row]
  }

  /** The file after a sequence of saves, in order. */
  function Replay(store: Option<seq<Row>>, rows: seq<Row>): Option<seq<Row>>
    decreases |rows|
  {
    if rows == [] then store else Replay(Some(Appended(store, rows[0])), rows[1..])
  }

  lemma FirstFieldsAppend(rows: seq<Row>, row: Row)
    ensures FirstFields(rows + [row]) == FirstFields(rows) + (if row == [] then {} else {row[0]})
  {
    var all := rows + [row];
    forall x | x in FirstFields(all) ensures x in FirstFields(rows) + (if row == [] then {} else {row[0]}) {
      var i :| 0 <= i < |all| && all[i] != [] && all[i][0] == x;
      if i < |rows| { assert rows[i] == all[i]; }
    }
    forall x | x in FirstFields(rows) ensures x in FirstFields(all) {
      var i :| 0 <= i < |rows| && rows[i] != [] && rows[i][0] == x;
      assert all[i] == rows[i];
    }
    if row != [] {
      assert all[|rows|] == row;
    }
  }

  /**
   * Save-then-load: the saved sender is loaded back, and nothing else is added,
   * except when the file exists but is empty: then the saved row is read back as
   * the header and the sender is lost.
   */
  lemma LoadAfterSave(store: Option<seq<Row>>, row: Row)
    requires row != []
    ensures store != Some([]) ==> Load(Some(Appended(store, row))) == Load(store) + {row[0]}
    ensures store == Some([]) ==> Load(Some(Appended(store, row))) == {}
  {
    var rows := Appended(store, row);
    if store.None? {
      assert rows[1..] == [] + [row];
      FirstFieldsAppend([], row);
    } else if store.value != [] {
      assert rows[1..] == store.value[1..] + [row];
      FirstFieldsAppend(store.value[1..], row);
    }
  }

  /** Starting from a missing file, the header is written exactly once, before all the rows. */
  lemma {:induction false} HeaderWrittenOnce(rows: seq<Row>)
    requires rows != []
    ensures Replay(None, rows) == Some([HeaderRow] + rows)
  {
    assert Appended(None, rows[0]) == [HeaderRow, rows[0]];
    ReplayAppends([HeaderRow, rows[0]], rows[1..]);
    assert [HeaderRow, rows[0]] + rows[1..] == [HeaderRow] + rows;
  }

  /** Saving to an existing file only appends, one row per save, with no header. */
  lemma {:induction false} ReplayAppends(existing: seq<Row>, rows: seq<Row>)
    ensures Replay(Some(existing), rows) == Some(existing + rows)
    decreases |rows|
  {
    if rows != [] {
      assert Appended(Some(existing), rows[0]) == existing + [rows[0]];
      ReplayAppends(existing + [rows[0]], rows[1..]);
      assert existing + [rows[0]] + rows[1..] == existing + rows;
    } else {
      assert existing + rows == existing;
    }
  }

  /** Reloading a file written from scratch yields exactly the saved senders. */
  lemma ReloadFromScratch(rows: seq<Row>)
    ensures Load(Replay(None, rows)) == FirstFields(rows)
  {
    if rows != [] {
      HeaderWrittenOnce(rows);
      assert ([HeaderRow] + rows)[1..] == rows;
    }
  }
}

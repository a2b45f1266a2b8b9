/**
 * The editor popup: the rows of key/value inputs, rendering stored data into rows,
 * collecting rows back into data, adding and removing rows, and the server status.
 */
module Popup {
  import opened Wrappers
  import opened Text
  import opened Types

  /** One field row: the current contents of its key input and its value input. */
  datatype Row = Row(key: string, value: string)

  /** `createFieldRow(key, value)`: a row whose inputs hold `key` and `value`. */
  function FieldRow(key: string, value: string): (r: Row)
    ensures r.key == key && r.value == value
  {
    Row(key, value)
  }

  /** One row per entry, in entry order, carrying that entry's key and value. */
  function EntryRows(data: UserData): (rows: seq<Row>)
    ensures |rows| == |data|
    ensures forall i :: 0 <= i < |data| ==> rows[i] == FieldRow(data[i].0, data[i].1)
    decreases |data|
  {
    if data == [] then []
    else
      var init := data[..|data| - 1];
      assert forall i :: 0 <= i < |init| ==> init[i] == data[i];
      EntryRows(init) + [FieldRow(data[|data| - 1].0, data[|data| - 1].1)]
  }

  /** The rows `renderFields` produces: one empty row for empty data, else one row per entry. */
  function RenderedRows(data: UserData): (rows: seq<Row>)
    ensures data == [] ==> rows == [FieldRow("", "")]
    ensures data != [] ==> rows == EntryRows(data)
  {
    if data == [] then [FieldRow("", "")] else EntryRows(data)
  }

  /** A row contributes when its trimmed key and trimmed value are both non-empty. */
  predicate Contributes(r: Row) {
    Trim(r.key) != "" && Trim(r.value) != ""
  }

  /** `collectFields` over `rows`: each contributing row sets its trimmed key to its trimmed value, in row order. */
  function Collected(rows: seq<Row>): (data: UserData)
    ensures DistinctKeys(data)
    decreases |rows|
  {
    if rows == [] then []
    else
      var init := Collected(rows[..|rows| - 1]);
      var r := rows[|rows| - 1];
      if Contributes(r) then Put(init, Trim(r.key), Trim(r.value)) else init
  }

  /** The row, when collected, sets key `k`. */
  predicate SetsKey(r: Row, k: string) {
    Contributes(r) && Trim(r.key) == k
  }

  /** What one row does to the collected data, seen through one key. */
  lemma CollectRowLookup(rows: seq<Row>, k: string)
    requires rows != []
    ensures var r := rows[|rows| - 1];
            Lookup(Collected(rows), k) ==
              if SetsKey(r, k) then Some(Trim(r.value)) else Lookup(Collected(rows[..|rows| - 1]), k)
  {
  }

  /** A property of every element of a non-empty sequence is one of every element but the last, and of the last. */
  lemma ForallSnoc<T>(s: seq<T>, init: seq<T>, P: T -> bool)
    requires s != [] && init == s[..|s| - 1]
    ensures (forall i :: 0 <= i < |s| ==> P(s[i])) <==>
            (forall i :: 0 <= i < |init| ==> P(init[i])) && P(s[|s| - 1])
  {
    assert forall i :: 0 <= i < |init| ==> init[i] == s[i];
  }

  /** A key is collected exactly when some contributing row has it as its trimmed key. */
  lemma {:induction false} CollectedHasKey(rows: seq<Row>, k: string)
    ensures Lookup(Collected(rows), k).None? <==> forall i :: 0 <= i < |rows| ==> !SetsKey(rows[i], k)
    decreases |rows|
  {
    if rows != [] {
      CollectedHasKey(rows[..|rows| - 1], k);
      CollectRowLookup(rows, k);
      ForallSnoc(rows, rows[..|rows| - 1], q => !SetsKey(q, k));
    }
  }

  /** A key's collected value is the trimmed value of the last contributing row with that trimmed key: later rows overwrite. */
  lemma {:induction false} CollectedLastRow(rows: seq<Row>, k: string, i: nat)
    requires i < |rows| && SetsKey(rows[i], k)
    requires forall j :: i < j < |rows| ==> !SetsKey(rows[j], k)
    ensures Lookup(Collected(rows), k) == Some(Trim(rows[i].value))
    decreases |rows|
  {
    var init := rows[..|rows| - 1];
    CollectRowLookup(rows, k);
    if i < |rows| - 1 {
      assert init[i] == rows[i];
      assert forall j :: i < j < |init| ==> init[j] == rows[j];
      CollectedLastRow(init, k, i);
    }
  }

  /** An entry the editor can hold as is: key and value trimmed and non-empty. */
  predicate Tidy(e: (string, string)) {
    e.0 != "" && IsTrimmed(e.0) && e.1 != "" && IsTrimmed(e.1)
  }

  /** Every collected key and value is trimmed and non-empty. */
  lemma {:induction false} CollectedTrimmed(rows: seq<Row>)
    ensures forall i :: 0 <= i < |Collected(rows)| ==> Tidy(Collected(rows)[i])
    decreases |rows|
  {
    if rows != [] {
      var init := rows[..|rows| - 1];
      var r := rows[|rows| - 1];
      CollectedTrimmed(init);
      if Contributes(r) {
        PutEntries(Collected(init), Trim(r.key), Trim(r.value));
      }
    }
  }

  /** Data that the editor can hold as is: no repeated key, and every key and value trimmed and non-empty. */
  predicate Clean(data: UserData) {
    DistinctKeys(data) && forall i :: 0 <= i < |data| ==> Tidy(data[i])
  }

  /** Without its last entry, clean data is still clean, and does not hold the last key. */
  lemma CleanInit(data: UserData)
    requires Clean(data) && data != []
    ensures Clean(data[..|data| - 1])
    ensures Lookup(data[..|data| - 1], data[|data| - 1].0).None?
  {
    var init := data[..|data| - 1];
    assert forall i :: 0 <= i < |init| ==> init[i] == data[i];
  }

  /** The entry rows of data are those of all its entries but the last, then the last one's row. */
  lemma EntryRowsSnoc(data: UserData)
    requires data != []
    ensures var rows := EntryRows(data);
            rows[..|rows| - 1] == EntryRows(data[..|data| - 1]) &&
            rows[|rows| - 1] == Row(data[|data| - 1].0, data[|data| - 1].1)
  {
  }

  /** Collecting the entry rows of clean data gives the data. */
  lemma {:induction false} CollectEntryRows(data: UserData)
    requires Clean(data)
    ensures Collected(EntryRows(data)) == data
    decreases |data|
  {
    if data != [] {
      var init := data[..|data| - 1];
      var last := data[|data| - 1];
      CleanInit(data);
      CollectEntryRows(init);
      EntryRowsSnoc(data);
      TrimTrimmed(last.0);
      TrimTrimmed(last.1);
      assert data == init + [last];
    }
  }

  /** Round trip: collecting right after rendering clean data gives the same data. */
  lemma CollectAfterRender(data: UserData)
    requires Clean(data)
    ensures Collected(RenderedRows(data)) == data
  {
    if data != [] {
      CollectEntryRows(data);
    } else {
      assert [FieldRow("", "")][..0] == [];
      assert !Contributes(FieldRow("", ""));
    }
  }

  /** Whatever the rows, what they collect to renders and collects back to itself. */
  lemma CollectedIsClean(rows: seq<Row>)
    ensures Clean(Collected(rows))
  {
    CollectedTrimmed(rows);
  }

  /** `online ? "online" : "offline"`, the status response missing or without `online` counting as offline. */
  function StatusText(response: Option<bool>): (t: string)
    ensures t == "online" <==> response == Some(true)
    ensures t == "offline" <==> response != Some(true)
  {
    if response.GetOr(false) then "online" else "offline"
  }

  /** The editor: the rows of its fields container, top to bottom. */
  class Editor {
    var rows: seq<Row>

    constructor ()
      ensures rows == []
    {
      rows := [];
    }

    /** `renderFields`: clear the container, then append the rendered rows. */
    method RenderFields(data: UserData)
      modifies this
      ensures rows == RenderedRows(data)
    {
      rows := [];
      if |data| == 0 {
        rows := rows + [FieldRow("", "")];
      } else {
        for i := 0 to |data|
          invariant rows == EntryRows(data[..i])
        {
          assert data[..i + 1][..i] == data[..i];
          rows := rows + [FieldRow(data[i].0, data[i].1)];
        }
        assert data[..|data|] == data;
      }
    }

    /** `collectFields`: go through the rows in order, setting each contributing row's trimmed key. */
    method CollectFields() returns (data: UserData)
      ensures data == Collected(rows)
    {
      data := [];
      for i := 0 to |rows|
        invariant data == Collected(rows[..i])
      {
        assert rows[..i + 1][..i] == rows[..i];
        var key := Trim(rows[i].key);
        var value := Trim(rows[i].value);
        if key != "" && value != "" {
          data := Put(data, key, value);
        }
      }
      assert rows[..|rows|] == rows;
    }

    /** The add button: one empty row at the end. */
    method AddRow()
      modifies this
      ensures rows == old(rows) + [FieldRow("", "")]
    {
      rows := rows + [FieldRow("", "")];
    }

    /** A row's remove button: that row goes, every other row stays in order. */
    method RemoveRow(i: nat)
      requires i < |rows|
      modifies this
      ensures |rows| == |old(rows)| - 1
      ensures forall j :: 0 <= j < i ==> rows[j] == old(rows)[j]
      ensures forall j :: i <= j < |rows| ==> rows[j] == old(rows)[j + 1]
    {
      rows := rows[..i] + rows[i + 1..];
    }

    /** The user types into row `i`. */
    method EditRow(i: nat, key: string, value: string)
      requires i < |rows|
      modifies this
      ensures rows == old(rows)[i := Row(key, value)]
    {
      rows := rows[i := Row(key, value)];
    }
  }
}

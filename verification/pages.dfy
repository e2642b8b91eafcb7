/**
 The list of target pages (`target_pages` in scripts/mymodule.py).

 Each row of the settings table is a sequence of cells: the page title, its
 URL, and a flag cell. A row is kept when its flag cell evaluates to a true
 value; the kept rows yield their sanitised title, or the pair of sanitised
 title and untouched URL when the caller asks for URLs.

 Reading the CSV file and Python's `ast.literal_eval` are outside the model:
 the rows are an input sequence, and "this flag cell is true" is the
 parameter `truthy`.
 */
module PageList {
  import opened TitleSanitiser

  /** One row of the settings table, cell by cell. */
  type Row = seq<string>

  /** One element of the returned list: a title alone, or a title with its URL. */
  datatype Entry = Title(title: string) | TitleAndUrl(title: string, url: string)

  /**
   The returned list, or the `IndexError` Python raises on the first row that
   has no flag cell (the flag, `row[2]`, is read before anything else).
   */
  datatype Outcome = Pages(entries: seq<Entry>) | ShortRow(index: nat)

  /** A row with a title, a URL and a flag cell. */
  predicate HasFlag(row: Row) {
    |row| >= 3
  }

  predicate AllHaveFlags(rows: seq<Row>) {
    forall i :: 0 <= i < |rows| ==> HasFlag(rows[i])
  }

  /** What one kept row contributes to the list. */
  function EntryOf(row: Row, needUrl: bool): (e: Entry)
    requires HasFlag(row)
    ensures e.title == ModifyTitle(row[0])
    ensures needUrl <==> e.TitleAndUrl?
    ensures needUrl ==> e.url == row[1]
  {
    if needUrl then TitleAndUrl(ModifyTitle(row[0]), row[1]) else Title(ModifyTitle(row[0]))
  }

  /** Strictly increasing: a sequence of positions that keeps the input order. */
  predicate Increasing(idx: seq<nat>) {
    forall j, k :: 0 <= j < k < |idx| ==> idx[j] < idx[k]
  }

  /** Positions of the rows whose flag is true, in input order. */
  function Selected(rows: seq<Row>, truthy: string -> bool): (idx: seq<nat>)
    requires AllHaveFlags(rows)
    ensures Increasing(idx)
    ensures forall k :: 0 <= k < |idx| ==> idx[k] < |rows|
    ensures forall i :: 0 <= i < |rows| ==> (i in idx <==> truthy(rows[i][2]))
  {
    if rows == [] then []
    else
      var last := |rows| - 1;
      Selected(rows[..last], truthy) + (if truthy(rows[last][2]) then [last] else [])
  }

  /**
   `target_pages(need_url)`: walks the rows in order, failing on the first row
   without a flag cell, and collects an entry for every row whose flag is true.
   */
  method TargetPages(rows: seq<Row>, truthy: string -> bool, needUrl: bool := false)
    returns (out: Outcome)
    ensures out.ShortRow? <==> !AllHaveFlags(rows)
    ensures out.ShortRow? ==>
              && out.index < |rows|
              && !HasFlag(rows[out.index])
              && AllHaveFlags(rows[..out.index])
    ensures out.Pages? ==>
              var idx := Selected(rows, truthy);
              && |out.entries| == |idx|
              && forall k :: 0 <= k < |idx| ==> out.entries[k] == EntryOf(rows[idx[k]], needUrl)
  {
    var entries: seq<Entry> := [];
    var i := 0;
    while i < |rows|
      invariant 0 <= i <= |rows|
      invariant AllHaveFlags(rows[..i])
      invariant |entries| == |Selected(rows[..i], truthy)|
      invariant forall k :: 0 <= k < |entries| ==>
                  var idx := Selected(rows[..i], truthy);
                  idx[k] < i && entries[k] == EntryOf(rows[idx[k]], needUrl)
    {
      var row := rows[i];
      if |row| < 3 {
        return ShortRow(i);
      }
      assert rows[..i + 1][..i] == rows[..i];
      if truthy(row[2]) {
        entries := entries + [EntryOf(row, needUrl)];
      }
      i := i + 1;
    }
    assert rows[..i] == rows;
    return Pages(entries);
  }
}

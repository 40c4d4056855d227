/** The older desktop app: its result list and the drag it starts. Its search
    engine is a parameter; each result carries a file name and a route. */
module ScriptApp {
  import opened Common
  import opened Strings
  import opened Paths

  /** One entry of the older engine's `search` output. */
  datatype ScriptHit = ScriptHit(filename: Option<string>, route: string)

  /** One list item: the caption shown and the route stored under `UserRole`. */
  datatype Row = Row(caption: Option<string>, route: string)

  /** The row shown for one result. */
  function RowFor(h: ScriptHit): (r: Row)
    ensures r.caption == h.filename && r.route == h.route
  {
    Row(h.filename, h.route)
  }

  const ScriptTopK: int := 10

  /** `do_search`: the raw query text, blank or not, is searched for ten results,
      and the list is rebuilt with one row per result in the returned order. */
  method DoSearch(search: (string, int) -> seq<ScriptHit>, text: string) returns (rows: seq<Row>)
    ensures |rows| == |search(text, ScriptTopK)|
    ensures forall i :: 0 <= i < |rows| ==>
      rows[i].caption == search(text, ScriptTopK)[i].filename && rows[i].route == search(text, ScriptTopK)[i].route
  {
    var results := search(text, ScriptTopK);
    rows := [];
    var i := 0;
    while i < |results|
      invariant 0 <= i <= |results|
      invariant |rows| == i
      invariant forall j :: 0 <= j < i ==> rows[j] == RowFor(results[j])
    {
      rows := rows + [RowFor(results[i])];
      i := i + 1;
    }
  }

  /** Dragging a row hands over the URL of its route: for a WSL route that
      contains no backslash, "file:///" followed by the drive-letter form with
      forward slashes. */
  lemma DragOfListedRow(search: (string, int) -> seq<ScriptHit>, text: string, rows: seq<Row>, i: nat)
    requires |rows| == |search(text, ScriptTopK)|
    requires forall j :: 0 <= j < |rows| ==> rows[j].route == search(text, ScriptTopK)[j].route
    requires i < |rows|
    requires StartsWith(rows[i].route, MntPrefix) && '\\' !in rows[i].route
    ensures DragUrl(rows[i].route) == "file:///" + WslToWindows(search(text, ScriptTopK)[i].route)
    ensures '\\' !in DragUrl(rows[i].route)
  {
    DragUrlUsesSlashForm(rows[i].route);
    SlashFormHasNoBackslash(rows[i].route);
  }
}

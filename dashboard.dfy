/** The browser dashboard (static/app.js): the controller state `tables`, `selected`,
    `polling` and the interval handle `pollId`, the operations that change it, and the
    two render functions. The DOM is reduced to the contents of the two panes it
    fills, the network to responses handed to the completion steps, and `setInterval`
    to a table of live timers. */
module Dashboard {
  import opened Wrappers
  import opened UriEncoding

  /** The poll period in milliseconds. */
  const RefreshMs: nat := 2000

  /** The row limit sent when the limit input is blank. */
  const DefaultLimit: string := "200"

  // ----- View model -----

  /** One button of the table picker, marked `active` for the selected table. */
  datatype TableButton = TableButton(name: string, active: bool)

  /** What the `tablesList` element shows. */
  datatype TablesPane = Loading | LoadError(message: string) | NoTables | Buttons(buttons: seq<TableButton>)

  /** A row record of the `/api/rows` answer; `content` and `created_at` may be null or
      absent. */
  datatype Row = Row(id: string, content: Option<string>, createdAt: Option<string>)

  /** The three cells rendered for one row. */
  datatype RowLine = RowLine(id: string, content: string, createdAt: string)

  /** What the `rowsBody` element shows: the page's own markup until the first render,
      the "No rows" placeholder, or one line per row. */
  datatype RowsPane = InitialRows | NoRows | Lines(lines: seq<RowLine>)

  /** JavaScript truthiness of the selection: null and the empty string are false. */
  predicate IsSet(selected: Option<string>) {
    selected.Some? && selected.value != ""
  }

  // ----- renderTables -----

  /** The buttons `renderTables` appends, one per table in order. */
  function ButtonsFor(tables: seq<string>, selected: Option<string>): seq<TableButton> {
    if tables == [] then []
    else
      var last := tables[|tables| - 1];
      ButtonsFor(tables[..|tables| - 1], selected) + [TableButton(last, selected == Some(last))]
  }

  /** The picker for a table list: "No tables found" when it is empty, buttons otherwise. */
  function TablesView(tables: seq<string>, selected: Option<string>): TablesPane {
    if |tables| == 0 then NoTables else Buttons(ButtonsFor(tables, selected))
  }

  /** Button `i` carries table `i` and is active exactly when that table is selected. */
  lemma {:induction false} ButtonsForAt(tables: seq<string>, selected: Option<string>)
    ensures |ButtonsFor(tables, selected)| == |tables|
    ensures forall i :: 0 <= i < |tables| ==>
              ButtonsFor(tables, selected)[i] == TableButton(tables[i], selected == Some(tables[i]))
  {
    if tables != [] {
      ButtonsForAt(tables[..|tables| - 1], selected);
    }
  }

  /** The number of buttons marked active. */
  function ActiveCount(buttons: seq<TableButton>): nat {
    if buttons == [] then 0
    else ActiveCount(buttons[..|buttons| - 1]) + (if buttons[|buttons| - 1].active then 1 else 0)
  }

  /** As many buttons are active as the selected name occurs in the list: none without a
      selection, exactly one when the selection occurs once. */
  lemma {:induction false} ActiveButtons(tables: seq<string>, selected: Option<string>)
    ensures ActiveCount(ButtonsFor(tables, selected)) ==
            if selected.Some? then multiset(tables)[selected.value] else 0
  {
    if tables != [] {
      var init := tables[..|tables| - 1];
      ActiveButtons(init, selected);
      assert tables == init + [tables[|tables| - 1]];
      var bs := ButtonsFor(tables, selected);
      assert bs[..|bs| - 1] == ButtonsFor(init, selected);
    }
  }

  /** `renderTables`' `forEach` loop, appending one button per table. */
  method BuildButtons(tables: seq<string>, selected: Option<string>) returns (buttons: seq<TableButton>)
    ensures buttons == ButtonsFor(tables, selected)
  {
    buttons := [];
    for i := 0 to |tables|
      invariant buttons == ButtonsFor(tables[..i], selected)
    {
      assert tables[..i + 1][..i] == tables[..i];
      buttons := buttons + [TableButton(tables[i], Some(tables[i]) == selected)];
    }
    assert tables[..|tables|] == tables;
  }

  // ----- renderRows -----

  /** The cells of one row: the id, then the content and the creation time, each shown
      as the empty string when missing (`r.content || ''`). */
  function LineFor(r: Row): RowLine {
    RowLine(r.id, r.content.GetOr(""), r.createdAt.GetOr(""))
  }

  /** The lines `renderRows` appends, one per row in order. */
  function LinesFor(rows: seq<Row>): seq<RowLine> {
    if rows == [] then [] else LinesFor(rows[..|rows| - 1]) + [LineFor(rows[|rows| - 1])]
  }

  /** The body for a row list: the single "No rows" placeholder when it is empty. */
  function RowsView(rows: seq<Row>): RowsPane {
    if |rows| == 0 then NoRows else Lines(LinesFor(rows))
  }

  /** Line `i` shows row `i`, missing fields as the empty string. */
  lemma {:induction false} LinesForAt(rows: seq<Row>)
    ensures |LinesFor(rows)| == |rows|
    ensures forall i :: 0 <= i < |rows| ==>
              LinesFor(rows)[i] == RowLine(rows[i].id, rows[i].content.GetOr(""), rows[i].createdAt.GetOr(""))
  {
    if rows != [] {
      LinesForAt(rows[..|rows| - 1]);
    }
  }

  /** `renderRows`' `forEach` loop, appending one three-cell line per row. */
  method BuildRowLines(rows: seq<Row>) returns (lines: seq<RowLine>)
    ensures lines == LinesFor(rows)
  {
    lines := [];
    for i := 0 to |rows|
      invariant lines == LinesFor(rows[..i])
    {
      assert rows[..i + 1][..i] == rows[..i];
      var r := rows[i];
      lines := lines + [RowLine(r.id, r.content.GetOr(""), r.createdAt.GetOr(""))];
    }
    assert rows[..|rows|] == rows;
  }

  // ----- Row request -----

  /** The `limit` parameter: the input's text, or 200 when it is blank. */
  function LimitParam(limitInput: string): string {
    if limitInput == "" then DefaultLimit else limitInput
  }

  /** The `&q=` parameter, present only when the encoded search text is not empty. */
  function QueryParam(encoded: string): string {
    if encoded != "" then "&q=" + encoded else ""
  }

  /** The URL `fetchRows` requests for a table and the current inputs. */
  function RowsUrl(table: string, limitInput: string, queryInput: string): string {
    "/api/rows/" + EncodeUriComponent(table) + "?limit=" + LimitParam(limitInput)
    + QueryParam(EncodeUriComponent(queryInput))
  }

  /** The request names the encoded table as its whole path segment, uses 200 for a blank
      limit, and carries `&q=` exactly when the search text is not empty. */
  lemma RowsUrlParts(table: string, limitInput: string, queryInput: string)
    ensures var path := "/api/rows/" + EncodeUriComponent(table);
            '?' !in path[10..] && '/' !in path[10..]
            && RowsUrl(table, limitInput, queryInput)
               == path + "?limit=" + (if limitInput == "" then "200" else limitInput)
                  + (if queryInput == "" then "" else "&q=" + EncodeUriComponent(queryInput))
  {
    var enc := EncodeUriComponent(table);
    assert ("/api/rows/" + enc)[10..] == enc;
  }

  /** The position of the first `?` in `w`, or `|w|` when it has none. */
  function FirstQuestionMark(w: string): (i: nat)
    ensures i <= |w|
    ensures i < |w| ==> w[i] == '?'
    ensures forall k :: 0 <= k < i ==> w[k] != '?'
  {
    if w == [] then 0
    else if w[0] == '?' then 0
    else 1 + FirstQuestionMark(w[1..])
  }

  /** A string free of `?` followed by a `?` ends exactly where the first `?` is. */
  lemma {:induction false} FirstQuestionMarkAfter(x: string, u: string)
    requires '?' !in x
    ensures FirstQuestionMark(x + "?" + u) == |x|
  {
    if x != [] {
      assert (x + "?" + u)[1..] == x[1..] + "?" + u;
      FirstQuestionMarkAfter(x[1..], u);
    }
  }

  /** Two strings free of `?`, each followed by a `?` and anything: the parts before the
      first `?` agree when the wholes do. */
  lemma SamePrefixBeforeQuestionMark(x: string, y: string, u: string, v: string)
    requires '?' !in x && '?' !in y
    requires x + "?" + u == y + "?" + v
    ensures x == y
  {
    var w := x + "?" + u;
    FirstQuestionMarkAfter(x, u);
    FirstQuestionMarkAfter(y, v);
    assert x == w[..|x|] == y;
  }

  /** A row URL split at its `?`: the path's last segment, then the query string. */
  lemma RowsUrlSplit(table: string, limitInput: string, queryInput: string)
    ensures RowsUrl(table, limitInput, queryInput)
            == "/api/rows/" + (EncodeUriComponent(table) + "?"
                               + ("limit=" + LimitParam(limitInput) + QueryParam(EncodeUriComponent(queryInput))))
  {
    var enc, lim, qp := EncodeUriComponent(table), LimitParam(limitInput), QueryParam(EncodeUriComponent(queryInput));
    assert "?limit=" == "?" + "limit=";
    calc {
      RowsUrl(table, limitInput, queryInput);
      "/api/rows/" + enc + "?limit=" + lim + qp;
      "/api/rows/" + (enc + "?" + ("limit=" + lim + qp));
    }
  }

  /** The request URL names its table unambiguously: two different tables are never
      fetched through the same URL, whatever the inputs. */
  lemma RowsUrlNamesTable(a: string, b: string, limitA: string, limitB: string,
                          queryA: string, queryB: string)
    requires RowsUrl(a, limitA, queryA) == RowsUrl(b, limitB, queryB)
    ensures a == b
  {
    var ea, eb := EncodeUriComponent(a), EncodeUriComponent(b);
    var ua := "limit=" + LimitParam(limitA) + QueryParam(EncodeUriComponent(queryA));
    var ub := "limit=" + LimitParam(limitB) + QueryParam(EncodeUriComponent(queryB));
    RowsUrlSplit(a, limitA, queryA);
    RowsUrlSplit(b, limitB, queryB);
    var url := RowsUrl(a, limitA, queryA);
    assert ea + "?" + ua == url[10..] == eb + "?" + ub;
    EncodedHasNoDelimiters(a);
    EncodedHasNoDelimiters(b);
    SamePrefixBeforeQuestionMark(ea, eb, ua, ub);
    EncodeInjective(a, b);
  }

  /** A blank limit input: a plain table name passes through unencoded and the limit is
      200. */
  lemma BlankLimitUrl()
    ensures RowsUrl("t1", "", "") == "/api/rows/t1?limit=200"
  {
    EncodeKeepsUnreserved("t1");
  }

  // ----- Timers -----

  /** The page's repeating timers (`setInterval` / `clearInterval`): each live timer maps
      its handle to its period. The page hands out handles from 1 upwards, so a handle
      is never falsy. */
  class IntervalTimers {
    var nextHandle: nat
    var live: map<nat, nat>

    ghost predicate Valid()
      reads this
    {
      nextHandle >= 1 && forall h :: h in live ==> 1 <= h < nextHandle
    }

    constructor ()
      ensures Valid() && live == map[]
    {
      nextHandle := 1;
      live := map[];
    }

    /** Arms a new repeating timer and returns its fresh handle. */
    method SetInterval(periodMs: nat) returns (h: nat)
      requires Valid()
      modifies this
      ensures Valid()
      ensures h >= 1 && h !in old(live)
      ensures old(nextHandle) <= h < nextHandle
      ensures live == old(live)[h := periodMs]
    {
      h := nextHandle;
      nextHandle := nextHandle + 1;
      live := live[h := periodMs];
    }

    /** Disarms a timer; a handle that is not live is ignored. */
    method ClearInterval(h: nat)
      requires Valid()
      modifies this
      ensures Valid() && nextHandle == old(nextHandle)
      ensures live == old(live) - {h}
    {
      live := live - {h};
    }
  }

  // ----- The controller -----

  class Controller {
    const timers: IntervalTimers
    var tables: seq<string>
    var selected: Option<string>
    var polling: bool
    var pollId: Option<nat>
    /** The current text of the `limit` and `query` inputs. */
    var limitInput: string
    var queryInput: string
    /** The contents of the `tablesList` and `rowsBody` elements. */
    var tablesList: TablesPane
    var rowsBody: RowsPane
    /** Every row URL fetched so far, in order. */
    ghost var requests: seq<string>
    /** Whether the page's initial table load has yet to complete. */
    ghost var initialLoadPending: bool

    /** At most one timer is live, and it is the one `pollId` holds. */
    ghost predicate OneTimer()
      reads this, timers
    {
      timers.Valid()
      && timers.live == if pollId.Some? then map[pollId.value := RefreshMs] else map[]
    }

    /** Besides, a timer is live exactly while polling is on. */
    ghost predicate Valid()
      reads this, timers
    {
      OneTimer() && (polling <==> pollId.Some?)
    }

    /** The row fetch `selectTable(t)` issues: one request, unless `t` is falsy. */
    ghost function RequestsFor(t: string): seq<string>
      reads this
    {
      if t != "" then [RowsUrl(t, limitInput, queryInput)] else []
    }

    /** The page's start: the state of line 6, the synchronous start of the initial
        `fetchTables` (the picker shows "Loading…") and the first `startPolling`. */
    constructor (limitInput: string, queryInput: string)
      ensures Valid() && fresh(timers)
      ensures tables == [] && selected == None && polling && pollId.Some?
      ensures this.limitInput == limitInput && this.queryInput == queryInput
      ensures tablesList == Loading && rowsBody == InitialRows
      ensures requests == [] && initialLoadPending
    {
      timers := new IntervalTimers();
      tables, selected, polling, pollId := [], None, true, None;
      this.limitInput, this.queryInput := limitInput, queryInput;
      tablesList, rowsBody := Loading, InitialRows;
      requests, initialLoadPending := [], true;
      new;
      StartPolling();
    }

    /** `startPolling`: clears the current timer, if any, before arming a new one. */
    method StartPolling()
      requires OneTimer()
      modifies this`pollId, timers
      ensures OneTimer()
      ensures pollId.Some? && pollId.value !in old(timers.live)
    {
      if pollId.Some? {
        timers.ClearInterval(pollId.value);
      }
      var h := timers.SetInterval(RefreshMs);
      pollId := Some(h);
    }

    /** `stopPolling`: no timer is left live and `pollId` is null. */
    method StopPolling()
      requires OneTimer()
      modifies this`pollId, timers
      ensures OneTimer()
      ensures pollId == None && timers.live == map[]
    {
      if pollId.Some? {
        timers.ClearInterval(pollId.value);
      }
      pollId := None;
    }

    /** `renderTables`. */
    method RenderTables()
      modifies this`tablesList
      ensures tablesList == TablesView(tables, selected)
    {
      if |tables| == 0 {
        tablesList := NoTables;
        return;
      }
      var buttons := BuildButtons(tables, selected);
      tablesList := Buttons(buttons);
    }

    /** `renderRows`. */
    method RenderRows(rows: seq<Row>)
      modifies this`rowsBody
      ensures rowsBody == RowsView(rows)
    {
      if |rows| == 0 {
        rowsBody := NoRows;
        return;
      }
      var lines := BuildRowLines(rows);
      rowsBody := Lines(lines);
    }

    /** The synchronous part of `fetchRows` (also the "refresh rows" button): nothing
        without a selection, otherwise one request for the selected table. */
    method FetchRows()
      modifies this`requests
      ensures requests == old(requests)
                          + if IsSet(selected) then [RowsUrl(selected.value, limitInput, queryInput)] else []
    {
      if !IsSet(selected) {
        return;
      }
      var url := RowsUrl(selected.value, limitInput, queryInput);
      requests := requests + [url];
    }

    /** The completion of a row fetch: a payload with `rows` is rendered; a failure or a
        payload without `rows` changes nothing. Selection, polling and timers are outside
        its frame. */
    method CompleteRowFetch(response: Result<Option<seq<Row>>, string>)
      modifies this`rowsBody
      ensures rowsBody == if response.Success? && response.value.Some?
                          then RowsView(response.value.value) else old(rowsBody)
    {
      if response.Success? && response.value.Some? {
        RenderRows(response.value.value);
      }
    }

    /** A tick of the live timer: fetches rows only when a table is selected. A tick can
        only come from the live timer, so it only happens while polling. */
    method TimerFires(h: nat)
      requires Valid() && h in timers.live
      modifies this`requests
      ensures polling && pollId == Some(h)
      ensures requests == old(requests)
                          + if IsSet(selected) then [RowsUrl(selected.value, limitInput, queryInput)] else []
    {
      if IsSet(selected) {
        FetchRows();
      }
    }

    /** `selectTable(t)`: selects `t`, re-renders the picker, fetches its rows at once and,
        when polling, restarts the timer. */
    method SelectTable(t: string)
      requires Valid()
      modifies this`selected, this`tablesList, this`requests, this`pollId, timers
      ensures Valid()
      ensures selected == Some(t)
      ensures tablesList == TablesView(tables, Some(t))
      ensures requests == old(requests) + RequestsFor(t)
      ensures polling ==> pollId.Some? && pollId.value !in old(timers.live)
    {
      selected := Some(t);
      RenderTables();
      FetchRows();
      if polling {
        StartPolling();
      }
    }

    /** The "togglePolling" button: flips `polling`, then starts or stops the timer to
        match. */
    method TogglePolling()
      requires Valid()
      modifies this`polling, this`pollId, timers
      ensures Valid()
      ensures polling == !old(polling)
      ensures |timers.live| == if polling then 1 else 0
    {
      polling := !polling;
      if polling {
        StartPolling();
      } else {
        StopPolling();
      }
    }

    /** The user edits the limit or the search input. */
    method EditInputs(limit: string, query: string)
      modifies this`limitInput, this`queryInput
      ensures limitInput == limit && queryInput == query
    {
      limitInput, queryInput := limit, query;
    }

    /** The synchronous start of `fetchTables` (also the "refresh tables" button). */
    method BeginTableLoad()
      modifies this`tablesList
      ensures tablesList == Loading
    {
      tablesList := Loading;
    }

    /** The rest of `fetchTables` once the answer is in. On success `tables` becomes the
        answer's list (or empty when it has none), the picker is rendered, and with
        nothing selected the first table is selected. On failure only the picker changes,
        to the error text. */
    method FinishTableLoad(response: Result<Option<seq<string>>, string>)
      requires Valid()
      modifies this`tables, this`tablesList, this`selected, this`requests, this`pollId, timers
      ensures Valid()
      ensures response.Failure? ==>
                && tables == old(tables) && selected == old(selected)
                && requests == old(requests) && pollId == old(pollId)
                && timers.live == old(timers.live)
                && tablesList == LoadError("Error fetching tables: " + response.error)
      ensures response.Success? ==> tables == response.value.GetOr([])
      ensures response.Success? ==> tablesList == TablesView(tables, selected)
      ensures response.Success? && !IsSet(old(selected)) && |tables| > 0 ==>
                selected == Some(tables[0]) && requests == old(requests) + RequestsFor(tables[0])
      ensures response.Success? && !(!IsSet(old(selected)) && |tables| > 0) ==>
                selected == old(selected) && requests == old(requests) && pollId == old(pollId)
                && timers.live == old(timers.live)
    {
      if response.Failure? {
        tablesList := LoadError("Error fetching tables: " + response.error);
        return;
      }
      tables := response.value.GetOr([]);
      RenderTables();
      if !IsSet(selected) && |tables| > 0 {
        SelectTable(tables[0]);
      }
    }

    /** The initial `fetchTables()` completing, followed by its `.then` re-check. Whatever
        the outcome, when the list is non-empty and nothing was selected the first table
        ends up selected and fetched once; after a successful non-empty load the
        re-check changes nothing. */
    method FinishInitialLoad(response: Result<Option<seq<string>>, string>)
      requires Valid() && initialLoadPending
      modifies this`tables, this`tablesList, this`selected, this`requests, this`pollId, timers
      modifies this`initialLoadPending
      ensures Valid() && !initialLoadPending
      ensures tables == if response.Success? then response.value.GetOr([]) else old(tables)
      ensures !IsSet(old(selected)) && |tables| > 0 ==>
                selected == Some(tables[0]) && requests == old(requests) + RequestsFor(tables[0])
                && tablesList == TablesView(tables, selected)
      ensures !(!IsSet(old(selected)) && |tables| > 0) ==>
                selected == old(selected) && requests == old(requests) && pollId == old(pollId)
                && tablesList == if response.Success? then TablesView(tables, selected)
                                 else LoadError("Error fetching tables: " + response.error)
    {
      FinishTableLoad(response);
      if |tables| > 0 && !IsSet(selected) {
        SelectTable(tables[0]);
      }
      initialLoadPending := false;
    }
  }

  /** A first load answering tables "t1" and "t2": "t1" is selected and highlighted, one
      row fetch for it is issued and one timer runs. */
  method InitialLoadScenario() returns (c: Controller)
    ensures c.Valid()
    ensures c.selected == Some("t1")
    ensures c.requests == [RowsUrl("t1", "", "")]
    ensures c.requests == ["/api/rows/t1?limit=200"]
    ensures c.tablesList == Buttons([TableButton("t1", true), TableButton("t2", false)])
    ensures |c.timers.live| == 1
  {
    c := new Controller("", "");
    c.FinishInitialLoad(Success(Some(["t1", "t2"])));
    BlankLimitUrl();
    ButtonsForAt(["t1", "t2"], Some("t1"));
  }

  /** Two clicks on the toggle: polling is back where it was, with exactly one live timer
      when it is on and none when it is off. */
  method ToggleTwice(c: Controller)
    requires c.Valid()
    modifies c`polling, c`pollId, c.timers
    ensures c.Valid() && c.polling == old(c.polling)
    ensures |c.timers.live| == if c.polling then 1 else 0
  {
    c.TogglePolling();
    c.TogglePolling();
  }
}

/**
 * The console `Menu` of menu.h: a list of items with an incremental,
 * case-insensitive search filter, a selection inside the filtered list and
 * a scroll window. Drawing, colours and the console API are not modelled;
 * the keys `_getch` would return are a parameter of `Show`.
 */
module ConsoleMenu {
  import opened Wrappers
  import opened Text

  const KEY_UP := 72
  const KEY_DOWN := 80
  const KEY_ENTER := 13
  const KEY_ESC := 27
  const KEY_BACKSPACE := 8
  const KEY_SLASH := 47

  /** Whether an item passes the filter: every item for an empty query, else a lower-cased substring match. */
  predicate Matches(item: string, query: string) {
    query == [] || Contains(LowerString(item), LowerString(query))
  }

  /** The indices among the first `n` items that pass the filter, in ascending order. */
  function Filtered(items: seq<string>, query: string, n: nat): seq<int>
    requires n <= |items|
  {
    if n == 0 then []
    else Filtered(items, query, n - 1) + (if Matches(items[n - 1], query) then [n - 1] else [])
  }

  /** What `updateFilteredIndices` computes. */
  function FilterSpec(items: seq<string>, query: string): seq<int>
  {
    Filtered(items, query, |items|)
  }

  /** The filter keeps exactly the matching indices below `n`, each once, in ascending order. */
  lemma {:induction false} FilteredExactly(items: seq<string>, query: string, n: nat)
    requires n <= |items|
    ensures forall j :: 0 <= j < |Filtered(items, query, n)| ==>
      0 <= Filtered(items, query, n)[j] < n && Matches(items[Filtered(items, query, n)[j]], query)
    ensures forall i :: 0 <= i < n && Matches(items[i], query) ==> i in Filtered(items, query, n)
    ensures forall a, b :: 0 <= a < b < |Filtered(items, query, n)| ==>
      Filtered(items, query, n)[a] < Filtered(items, query, n)[b]
  {
    if n > 0 {
      FilteredExactly(items, query, n - 1);
    }
  }

  /** `FilteredExactly` for the whole list. */
  lemma FilterSpecExactly(items: seq<string>, query: string)
    ensures forall j :: 0 <= j < |FilterSpec(items, query)| ==>
      0 <= FilterSpec(items, query)[j] < |items| && Matches(items[FilterSpec(items, query)[j]], query)
  {
    FilteredExactly(items, query, |items|);
  }

  /** With an empty query the filter is 0, 1, ..., n - 1. */
  lemma {:induction false} FilteredAll(items: seq<string>, n: nat)
    requires n <= |items|
    ensures |Filtered(items, [], n)| == n
    ensures forall j :: 0 <= j < n ==> Filtered(items, [], n)[j] == j
  {
    if n > 0 {
      FilteredAll(items, n - 1);
    }
  }

  /** `descriptions.resize(items.size())` when shorter: padded with empty strings, never cut. */
  function Padded(descs: seq<string>, n: nat): (r: seq<string>)
    ensures |r| == Max(|descs|, n)
    ensures r[..|descs|] == descs
    ensures forall i :: |descs| <= i < |r| ==> r[i] == []
  {
    if |descs| < n then descs + seq(n - |descs|, _ => []) else descs
  }

  /** `show`'s state between keys, besides the items: query, search mode, selection and scroll. */
  datatype View = View(query: string, searching: bool, selected: int, scroll: int)

  /** The selection as `updateFilteredIndices` leaves it for a filtered list of `n` entries. */
  function Clamp(selected: int, n: nat): (r: int)
    ensures selected >= 0 ==> 0 <= r <= Max(0, n - 1)
    ensures selected < n ==> r == selected
    ensures selected >= n ==> r == Max(0, n - 1)
  {
    if selected >= n then Max(0, n - 1) else selected
  }

  /** The selection lies in [0, max(0, size - 1)] of the list the view's query filters. */
  predicate Within(items: seq<string>, v: View) {
    0 <= v.selected <= Max(0, |FilterSpec(items, v.query)| - 1)
  }

  /** The scroll offset after `render`'s two adjustments. */
  function Scroll(selected: int, scroll: int, maxVisible: int): int
  {
    var s := if selected < scroll then selected else scroll;
    if selected >= s + maxVisible then selected - maxVisible + 1 else s
  }

  /** The view once `render` has scrolled the window to the selection. */
  function Scrolled(v: View, maxVisible: int): (r: View)
    ensures r.query == v.query && r.searching == v.searching && r.selected == v.selected
  {
    v.(scroll := Scroll(v.selected, v.scroll, maxVisible))
  }

  /** An extended key: the up and down arrows move the selection within the filtered list; others do nothing. */
  function Arrow(items: seq<string>, v: View, key: int): (r: View)
    requires Within(items, v)
    ensures Within(items, r) && r.query == v.query && r.searching == v.searching && r.scroll == v.scroll
    ensures key == KEY_UP && v.selected > 0 ==> r.selected == v.selected - 1
    ensures key == KEY_DOWN && v.selected < |FilterSpec(items, v.query)| - 1 ==> r.selected == v.selected + 1
    ensures r.selected != v.selected ==> key == KEY_UP || key == KEY_DOWN
  {
    if key == KEY_UP && v.selected > 0 then v.(selected := v.selected - 1)
    else if key == KEY_DOWN && v.selected < |FilterSpec(items, v.query)| - 1 then v.(selected := v.selected + 1)
    else v
  }

  /**
   * A regular key: `Some(i)` when `show` returns `i`, with the view
   * unchanged; otherwise `None` and the view the key leaves.
   */
  function Key(items: seq<string>, v: View, key: int): (r: (Option<int>, View))
    requires Within(items, v)
    ensures Within(items, r.1)
    ensures r.0.Some? ==> r.1 == v && (key == KEY_ENTER || key == KEY_ESC)
    ensures r.0.Some? && r.0.value != -1 ==>
      key == KEY_ENTER && 0 <= r.0.value < |items| && Matches(items[r.0.value], v.query)
    ensures key == KEY_ENTER ==> (r.0 == Some(-1) <==> FilterSpec(items, v.query) == [])
    ensures key == KEY_ESC ==> (r.0 == Some(-1) <==> !v.searching && v.query == [])
  {
    var f := FilterSpec(items, v.query);
    if key == KEY_ENTER then
      FilterSpecExactly(items, v.query);
      (Some(if f == [] then -1 else f[v.selected]), v)
    else if key == KEY_ESC then
      if v.searching || v.query != [] then (None, v.(query := [], searching := false, selected := 0))
      else (Some(-1), v)
    else if key == KEY_SLASH then (None, v.(searching := true))
    else if key == KEY_BACKSPACE then
      if v.searching && v.query != [] then
        var q := v.query[..|v.query| - 1];
        (None, v.(query := q, selected := Clamp(v.selected, |FilterSpec(items, q)|)))
      else (None, v)
    else if v.searching && 32 <= key <= 126 then (None, v.(query := v.query + [key as char], selected := 0))
    else (None, v)
  }

  /**
   * The loop of `show` over the keys `_getch` returns: before each key
   * the window scrolls to the selection; 0 or 224 announces an extended
   * key. `Some(i)` is the value returned, `None` that the keys ran out.
   */
  function Run(items: seq<string>, maxVisible: int, v: View, keys: seq<int>): (Option<int>, View)
    requires Within(items, v)
    decreases |keys|
  {
    if keys == [] then (None, v)
    else
      var v1 := Scrolled(v, maxVisible);
      if keys[0] == 0 || keys[0] == 224 then
        if |keys| == 1 then (None, v1)
        else Run(items, maxVisible, Arrow(items, v1, keys[1]), keys[2..])
      else
        var step := Key(items, v1, keys[0]);
        if step.0.Some? then step else Run(items, maxVisible, step.1, keys[1..])
  }

  /**
   * Whatever the keys, `show` ends with the selection inside the filtered
   * list, and any index it returns other than -1 is an item that matches
   * the query it ends with.
   */
  lemma {:induction false} RunChoice(items: seq<string>, maxVisible: int, v: View, keys: seq<int>)
    requires Within(items, v)
    decreases |keys|
    ensures Within(items, Run(items, maxVisible, v, keys).1)
    ensures var r := Run(items, maxVisible, v, keys);
      r.0.Some? && r.0.value != -1 ==> 0 <= r.0.value < |items| && Matches(items[r.0.value], r.1.query)
  {
    if keys != [] {
      var v1 := Scrolled(v, maxVisible);
      if keys[0] == 0 || keys[0] == 224 {
        if |keys| > 1 {
          RunChoice(items, maxVisible, Arrow(items, v1, keys[1]), keys[2..]);
        }
      } else {
        var step := Key(items, v1, keys[0]);
        if step.0.None? {
          RunChoice(items, maxVisible, step.1, keys[1..]);
        }
      }
    }
  }

  /** One pass of `show`'s loop on an extended key: the loop goes on after it. */
  lemma {:induction false} RunArrow(items: seq<string>, maxVisible: int, v: View, keys: seq<int>)
    requires Within(items, v) && |keys| >= 2 && (keys[0] == 0 || keys[0] == 224)
    ensures Run(items, maxVisible, v, keys)
         == Run(items, maxVisible, Arrow(items, Scrolled(v, maxVisible), keys[1]), keys[2..])
  {
  }

  /** One pass of `show`'s loop on a regular key: it returns, or goes on from the view the key leaves. */
  lemma {:induction false} RunKey(items: seq<string>, maxVisible: int, v: View, keys: seq<int>)
    requires Within(items, v) && keys != [] && keys[0] != 0 && keys[0] != 224
    ensures var step := Key(items, Scrolled(v, maxVisible), keys[0]);
      Run(items, maxVisible, v, keys) == if step.0.Some? then step else Run(items, maxVisible, step.1, keys[1..])
  {
  }

  /** The key codes of some text. */
  function Codes(q: string): (r: seq<int>)
    ensures |r| == |q| && forall j :: 0 <= j < |q| ==> r[j] == q[j] as int
  {
    seq(|q|, j requires 0 <= j < |q| => q[j] as int)
  }

  /** Printable text without '/', which would switch search mode on instead of being typed. */
  predicate Typable(q: string) {
    forall j :: 0 <= j < |q| ==> 32 <= q[j] as int <= 126 && q[j] != '/'
  }

  /** Typing one printable character other than '/' in search mode appends it and selects the first entry. */
  lemma {:induction false} TypeChar(items: seq<string>, maxVisible: int, v: View, c: char, rest: seq<int>)
    returns (u: View)
    requires Within(items, v) && v.searching && 32 <= c as int <= 126 && c != '/'
    ensures u == Scrolled(v, maxVisible).(query := v.query + [c], selected := 0) && Within(items, u)
    ensures Run(items, maxVisible, v, [c as int] + rest) == Run(items, maxVisible, u, rest)
  {
    var keys := [c as int] + rest;
    u := Scrolled(v, maxVisible).(query := v.query + [c], selected := 0);
    assert Key(items, Scrolled(v, maxVisible), c as int) == (None, u);
    RunKey(items, maxVisible, v, keys);
    assert keys[1..] == rest;
  }

  /** The codes of text are the code of its first character, then those of the rest. */
  lemma {:induction false} CodesSplit(q: string, rest: seq<int>)
    requires q != []
    ensures Codes(q) + rest == [q[0] as int] + (Codes(q[1..]) + rest)
  {
    assert Codes(q) == [q[0] as int] + Codes(q[1..]);
  }

  /**
   * Typing text in search mode appends it to the query, and selects the
   * first entry once anything was typed; what follows runs from there.
   */
  lemma {:induction false} TypeText(items: seq<string>, maxVisible: int, v: View, q: string, rest: seq<int>)
    returns (w: View)
    requires Within(items, v) && v.searching && Typable(q)
    ensures Within(items, w) && w.searching && w.query == v.query + q
    ensures q == [] ==> w == v
    ensures q != [] ==> w.selected == 0
    decreases |q|
    ensures Run(items, maxVisible, v, Codes(q) + rest) == Run(items, maxVisible, w, rest)
  {
    if q == [] {
      assert Codes(q) + rest == rest && v.query + q == v.query;
      w := v;
    } else {
      CodesSplit(q, rest);
      assert Typable(q[1..]) && 32 <= q[0] as int <= 126 && q[0] != '/';
      var u := TypeChar(items, maxVisible, v, q[0], Codes(q[1..]) + rest);
      w := TypeText(items, maxVisible, u, q[1..], rest);
      assert v.query + q == v.query + [q[0]] + q[1..];
    }
  }

  /**
   * `/`, a non-empty search text, then Enter: `show` returns the first
   * item that contains the text, ignoring case, after the query already
   * typed, or -1 when none does.
   */
  lemma {:induction false} SearchThenEnter(items: seq<string>, maxVisible: int, v: View, q: string)
    requires Within(items, v) && q != [] && Typable(q)
    ensures var f := FilterSpec(items, v.query + q);
      Run(items, maxVisible, v, [KEY_SLASH] + Codes(q) + [KEY_ENTER]).0 == Some(if f == [] then -1 else f[0])
  {
    var keys := [KEY_SLASH] + Codes(q) + [KEY_ENTER];
    var u := Scrolled(v, maxVisible).(searching := true);
    assert keys[0] == KEY_SLASH && keys[1..] == Codes(q) + [KEY_ENTER];
    RunKey(items, maxVisible, v, keys);
    var w := TypeText(items, maxVisible, u, q, [KEY_ENTER]);
    RunKey(items, maxVisible, w, [KEY_ENTER]);
  }

  /** The view `show` starts from: the selection clamped by its first `updateFilteredIndices`. */
  function Start(items: seq<string>, query: string, searching: bool, selected: int, scroll: int): (r: View)
    requires selected >= 0
    ensures Within(items, r)
  {
    View(query, searching, Clamp(selected, |FilterSpec(items, query)|), scroll)
  }

  class Menu {
    var items: seq<string>
    var descriptions: seq<string>
    var selected: int
    var scrollOffset: int
    var maxVisible: int
    var title: string
    var searchQuery: string
    var searchMode: bool
    var filteredIndices: seq<int>

    /** The selection lies in [0, max(0, size - 1)] of the filtered list. */
    ghost predicate Valid()
      reads this
    {
      0 <= selected <= Max(0, |filteredIndices| - 1)
    }

    /** The filtered list is up to date with the items and the query. */
    ghost predicate Fresh()
      reads this
    {
      filteredIndices == FilterSpec(items, searchQuery)
    }

    constructor (t: string, maxVis: int := 15)
      ensures Valid()
      ensures title == t && maxVisible == maxVis
      ensures items == [] && descriptions == [] && filteredIndices == []
      ensures selected == 0 && scrollOffset == 0 && searchQuery == [] && !searchMode
    {
      title := t;
      maxVisible := maxVis;
      items, descriptions, filteredIndices := [], [], [];
      selected, scrollOffset := 0, 0;
      searchQuery, searchMode := [], false;
    }

    /**
     * `updateFilteredIndices`: rebuilds the filtered list, then pulls the
     * selection back to the last entry (or 0) if it fell off the end.
     */
    method UpdateFilteredIndices()
      requires selected >= 0
      modifies this`filteredIndices, this`selected
      ensures Fresh() && Valid()
      ensures selected == if old(selected) >= |filteredIndices| then Max(0, |filteredIndices| - 1) else old(selected)
    {
      filteredIndices := [];
      if searchQuery == [] {
        var i := 0;
        while i < |items|
          invariant 0 <= i <= |items|
          invariant filteredIndices == Filtered(items, searchQuery, i)
          invariant selected == old(selected)
        {
          filteredIndices := filteredIndices + [i];
          i := i + 1;
        }
      } else {
        var lowerQuery := LowerString(searchQuery);
        var i := 0;
        while i < |items|
          invariant 0 <= i <= |items|
          invariant filteredIndices == Filtered(items, searchQuery, i)
          invariant selected == old(selected)
        {
          var lowerItem := LowerString(items[i]);
          if Contains(lowerItem, lowerQuery) {
            filteredIndices := filteredIndices + [i];
          }
          i := i + 1;
        }
      }
      if selected >= |filteredIndices| {
        selected := Max(0, |filteredIndices| - 1);
      }
    }

    /** `addItem`: item and description are appended together, then the list is refiltered. */
    method AddItem(item: string, desc: string)
      requires Valid()
      modifies this`items, this`descriptions, this`filteredIndices, this`selected
      ensures items == old(items) + [item] && descriptions == old(descriptions) + [desc]
      ensures Fresh() && Valid()
      ensures selected == if old(selected) >= |filteredIndices| then Max(0, |filteredIndices| - 1) else old(selected)
    {
      items := items + [item];
      descriptions := descriptions + [desc];
      UpdateFilteredIndices();
    }

    /** `setItems`: new items, descriptions padded to match, selection and scroll back to the top. */
    method SetItems(newItems: seq<string>, newDescs: seq<string>)
      modifies this`items, this`descriptions, this`filteredIndices, this`selected, this`scrollOffset
      ensures items == newItems && descriptions == Padded(newDescs, |newItems|)
      ensures |descriptions| >= |items|
      ensures selected == 0 && scrollOffset == 0
      ensures Fresh() && Valid()
    {
      items := newItems;
      descriptions := newDescs;
      if |descriptions| < |items| {
        descriptions := descriptions + seq(|items| - |descriptions|, _ => []);
      }
      selected := 0;
      scrollOffset := 0;
      UpdateFilteredIndices();
    }

    /** `clear`: everything back to empty; the filtered list is left as it was. */
    method Clear()
      modifies this`items, this`descriptions, this`selected, this`scrollOffset, this`searchQuery, this`searchMode
      ensures items == [] && descriptions == [] && searchQuery == [] && !searchMode
      ensures selected == 0 && scrollOffset == 0
      ensures Valid()
    {
      items, descriptions := [], [];
      selected, scrollOffset := 0, 0;
      searchQuery, searchMode := [], false;
    }

    /**
     * The scroll adjustment at the top of `render`: with room for at least
     * one item the selection ends up inside the window, and the window
     * moves only when the selection was outside it, to the nearest edge.
     */
    method AdjustScroll()
      modifies this`scrollOffset
      ensures maxVisible >= 1 ==> scrollOffset <= selected < scrollOffset + maxVisible
      ensures maxVisible >= 1 && old(scrollOffset) <= selected < old(scrollOffset) + maxVisible ==>
        scrollOffset == old(scrollOffset)
      ensures maxVisible >= 1 && selected < old(scrollOffset) ==> scrollOffset == selected
      ensures maxVisible >= 1 && selected >= old(scrollOffset) + maxVisible ==>
        scrollOffset == selected - maxVisible + 1
      ensures maxVisible < 1 ==> scrollOffset == selected - maxVisible + 1
      ensures scrollOffset == Scroll(selected, old(scrollOffset), maxVisible)
    {
      if selected < scrollOffset {
        scrollOffset := selected;
      }
      if selected >= scrollOffset + maxVisible {
        scrollOffset := selected - maxVisible + 1;
      }
    }

    /** The up arrow: one entry up, never above the first. */
    method MoveUp()
      requires Valid()
      modifies this`selected
      ensures Valid()
      ensures selected == if old(selected) > 0 then old(selected) - 1 else old(selected)
    {
      if selected > 0 {
        selected := selected - 1;
      }
    }

    /** The down arrow: one entry down, never past the last. */
    method MoveDown()
      requires Valid()
      modifies this`selected
      ensures Valid()
      ensures selected == if old(selected) < |filteredIndices| - 1 then old(selected) + 1 else old(selected)
    {
      if selected < |filteredIndices| - 1 {
        selected := selected + 1;
      }
    }

    /**
     * Enter: the item index of the selected entry, or -1 when nothing
     * matches; on an up-to-date list, a valid index of an item that matches
     * the query.
     */
    function Choice(): (r: int)
      requires Valid()
      reads this
      ensures Fresh() ==> (r == -1 <==> FilterSpec(items, searchQuery) == [])
      ensures Fresh() && r != -1 ==> 0 <= r < |items| && Matches(items[r], searchQuery)
      ensures Fresh() && r != -1 ==> selected < |FilterSpec(items, searchQuery)| && r == FilterSpec(items, searchQuery)[selected]
    {
      if filteredIndices == [] then -1
      else
        FilterSpecExactly(items, searchQuery);
        filteredIndices[selected]
    }

    /**
     * Esc: while searching or with a query, drops the query and search mode
     * and goes back to the top (`exit` false); otherwise the menu closes.
     */
    method Escape() returns (exit: bool)
      requires Valid()
      modifies this`searchMode, this`searchQuery, this`filteredIndices, this`selected
      ensures exit <==> !old(searchMode) && old(searchQuery) == []
      ensures exit ==> unchanged(this)
      ensures !exit ==> !searchMode && searchQuery == [] && selected == 0 && Fresh() && Valid()
    {
      if searchMode || searchQuery != [] {
        searchMode := false;
        searchQuery := [];
        UpdateFilteredIndices();
        selected := 0;
        return false;
      }
      return true;
    }

    /** Backspace: drops the last query character, only in search mode with a non-empty query. */
    method Backspace()
      requires Valid() && Fresh()
      modifies this`searchQuery, this`filteredIndices, this`selected
      ensures Fresh() && Valid()
      ensures old(searchMode) && old(searchQuery) != [] ==> searchQuery == old(searchQuery)[..|old(searchQuery)| - 1]
      ensures old(searchMode) && old(searchQuery) != [] ==> selected == Clamp(old(selected), |filteredIndices|)
      ensures !(old(searchMode) && old(searchQuery) != []) ==> unchanged(this)
    {
      if searchMode && searchQuery != [] {
        searchQuery := searchQuery[..|searchQuery| - 1];
        UpdateFilteredIndices();
      }
    }

    /** Any other key: in search mode a printable one (32..126) extends the query and goes back to the top. */
    method TypeKey(key: int)
      requires Valid() && Fresh()
      modifies this`searchQuery, this`filteredIndices, this`selected
      ensures Fresh() && Valid()
      ensures searchMode && 32 <= key <= 126 ==> searchQuery == old(searchQuery) + [key as char] && selected == 0
      ensures !(searchMode && 32 <= key <= 126) ==> unchanged(this)
    {
      if searchMode && 32 <= key <= 126 {
        searchQuery := searchQuery + [key as char];
        UpdateFilteredIndices();
        selected := 0;
      }
    }

    /**
     * `show`: refilters, then handles `keys` one by one as `_getch` would
     * return them; `Some(i)` is what `show` returns, `None` that it is
     * still waiting for a key when `keys` runs out. A key 0 or 224 is
     * followed by the code of an extended key.
     */
    method Show(keys: seq<int>) returns (r: Option<int>)
      requires Valid()
      modifies this`filteredIndices, this`selected, this`scrollOffset, this`searchQuery, this`searchMode
      ensures Valid()
      ensures old(items) == [] ==> r == Some(-1)
      ensures old(items) != [] ==> Fresh()
      ensures r.Some? && r.value != -1 ==> 0 <= r.value < |items| && Matches(items[r.value], searchQuery)
      ensures old(items) != [] ==>
        (r, View(searchQuery, searchMode, selected, scrollOffset))
        == Run(items, maxVisible, Start(items, old(searchQuery), old(searchMode), old(selected), old(scrollOffset)), keys)
    {
      if items == [] {
        return Some(-1);
      }
      ghost var start := Start(items, searchQuery, searchMode, selected, scrollOffset);
      ghost var whole := Run(items, maxVisible, start, keys);
      RunChoice(items, maxVisible, start, keys);
      UpdateFilteredIndices();
      var i := 0;
      while i < |keys|
        invariant 0 <= i <= |keys|
        invariant Valid() && Fresh()
        invariant whole == Run(items, maxVisible, Current(), keys[i..])
        decreases |keys| - i
      {
        i, r := ShowStep(keys, i);
        if r.Some? {
          return;
        }
      }
      r := None;
    }

    /**
     * One pass of `show`'s loop from key `i`: `render`'s scroll update,
     * then one key, or 0 or 224 and the extended key after it.
     */
    method ShowStep(keys: seq<int>, i: nat) returns (next: nat, r: Option<int>)
      requires Valid() && Fresh() && i < |keys|
      modifies this`filteredIndices, this`selected, this`scrollOffset, this`searchQuery, this`searchMode
      ensures Valid() && Fresh() && i < next <= |keys|
      ensures r.Some? ==> Run(items, maxVisible, old(Current()), keys[i..]) == (r, Current())
      ensures r.None? ==> Run(items, maxVisible, old(Current()), keys[i..]) == Run(items, maxVisible, Current(), keys[next..])
    {
      ghost var rest := keys[i..];
      ghost var v0 := Current();
      assert rest[0] == keys[i];
      AdjustScroll();
      assert Current() == Scrolled(v0, maxVisible);
      var key := keys[i];
      next := i + 1;
      r := None;
      if key == 0 || key == 224 {
        if next == |keys| {
          assert rest == [key];
          return;
        }
        key := keys[next];
        next := next + 1;
        assert rest[1] == key && rest[2..] == keys[next..];
        RunArrow(items, maxVisible, v0, rest);
        HandleArrow(key);
      } else {
        assert rest[1..] == keys[next..];
        RunKey(items, maxVisible, v0, rest);
        r := HandleKey(key);
      }
    }

    /** The `switch` over an extended key in `show`. */
    method HandleArrow(key: int)
      requires Valid() && Fresh()
      modifies this`selected
      ensures Valid() && Fresh()
      ensures Current() == Arrow(items, old(Current()), key)
    {
      if key == KEY_UP {
        MoveUp();
      } else if key == KEY_DOWN {
        MoveDown();
      }
    }

    /** The `switch` over a regular key in `show`: `Some` when `show` returns. */
    method HandleKey(key: int) returns (r: Option<int>)
      requires Valid() && Fresh()
      modifies this`filteredIndices, this`selected, this`searchQuery, this`searchMode
      ensures Valid() && Fresh()
      ensures (r, Current()) == Key(items, old(Current()), key)
    {
      r := None;
      if key == KEY_ENTER {
        r := Some(Choice());
      } else if key == KEY_ESC {
        var exit := Escape();
        if exit {
          r := Some(-1);
        }
      } else if key == KEY_SLASH {
        searchMode := true;
      } else if key == KEY_BACKSPACE {
        Backspace();
      } else {
        TypeKey(key);
      }
    }

    /** The fields `show` works on, as a `View`. */
    ghost function Current(): View
      reads this
    {
      View(searchQuery, searchMode, selected, scrollOffset)
    }
  }
}

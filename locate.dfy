/** The two session lookups of the client. Both scan windows, then tabs, then
    panes, in host order, comparing long-form ids, and report 0-based
    coordinates. They differ in when they stop:
    - `read_pane` breaks out of the pane loop only, so the scan goes on through
      later tabs and windows and a later tab holding the id overwrites an earlier
      hit: the LAST tab holding the id wins, and within it the FIRST pane;
    - `get_current_pane` returns at the first hit: the FIRST pane overall. */
module Locate {
  import opened Hierarchy

  /** Tab (w1, t1) comes before tab (w2, t2) in scan order. */
  predicate TabBefore(w1: int, t1: int, w2: int, t2: int) {
    w1 < w2 || (w1 == w2 && t1 < t2)
  }

  /** Pane (w1, t1, p1) comes before pane (w2, t2, p2) in scan order. */
  predicate PaneBefore(w1: int, t1: int, p1: int, w2: int, t2: int, p2: int) {
    TabBefore(w1, t1, w2, t2) || (w1 == w2 && t1 == t2 && p1 < p2)
  }

  /** `l` is the first pane, in scan order, whose id is `id`. */
  ghost predicate FirstHit(app: App, id: string, l: Location) {
    IdAt(app, l, id)
    && forall w, t, p ::
         0 <= w < |app| && 0 <= t < |app[w].tabs| && 0 <= p < |app[w].tabs[t].sessions|
         && PaneBefore(w, t, p, l.window, l.tab, l.pane)
         ==> app[w].tabs[t].sessions[p].id != id
  }

  /** `l` is where `read_pane`'s scan ends up: the first pane with id `id` in its
      tab, and no tab after that tab holds `id`. */
  ghost predicate ReadHit(app: App, id: string, l: Location) {
    IdAt(app, l, id)
    && (forall p :: 0 <= p < l.pane ==> app[l.window].tabs[l.tab].sessions[p].id != id)
    && forall w, t ::
         0 <= w < |app| && 0 <= t < |app[w].tabs| && TabBefore(l.window, l.tab, w, t)
         ==> !TabHas(app[w].tabs[t], id)
  }

  /** What `read_pane`'s scan knows once it has passed every tab before (w, t). */
  ghost predicate ReadScanned(app: App, id: string, found: Option<Location>, w: int, t: int) {
    match found
    case None =>
      forall w', t' ::
        0 <= w' < |app| && 0 <= t' < |app[w'].tabs| && TabBefore(w', t', w, t)
        ==> !TabHas(app[w'].tabs[t'], id)
    case Some(l) =>
      IdAt(app, l, id)
      && (forall p :: 0 <= p < l.pane ==> app[l.window].tabs[l.tab].sessions[p].id != id)
      && TabBefore(l.window, l.tab, w, t)
      && forall w', t' ::
           0 <= w' < |app| && 0 <= t' < |app[w'].tabs|
           && TabBefore(l.window, l.tab, w', t') && TabBefore(w', t', w, t)
           ==> !TabHas(app[w'].tabs[t'], id)
  }

  /** The session search of `read_pane`. */
  method FindForRead(app: App, id: string) returns (found: Option<Location>)
    ensures found.None? <==> !Occurs(app, id)
    ensures found.Some? ==> ReadHit(app, id, found.value)
  {
    found := None;
    for w := 0 to |app|
      invariant ReadScanned(app, id, found, w, 0)
    {
      var tabs := app[w].tabs;
      for t := 0 to |tabs|
        invariant ReadScanned(app, id, found, w, t)
      {
        var sessions := tabs[t].sessions;
        ghost var before := found;
        for p := 0 to |sessions|
          invariant found == before
          invariant forall p' :: 0 <= p' < p ==> sessions[p'].id != id
        {
          if sessions[p].id == id {
            found := Some(Location(w, t, p));
            break;
          }
        }
        assert found == before ==> !TabHas(tabs[t], id);
      }
    }
    if found.Some? {
      var l := found.value;
      assert TabHas(app[l.window].tabs[l.tab], id);
    }
  }

  /** No pane before (w, t, p) in scan order has id `id`. */
  ghost predicate AbsentBefore(app: App, id: string, w: int, t: int, p: int) {
    forall w', t', p' ::
      0 <= w' < |app| && 0 <= t' < |app[w'].tabs| && 0 <= p' < |app[w'].tabs[t'].sessions|
      && PaneBefore(w', t', p', w, t, p)
      ==> app[w'].tabs[t'].sessions[p'].id != id
  }

  /** The session search of `get_current_pane`: returns at the first hit. */
  method FindFirst(app: App, id: string) returns (found: Option<Location>)
    ensures found.None? <==> !Occurs(app, id)
    ensures found.Some? ==> FirstHit(app, id, found.value)
  {
    for w := 0 to |app|
      invariant AbsentBefore(app, id, w, 0, 0)
    {
      var tabs := app[w].tabs;
      for t := 0 to |tabs|
        invariant AbsentBefore(app, id, w, t, 0)
      {
        var sessions := tabs[t].sessions;
        for p := 0 to |sessions|
          invariant AbsentBefore(app, id, w, t, p)
        {
          if sessions[p].id == id {
            assert TabHas(tabs[t], id);
            return Some(Location(w, t, p));
          }
        }
      }
    }
    return None;
  }

  /** The first hit is unique: the search result is determined by app and id. */
  lemma FirstHitUnique(app: App, id: string, l1: Location, l2: Location)
    requires FirstHit(app, id, l1) && FirstHit(app, id, l2)
    ensures l1 == l2
  {
  }

  /** `read_pane`'s hit is unique too. */
  lemma ReadHitUnique(app: App, id: string, l1: Location, l2: Location)
    requires ReadHit(app, id, l1) && ReadHit(app, id, l2)
    ensures l1 == l2
  {
    if TabBefore(l1.window, l1.tab, l2.window, l2.tab) {
      assert TabHas(app[l2.window].tabs[l2.tab], id);
    } else if TabBefore(l2.window, l2.tab, l1.window, l1.tab) {
      assert TabHas(app[l1.window].tabs[l1.tab], id);
    }
  }

  /** With unique session ids, as the host guarantees, both lookups find the same pane. */
  lemma LookupsAgreeOnUniqueIds(app: App, id: string, l1: Location, l2: Location)
    requires UniqueIds(app)
    requires FirstHit(app, id, l1) && ReadHit(app, id, l2)
    ensures l1 == l2
  {
  }

  /** With a duplicated id, the lookups part ways: `read_pane` reports the later
      tab, `get_current_pane` the earlier one. */
  lemma LookupsDifferOnDuplicateIds()
    ensures var s := Session("x", None, None, None, None, None);
      var app := [Window("w", [Tab("a", [s]), Tab("b", [s, s])])];
      FirstHit(app, "x", Location(0, 0, 0)) && ReadHit(app, "x", Location(0, 1, 0))
  {
  }
}

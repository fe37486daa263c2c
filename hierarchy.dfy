/** The host's window -> tab -> session tree, as one command sees it. The live
    iTerm2 application object is replaced by this immutable value. */
module Hierarchy {

  datatype Option<T> = None | Some(value: T)

  /** One pane. `id` is the long-form session id. Each attribute is the host's
      answer to a variable query (None when the variable is unset), and `screen`
      is its answer to a screen-contents request: the visible lines, or None when
      the host fails to deliver them. */
  datatype Session = Session(
    id: string,
    name: Option<string>,
    tty: Option<string>,
    path: Option<string>,
    jobName: Option<string>,
    screen: Option<seq<string>>)

  datatype Tab = Tab(id: string, sessions: seq<Session>)

  datatype Window = Window(id: string, tabs: seq<Tab>)

  /** The application's windows, in the order the host lists them. */
  type App = seq<Window>

  /** The outcome of connecting to the host. */
  datatype Connection = Refused | Connected(app: App)

  /** 0-based (window, tab, pane) coordinates, as the client reports them. */
  datatype Location = Location(window: nat, tab: nat, pane: nat)

  /** `value or ""`: an unset (or empty) variable reads as the empty string;
      any other value is kept. */
  function OrEmpty(v: Option<string>): (r: string)
    ensures r == "" <==> v == None || v == Some("")
    ensures r != "" ==> v == Some(r)
  {
    match v
    case None => ""
    case Some(s) => s
  }

  predicate ValidLocation(app: App, l: Location) {
    l.window < |app| && l.tab < |app[l.window].tabs|
    && l.pane < |app[l.window].tabs[l.tab].sessions|
  }

  function SessionAt(app: App, l: Location): Session
    requires ValidLocation(app, l)
  {
    app[l.window].tabs[l.tab].sessions[l.pane]
  }

  /** `l` indexes a session of `app` whose id is `id`. */
  predicate IdAt(app: App, l: Location, id: string) {
    ValidLocation(app, l) && SessionAt(app, l).id == id
  }

  /** Some session of `tab` has id `id`. */
  ghost predicate TabHas(tab: Tab, id: string) {
    exists p :: 0 <= p < |tab.sessions| && tab.sessions[p].id == id
  }

  /** Some session anywhere in `app` has id `id`. */
  ghost predicate Occurs(app: App, id: string) {
    exists w, t :: 0 <= w < |app| && 0 <= t < |app[w].tabs| && TabHas(app[w].tabs[t], id)
  }

  /** An id occurs exactly when some location holds it. */
  lemma OccursIffIdAt(app: App, id: string)
    ensures Occurs(app, id) <==> exists l :: IdAt(app, l, id)
  {
    if Occurs(app, id) {
      var w, t :| 0 <= w < |app| && 0 <= t < |app[w].tabs| && TabHas(app[w].tabs[t], id);
      var p :| 0 <= p < |app[w].tabs[t].sessions| && app[w].tabs[t].sessions[p].id == id;
      assert IdAt(app, Location(w, t, p), id);
    }
    if l :| IdAt(app, l, id) {
      assert TabHas(app[l.window].tabs[l.tab], id);
    }
  }

  /** Host session ids are unique: no id labels two positions. */
  ghost predicate UniqueIds(app: App) {
    forall l1: Location, l2: Location ::
      ValidLocation(app, l1) && ValidLocation(app, l2) && SessionAt(app, l1).id == SessionAt(app, l2).id
      ==> l1 == l2
  }
}

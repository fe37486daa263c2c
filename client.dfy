/** The client's commands over a host snapshot: `list_panes`, `read_pane`,
    `get_current_pane`, the `status` report and the `check_api_enabled` test.
    The ambient `ITERM_SESSION_ID` value is passed in as `currentId` (an unset
    variable reads as ""), and the host connection as a `Connection` value. */
module Client {
  import opened Text
  import opened Hierarchy
  import opened Screen
  import opened Locate

  /** The structured error payloads the commands can emit, one per modelled `error`
      code: CONNECTION_FAILED, SESSION_NOT_FOUND, NOT_IN_ITERM, READ_FAILED. */
  datatype Error = ConnectionFailed | SessionNotFound(id: string) | NotInIterm | ReadFailed

  datatype Result<T> = Ok(value: T) | Err(error: Error)

  // ---------------------------------------------------------------- list

  datatype SessionRecord = SessionRecord(
    index: nat, id: string, name: string, tty: string, cwd: string, job: string, isCurrent: bool)

  datatype TabRecord = TabRecord(index: nat, id: string, sessions: seq<SessionRecord>)

  datatype WindowRecord = WindowRecord(index: nat, id: string, tabs: seq<TabRecord>)

  datatype Listing = Listing(currentSessionId: string, windows: seq<WindowRecord>)

  /** `r` is the listing entry for session `s` at 0-based position `index`. */
  predicate DescribesSession(r: SessionRecord, s: Session, index: nat, currentId: string) {
    && r.index == index && r.id == s.id
    && r.name == OrEmpty(s.name) && r.tty == OrEmpty(s.tty)
    && r.cwd == OrEmpty(s.path) && r.job == OrEmpty(s.jobName)
    && (r.isCurrent <==> s.id == currentId)
  }

  predicate DescribesTab(r: TabRecord, tab: Tab, index: nat, currentId: string) {
    && r.index == index && r.id == tab.id
    && |r.sessions| == |tab.sessions|
    && forall p :: 0 <= p < |r.sessions| ==> DescribesSession(r.sessions[p], tab.sessions[p], p, currentId)
  }

  predicate DescribesWindow(r: WindowRecord, window: Window, index: nat, currentId: string) {
    && r.index == index && r.id == window.id
    && |r.tabs| == |window.tabs|
    && forall t :: 0 <= t < |r.tabs| ==> DescribesTab(r.tabs[t], window.tabs[t], t, currentId)
  }

  /** The listing has the snapshot's shape: one window record per window, one tab
      record per tab, one session record per session, each in place. */
  predicate DescribesApp(r: Listing, app: App, currentId: string) {
    && r.currentSessionId == currentId
    && |r.windows| == |app|
    && forall w :: 0 <= w < |r.windows| ==> DescribesWindow(r.windows[w], app[w], w, currentId)
  }

  /** `list_panes`: copies the snapshot into nested records. */
  method ListPanes(conn: Connection, currentId: string) returns (r: Result<Listing>)
    ensures conn.Refused? ==> r == Err(ConnectionFailed)
    ensures conn.Connected? ==> r.Ok? && DescribesApp(r.value, conn.app, currentId)
  {
    if conn.Refused? {
      return Err(ConnectionFailed);
    }
    var app := conn.app;
    var windows: seq<WindowRecord> := [];
    for w := 0 to |app|
      invariant |windows| == w
      invariant forall w' :: 0 <= w' < w ==> DescribesWindow(windows[w'], app[w'], w', currentId)
    {
      var window := app[w];
      var tabs: seq<TabRecord> := [];
      for t := 0 to |window.tabs|
        invariant |tabs| == t
        invariant forall t' :: 0 <= t' < t ==> DescribesTab(tabs[t'], window.tabs[t'], t', currentId)
      {
        var tab := window.tabs[t];
        var sessions: seq<SessionRecord> := [];
        for p := 0 to |tab.sessions|
          invariant |sessions| == p
          invariant forall p' :: 0 <= p' < p ==> DescribesSession(sessions[p'], tab.sessions[p'], p', currentId)
        {
          var s := tab.sessions[p];
          sessions := sessions + [SessionRecord(
            p, s.id, OrEmpty(s.name), OrEmpty(s.tty), OrEmpty(s.path), OrEmpty(s.jobName), s.id == currentId)];
        }
        tabs := tabs + [TabRecord(t, tab.id, sessions)];
      }
      windows := windows + [WindowRecord(w, window.id, tabs)];
    }
    return Ok(Listing(currentId, windows));
  }

  /** The record at (w, t, p) of a listing, when there is one. */
  predicate RecordAt(r: Listing, l: Location) {
    l.window < |r.windows| && l.tab < |r.windows[l.window].tabs|
    && l.pane < |r.windows[l.window].tabs[l.tab].sessions|
  }

  /** One position of a listing: it has a record exactly where the snapshot has
      a session, and that record is flagged current exactly when the session
      there has the current id. */
  lemma ListingAt(r: Listing, app: App, currentId: string, l: Location)
    requires DescribesApp(r, app, currentId)
    ensures RecordAt(r, l) <==> ValidLocation(app, l)
    ensures RecordAt(r, l) ==>
      (r.windows[l.window].tabs[l.tab].sessions[l.pane].isCurrent <==> IdAt(app, l, currentId))
  {
    if l.window < |app| {
      assert DescribesWindow(r.windows[l.window], app[l.window], l.window, currentId);
      if l.tab < |app[l.window].tabs| {
        assert DescribesTab(r.windows[l.window].tabs[l.tab], app[l.window].tabs[l.tab], l.tab, currentId);
      }
    }
  }

  /** A listing flags a session as current exactly where the snapshot holds the
      current id. */
  lemma ListingFlagsCurrent(r: Listing, app: App, currentId: string)
    requires DescribesApp(r, app, currentId)
    ensures forall l :: RecordAt(r, l) <==> ValidLocation(app, l)
    ensures forall l :: RecordAt(r, l) ==>
      (r.windows[l.window].tabs[l.tab].sessions[l.pane].isCurrent <==> IdAt(app, l, currentId))
  {
    forall l
      ensures RecordAt(r, l) <==> ValidLocation(app, l)
      ensures RecordAt(r, l) ==>
        (r.windows[l.window].tabs[l.tab].sessions[l.pane].isCurrent <==> IdAt(app, l, currentId))
    {
      ListingAt(r, app, currentId, l);
    }
  }

  /** The record at `l` of a listing is flagged current. */
  predicate FlaggedAt(r: Listing, l: Location) {
    RecordAt(r, l) && r.windows[l.window].tabs[l.tab].sessions[l.pane].isCurrent
  }

  /** Some record of a listing is flagged current exactly when the current id
      occurs in the snapshot, that is, exactly when `get_current_pane` finds it. */
  lemma SomeFlaggedIffOccurs(r: Listing, app: App, currentId: string)
    requires DescribesApp(r, app, currentId)
    ensures (exists l :: FlaggedAt(r, l)) <==> Occurs(app, currentId)
  {
    OccursIffIdAt(app, currentId);
    if l :| IdAt(app, l, currentId) {
      ListingAt(r, app, currentId, l);
      assert FlaggedAt(r, l);
    }
    if l :| FlaggedAt(r, l) {
      ListingAt(r, app, currentId, l);
    }
  }

  // ---------------------------------------------------------------- read

  datatype PaneContents = PaneContents(
    sessionId: string, name: string, cwd: string, location: Location, contents: string)

  /** What `read_pane` reports once it has settled on the session at `l`. */
  ghost predicate ReadOutcome(app: App, id: string, l: Location, r: Result<PaneContents>)
    requires ValidLocation(app, l)
  {
    var s := SessionAt(app, l);
    match s.screen
    case None => r == Err(ReadFailed)
    case Some(lines) => r == Ok(PaneContents(id, OrEmpty(s.name), OrEmpty(s.path), l, Contents(lines)))
  }

  /** `read_pane`: find the session, read its screen and normalise it. */
  method ReadPane(conn: Connection, id: string) returns (r: Result<PaneContents>)
    ensures conn.Refused? ==> r == Err(ConnectionFailed)
    ensures conn.Connected? && !Occurs(conn.app, id) ==> r == Err(SessionNotFound(id))
    ensures conn.Connected? && Occurs(conn.app, id) ==>
      exists l :: ReadHit(conn.app, id, l) && ReadOutcome(conn.app, id, l, r)
  {
    if conn.Refused? {
      return Err(ConnectionFailed);
    }
    var found := FindForRead(conn.app, id);
    if found.None? {
      return Err(SessionNotFound(id));
    }
    var l := found.value;
    var session := SessionAt(conn.app, l);
    if session.screen.None? {
      r := Err(ReadFailed);
    } else {
      var lines := NormalizeScreen(session.screen.value);
      r := Ok(PaneContents(id, OrEmpty(session.name), OrEmpty(session.path), l, Join(lines)));
    }
    assert ReadOutcome(conn.app, id, l, r);
  }

  // ---------------------------------------------------------------- current

  datatype PaneInfo = PaneInfo(
    sessionId: string, name: string, tty: string, cwd: string, job: string, location: Location)

  /** `get_current_pane`: the current id must be set before the host is consulted. */
  method CurrentPane(currentId: string, conn: Connection) returns (r: Result<PaneInfo>)
    ensures r == Err(NotInIterm) <==> currentId == ""
    ensures currentId != "" && conn.Refused? ==> r == Err(ConnectionFailed)
    ensures currentId != "" && conn.Connected? && !Occurs(conn.app, currentId) ==>
      r == Err(SessionNotFound(currentId))
    ensures currentId != "" && conn.Connected? && Occurs(conn.app, currentId) ==>
      r.Ok? && FirstHit(conn.app, currentId, r.value.location)
      && var s := SessionAt(conn.app, r.value.location);
         r.value == PaneInfo(currentId, OrEmpty(s.name), OrEmpty(s.tty), OrEmpty(s.path),
                             OrEmpty(s.jobName), r.value.location)
  {
    if currentId == "" {
      return Err(NotInIterm);
    }
    if conn.Refused? {
      return Err(ConnectionFailed);
    }
    var found := FindFirst(conn.app, currentId);
    if found.None? {
      return Err(SessionNotFound(currentId));
    }
    var s := SessionAt(conn.app, found.value);
    r := Ok(PaneInfo(currentId, OrEmpty(s.name), OrEmpty(s.tty), OrEmpty(s.path), OrEmpty(s.jobName), found.value));
  }

  // ---------------------------------------------------------------- status

  datatype StatusReport = StatusReport(
    moduleInstalled: bool, apiEnabled: bool, inItermSession: bool, currentSessionId: string, ready: bool)

  /** The `status` payload. Its inputs are whether the iterm2 module imports, the
      reply of the `defaults read` that `check_api_enabled` runs, and the ambient
      current session id. The client is ready exactly when the module imports and
      that reply is a clean exit printing a lone `1`; it runs inside iTerm2 exactly
      when the id is set, which is also when `get_current_pane` gets past its guard. */
  function Status(hasModule: bool, reply: Option<DefaultsReply>, currentSession: string): (r: StatusReport)
    ensures r.ready <==> hasModule && reply.Some? && reply.value.returnCode == 0 && PaddedOne(reply.value.stdout)
    ensures r.apiEnabled <==> reply.Some? && reply.value.returnCode == 0 && PaddedOne(reply.value.stdout)
    ensures r.inItermSession <==> |currentSession| > 0
    ensures r.moduleInstalled == hasModule && r.currentSessionId == currentSession
  {
    var apiEnabled := ApiEnabled(reply);
    StatusReport(hasModule, apiEnabled, currentSession != "", currentSession, hasModule && apiEnabled)
  }

  /** What `defaults read com.googlecode.iterm2 EnableAPIServer` returned. */
  datatype DefaultsReply = DefaultsReply(returnCode: int, stdout: string)

  /** `check_api_enabled`: None stands for the command raising. The API counts as
      enabled exactly when the command exits 0 and prints a lone `1`, whitespace aside. */
  function ApiEnabled(reply: Option<DefaultsReply>): (r: bool)
    ensures r <==> reply.Some? && reply.value.returnCode == 0 && PaddedOne(reply.value.stdout)
  {
    match reply
    case None => false
    case Some(d) => StripIsOneIff(d.stdout); d.returnCode == 0 && Strip(d.stdout) == "1"
  }
}

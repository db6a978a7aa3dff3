/**
 * The event store built by `ParseFile` (ParseUserLog/Program.cs): decoded
 * SHOW_ACTION and GAME_OVER records, each canonicalised, kept in two maps
 * keyed by timestamp. Timestamps are modelled as integers (ticks).
 */
module EventStore {
  import opened Wrappers
  import opened Records

  /** The event name read from the log line; any other name is skipped. */
  datatype EventKind = ShowAction | GameOver | Other

  /** One log line that matched the line and event patterns: its time, event name and decoded payload (None when decoding failed). */
  datatype LogEvent = LogEvent(time: int, kind: EventKind, record: Option<Data>)

  lemma {:induction false} MinExists(s: set<int>)
    requires s != {}
    ensures exists m :: m in s && forall x :: x in s ==> m <= x
    decreases |s|
  {
    if forall y :: y !in s {
      assert false;
    }
    var y :| y in s;
    if s == {y} {
      assert forall x :: x in s ==> y <= x;
    } else {
      MinExists(s - {y});
      var m :| m in s - {y} && forall x :: x in s - {y} ==> m <= x;
      var least := if y < m then y else m;
      forall x | x in s ensures least <= x {
        if x != y {
          assert x in s - {y};
        }
      }
      assert least in s;
    }
  }

  /** The earliest timestamp of a non-empty key set. */
  function MinKey(s: set<int>): (m: int)
    requires s != {}
    ensures m in s && forall x :: x in s ==> m <= x
  {
    MinExists(s);
    var m :| m in s && forall x :: x in s ==> m <= x;
    m
  }

  /** The timestamps in ascending order: `OrderBy(pair => pair.Key)` over a map. */
  function SortedKeys(s: set<int>): (r: seq<int>)
    ensures |r| == |s|
    ensures forall k :: k in r <==> k in s
    ensures forall i, j :: 0 <= i < j < |r| ==> r[i] < r[j]
    decreases |s|
  {
    if s == {} then []
    else
      var m := MinKey(s);
      [m] + SortedKeys(s - {m})
  }

  /** Whether `ParseFile` stores this event in the map for `kind`: it decoded, and every hand in it is valid. */
  predicate StoredAs(e: LogEvent, kind: EventKind)
  {
    kind != Other && e.kind == kind && e.record.Some? && e.record.value.AllHandsValid()
  }

  /** The map for `kind` after the events in order: each stored event overwrites any earlier one at its time. */
  function Ingest(events: seq<LogEvent>, kind: EventKind): map<int, Data>
  {
    if events == [] then map[]
    else
      var m := Ingest(events[..|events| - 1], kind);
      var e := events[|events| - 1];
      if StoredAs(e, kind) then m[e.time := e.record.value] else m
  }

  /** The position of the last event stored in the map for `kind` at time `t`, if any. */
  function LastStored(events: seq<LogEvent>, kind: EventKind, t: int): (r: Option<nat>)
    ensures r.Some? ==> r.value < |events| && StoredAs(events[r.value], kind) && events[r.value].time == t
    ensures r.Some? ==> forall j :: r.value < j < |events| ==> !(StoredAs(events[j], kind) && events[j].time == t)
    ensures r.None? ==> forall j :: 0 <= j < |events| ==> !(StoredAs(events[j], kind) && events[j].time == t)
  {
    if events == [] then None
    else
      var n := |events| - 1;
      if StoredAs(events[n], kind) && events[n].time == t then Some(n)
      else
        assert forall j :: 0 <= j < n ==> events[..n][j] == events[j];
        LastStored(events[..n], kind, t)
  }

  /** A time is a key exactly when some stored event has it, and it maps to the record of the last such event. */
  lemma {:induction false} IngestLastWriteWins(events: seq<LogEvent>, kind: EventKind, t: int)
    ensures t in Ingest(events, kind) <==> LastStored(events, kind, t).Some?
    ensures t in Ingest(events, kind) ==> Ingest(events, kind)[t] == events[LastStored(events, kind, t).value].record.value
  {
    if events != [] {
      var n := |events| - 1;
      IngestLastWriteWins(events[..n], kind, t);
      if !(StoredAs(events[n], kind) && events[n].time == t) && LastStored(events, kind, t).Some? {
        assert events[..n][LastStored(events, kind, t).value] == events[LastStored(events, kind, t).value];
      }
    }
  }

  /** Every record kept in either map has a valid hand for each of its players. */
  lemma IngestStoresValidHands(events: seq<LogEvent>, kind: EventKind)
    ensures forall t :: t in Ingest(events, kind) ==> Ingest(events, kind)[t].AllHandsValid()
  {
    forall t | t in Ingest(events, kind) ensures Ingest(events, kind)[t].AllHandsValid() {
      IngestLastWriteWins(events, kind, t);
    }
  }

  /** Every object a decoded record of the stream may have written. */
  ghost function Footprint(events: seq<LogEvent>): set<object>
  {
    set e, o | e in events && e.record.Some? && o in e.record.value.Repr() :: o
  }

  /** Each decoded record owns its table and player objects: the decoder builds fresh objects per line. */
  ghost predicate SeparateRecords(events: seq<LogEvent>)
  {
    forall i, j :: 0 <= i < j < |events| && events[i].record.Some? && events[j].record.Some? ==>
      events[i].record.value.Repr() !! events[j].record.value.Repr()
  }

  /** The records of earlier events own none of the objects of a later one. */
  lemma {:induction false} LaterRecordSeparate(events: seq<LogEvent>, i: nat)
    requires SeparateRecords(events) && i < |events| && events[i].record.Some?
    ensures events[i].record.value.Repr() !! Footprint(events[..i])
  {
    forall o | o in Footprint(events[..i])
      ensures o !in events[i].record.value.Repr()
    {
      var e :| e in events[..i] && e.record.Some? && o in e.record.value.Repr();
      var k :| 0 <= k < i && events[k] == e;
    }
  }

  /** The footprint grows by the objects of the next record. */
  lemma FootprintGrows(events: seq<LogEvent>, i: nat)
    requires i < |events|
    ensures Footprint(events[..i]) <= Footprint(events[..i + 1])
    ensures events[i].record.Some? ==> events[i].record.value.Repr() <= Footprint(events[..i + 1])
  {
    assert events[i] in events[..i + 1];
    assert forall e :: e in events[..i] ==> e in events[..i + 1];
  }

  /**
   * The body of `ParseFile` for one decoded event: a SHOW_ACTION or
   * GAME_OVER record is canonicalised and, when every hand is valid,
   * stored at its time in the map for its kind; the records already
   * stored, which own none of its objects, stay canonicalised.
   */
  method IngestEvent(e: LogEvent, showAction: map<int, Data>, gameOver: map<int, Data>)
    returns (showAction': map<int, Data>, gameOver': map<int, Data>)
    requires forall t :: t in showAction ==> showAction[t].Canonicalised()
    requires forall t :: t in gameOver ==> gameOver[t].Canonicalised()
    requires e.record.Some? ==> forall t :: t in showAction ==> showAction[t].Repr() !! e.record.value.Repr()
    requires e.record.Some? ==> forall t :: t in gameOver ==> gameOver[t].Repr() !! e.record.value.Repr()
    modifies if e.kind != Other && e.record.Some? then e.record.value.Repr() else {}
    ensures showAction' == if StoredAs(e, ShowAction) then showAction[e.time := e.record.value] else showAction
    ensures gameOver' == if StoredAs(e, GameOver) then gameOver[e.time := e.record.value] else gameOver
    ensures forall t :: t in showAction' ==> showAction'[t].Canonicalised()
    ensures forall t :: t in gameOver' ==> gameOver'[t].Canonicalised()
  {
    showAction', gameOver' := showAction, gameOver;
    if e.kind == Other || e.record.None? {
      return;
    }
    var data := e.record.value;
    var ok := data.Canonicalize();
    if ok {
      if e.kind == ShowAction {
        showAction' := showAction[e.time := data];
      } else {
        gameOver' := gameOver[e.time := data];
      }
    }
  }

  /**
   * `ParseFile`: canonicalises every decoded SHOW_ACTION and GAME_OVER
   * record and keeps the accepted ones, by timestamp, in the map for its
   * kind; a later record at the same time replaces the earlier one. The
   * file is deleted when both maps are empty.
   */
  method ParseFile(events: seq<LogEvent>) returns (showAction: map<int, Data>, gameOver: map<int, Data>, delete: bool)
    requires SeparateRecords(events)
    modifies Footprint(events)
    ensures showAction == Ingest(events, ShowAction)
    ensures gameOver == Ingest(events, GameOver)
    ensures forall t :: t in showAction ==> showAction[t].Canonicalised()
    ensures forall t :: t in gameOver ==> gameOver[t].Canonicalised()
    ensures delete <==> showAction == map[] && gameOver == map[]
  {
    showAction, gameOver := map[], map[];
    var i := 0;
    while i < |events|
      invariant 0 <= i <= |events|
      invariant showAction == Ingest(events[..i], ShowAction)
      invariant gameOver == Ingest(events[..i], GameOver)
      invariant forall t :: t in showAction ==> showAction[t].Canonicalised() && showAction[t].Repr() <= Footprint(events[..i])
      invariant forall t :: t in gameOver ==> gameOver[t].Canonicalised() && gameOver[t].Repr() <= Footprint(events[..i])
    {
      assert events[..i + 1][..i] == events[..i];
      FootprintGrows(events, i);
      if events[i].record.Some? {
        LaterRecordSeparate(events, i);
      }
      showAction, gameOver := IngestEvent(events[i], showAction, gameOver);
      i := i + 1;
    }
    assert events[..i] == events;
    delete := |showAction| == 0 && |gameOver| == 0;
  }
}

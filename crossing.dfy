/**
 * The railway-crossing repository: it turns the "current" record of the
 * crossing into the five display strings, turns the stored history into
 * newest-first event lines, and falls back to a loading state when the
 * record is missing, the listener is cancelled or a field cannot be read.
 * Database snapshots are plain values here; the wall-clock stamp of the last
 * update is a parameter.
 */
module Crossing {
  import opened Text
  import opened Numbers

  // ---------------------------------------------------------------------------
  // Snapshot values

  /** What one child of a snapshot holds, by the JVM type the database hands back. */
  datatype Value =
    | Absent            // no such child
    | Str(s: string)
    | Long(n: int)
    | Double(d: real)
    | Other             // a Boolean, a nested object or a list

  /** A typed read of a child either yields a value or raises. */
  datatype Read<T> = Got(value: T) | Raised

  /** `getValue(String::class.java) ?: default`: only a string (or nothing) can be read as a string. */
  function ReadString(v: Value, default: string): Read<string>
  {
    match v
    case Absent => Got(default)
    case Str(s) => Got(s)
    case _ => Raised
  }

  const LongMin: int := -0x8000_0000_0000_0000
  const LongMax: int := 0x7FFF_FFFF_FFFF_FFFF

  /** `getValue(Long::class.java) ?: 0L`: a long, or a double within the long range, can be read. */
  function ReadLong(v: Value): Read<int>
  {
    match v
    case Absent => Got(0)
    case Long(n) => Got(n)
    case Double(d) => if LongMin as real <= d <= LongMax as real then Got(Truncate(d)) else Raised
    case _ => Raised
  }

  // ---------------------------------------------------------------------------
  // Lookup tables

  /** `eventMap`: event codes to the train status shown for them. */
  const EventLabels: map<string, string> := map[
    "train_detected" := "Train Approaching",
    "speed_calculated" := "Train Moving towards Gate",
    "train_crossed" := "Train Crossed",
    "system_reset" := "No Train Nearby",
    "gate_opened" := "Gate Opened",
    "gate_closed" := "Gate Closed",
    "gate_opening" := "Gate Opening",
    "gate_closing" := "Gate Closing"
  ]

  /** `gateMap`: gate codes to the gate status shown for them. */
  const GateLabels: map<string, string> := map[
    "opening" := "Opening",
    "closed" := "Closed",
    "closing" := "Closing"
  ]

  const UnknownEvent := "Unknown Event"
  const Loading := "Loading Update..."
  const Zero := "0.00"

  // ---------------------------------------------------------------------------
  // The current record

  /** The `RailwayGate/current` record; `sensor` is left out, it is never read with a type. */
  datatype CurrentRecord = CurrentRecord(
    event: Value,
    gateStatus: Value,
    direction: Value,
    speedKmh: Value,
    etaSec: Value,
    timestamp: Value)

  /** The four strings derived from one record (the fifth, the update time, is the clock's). */
  datatype Display = Display(trainStatus: string, gateStatus: string, speed: string, eta: string)

  function TrainStatusText(event: string): string
  {
    if event in EventLabels then EventLabels[event] else UnknownEvent
  }

  /** Events after which no train is near: speed and ETA are shown as zero. */
  predicate ClearsTrain(event: string)
  {
    event == "train_crossed" || event == "system_reset"
  }

  /**
   * The gate status: "Open" after a reset whatever the gate reports, the
   * table's label for a known code, otherwise the code with its first
   * letter upper-cased.
   */
  function GateStatusText(event: string, gate: string): (t: string)
    ensures event == "system_reset" ==> t == "Open"
    ensures event != "system_reset" && gate in GateLabels ==> t == GateLabels[gate]
    ensures event != "system_reset" && gate !in GateLabels ==>
              |t| == |gate| && (gate != [] ==> t[0] == UpperChar(gate[0]) && t[1..] == gate[1..])
  {
    if event == "system_reset" then "Open"
    else if gate in GateLabels then GateLabels[gate]
    else CapitalizeFirst(gate)
  }

  /** Speed or ETA as text, by the type the database delivered. */
  function NumberText(v: Value): string
  {
    match v
    case Double(d) => Fixed2(d)
    case Long(n) => LongToDoubleString(n)
    case Str(s) => s
    case _ => Zero
  }

  /**
   * `processLatestLog` without its side effects: `Raised` when one of the
   * typed reads raises (the repository then shows its defaults), otherwise
   * the display strings.
   */
  function Reconcile(rec: CurrentRecord): (r: Read<Display>)
    ensures r.Got? <==>
      ReadString(rec.event, "system_reset").Got? && ReadString(rec.gateStatus, "opening").Got?
      && ReadString(rec.direction, "").Got? && ReadLong(rec.timestamp).Got?
    ensures r.Got? ==>
      var e := ReadString(rec.event, "system_reset").value;
      && r.value.trainStatus == (if e in EventLabels then EventLabels[e] else UnknownEvent)
      && r.value.gateStatus == GateStatusText(e, ReadString(rec.gateStatus, "opening").value)
      && (ClearsTrain(e) ==> r.value.speed == Zero && r.value.eta == Zero)
      && (!ClearsTrain(e) ==> r.value.speed == NumberText(rec.speedKmh) && r.value.eta == NumberText(rec.etaSec))
  {
    match (ReadString(rec.event, "system_reset"), ReadString(rec.gateStatus, "opening"),
           ReadString(rec.direction, ""), ReadLong(rec.timestamp))
    case (Got(event), Got(gate), Got(_), Got(_)) =>
      var speed := NumberText(rec.speedKmh);
      var eta := NumberText(rec.etaSec);
      Got(Display(
        TrainStatusText(event),
        GateStatusText(event, gate),
        if ClearsTrain(event) then Zero else speed,
        if ClearsTrain(event) then Zero else eta))
    case _ => Raised
  }

  /** A record with no fields at all reads as a reset: no train, gate open, zeros. */
  lemma EmptyRecordShowsNoTrain()
    ensures Reconcile(CurrentRecord(Absent, Absent, Absent, Absent, Absent, Absent))
            == Got(Display("No Train Nearby", "Open", Zero, Zero))
  {
  }

  /** The train status is one of the eight labels, each for its own event code, or "Unknown Event". */
  lemma TrainStatusCases(e: string)
    ensures var t := TrainStatusText(e);
      && (e == "train_detected" <==> t == "Train Approaching")
      && (e == "speed_calculated" <==> t == "Train Moving towards Gate")
      && (e == "train_crossed" <==> t == "Train Crossed")
      && (e == "system_reset" <==> t == "No Train Nearby")
      && (e == "gate_opened" <==> t == "Gate Opened")
      && (e == "gate_closed" <==> t == "Gate Closed")
      && (e == "gate_opening" <==> t == "Gate Opening")
      && (e == "gate_closing" <==> t == "Gate Closing")
      && (e !in EventLabels <==> t == UnknownEvent)
  {
    if e in EventLabels {
      assert e in {"train_detected", "speed_calculated", "train_crossed", "system_reset",
                   "gate_opened", "gate_closed", "gate_opening", "gate_closing"};
    }
  }

  /** Each cleared status names exactly one event, and no event is shown as "Loading Update...". */
  lemma TrainStatusIdentifiesEvent(e: string)
    ensures TrainStatusText(e) == "Train Crossed" <==> e == "train_crossed"
    ensures TrainStatusText(e) == "No Train Nearby" <==> e == "system_reset"
    ensures TrainStatusText(e) != Loading
  {
    if e in EventLabels {
      assert e in {"train_detected", "speed_calculated", "train_crossed", "system_reset",
                   "gate_opened", "gate_closed", "gate_opening", "gate_closing"};
    }
  }

  /**
   * How speed and ETA are rendered: a double as `%.2f` text that reads back
   * as the rounded value, a long as `Double.toString` text that reads back
   * exactly (for magnitudes below 10^7) but has one decimal, not two, a
   * string verbatim, anything else as "0.00".
   */
  lemma NumberTextReadsBack(v: Value)
    ensures v.Double? ==> IsTwoDecimal(NumberText(v)) && ParseFloat(NumberText(v)) == Some(Round2(v.d))
    ensures v.Long? && -10000000 < v.n < 10000000 ==>
              ParseFloat(NumberText(v)) == Some(v.n as real) && !IsTwoDecimal(NumberText(v))
    ensures v.Str? ==> NumberText(v) == v.s
    ensures !(v.Double? || v.Long? || v.Str?) ==> NumberText(v) == Zero
  {
    match v
    case Double(d) => Fixed2ParsesBack(d);
    case Long(n) =>
      if -10000000 < n < 10000000 {
        LongToDoubleStringParsesBack(n);
        LongTextHasOneDecimal(n);
      }
    case _ =>
  }

  lemma LongTextHasOneDecimal(n: int)
    requires -10000000 < n < 10000000
    ensures !IsTwoDecimal(LongToDoubleString(n))
  {
    var m := if n < 0 then -n else n;
    var b := PlainDoubleString(m);
    assert b == NatToString(m) + ".0";
    assert b[|b| - 2] == '.';
    var s := LongToDoubleString(n);
    assert s[|s| - 2] == '.';
    assert s[|s| - 3] != '.' by {
      if n < 0 { assert s == "-" + b; } else { assert s == b; }
      assert s[|s| - 3] == b[|b| - 3];
      assert b[|b| - 3] == NatToString(m)[|NatToString(m)| - 1];
    }
  }

  // ---------------------------------------------------------------------------
  // The history log

  /** One child of `RailwayGate/history`. */
  datatype HistoryRecord = HistoryRecord(datetime: Value, event: Value, gateStatus: Value)

  /** One line of the event log. */
  datatype Event = Event(timestamp: string, description: string)

  /**
   * An event code without a table entry, made readable: underscores become
   * spaces and the first letter of every space-separated word is upper-cased.
   */
  function Humanize(code: string): string
  {
    CapitalizeWords(ReplaceChar(code, '_', ' '))
  }

  /** Position by position: an underscore reads as a space, and a letter after a separator or at the start is upper-cased. */
  lemma HumanizeAt(code: string)
    ensures |Humanize(code)| == |code|
    ensures forall i :: 0 <= i < |code| ==>
      var c := if code[i] == '_' then ' ' else code[i];
      Humanize(code)[i] == if i == 0 || code[i - 1] == '_' || code[i - 1] == ' ' then UpperChar(c) else c
  {
    var spaced := ReplaceChar(code, '_', ' ');
    CapitalizeWordsAt(spaced);
    forall i | 0 <= i < |code|
      ensures var c := if code[i] == '_' then ' ' else code[i];
        Humanize(code)[i] == if i == 0 || code[i - 1] == '_' || code[i - 1] == ' ' then UpperChar(c) else c
    {
      assert spaced[i] == if code[i] == '_' then ' ' else code[i];
      if i > 0 { assert spaced[i - 1] == ' ' <==> code[i - 1] == '_' || code[i - 1] == ' '; }
      assert Humanize(code)[i] == if i == 0 || spaced[i - 1] == ' ' then UpperChar(spaced[i]) else spaced[i];
    }
  }

  /** One position of `HumanizeAt`. */
  lemma HumanizeCharAt(code: string, i: int)
    requires 0 <= i < |code|
    ensures |Humanize(code)| == |code|
    ensures var c := if code[i] == '_' then ' ' else code[i];
      Humanize(code)[i] == if i == 0 || code[i - 1] == '_' || code[i - 1] == ' ' then UpperChar(c) else c
  {
    HumanizeAt(code);
  }

  /** An unmapped code such as "foo_bar_baz" is shown as "Foo Bar Baz". */
  lemma HumanizeExample()
    ensures Humanize("foo_bar_baz") == "Foo Bar Baz"
  {
    HumanizeSpelledOut("foo_bar_baz");
  }

  lemma HumanizeSpelledOut(code: string)
    requires code == "foo_bar_baz"
    ensures Humanize(code) == "Foo Bar Baz"
  {
    HumanizeAt(code);
    var r := Humanize(code);
    var want := "Foo Bar Baz";
    forall i | 0 <= i < |code| ensures r[i] == want[i] {
      HumanizeCharAt(code, i);
    }
  }

  function EventText(code: string): string
  {
    if code in EventLabels then EventLabels[code] else Humanize(code)
  }

  function GateLabelOrCode(gate: string): string
  {
    if gate in GateLabels then GateLabels[gate] else gate
  }

  /**
   * The description of a history entry: the event text, followed by
   * " - Gate: " and the gate label when a gate status is present and the
   * event is not itself a gate event. It is empty exactly when both the
   * event code and the gate status are.
   */
  function Describe(code: string, gate: string): (d: string)
    ensures d == [] <==> code == [] && gate == []
  {
    HumanizeAt(code);
    assert |EventText(code)| == 0 <==> code == [];
    if gate != [] && !StartsWith(code, "gate_") then EventText(code) + " - Gate: " + GateLabelOrCode(gate)
    else EventText(code)
  }

  /**
   * One child of the history as an entry of the log: `None` when a field
   * read raises (the child is skipped) or when the date or the description
   * is empty.
   */
  function ToEvent(rec: HistoryRecord): (r: Option<Event>)
    ensures r.Some? <==>
      && ReadString(rec.datetime, "").Got? && ReadString(rec.event, "").Got? && ReadString(rec.gateStatus, "").Got?
      && ReadString(rec.datetime, "").value != []
      && (ReadString(rec.event, "").value != [] || ReadString(rec.gateStatus, "").value != [])
    ensures r.Some? ==> r.value.timestamp != [] && r.value.description != []
  {
    match (ReadString(rec.datetime, ""), ReadString(rec.event, ""), ReadString(rec.gateStatus, ""))
    case (Got(datetime), Got(event), Got(gate)) =>
      var description := Describe(event, gate);
      if description != [] && datetime != [] then Some(Event(datetime, description)) else None
    case _ => None
  }

  /** The entries kept from the children, in storage order. */
  function KeptEvents(children: seq<HistoryRecord>): seq<Event>
  {
    if children == [] then []
    else
      var prefix := KeptEvents(children[..|children| - 1]);
      match ToEvent(children[|children| - 1])
      case Some(e) => prefix + [e]
      case None => prefix
  }

  function Reverse<T>(s: seq<T>): (r: seq<T>)
    ensures |r| == |s|
    ensures forall k :: 0 <= k < |s| ==> r[k] == s[|s| - 1 - k]
  {
    if s == [] then [] else [s[|s| - 1]] + Reverse(s[..|s| - 1])
  }

  /** The event log the history listener posts: the kept entries, newest first. */
  function HistoryView(children: seq<HistoryRecord>): seq<Event>
  {
    Reverse(KeptEvents(children))
  }

  /**
   * The history listener's loop: each child is read in storage order, kept
   * entries are appended, and the list is reversed at the end.
   */
  method ProjectHistory(children: seq<HistoryRecord>) returns (events: seq<Event>)
    ensures events == HistoryView(children)
  {
    var kept: seq<Event> := [];
    var i := 0;
    while i < |children|
      invariant 0 <= i <= |children|
      invariant kept == KeptEvents(children[..i])
    {
      assert children[..i + 1][..i] == children[..i];
      match ToEvent(children[i]) {
        case Some(e) => kept := kept + [e];
        case None =>
      }
      i := i + 1;
    }
    assert children[..|children|] == children;
    events := Reverse(kept);
  }

  /** Every child's projection, in storage order. */
  function Projections(children: seq<HistoryRecord>): (r: seq<Option<Event>>)
    ensures |r| == |children| && forall j :: 0 <= j < |children| ==> r[j] == ToEvent(children[j])
  {
    seq(|children|, j requires 0 <= j < |children| => ToEvent(children[j]))
  }

  /** Every line of the log comes from a child that was read in full and had a date and a description. */
  lemma {:induction false} KeptEventsFromChildren(children: seq<HistoryRecord>)
    ensures |KeptEvents(children)| <= |children|
    ensures forall e :: e in KeptEvents(children) <==> Some(e) in Projections(children)
  {
    if children != [] {
      var init := children[..|children| - 1];
      var last := ToEvent(children[|children| - 1]);
      KeptEventsFromChildren(init);
      assert KeptEvents(children) == KeptEvents(init) + (if last.Some? then [last.value] else []);
      assert Projections(children) == Projections(init) + [last];
    }
  }

  /** Reversal keeps the elements. */
  lemma ReverseMembers<T>(s: seq<T>)
    ensures forall x :: x in Reverse(s) <==> x in s
  {
    var r := Reverse(s);
    forall x ensures x in r <==> x in s {
      if x in r {
        var k :| 0 <= k < |r| && r[k] == x;
        assert s[|s| - 1 - k] == x;
      }
      if x in s {
        var k :| 0 <= k < |s| && s[k] == x;
        assert r[|s| - 1 - k] == x;
      }
    }
  }

  /**
   * The log holds at most one line per child, every line has a date and a
   * description, and a line is in the log exactly when some child projects
   * to it.
   */
  lemma HistoryViewFacts(children: seq<HistoryRecord>)
    ensures |HistoryView(children)| <= |children|
    ensures forall e :: e in HistoryView(children) <==> exists j :: 0 <= j < |children| && ToEvent(children[j]) == Some(e)
    ensures forall e :: e in HistoryView(children) ==> e.timestamp != [] && e.description != []
  {
    KeptEventsFromChildren(children);
    ReverseMembers(KeptEvents(children));
    var p := Projections(children);
    forall e ensures e in HistoryView(children) <==> exists j :: 0 <= j < |children| && ToEvent(children[j]) == Some(e) {
      if j :| 0 <= j < |children| && ToEvent(children[j]) == Some(e) {
        assert p[j] == Some(e);
      }
    }
    forall e | e in HistoryView(children) ensures e.timestamp != [] && e.description != [] {
      var j :| 0 <= j < |p| && p[j] == Some(e);
    }
  }

  /** Newest first: a newer child that is kept goes in front of everything older. */
  lemma HistoryViewNewestFirst(children: seq<HistoryRecord>, newer: HistoryRecord)
    ensures HistoryView(children + [newer])
            == match ToEvent(newer) case Some(e) => [e] + HistoryView(children) case None => HistoryView(children)
  {
    assert (children + [newer])[..|children|] == children;
    var kept := KeptEvents(children);
    match ToEvent(newer) {
      case Some(e) =>
        assert (kept + [e])[..|kept|] == kept;
      case None =>
    }
  }

  // ---------------------------------------------------------------------------
  // The repository's state

  /** The six values the repository posts for the home screen. */
  class CrossingRepository {
    var trainStatus: string
    var gateStatus: string
    var currentSpeed: string
    var etaToGate: string
    var lastUpdate: string
    var eventLog: seq<Event>

    /**
     * The shown status is coherent: whenever it says no train is moving
     * (crossed, reset, or still loading) speed and ETA read zero, and after a
     * reset the gate reads "Open".
     */
    ghost predicate Valid()
      reads this
    {
      && (trainStatus == "Train Crossed" || trainStatus == "No Train Nearby" || trainStatus == Loading
          ==> currentSpeed == Zero && etaToGate == Zero)
      && (trainStatus == "No Train Nearby" ==> gateStatus == "Open")
    }

    ghost predicate ShowsDefaults()
      reads this
    {
      && trainStatus == Loading && gateStatus == Loading
      && currentSpeed == Zero && etaToGate == Zero
      && lastUpdate == "--" && eventLog == []
    }

    ghost predicate Shows(d: Display)
      reads this
    {
      trainStatus == d.trainStatus && gateStatus == d.gateStatus && currentSpeed == d.speed && etaToGate == d.eta
    }

    /** The repository starts out showing its defaults. */
    constructor ()
      ensures ShowsDefaults() && Valid()
    {
      trainStatus, gateStatus := Loading, Loading;
      currentSpeed, etaToGate := Zero, Zero;
      lastUpdate, eventLog := "--", [];
    }

    /** `setDefaultValues`: the loading state, zeros, no update time, an empty log. */
    method SetDefaultValues()
      modifies this
      ensures ShowsDefaults() && Valid()
    {
      trainStatus, gateStatus := Loading, Loading;
      currentSpeed, etaToGate := Zero, Zero;
      lastUpdate, eventLog := "--", [];
    }

    /** `processLatestLog`: show the record's display and the time, or the defaults when a read raises. */
    method ProcessLatestLog(rec: CurrentRecord, now: string)
      requires Valid()
      modifies this
      ensures Valid()
      ensures Reconcile(rec).Got? ==>
                Shows(Reconcile(rec).value) && lastUpdate == now && eventLog == old(eventLog)
      ensures Reconcile(rec).Raised? ==> ShowsDefaults()
    {
      match Reconcile(rec) {
        case Got(d) =>
          TrainStatusIdentifiesEvent(ReadString(rec.event, "system_reset").value);
          trainStatus := d.trainStatus;
          gateStatus := d.gateStatus;
          currentSpeed := d.speed;
          etaToGate := d.eta;
          lastUpdate := now;
        case Raised =>
          SetDefaultValues();
      }
    }

    /** The current-record listener: a missing record shows the defaults, a present one is processed. */
    method OnCurrentData(snapshot: Option<CurrentRecord>, now: string)
      requires Valid()
      modifies this
      ensures Valid()
      ensures snapshot.None? ==> ShowsDefaults()
      ensures snapshot.Some? && Reconcile(snapshot.value).Got? ==>
                Shows(Reconcile(snapshot.value).value) && lastUpdate == now && eventLog == old(eventLog)
      ensures snapshot.Some? && Reconcile(snapshot.value).Raised? ==> ShowsDefaults()
    {
      if snapshot.None? {
        SetDefaultValues();
        return;
      }
      ProcessLatestLog(snapshot.value, now);
    }

    /** A cancelled current-record listener shows the defaults. */
    method OnCurrentCancelled()
      modifies this
      ensures ShowsDefaults() && Valid()
    {
      SetDefaultValues();
    }

    /** The history listener replaces the event log and nothing else. */
    method OnHistoryData(children: seq<HistoryRecord>)
      requires Valid()
      modifies this
      ensures Valid()
      ensures eventLog == HistoryView(children)
      ensures trainStatus == old(trainStatus) && gateStatus == old(gateStatus)
      ensures currentSpeed == old(currentSpeed) && etaToGate == old(etaToGate) && lastUpdate == old(lastUpdate)
    {
      eventLog := ProjectHistory(children);
    }
  }
}

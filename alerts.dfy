/**
 * The alerts screen's view model: the last alert list received, the chosen
 * filter, and the filtered list it publishes.
 */
module Alerts {
  import opened Text

  /** An alert as stored; `isRead` defaults to false when an alert is made. */
  datatype Alert = Alert(
    id: string,
    title: string,
    message: string,
    timestamp: string,
    priority: string,
    alertType: string,
    isRead: bool)

  function NewAlert(id: string, title: string, message: string, timestamp: string, priority: string, alertType: string): (a: Alert)
    ensures !a.isRead
    ensures a.id == id && a.title == title && a.message == message
    ensures a.timestamp == timestamp && a.priority == priority && a.alertType == alertType
  {
    Alert(id, title, message, timestamp, priority, alertType, false)
  }

  /** The alerts whose read flag is `read`, in their original order. */
  function Select(alerts: seq<Alert>, read: bool): seq<Alert>
  {
    if alerts == [] then []
    else (if alerts[0].isRead == read then [alerts[0]] else []) + Select(alerts[1..], read)
  }

  /** "Active" shows the unread alerts, "History" the read ones, "All" and anything else every alert. */
  function Filtered(alerts: seq<Alert>, filter: string): seq<Alert>
  {
    if filter == "Active" then Select(alerts, false)
    else if filter == "History" then Select(alerts, true)
    else alerts
  }

  // ---------------------------------------------------------------------------
  // Subsequences

  /** `idx` picks, in increasing positions of `ys`, the elements of `xs` one by one. */
  ghost predicate IsEmbedding(idx: seq<nat>, xs: seq<Alert>, ys: seq<Alert>)
  {
    && |idx| == |xs|
    && (forall i, j :: 0 <= i < j < |idx| ==> idx[i] < idx[j])
    && (forall i :: 0 <= i < |idx| ==> idx[i] < |ys| && xs[i] == ys[idx[i]])
  }

  /** `xs` is `ys` with some elements left out and the rest kept in order. */
  ghost predicate IsSubsequence(xs: seq<Alert>, ys: seq<Alert>)
  {
    exists idx :: IsEmbedding(idx, xs, ys)
  }

  // ---------------------------------------------------------------------------
  // What the filters keep

  /** An alert is selected exactly when it is in the list and its read flag matches. */
  lemma {:induction false} SelectMembers(alerts: seq<Alert>, read: bool)
    ensures forall a :: a in Select(alerts, read) <==> a in alerts && a.isRead == read
  {
    if alerts != [] {
      SelectMembers(alerts[1..], read);
      assert alerts == [alerts[0]] + alerts[1..];
    }
  }

  function Shift(idx: seq<nat>): (r: seq<nat>)
    ensures |r| == |idx| && forall i :: 0 <= i < |idx| ==> r[i] == idx[i] + 1
  {
    seq(|idx|, i requires 0 <= i < |idx| => idx[i] + 1)
  }

  /** An embedding into the tail of `ys`, shifted by one, is an embedding into `ys` that avoids position 0. */
  lemma ShiftEmbedding(idx: seq<nat>, xs: seq<Alert>, ys: seq<Alert>)
    requires ys != [] && IsEmbedding(idx, xs, ys[1..])
    ensures IsEmbedding(Shift(idx), xs, ys)
    ensures IsEmbedding([0] + Shift(idx), [ys[0]] + xs, ys)
  {
    var r := Shift(idx);
    forall i | 0 <= i < |r| ensures r[i] < |ys| && xs[i] == ys[r[i]] {
      assert ys[1..][idx[i]] == ys[idx[i] + 1];
    }
    var c := [0] + r;
    forall i, j | 0 <= i < j < |c| ensures c[i] < c[j] {
      assert c[j] == r[j - 1];
      if i > 0 { assert c[i] == r[i - 1]; }
    }
    forall i | 0 <= i < |c| ensures c[i] < |ys| && ([ys[0]] + xs)[i] == ys[c[i]] {
      if i > 0 { assert c[i] == r[i - 1]; }
    }
  }

  /** The selected alerts keep their order: the positions they came from, in increasing order. */
  lemma {:induction false} SelectEmbedding(alerts: seq<Alert>, read: bool) returns (idx: seq<nat>)
    ensures IsEmbedding(idx, Select(alerts, read), alerts)
  {
    if alerts == [] {
      idx := [];
    } else {
      var rest := SelectEmbedding(alerts[1..], read);
      ShiftEmbedding(rest, Select(alerts[1..], read), alerts);
      if alerts[0].isRead == read {
        idx := [0] + Shift(rest);
      } else {
        idx := Shift(rest);
      }
    }
  }

  lemma SelectInOrder(alerts: seq<Alert>, read: bool)
    ensures IsSubsequence(Select(alerts, read), alerts)
  {
    var idx := SelectEmbedding(alerts, read);
  }

  /**
   * The unread and the read alerts split the list: every alert lands in
   * exactly one of the two, so their lengths add up and together they hold
   * the list's alerts with their multiplicities.
   */
  lemma {:induction false} SelectPartition(alerts: seq<Alert>)
    ensures |Select(alerts, false)| + |Select(alerts, true)| == |alerts|
    ensures multiset(Select(alerts, false)) + multiset(Select(alerts, true)) == multiset(alerts)
  {
    if alerts != [] {
      SelectPartition(alerts[1..]);
      assert alerts == [alerts[0]] + alerts[1..];
    }
  }

  /** What each filter publishes, as the screen's tabs promise. */
  lemma FilteredCases(alerts: seq<Alert>, filter: string)
    ensures filter == "Active" ==>
      (forall a :: a in Filtered(alerts, filter) <==> a in alerts && !a.isRead)
      && IsSubsequence(Filtered(alerts, filter), alerts)
    ensures filter == "History" ==>
      (forall a :: a in Filtered(alerts, filter) <==> a in alerts && a.isRead)
      && IsSubsequence(Filtered(alerts, filter), alerts)
    ensures filter != "Active" && filter != "History" ==> Filtered(alerts, filter) == alerts
  {
    SelectMembers(alerts, false);
    SelectMembers(alerts, true);
    SelectInOrder(alerts, false);
    SelectInOrder(alerts, true);
  }

  // ---------------------------------------------------------------------------
  // The view model

  class AlertsViewModel {
    var currentFilter: string
    var allAlerts: seq<Alert>
    /** The published list; `None` until something has been published. */
    var shown: Option<seq<Alert>>

    /** Whatever is published is the current filter applied to the stored list. */
    ghost predicate Valid()
      reads this
    {
      shown.Some? ==> shown.value == Filtered(allAlerts, currentFilter)
    }

    constructor ()
      ensures Valid()
      ensures currentFilter == "Active" && allAlerts == [] && shown == None
    {
      currentFilter := "Active";
      allAlerts := [];
      shown := None;
    }

    /** `applyFilter`: publish the filtered list. */
    method ApplyFilter(alerts: seq<Alert>, filter: string)
      modifies this
      ensures shown == Some(Filtered(alerts, filter))
      ensures currentFilter == old(currentFilter) && allAlerts == old(allAlerts)
    {
      shown := Some(Filtered(alerts, filter));
    }

    /** `filterAlerts`: remember the filter and apply it to the stored list. */
    method FilterAlerts(filter: string)
      modifies this
      ensures Valid()
      ensures currentFilter == filter && allAlerts == old(allAlerts)
      ensures shown == Some(Filtered(allAlerts, filter))
    {
      currentFilter := filter;
      ApplyFilter(allAlerts, filter);
    }

    /** The source callback: store the new list and apply the unchanged filter to it. */
    method OnAlerts(alerts: seq<Alert>)
      modifies this
      ensures Valid()
      ensures allAlerts == alerts && currentFilter == old(currentFilter)
      ensures shown == Some(Filtered(alerts, currentFilter))
    {
      allAlerts := alerts;
      ApplyFilter(alerts, currentFilter);
    }
  }
}

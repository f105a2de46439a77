/** The temporary-channel sweep: which channels are temporary, how long a
    channel has been idle (judged from its own history, discounting the
    bot's messages), whether its newest message is the bot's deletion
    warning, and the warn-then-delete decision built from those.

    The platform is modelled by `Channel`: its history (oldest message
    first), a `deleted` flag and the log of messages the sweep posted.
    "Now" is a parameter, and message fetches fail where a `Faults` value
    says they do. */
module ChannelManagement {
  import opened Options

  /** A platform account id; `me` below is the bot's own. */
  type UserId = nat

  datatype ChannelKind = Text | Voice

  /** A message of a channel's history. The platform's RFC 3339 timestamp
      appears already parsed, as seconds; `None` is a timestamp that does
      not parse. */
  datatype Message = Message(author: UserId, timestamp: Option<int>, content: string)

  /** What the sweep can post: the filler message or the deletion warning. */
  datatype Outgoing = Filler | Warning

  /** Which message fetches of one run fail. Fetch step 0 is the request for
      the most recent message made by the inactivity walk; step k >= 1 is the
      walk's k-th "message before" request. Only the first failing step
      matters, because the walk stops there. `warningFetchFails` is the
      separate most-recent request of the warning lookup. */
  datatype Faults = Faults(walkFailAt: Option<nat>, warningFetchFails: bool)

  /** What one run does to a channel: the messages it posts, in order, and
      whether it deletes the channel. */
  datatype Effects = Effects(sent: seq<Outgoing>, delete: bool)

  /** The text a warning starts with; it is how a later run recognises it. */
  const WarningPrefix: string := "WARNING CHANNEL DELETION IMMINENT!"

  const SecondsPerHour: nat := 3600
  const SecondsPerDay: nat := 86400
  /** Whole days of inactivity on which a warning is posted. */
  const WarnDay: int := 5
  /** From this many whole days on, a channel is warned or deleted. */
  const DeleteDay: int := 6
  /** Whole hours a warning must have stood before the channel is deleted. */
  const GraceHours: int := 22

  /** Division truncating toward zero, as chrono's `num_days` and
      `num_hours` do (Dafny's own `/` rounds down for a negative dividend). */
  function TruncDiv(a: int, b: int): (q: int)
    requires b > 0
    ensures a >= 0 ==> 0 <= q && q * b <= a < q * b + b
    ensures a < 0 ==> q <= 0 && q * b - b < a <= q * b
  {
    DivBounds(if a >= 0 then a else -a, b);
    if a >= 0 then a / b else -((-a) / b)
  }

  lemma DivBounds(n: nat, b: int)
    requires b > 0
    ensures 0 <= n / b && (n / b) * b <= n < (n / b) * b + b
  {
    var q, r := n / b, n % b;
    assert n == q * b + r && 0 <= r < b;
  }

  function Days(age: int): int { TruncDiv(age, SecondsPerDay) }

  function Hours(age: int): int { TruncDiv(age, SecondsPerHour) }

  /** A channel is temporary unless its name ends with '-'. */
  predicate IsTemp(name: string)
    ensures !IsTemp(name) <==> |name| > 0 && name == name[..|name| - 1] + "-"
  {
    !(|name| > 0 && name[|name| - 1] == '-')
  }

  /** The newest message of `h` not written by `me`, if there is one. */
  function NewestOther(h: seq<Message>, me: UserId): (r: Option<nat>)
    ensures r.Some? ==> r.value < |h| && h[r.value].author != me
    ensures r.Some? ==> forall j :: r.value < j < |h| ==> h[j].author == me
    ensures r.None? ==> forall j :: 0 <= j < |h| ==> h[j].author == me
  {
    if |h| == 0 then None
    else if h[|h| - 1].author != me then Some(|h| - 1)
    else NewestOther(h[..|h| - 1], me)
  }

  /** Whether the walk's first fetch, of the most recent message, brings
      nothing back: an empty history or a failed request. */
  predicate FirstFetchFails(h: seq<Message>, f: Faults) {
    |h| == 0 || f.walkFailAt == Some(0)
  }

  /** The reference message the inactivity age is measured from, given a
      first fetch that succeeded: the newest message not written by `me`
      when the backward walk reaches it (it needs fetch steps 1 through
      the number of newer messages to succeed), and otherwise the newest
      message of the channel. */
  function Reference(h: seq<Message>, me: UserId, failAt: Option<nat>): (r: nat)
    requires |h| > 0
    ensures r < |h|
    ensures h[r].author != me ==> forall j :: r < j < |h| ==> h[j].author == me
    ensures h[r].author == me ==> r == |h| - 1
  {
    match NewestOther(h, me)
    case Some(i) =>
      if failAt.Some? && 1 <= failAt.value <= |h| - 1 - i then |h| - 1 else i
    case None => |h| - 1
  }

  /** The inactivity age in seconds: zero when the first fetch fails or the
      reference timestamp does not parse, else `now` minus that timestamp. */
  function InactiveAge(h: seq<Message>, me: UserId, now: int, f: Faults): (age: int)
    ensures age != 0 ==>
      !FirstFetchFails(h, f) && h[Reference(h, me, f.walkFailAt)].timestamp == Some(now - age)
  {
    if FirstFetchFails(h, f) then 0
    else match h[Reference(h, me, f.walkFailAt)].timestamp
      case None => 0
      case Some(t) => now - t
  }

  /** A warning marker is a message by `me` whose text starts with the
      warning prefix. */
  predicate IsWarningMarker(m: Message, me: UserId) {
    m.author == me && WarningPrefix <= m.content
  }

  /** The warning marker of a channel: its newest message, when that is a
      marker. Older markers do not count. */
  function WarningMarker(h: seq<Message>, me: UserId): (r: Option<Message>)
    ensures r.Some? <==> |h| > 0 && h[|h| - 1].author == me && WarningPrefix <= h[|h| - 1].content
    ensures r.Some? ==> r.value == h[|h| - 1]
  {
    if |h| > 0 && IsWarningMarker(h[|h| - 1], me) then Some(h[|h| - 1]) else None
  }

  /** The effects of one evaluation of a temporary text channel. */
  function TextChannelRun(h: seq<Message>, me: UserId, now: int, f: Faults): (e: Effects)
    ensures e.delete ==> e.sent == [] && WarningMarker(h, me).Some?
  {
    var walkFiller := if FirstFetchFails(h, f) then [Filler] else [];
    var days := Days(InactiveAge(h, me, now, f));
    if days == WarnDay then
      Effects(walkFiller + [Warning], false)
    else if days >= DeleteDay then
      var lookupFiller := if f.warningFetchFails || |h| == 0 then [Filler] else [];
      var marker := if f.warningFetchFails then None else WarningMarker(h, me);
      match marker
      case None => Effects(walkFiller + lookupFiller + [Warning], false)
      case Some(w) =>
        match w.timestamp
        // The warning's age is then measured from now: zero hours.
        case None => Effects(walkFiller + lookupFiller + [Warning], false)
        case Some(t) => Effects(walkFiller + lookupFiller, Hours(now - t) >= GraceHours)
    else
      Effects(walkFiller, false)
  }

  /** The effects of one evaluation of any channel: only temporary text
      channels are evaluated. */
  function ChannelRun(name: string, kind: ChannelKind, h: seq<Message>, me: UserId, now: int, f: Faults): (e: Effects)
    ensures e != Effects([], false) ==> IsTemp(name) && kind == Text
  {
    if IsTemp(name) && kind == Text then TextChannelRun(h, me, now, f) else Effects([], false)
  }

  /** The backward walk for the reference message. It starts at the newest
      message and, while the current message is by `me`, asks for the one
      before it, stopping at a failed request or at the start of the
      history; a walk that stops on a message by `me` falls back to the
      newest message. */
  method FindReference(h: seq<Message>, me: UserId, failAt: Option<nat>) returns (r: nat)
    requires |h| > 0
    ensures r == Reference(h, me, failAt)
  {
    var best := |h| - 1;
    var step := 1;
    while h[best].author == me
      invariant 0 <= best < |h|
      invariant step == |h| - best
      invariant forall j :: best < j < |h| ==> h[j].author == me
      invariant failAt.Some? ==> !(1 <= failAt.value < step)
      decreases best
    {
      if failAt == Some(step) {
        break;
      }
      if best == 0 {
        break;
      }
      best := best - 1;
      step := step + 1;
    }
    if h[best].author == me {
      best := |h| - 1;
    }
    r := best;
  }

  /** A channel as the platform holds it. */
  class Channel {
    const name: string
    const kind: ChannelKind
    /** The message history, oldest first. */
    var history: seq<Message>
    var deleted: bool
    /** The messages the sweep posted to this channel, in order. */
    var sent: seq<Outgoing>

    constructor (name: string, kind: ChannelKind, history: seq<Message>)
      ensures this.name == name && this.kind == kind && this.history == history
      ensures !deleted && sent == []
    {
      this.name := name;
      this.kind := kind;
      this.history := history;
      deleted := false;
      sent := [];
    }

    method SendFillerMessage()
      modifies this`sent
      ensures sent == old(sent) + [Filler]
    {
      sent := sent + [Filler];
    }

    method SendDeleteWarning()
      modifies this`sent
      ensures sent == old(sent) + [Warning]
    {
      sent := sent + [Warning];
    }

    method DeleteChannel()
      modifies this`deleted
      ensures deleted
    {
      deleted := true;
    }

    /** The inactivity age; posts a filler message when the first fetch
        brings nothing back. */
    method GetChannelInactiveDuration(me: UserId, now: int, f: Faults) returns (age: int)
      modifies this`sent
      ensures age == InactiveAge(history, me, now, f)
      ensures sent == old(sent) + if FirstFetchFails(history, f) then [Filler] else []
    {
      if FirstFetchFails(history, f) {
        SendFillerMessage();
        return 0;
      }
      var best := FindReference(history, me, f.walkFailAt);
      match history[best].timestamp {
        case None =>
          age := 0;
        case Some(t) =>
          age := now - t;
      }
    }

    /** The warning marker, as the lookup's own most-recent fetch sees it;
        posts a filler message when that fetch brings nothing back. */
    method GetWarning(me: UserId, f: Faults) returns (w: Option<Message>)
      modifies this`sent
      ensures w == if f.warningFetchFails then None else WarningMarker(history, me)
      ensures sent == old(sent) + if f.warningFetchFails || |history| == 0 then [Filler] else []
    {
      if f.warningFetchFails || |history| == 0 {
        SendFillerMessage();
        return None;
      }
      var last := history[|history| - 1];
      if last.author == me && WarningPrefix <= last.content {
        w := Some(last);
      } else {
        w := None;
      }
    }

    /** One evaluation of a temporary text channel. */
    method ProcessTempTextChannel(me: UserId, now: int, f: Faults)
      modifies this`sent, this`deleted
      ensures sent == old(sent) + TextChannelRun(history, me, now, f).sent
      ensures deleted == (old(deleted) || TextChannelRun(history, me, now, f).delete)
    {
      var age := GetChannelInactiveDuration(me, now, f);
      var daysOld := TruncDiv(age, SecondsPerDay);
      if daysOld == WarnDay {
        SendDeleteWarning();
      } else if daysOld >= DeleteDay {
        var warning := GetWarning(me, f);
        match warning {
          case None =>
            SendDeleteWarning();
          case Some(w) =>
            var msgTime: int;
            match w.timestamp {
              case Some(t) =>
                msgTime := t;
              case None =>
                msgTime := now;
                SendDeleteWarning();
            }
            if TruncDiv(now - msgTime, SecondsPerHour) >= GraceHours {
              DeleteChannel();
            }
        }
      }
    }

    /** One evaluation of a temporary channel: text channels only. */
    method ProcessTempChannel(me: UserId, now: int, f: Faults)
      modifies this`sent, this`deleted
      ensures kind == Text ==> sent == old(sent) + TextChannelRun(history, me, now, f).sent
      ensures kind == Text ==> deleted == (old(deleted) || TextChannelRun(history, me, now, f).delete)
      ensures kind != Text ==> sent == old(sent) && deleted == old(deleted)
    {
      if kind == Text {
        ProcessTempTextChannel(me, now, f);
      }
    }

    /** The sweep's treatment of one listed channel. */
    method Sweep(me: UserId, now: int, f: Faults)
      modifies this`sent, this`deleted
      ensures sent == old(sent) + ChannelRun(name, kind, history, me, now, f).sent
      ensures deleted == (old(deleted) || ChannelRun(name, kind, history, me, now, f).delete)
    {
      if IsTemp(name) {
        ProcessTempChannel(me, now, f);
      }
    }
  }

  /** The sweep of one server: every listed channel in turn, each with its
      own faults; a failed listing (`None`) processes nothing. */
  method ClearOldChannels(listing: Option<seq<Channel>>, me: UserId, now: int, faults: seq<Faults>)
    requires listing.Some? ==> |faults| == |listing.value|
    requires listing.Some? ==> forall i, j :: 0 <= i < j < |listing.value| ==> listing.value[i] != listing.value[j]
    modifies if listing.Some? then set c | c in listing.value else {}
    ensures listing.Some? ==> forall i :: 0 <= i < |listing.value| ==>
      var c := listing.value[i];
      var e := ChannelRun(c.name, c.kind, old(c.history), me, now, faults[i]);
      c.history == old(c.history) &&
      c.sent == old(c.sent) + e.sent && c.deleted == (old(c.deleted) || e.delete)
  {
    if listing.None? {
      return;
    }
    var channels := listing.value;
    for k := 0 to |channels|
      invariant forall i :: 0 <= i < k ==>
        var c := channels[i];
        var e := ChannelRun(c.name, c.kind, c.history, me, now, faults[i]);
        c.sent == old(c.sent) + e.sent && c.deleted == (old(c.deleted) || e.delete)
      invariant forall i :: k <= i < |channels| ==>
        channels[i].sent == old(channels[i].sent) && channels[i].deleted == old(channels[i].deleted)
      invariant forall i :: 0 <= i < |channels| ==> channels[i].history == old(channels[i].history)
    {
      channels[k].Sweep(me, now, faults[k]);
    }
  }

  // ---------------------------------------------------------------------
  // Properties of the sweep
  // ---------------------------------------------------------------------

  /** Permanent channels and voice channels see no action at all. */
  lemma OnlyTempTextChannelsAct(name: string, kind: ChannelKind, h: seq<Message>, me: UserId, now: int, f: Faults)
    ensures !IsTemp(name) || kind == Voice ==> ChannelRun(name, kind, h, me, now, f) == Effects([], false)
    ensures IsTemp(name) && kind == Text ==> ChannelRun(name, kind, h, me, now, f) == TextChannelRun(h, me, now, f)
  {
  }

  /** The reference message is the newest message not by `me` whenever one
      exists and the walk's fetches up to it succeed; in a history written
      only by `me` it is the newest message. */
  lemma ReferenceChoice(h: seq<Message>, me: UserId, failAt: Option<nat>)
    requires |h| > 0
    ensures (exists j :: 0 <= j < |h| && h[j].author != me) && failAt.None? ==>
      h[Reference(h, me, failAt)].author != me
    ensures NewestOther(h, me).Some? ==>
      (failAt.None? || failAt.value > |h| - 1 - NewestOther(h, me).value) ==>
        Reference(h, me, failAt) == NewestOther(h, me).value
    ensures (forall j :: 0 <= j < |h| ==> h[j].author == me) ==> Reference(h, me, failAt) == |h| - 1
  {
  }

  /** A "before" fetch that fails while the walk is still on messages by
      `me` sends the walk back to the newest message. */
  lemma WalkFailureFallsBack(h: seq<Message>, me: UserId, k: nat)
    requires 1 <= k <= |h|
    requires forall j :: |h| - k <= j < |h| ==> h[j].author == me
    ensures Reference(h, me, Some(k)) == |h| - 1
  {
  }

  /** After such a failure the age is measured from the newest message. */
  lemma AgeAfterWalkFailure(h: seq<Message>, me: UserId, now: int, f: Faults)
    requires f.walkFailAt.Some? && 1 <= f.walkFailAt.value <= |h|
    requires forall j :: |h| - f.walkFailAt.value <= j < |h| ==> h[j].author == me
    requires h[|h| - 1].timestamp.Some?
    ensures InactiveAge(h, me, now, f) == now - h[|h| - 1].timestamp.value
  {
    WalkFailureFallsBack(h, me, f.walkFailAt.value);
  }

  /** An empty channel, or one whose first fetch fails, gets exactly one
      filler message and nothing else. */
  lemma FirstFetchFailureOnlyPostsFiller(h: seq<Message>, me: UserId, now: int, f: Faults)
    requires FirstFetchFails(h, f)
    ensures InactiveAge(h, me, now, f) == 0
    ensures TextChannelRun(h, me, now, f) == Effects([Filler], false)
  {
  }

  /** A reference timestamp that does not parse makes the age zero, so the
      run takes no action. */
  lemma UnparsableReferenceIsAgeZero(h: seq<Message>, me: UserId, now: int, f: Faults)
    requires !FirstFetchFails(h, f)
    requires h[Reference(h, me, f.walkFailAt)].timestamp.None?
    ensures InactiveAge(h, me, now, f) == 0
    ensures TextChannelRun(h, me, now, f) == Effects([], false)
  {
  }

  /** Fewer than five whole days, negative ages included: nothing but the
      filler of a failed first fetch. */
  lemma RecentChannelIsLeftAlone(h: seq<Message>, me: UserId, now: int, f: Faults)
    requires Days(InactiveAge(h, me, now, f)) < WarnDay
    ensures TextChannelRun(h, me, now, f) ==
      Effects(if FirstFetchFails(h, f) then [Filler] else [], false)
  {
  }

  /** Exactly five whole days: exactly one warning, no deletion. */
  lemma DayFiveWarnsOnce(h: seq<Message>, me: UserId, now: int, f: Faults)
    requires Days(InactiveAge(h, me, now, f)) == WarnDay
    ensures TextChannelRun(h, me, now, f) == Effects([Warning], false)
  {
    assert !FirstFetchFails(h, f);
  }

  /** Six days or more with no marker in sight: a warning, never a deletion. */
  lemma UnwarnedStaleChannelIsWarned(h: seq<Message>, me: UserId, now: int, f: Faults)
    requires Days(InactiveAge(h, me, now, f)) >= DeleteDay
    requires f.warningFetchFails || WarningMarker(h, me).None?
    ensures TextChannelRun(h, me, now, f) ==
      Effects(if f.warningFetchFails then [Filler, Warning] else [Warning], false)
  {
    assert !FirstFetchFails(h, f);
  }

  /** Six days or more and a marker whose timestamp does not parse: the
      warning is sent again and the channel stays. */
  lemma UnparsableMarkerIsRewarned(h: seq<Message>, me: UserId, now: int, f: Faults)
    requires Days(InactiveAge(h, me, now, f)) >= DeleteDay
    requires !f.warningFetchFails && WarningMarker(h, me).Some?
    requires WarningMarker(h, me).value.timestamp.None?
    ensures TextChannelRun(h, me, now, f) == Effects([Warning], false)
  {
    assert !FirstFetchFails(h, f);
  }

  /** A run deletes the channel exactly when it is six or more days idle,
      the lookup sees a marker with a parsable timestamp, and that marker
      is at least 22 whole hours old; such a run posts nothing. */
  lemma DeleteOnlyAfterAgedWarning(h: seq<Message>, me: UserId, now: int, f: Faults)
    ensures TextChannelRun(h, me, now, f).delete <==>
      Days(InactiveAge(h, me, now, f)) >= DeleteDay && !f.warningFetchFails &&
      |h| > 0 && IsWarningMarker(h[|h| - 1], me) && h[|h| - 1].timestamp.Some? &&
      Hours(now - h[|h| - 1].timestamp.value) >= GraceHours
    ensures TextChannelRun(h, me, now, f).delete ==> TextChannelRun(h, me, now, f).sent == []
  {
    if Days(InactiveAge(h, me, now, f)) >= DeleteDay {
      assert !FirstFetchFails(h, f);
    }
  }

  /** A run posts at most one deletion warning, always after its fillers. */
  lemma AtMostOneWarning(h: seq<Message>, me: UserId, now: int, f: Faults)
    ensures var sent := TextChannelRun(h, me, now, f).sent;
      multiset(sent)[Warning] <= 1 &&
      forall k :: 0 <= k < |sent| - 1 ==> sent[k] == Filler
  {
  }

  /** Six days or more and a marker with a parsable timestamp less than 22
      whole hours old: the grace period is running, and the run does
      nothing. */
  lemma PendingWarningDoesNothing(h: seq<Message>, me: UserId, now: int, f: Faults)
    requires Days(InactiveAge(h, me, now, f)) >= DeleteDay
    requires !f.warningFetchFails && WarningMarker(h, me).Some?
    requires WarningMarker(h, me).value.timestamp.Some?
    requires Hours(now - WarningMarker(h, me).value.timestamp.value) < GraceHours
    ensures TextChannelRun(h, me, now, f) == Effects([], false)
  {
    assert !FirstFetchFails(h, f);
  }

  /** Walking back from a message by `me` appended to a history passes it:
      the newest message not by `me` stays the same. */
  lemma {:induction false} NewestOtherAfterOwnMessage(h: seq<Message>, me: UserId, m: Message)
    requires m.author == me
    ensures NewestOther(h + [m], me) == NewestOther(h, me)
  {
    assert (h + [m])[..|h + [m]| - 1] == h;
  }

  /** The warn-then-delete lifecycle across two runs: once a warning posted
      at `warnedAt` is the newest message of a channel whose newest other
      message is six or more whole days old, a fault-free run at least 22
      hours after the warning deletes the channel and posts nothing. */
  lemma WarningMatures(h: seq<Message>, me: UserId, warningText: string, warnedAt: int, now: int)
    requires WarningPrefix <= warningText
    requires NewestOther(h, me).Some?
    requires h[NewestOther(h, me).value].timestamp.Some?
    requires Days(now - h[NewestOther(h, me).value].timestamp.value) >= DeleteDay
    requires now - warnedAt >= GraceHours * SecondsPerHour
    ensures TextChannelRun(h + [Message(me, Some(warnedAt), warningText)], me, now, Faults(None, false)) ==
      Effects([], true)
  {
    var m := Message(me, Some(warnedAt), warningText);
    var h2 := h + [m];
    var f := Faults(None, false);
    NewestOtherAfterOwnMessage(h, me, m);
    assert Reference(h2, me, None) == NewestOther(h, me).value;
    assert h2[NewestOther(h, me).value] == h[NewestOther(h, me).value];
    assert WarningMarker(h2, me) == Some(m);
    assert Hours(now - warnedAt) >= GraceHours;
  }

  /** In a channel where everything is by `me`, the age is measured from
      the newest message, so a warning the bot posted restarts the count. */
  lemma OwnHistoryAgesFromNewest(h: seq<Message>, me: UserId, now: int, f: Faults)
    requires |h| > 0 && f.walkFailAt != Some(0)
    requires forall j :: 0 <= j < |h| ==> h[j].author == me
    requires h[|h| - 1].timestamp.Some?
    ensures InactiveAge(h, me, now, f) == now - h[|h| - 1].timestamp.value
  {
  }

  /** The age is measured from the newest message by someone else whenever
      the walk reaches it: `now` minus that message's timestamp. */
  lemma AgeFromNewestOther(h: seq<Message>, me: UserId, now: int, f: Faults)
    requires !FirstFetchFails(h, f) && NewestOther(h, me).Some?
    requires f.walkFailAt.None? || f.walkFailAt.value > |h| - 1 - NewestOther(h, me).value
    requires h[NewestOther(h, me).value].timestamp.Some?
    ensures InactiveAge(h, me, now, f) == now - h[NewestOther(h, me).value].timestamp.value
  {
  }

  /** Two concrete channels: "general-" is permanent and is left alone
      however old its history; "temp-raid", whose last message from someone
      else is six days and three hours old and which holds no warning, gets
      one warning. */
  lemma SweepExamples(me: UserId, other: UserId, now: int)
    requires other != me
    ensures var h := [Message(other, Some(now - 6 * SecondsPerDay - 3 * SecondsPerHour), "gg")];
      ChannelRun("general-", Text, h, me, now, Faults(None, false)) == Effects([], false) &&
      ChannelRun("temp-raid", Text, h, me, now, Faults(None, false)) == Effects([Warning], false)
  {
    var h := [Message(other, Some(now - 6 * SecondsPerDay - 3 * SecondsPerHour), "gg")];
    assert !IsTemp("general-");
    assert IsTemp("temp-raid");
    assert NewestOther(h, me) == Some(0);
    assert Days(6 * SecondsPerDay + 3 * SecondsPerHour) == 6;
  }
}

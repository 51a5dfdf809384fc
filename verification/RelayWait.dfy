/** The relay wait protocol (crates/relay-adapter/src/lib.rs:292-317 and 440-577) over a
    stream of timestamped arrivals. */
module RelayWait {
  import opened Wrappers

  /** Decoded JSON, as far as the protocol looks at it. */
  datatype Json =
    | JString(text: string)
    | JBool(flag: bool)
    | JArray(items: seq<Json>)
    | JObject(fields: map<string, Json>)
    | JOther

  /** A websocket message: text that decodes or does not, or any other frame. */
  datatype WsMessage = Text(json: Option<Json>) | NonText

  /** What reading the stream yields: a message, a transport error, or its end. */
  datatype Item = Received(message: WsMessage) | Failed | Closed

  datatype Arrival = Arrival(at: nat, item: Item)

  datatype Outcome =
    | Success
    | TimedOut
    | RelayClosed
    | TransportError
    | MalformedJson
    | EventRejected(reason: Option<string>)
    | EventNotFound

  // ---- messages

  function AsString(j: Json): (r: Option<string>) {
    if j.JString? then Some(j.text) else None
  }

  function StringOr(j: Json, otherwise: string): (r: string) {
    if j.JString? then j.text else otherwise
  }

  /** A command array of at least `size` elements with the given name. */
  predicate IsCommand(j: Json, name: string, size: nat) {
    j.JArray? && |j.items| >= size && j.items != [] && j.items[0] == JString(name)
  }

  datatype OkReply = OkReply(id: string, ok: bool, reason: Option<string>)

  function ParseOkMessage(m: WsMessage): (r: Result<Option<OkReply>, Outcome>) {
    match m
    case NonText => Ok(None)
    case Text(None) => Err(MalformedJson)
    case Text(Some(j)) =>
      if !IsCommand(j, "OK", 3) then Ok(None)
      else Ok(Some(OkReply(StringOr(j.items[1], ""),
                           j.items[2] == JBool(true),
                           if |j.items| > 3 then AsString(j.items[3]) else None)))
  }

  function ParseEventMessage(m: WsMessage): (r: Result<Option<(string, Json)>, Outcome>) {
    match m
    case NonText => Ok(None)
    case Text(None) => Err(MalformedJson)
    case Text(Some(j)) =>
      if !IsCommand(j, "EVENT", 3) then Ok(None) else Ok(Some((StringOr(j.items[1], ""), j.items[2])))
  }

  function ParseEoseMessage(m: WsMessage): (r: Result<Option<string>, Outcome>) {
    match m
    case NonText => Ok(None)
    case Text(None) => Err(MalformedJson)
    case Text(Some(j)) =>
      if !IsCommand(j, "EOSE", 2) then Ok(None) else Ok(Some(StringOr(j.items[1], "")))
  }

  /** `event.get("id")` as a string. */
  function EventId(event: Json): (r: Option<string>) {
    if event.JObject? && "id" in event.fields then AsString(event.fields["id"]) else None
  }

  // ---- one wait

  datatype Goal = AwaitOk(id: string) | AwaitEvent(subId: string, eventId: string)

  function OkVerdict(m: WsMessage, id: string): (r: Option<Outcome>) {
    match ParseOkMessage(m)
    case Err(e) => Some(e)
    case Ok(None) => None
    case Ok(Some(reply)) =>
      if reply.id != id then None else if reply.ok then Some(Success) else Some(EventRejected(reply.reason))
  }

  function EventVerdict(m: WsMessage, subId: string, eventId: string): (r: Option<Outcome>) {
    match ParseEventMessage(m)
    case Err(e) => Some(e)
    case Ok(Some((sub, event))) =>
      if sub == subId && EventId(event) == Some(eventId) then Some(Success) else None
    case Ok(None) => if ParseEoseMessage(m) == Ok(Some(subId)) then Some(EventNotFound) else None
  }

  /** What one item decides, if anything. */
  function Verdict(goal: Goal, item: Item): (r: Option<Outcome>)
    ensures r != Some(TimedOut)
  {
    match item
    case Closed => Some(RelayClosed)
    case Failed => Some(TransportError)
    case Received(m) =>
      match goal
      case AwaitOk(id) => OkVerdict(m, id)
      case AwaitEvent(subId, eventId) => EventVerdict(m, subId, eventId)
  }

  datatype WaitResult = WaitResult(outcome: Outcome, rest: seq<Arrival>, clock: nat)

  function Max(a: nat, b: nat): (r: nat) {
    if a < b then b else a
  }

  /** The wait as a function: an item arriving exactly at the deadline is still read,
      after which no time remains. */
  function Wait(goal: Goal, arrivals: seq<Arrival>, now: nat, deadline: nat): (r: WaitResult)
    decreases |arrivals|
  {
    if now >= deadline then WaitResult(TimedOut, arrivals, now)
    else if arrivals == [] || arrivals[0].at > deadline then WaitResult(TimedOut, arrivals, deadline)
    else
      var clock := Max(now, arrivals[0].at);
      match Verdict(goal, arrivals[0].item)
      case Some(outcome) => WaitResult(outcome, arrivals[1..], clock)
      case None => Wait(goal, arrivals[1..], clock, deadline)
  }

  /** A connection whose stream the waits consume. */
  class Connection {
    var pending: seq<Arrival>
    var clock: nat

    constructor (arrivals: seq<Arrival>, start: nat)
      ensures pending == arrivals && clock == start
    {
      pending, clock := arrivals, start;
    }

    /** `timeout(remaining, read.next())`: the next item, or none when time runs out. */
    method Next(deadline: nat) returns (r: Option<Item>)
      requires clock < deadline
      modifies this
      ensures old(pending) == [] || old(pending)[0].at > deadline ==>
                r.None? && pending == old(pending) && clock == deadline
      ensures old(pending) != [] && old(pending)[0].at <= deadline ==>
                && r == Some(old(pending)[0].item) && pending == old(pending)[1..]
                && clock == Max(old(clock), old(pending)[0].at)
    {
      if pending == [] || pending[0].at > deadline {
        clock := deadline;
        return None;
      }
      r := Some(pending[0].item);
      clock := Max(clock, pending[0].at);
      pending := pending[1..];
    }

    method WaitForOk(eventId: string, timeout: nat) returns (outcome: Outcome)
      modifies this
      ensures WaitResult(outcome, pending, clock) ==
              Wait(AwaitOk(eventId), old(pending), old(clock), old(clock) + timeout)
    {
      var deadline := clock + timeout;
      ghost var goal := AwaitOk(eventId);
      while true
        invariant Wait(goal, pending, clock, deadline) == Wait(goal, old(pending), old(clock), old(clock) + timeout)
        decreases |pending|
      {
        if clock >= deadline {
          return TimedOut;
        }
        var next := Next(deadline);
        if next.None? {
          return TimedOut;
        }
        if next.value.Closed? {
          return RelayClosed;
        }
        if next.value.Failed? {
          return TransportError;
        }
        var parsed := ParseOkMessage(next.value.message);
        if parsed.Err? {
          return parsed.error;
        }
        if parsed.value.Some? {
          var reply := parsed.value.value;
          if reply.id != eventId {
            continue;
          }
          if reply.ok {
            return Success;
          }
          return EventRejected(reply.reason);
        }
      }
    }

    method WaitForEvent(subId: string, eventId: string, timeout: nat) returns (outcome: Outcome)
      modifies this
      ensures WaitResult(outcome, pending, clock) ==
              Wait(AwaitEvent(subId, eventId), old(pending), old(clock), old(clock) + timeout)
    {
      var deadline := clock + timeout;
      ghost var goal := AwaitEvent(subId, eventId);
      while true
        invariant Wait(goal, pending, clock, deadline) == Wait(goal, old(pending), old(clock), old(clock) + timeout)
        decreases |pending|
      {
        if clock >= deadline {
          return TimedOut;
        }
        var next := Next(deadline);
        if next.None? {
          return TimedOut;
        }
        if next.value.Closed? {
          return RelayClosed;
        }
        if next.value.Failed? {
          return TransportError;
        }
        var m := next.value.message;
        var parsed := ParseEventMessage(m);
        if parsed.Err? {
          return parsed.error;
        }
        if parsed.value.Some? {
          if parsed.value.value.0 != subId {
            continue;
          }
          if EventId(parsed.value.value.1) == Some(eventId) {
            return Success;
          }
        }
        EventIsNotEose(m);
        var eose := ParseEoseMessage(m);
        if eose.Ok? && eose.value == Some(subId) {
          return EventNotFound;
        }
      }
    }

    /** The write-read probe: publish, await OK, subscribe, await the event. Whether the
        two sends succeed is given. */
    method ProbeWriteRead(eventId: string, timeout: nat, published: bool, subscribed: bool) returns (outcome: Outcome)
      requires |eventId| >= 8
      modifies this
      ensures outcome == Probe(old(pending), old(clock), eventId, timeout, published, subscribed)
    {
      if !published {
        return TransportError;
      }
      outcome := WaitForOk(eventId, timeout);
      if outcome != Success {
        return;
      }
      if !subscribed {
        return TransportError;
      }
      outcome := WaitForEvent(SubId(eventId), eventId, timeout);
    }
  }

  lemma EventIsNotEose(m: WsMessage)
    ensures ParseEventMessage(m).Ok? && ParseEventMessage(m).value.Some? ==> ParseEoseMessage(m) == Ok(None)
  {
  }

  const PROBE_SUB_PREFIX := "gittree-probe"

  function SubId(eventId: string): (r: string)
    requires |eventId| >= 8
  {
    PROBE_SUB_PREFIX + "-" + eventId[..8]
  }

  /** What remains of the probe once its first wait is over. */
  function AfterFirst(first: WaitResult, event: Goal, timeout: nat, subscribed: bool): (r: Outcome) {
    if first.outcome != Success then first.outcome
    else if !subscribed then TransportError
    else Wait(event, first.rest, first.clock, first.clock + timeout).outcome
  }

  function Probe(arrivals: seq<Arrival>, start: nat, eventId: string, timeout: nat, published: bool, subscribed: bool)
    : (r: Outcome)
    requires |eventId| >= 8
  {
    if !published then TransportError
    else
      AfterFirst(Wait(AwaitOk(eventId), arrivals, start, start + timeout),
                 AwaitEvent(SubId(eventId), eventId), timeout, subscribed)
  }

  // ---- the first decisive item

  /** The clock after reading the first `k` items. */
  function ClockAfter(arrivals: seq<Arrival>, now: nat, k: nat): (r: nat)
    requires k <= |arrivals|
  {
    if k == 0 then now else Max(ClockAfter(arrivals, now, k - 1), arrivals[k - 1].at)
  }

  /** Time remains before item `k`, and it arrives by the deadline. */
  predicate InTime(arrivals: seq<Arrival>, now: nat, deadline: nat, k: nat)
    requires k < |arrivals|
  {
    ClockAfter(arrivals, now, k) < deadline && arrivals[k].at <= deadline
  }

  ghost predicate FirstDecisive(goal: Goal, arrivals: seq<Arrival>, k: nat) {
    && k < |arrivals| && Verdict(goal, arrivals[k].item).Some?
    && (forall j :: 0 <= j < k ==> Verdict(goal, arrivals[j].item).None?)
  }

  lemma {:induction false} ClockTail(arrivals: seq<Arrival>, now: nat, k: nat)
    requires 0 < k <= |arrivals|
    ensures ClockAfter(arrivals, now, k) == ClockAfter(arrivals[1..], Max(now, arrivals[0].at), k - 1)
  {
    if k > 1 {
      ClockTail(arrivals, now, k - 1);
    }
  }

  lemma {:induction false} ClockGrows(arrivals: seq<Arrival>, now: nat, k: nat)
    requires k <= |arrivals|
    ensures now <= ClockAfter(arrivals, now, k)
  {
    if k > 0 {
      ClockGrows(arrivals, now, k - 1);
    }
  }

  /** A wait is decided by the first decisive item that is read in time, and by nothing else. */
  lemma {:induction false} WaitDecided(goal: Goal, arrivals: seq<Arrival>, now: nat, deadline: nat, k: nat)
    requires FirstDecisive(goal, arrivals, k) && InTime(arrivals, now, deadline, k)
    ensures Wait(goal, arrivals, now, deadline) ==
            WaitResult(Verdict(goal, arrivals[k].item).value, arrivals[k + 1..], ClockAfter(arrivals, now, k + 1))
    decreases k
  {
    ClockGrows(arrivals, now, k);
    if k > 0 {
      ClockTail(arrivals, now, 1);
      ClockTail(arrivals, now, k);
      ClockTail(arrivals, now, k + 1);
      ClockGrows(arrivals[1..], Max(now, arrivals[0].at), k - 1);
      WaitDecided(goal, arrivals[1..], Max(now, arrivals[0].at), deadline, k - 1);
      assert arrivals[1..][k..] == arrivals[k + 1..];
    }
  }

  /** Otherwise it times out, on the deadline. */
  lemma {:induction false} WaitTimesOut(goal: Goal, arrivals: seq<Arrival>, now: nat, deadline: nat)
    requires forall k: nat :: FirstDecisive(goal, arrivals, k) ==> !InTime(arrivals, now, deadline, k)
    ensures Wait(goal, arrivals, now, deadline).outcome == TimedOut
    ensures Wait(goal, arrivals, now, deadline).clock == Max(now, deadline)
    decreases |arrivals|
  {
    if now < deadline && arrivals != [] && arrivals[0].at <= deadline {
      assert !FirstDecisive(goal, arrivals, 0);
      var tail, clock := arrivals[1..], Max(now, arrivals[0].at);
      forall k: nat | FirstDecisive(goal, tail, k) ensures !InTime(tail, clock, deadline, k) {
        forall j | 0 <= j < k + 1 ensures Verdict(goal, arrivals[j].item).None? {
          assert j > 0 ==> arrivals[j] == tail[j - 1];
        }
        assert FirstDecisive(goal, arrivals, k + 1);
        ClockTail(arrivals, now, k + 1);
      }
      WaitTimesOut(goal, tail, clock, deadline);
    }
  }

  /** Item `k` gives the wait its outcome. */
  ghost predicate Decides(goal: Goal, arrivals: seq<Arrival>, now: nat, deadline: nat, k: nat, outcome: Outcome) {
    && FirstDecisive(goal, arrivals, k) && InTime(arrivals, now, deadline, k)
    && Verdict(goal, arrivals[k].item) == Some(outcome)
  }

  lemma DecidesWait(goal: Goal, arrivals: seq<Arrival>, now: nat, deadline: nat, k: nat, outcome: Outcome)
    requires Decides(goal, arrivals, now, deadline, k, outcome)
    ensures k < |arrivals|
    ensures Wait(goal, arrivals, now, deadline) ==
            WaitResult(outcome, arrivals[k + 1..], ClockAfter(arrivals, now, k + 1))
  {
    WaitDecided(goal, arrivals, now, deadline, k);
  }

  lemma WaitMeaning(goal: Goal, arrivals: seq<Arrival>, now: nat, deadline: nat, outcome: Outcome)
    requires outcome != TimedOut
    ensures Wait(goal, arrivals, now, deadline).outcome == outcome <==>
            exists k: nat :: Decides(goal, arrivals, now, deadline, k, outcome)
  {
    if k: nat :| FirstDecisive(goal, arrivals, k) && InTime(arrivals, now, deadline, k) {
      WaitDecided(goal, arrivals, now, deadline, k);
      assert Decides(goal, arrivals, now, deadline, k, Verdict(goal, arrivals[k].item).value);
    } else {
      WaitTimesOut(goal, arrivals, now, deadline);
    }
  }

  // ---- what success means

  predicate IsFailure(item: Item) {
    item.Closed? || item.Failed? || item == Received(Text(None))
  }

  /** Decoded text. */
  predicate IsJson(item: Item) {
    item.Received? && item.message.Text? && item.message.json.Some?
  }

  /** The elements of an array message, none for anything else. */
  function ItemsOf(item: Item): (r: seq<Json>) {
    if IsJson(item) && item.message.json.value.JArray? then item.message.json.value.items else []
  }

  /** The value is the text, where anything but a string counts as empty. */
  predicate ReadsAs(j: Json, text: string) {
    j == JString(text) || (!j.JString? && text == "")
  }

  /** `["OK", id, ..]` with at least three elements. */
  predicate IsOkFor(item: Item, id: string) {
    var items := ItemsOf(item);
    |items| >= 3 && items[0] == JString("OK") && ReadsAs(items[1], id)
  }

  /** `["EVENT", sub, event]` for an object with the id. */
  predicate IsEventFor(item: Item, subId: string, eventId: string) {
    var items := ItemsOf(item);
    && |items| >= 3 && items[0] == JString("EVENT") && ReadsAs(items[1], subId)
    && items[2].JObject? && "id" in items[2].fields && items[2].fields["id"] == JString(eventId)
  }

  /** `["EOSE", sub]`. */
  predicate IsEoseFor(item: Item, subId: string) {
    var items := ItemsOf(item);
    |items| >= 2 && items[0] == JString("EOSE") && ReadsAs(items[1], subId)
  }

  /** The item decides the wait with this outcome. */
  predicate DecidesAs(goal: Goal, item: Item, outcome: Outcome) {
    match outcome
    case Success =>
      (match goal
       case AwaitOk(id) => IsOkFor(item, id) && ItemsOf(item)[2] == JBool(true)
       case AwaitEvent(subId, eventId) => IsEventFor(item, subId, eventId))
    case TimedOut => false
    case RelayClosed => item == Closed
    case TransportError => item == Failed
    case MalformedJson => item == Received(Text(None))
    case EventRejected(reason) =>
      && goal.AwaitOk? && IsOkFor(item, goal.id) && ItemsOf(item)[2] != JBool(true)
      && reason == (if |ItemsOf(item)| > 3 && ItemsOf(item)[3].JString? then Some(ItemsOf(item)[3].text) else None)
    case EventNotFound => goal.AwaitEvent? && IsEoseFor(item, goal.subId)
  }

  /** The items that decide each wait, and with which outcome. */
  lemma VerdictMeaning(goal: Goal, item: Item, outcome: Outcome)
    ensures Verdict(goal, item) == Some(outcome) <==> DecidesAs(goal, item, outcome)
  {
  }

  lemma NoVerdict(goal: Goal, item: Item)
    ensures Verdict(goal, item).None? <==> forall other :: !DecidesAs(goal, item, other)
  {
    forall other ensures Verdict(goal, item) == Some(other) <==> DecidesAs(goal, item, other) {
      VerdictMeaning(goal, item, other);
    }
    assert Verdict(goal, item).Some? ==> Verdict(goal, item) == Some(Verdict(goal, item).value);
  }

  lemma DecisiveItems(item: Item, goal: Goal)
    ensures goal.AwaitOk? ==> (Verdict(goal, item).Some? <==> IsFailure(item) || IsOkFor(item, goal.id))
    ensures goal.AwaitOk? && IsOkFor(item, goal.id) ==>
              Verdict(goal, item) == Some(
                var items := ItemsOf(item);
                if items[2] == JBool(true) then Success
                else EventRejected(if |items| > 3 && items[3].JString? then Some(items[3].text) else None))
    ensures goal.AwaitEvent? && IsEoseFor(item, goal.subId) ==> Verdict(goal, item) == Some(EventNotFound)
    ensures item.Closed? ==> Verdict(goal, item) == Some(RelayClosed)
    ensures item.Failed? ==> Verdict(goal, item) == Some(TransportError)
    ensures item == Received(Text(None)) ==> Verdict(goal, item) == Some(MalformedJson)
    ensures goal.AwaitEvent? ==>
              (Verdict(goal, item).Some? <==>
               IsFailure(item) || IsEventFor(item, goal.subId, goal.eventId) || IsEoseFor(item, goal.subId))
    ensures goal.AwaitEvent? ==> (Verdict(goal, item) == Some(Success) <==> IsEventFor(item, goal.subId, goal.eventId))
    ensures IsFailure(item) ==> Verdict(goal, item).Some? && Verdict(goal, item) != Some(Success)
  {
  }

  /** The clock is the latest of the start and the arrivals read so far. */
  lemma {:induction false} ClockMeaning(arrivals: seq<Arrival>, now: nat, k: nat)
    requires k <= |arrivals|
    ensures var clock := ClockAfter(arrivals, now, k);
            && now <= clock && (forall j :: 0 <= j < k ==> arrivals[j].at <= clock)
            && (clock == now || exists j :: 0 <= j < k && arrivals[j].at == clock)
  {
    if k > 0 {
      ClockMeaning(arrivals, now, k - 1);
    }
  }

  /** Item `k` is the first that decides the wait, with this outcome, and is read in time. */
  ghost predicate SettledBy(goal: Goal, arrivals: seq<Arrival>, now: nat, deadline: nat, k: nat, outcome: Outcome) {
    && k < |arrivals| && DecidesAs(goal, arrivals[k].item, outcome) && InTime(arrivals, now, deadline, k)
    && (forall j, other :: 0 <= j < k ==> !DecidesAs(goal, arrivals[j].item, other))
  }

  /** The outcome of a wait, by the items of the stream. */
  ghost predicate WaitGives(goal: Goal, arrivals: seq<Arrival>, now: nat, deadline: nat, outcome: Outcome) {
    if outcome == TimedOut then forall k: nat, other :: !SettledBy(goal, arrivals, now, deadline, k, other)
    else exists k: nat :: SettledBy(goal, arrivals, now, deadline, k, outcome)
  }

  lemma SettledMeaning(goal: Goal, arrivals: seq<Arrival>, now: nat, deadline: nat, k: nat, outcome: Outcome)
    ensures SettledBy(goal, arrivals, now, deadline, k, outcome) <==>
            Decides(goal, arrivals, now, deadline, k, outcome)
  {
    if k < |arrivals| {
      VerdictMeaning(goal, arrivals[k].item, outcome);
      forall j | 0 <= j < k
        ensures Verdict(goal, arrivals[j].item).None? <==> forall other :: !DecidesAs(goal, arrivals[j].item, other)
      {
        NoVerdict(goal, arrivals[j].item);
      }
    }
  }

  /** Every outcome of a wait, exactly. */
  lemma WaitOutcome(goal: Goal, arrivals: seq<Arrival>, now: nat, deadline: nat, outcome: Outcome)
    ensures Wait(goal, arrivals, now, deadline).outcome == outcome <==>
            WaitGives(goal, arrivals, now, deadline, outcome)
  {
    forall k: nat, other
      ensures SettledBy(goal, arrivals, now, deadline, k, other) <==>
              Decides(goal, arrivals, now, deadline, k, other)
    {
      SettledMeaning(goal, arrivals, now, deadline, k, other);
    }
    if outcome != TimedOut {
      WaitMeaning(goal, arrivals, now, deadline, outcome);
    } else {
      TimeoutMeaning(goal, arrivals, now, deadline);
    }
  }

  lemma TimeoutMeaning(goal: Goal, arrivals: seq<Arrival>, now: nat, deadline: nat)
    ensures Wait(goal, arrivals, now, deadline).outcome == TimedOut <==>
            forall k: nat, other :: !Decides(goal, arrivals, now, deadline, k, other)
  {
    TimedOutMeaning(goal, arrivals, now, deadline);
    if k: nat :| FirstDecisive(goal, arrivals, k) && InTime(arrivals, now, deadline, k) {
      assert Decides(goal, arrivals, now, deadline, k, Verdict(goal, arrivals[k].item).value);
    }
  }

  /** The event wait succeeds exactly when the event is read in time, before every end of
      stored events for its subscription and before every failure. */
  lemma EventWaitSucceeds(subId: string, eventId: string, arrivals: seq<Arrival>, now: nat, deadline: nat)
    ensures Wait(AwaitEvent(subId, eventId), arrivals, now, deadline).outcome == Success <==>
            exists k :: && 0 <= k < |arrivals| && IsEventFor(arrivals[k].item, subId, eventId)
                        && InTime(arrivals, now, deadline, k)
                        && forall j :: 0 <= j < k ==>
                             !IsFailure(arrivals[j].item) && !IsEoseFor(arrivals[j].item, subId)
  {
    var goal := AwaitEvent(subId, eventId);
    forall k | 0 <= k < |arrivals| {
      DecisiveItems(arrivals[k].item, goal);
    }
    if k :| && 0 <= k < |arrivals| && IsEventFor(arrivals[k].item, subId, eventId)
            && InTime(arrivals, now, deadline, k)
            && forall j :: 0 <= j < k ==> !IsFailure(arrivals[j].item) && !IsEoseFor(arrivals[j].item, subId)
    {
      FirstEventDecides(goal, arrivals, now, deadline, k);
    }
    WaitMeaning(goal, arrivals, now, deadline, Success);
  }

  lemma {:induction false} FirstEventDecides(goal: Goal, arrivals: seq<Arrival>, now: nat, deadline: nat, k: nat)
    requires goal.AwaitEvent? && k < |arrivals| && IsEventFor(arrivals[k].item, goal.subId, goal.eventId)
    requires InTime(arrivals, now, deadline, k)
    requires forall j :: 0 <= j < k ==> !IsFailure(arrivals[j].item) && !IsEoseFor(arrivals[j].item, goal.subId)
    ensures Wait(goal, arrivals, now, deadline).outcome == Success
    decreases k
  {
    forall j | 0 <= j <= k {
      DecisiveItems(arrivals[j].item, goal);
    }
    if j: nat :| j < k && IsEventFor(arrivals[j].item, goal.subId, goal.eventId) {
      EarlierInTime(arrivals, now, deadline, j, k);
      FirstEventDecides(goal, arrivals, now, deadline, j);
    } else {
      assert FirstDecisive(goal, arrivals, k);
      WaitDecided(goal, arrivals, now, deadline, k);
    }
  }

  lemma {:induction false} EarlierInTime(arrivals: seq<Arrival>, now: nat, deadline: nat, j: nat, k: nat)
    requires j < k < |arrivals| && InTime(arrivals, now, deadline, k)
    ensures InTime(arrivals, now, deadline, j)
    decreases k
  {
    if j < k - 1 {
      EarlierInTime(arrivals, now, deadline, j, k - 1);
    }
  }

  // ---- unrelated traffic

  /** The inserted item arrives no later than the next one. */
  predicate DelaysNothing(u: Arrival, b: seq<Arrival>) {
    b == [] || u.at <= b[0].at
  }

  /** The inserted item takes the last read: it arrives on the very deadline together with
      the item that would have decided the wait then. */
  ghost predicate TakesLastRead(
    goal: Goal, a: seq<Arrival>, u: Arrival, b: seq<Arrival>, now: nat, deadline: nat) {
    && b != [] && u.at == b[0].at == deadline && Verdict(goal, b[0].item).Some?
    && ClockAfter(a, now, |a|) < deadline
    && (forall j :: 0 <= j < |a| ==> Verdict(goal, a[j].item).None?)
  }

  lemma TakesLastReadTail(goal: Goal, a: seq<Arrival>, u: Arrival, b: seq<Arrival>, now: nat, deadline: nat)
    requires a != []
    ensures TakesLastRead(goal, a, u, b, now, deadline) <==>
            && Verdict(goal, a[0].item).None?
            && TakesLastRead(goal, a[1..], u, b, Max(now, a[0].at), deadline)
    ensures TakesLastRead(goal, a, u, b, now, deadline) ==> now < deadline && a[0].at < deadline
  {
    ClockTail(a, now, |a|);
    ClockGrows(a[1..], Max(now, a[0].at), |a| - 1);
    assert forall j :: 0 < j < |a| ==> a[j] == a[1..][j - 1];
  }

  /** Inserting an item that decides nothing and delays nothing leaves the outcome alone if
      and only if it does not take the last read from the decisive item. The clock is the
      same in any case. */
  lemma {:induction false} UnrelatedInsert(
    goal: Goal, a: seq<Arrival>, u: Arrival, b: seq<Arrival>, now: nat, deadline: nat)
    requires Verdict(goal, u.item).None? && DelaysNothing(u, b)
    ensures var r, s := Wait(goal, a + b, now, deadline), Wait(goal, a + [u] + b, now, deadline);
            && (s.outcome == r.outcome <==> !TakesLastRead(goal, a, u, b, now, deadline))
            && (s.outcome == r.outcome || s.outcome == TimedOut)
            && s.clock == r.clock
    decreases |a|
  {
    if a == [] {
      assert a + b == b && a + [u] + b == [u] + b;
      UnrelatedFirst(goal, u, b, now, deadline);
    } else {
      TakesLastReadTail(goal, a, u, b, now, deadline);
      WaitStep(goal, a, b, now, deadline);
      WaitStep(goal, a, [u] + b, now, deadline);
      assert a + ([u] + b) == a + [u] + b && a[1..] + ([u] + b) == a[1..] + [u] + b;
      if now < deadline && a[0].at <= deadline && Verdict(goal, a[0].item).None? {
        UnrelatedInsert(goal, a[1..], u, b, Max(now, a[0].at), deadline);
      }
    }
  }

  /** One turn of the loop, on a stream whose first part is not empty. */
  lemma WaitStep(goal: Goal, a: seq<Arrival>, b: seq<Arrival>, now: nat, deadline: nat)
    requires a != []
    ensures Wait(goal, a + b, now, deadline) ==
            if now >= deadline then WaitResult(TimedOut, a + b, now)
            else if a[0].at > deadline then WaitResult(TimedOut, a + b, deadline)
            else if Verdict(goal, a[0].item).Some?
            then WaitResult(Verdict(goal, a[0].item).value, a[1..] + b, Max(now, a[0].at))
            else Wait(goal, a[1..] + b, Max(now, a[0].at), deadline)
  {
    assert (a + b)[1..] == a[1..] + b;
  }

  lemma UnrelatedFirst(goal: Goal, u: Arrival, b: seq<Arrival>, now: nat, deadline: nat)
    requires Verdict(goal, u.item).None? && DelaysNothing(u, b)
    ensures var r, s := Wait(goal, b, now, deadline), Wait(goal, [u] + b, now, deadline);
            && (s.outcome == r.outcome <==> !TakesLastRead(goal, [], u, b, now, deadline))
            && (s.outcome == r.outcome || s.outcome == TimedOut)
            && s.clock == r.clock
  {
    assert ([u] + b)[1..] == b;
    if now < deadline && u.at <= deadline {
      assert Wait(goal, [u] + b, now, deadline) == Wait(goal, b, Max(now, u.at), deadline);
    }
  }

  /** The second list is the first with the item inserted before its end `b`. */
  ghost predicate StillPending(r: seq<Arrival>, s: seq<Arrival>, u: Arrival, b: seq<Arrival>) {
    |b| <= |r| && r[|r| - |b|..] == b && s == r[..|r| - |b|] + [u] + b
  }

  lemma PendingAt(a: seq<Arrival>, u: Arrival, b: seq<Arrival>)
    ensures StillPending(a + b, a + [u] + b, u, b)
  {
    assert (a + b)[..|a|] == a;
  }

  /** The wait timed out on a tie at its deadline, and read the inserted item instead of the next. */
  predicate ReadInstead(r: WaitResult, s: WaitResult, u: Arrival, b: seq<Arrival>) {
    r.outcome == TimedOut && b != [] && u.at == b[0].at == r.clock && r.rest == b[1..] && s.rest == b
  }

  /** The inserted item is consumed or still pending, and after a decided wait it is pending
      exactly when all of the later items are. */
  ghost predicate ConsumedOrPending(r: WaitResult, s: WaitResult, u: Arrival, b: seq<Arrival>) {
    && (s.rest == r.rest || StillPending(r.rest, s.rest, u, b) || ReadInstead(r, s, u, b))
    && (r.outcome != TimedOut ==> (s.rest == r.rest <==> |r.rest| < |b|))
  }

  lemma UnrelatedHead(goal: Goal, u: Arrival, b: seq<Arrival>, now: nat, deadline: nat)
    requires Verdict(goal, u.item).None? && DelaysNothing(u, b)
    requires !TakesLastRead(goal, [], u, b, now, deadline)
    ensures ConsumedOrPending(Wait(goal, b, now, deadline), Wait(goal, [u] + b, now, deadline), u, b)
  {
    var r, s := Wait(goal, b, now, deadline), Wait(goal, [u] + b, now, deadline);
    if now >= deadline || u.at > deadline {
      PendingAt([], u, b);
      assert [] + b == b && [] + [u] + b == [u] + b;
    } else {
      assert ([u] + b)[1..] == b;
      assert s == Wait(goal, b, Max(now, u.at), deadline);
      if u.at < deadline {
        assert s == r;
        if r.outcome != TimedOut {
          RestShrinks(goal, b, now, deadline);
        }
      } else {
        assert s == WaitResult(TimedOut, b, deadline);
        assert r.outcome == TimedOut;
      }
    }
  }

  lemma UnrelatedStop(goal: Goal, a: seq<Arrival>, u: Arrival, b: seq<Arrival>, now: nat, deadline: nat)
    requires a != [] && (now >= deadline || a[0].at > deadline || Verdict(goal, a[0].item).Some?)
    ensures ConsumedOrPending(Wait(goal, a + b, now, deadline), Wait(goal, a + [u] + b, now, deadline), u, b)
  {
    WaitStep(goal, a, b, now, deadline);
    WaitStep(goal, a, [u] + b, now, deadline);
    if now >= deadline || a[0].at > deadline {
      assert a + ([u] + b) == a + [u] + b;
      PendingAt(a, u, b);
    } else {
      assert a + ([u] + b) == a + [u] + b && a[1..] + ([u] + b) == a[1..] + [u] + b;
      PendingAt(a[1..], u, b);
    }
  }

  /** What the insertion changes in the unread part of the stream, unless it changes the outcome. */
  lemma {:induction false} UnrelatedRest(
    goal: Goal, a: seq<Arrival>, u: Arrival, b: seq<Arrival>, now: nat, deadline: nat)
    requires Verdict(goal, u.item).None? && DelaysNothing(u, b)
    requires !TakesLastRead(goal, a, u, b, now, deadline)
    ensures ConsumedOrPending(Wait(goal, a + b, now, deadline), Wait(goal, a + [u] + b, now, deadline), u, b)
    decreases |a|
  {
    if a == [] {
      assert a + b == b && a + [u] + b == [u] + b;
      UnrelatedHead(goal, u, b, now, deadline);
    } else if now >= deadline || a[0].at > deadline || Verdict(goal, a[0].item).Some? {
      UnrelatedStop(goal, a, u, b, now, deadline);
    } else {
      WaitStep(goal, a, b, now, deadline);
      WaitStep(goal, a, [u] + b, now, deadline);
      assert a + ([u] + b) == a + [u] + b && a[1..] + ([u] + b) == a[1..] + [u] + b;
      TakesLastReadTail(goal, a, u, b, now, deadline);
      UnrelatedRest(goal, a[1..], u, b, Max(now, a[0].at), deadline);
    }
  }

  lemma {:induction false} RestShrinks(goal: Goal, arrivals: seq<Arrival>, now: nat, deadline: nat)
    requires Wait(goal, arrivals, now, deadline).outcome != TimedOut
    ensures |Wait(goal, arrivals, now, deadline).rest| < |arrivals|
    decreases |arrivals|
  {
    if Verdict(goal, arrivals[0].item).None? {
      RestShrinks(goal, arrivals[1..], Max(now, arrivals[0].at), deadline);
    }
  }

  /** A stream on which it happens: the decisive item alone is read on the deadline, and is
      not when an unrelated item comes with it. */
  lemma DeadlineTie(goal: Goal, u: Arrival, x: Arrival, now: nat, deadline: nat)
    requires now < deadline && u.at == deadline && x.at == deadline
    requires Verdict(goal, u.item).None? && Verdict(goal, x.item).Some?
    ensures Wait(goal, [x], now, deadline).outcome == Verdict(goal, x.item).value
    ensures Wait(goal, [u, x], now, deadline).outcome == TimedOut
  {
    assert [u, x][1..] == [x];
  }

  /** Some item decides the wait in time. */
  ghost predicate DecidedInTime(goal: Goal, arrivals: seq<Arrival>, now: nat, deadline: nat) {
    exists k: nat :: FirstDecisive(goal, arrivals, k) && InTime(arrivals, now, deadline, k)
  }

  lemma TimedOutMeaning(goal: Goal, arrivals: seq<Arrival>, now: nat, deadline: nat)
    ensures Wait(goal, arrivals, now, deadline).outcome == TimedOut <==> !DecidedInTime(goal, arrivals, now, deadline)
  {
    if k: nat :| FirstDecisive(goal, arrivals, k) && InTime(arrivals, now, deadline, k) {
      WaitDecided(goal, arrivals, now, deadline, k);
    } else {
      WaitTimesOut(goal, arrivals, now, deadline);
    }
  }

  /** The item takes the last read of the probe's first wait, and not merely from a positive
      OK after which the second wait would have run out of time anyway. */
  ghost predicate DisturbsFirst(
    ok: Goal, event: Goal, a: seq<Arrival>, u: Arrival, b: seq<Arrival>, start: nat, timeout: nat, subscribed: bool) {
    var deadline := start + timeout;
    && TakesLastRead(ok, a, u, b, start, deadline)
    && !(&& Verdict(ok, b[0].item) == Some(Success) && subscribed
         && !DecidedInTime(event, b[1..], deadline, deadline + timeout))
  }

  /** Item `i` of those before the insertion is the positive OK, and the inserted item takes
      the last read of the second wait. */
  ghost predicate DisturbsAfter(
    ok: Goal, event: Goal, a: seq<Arrival>, u: Arrival, b: seq<Arrival>, start: nat, timeout: nat, i: nat) {
    && Decides(ok, a, start, start + timeout, i, Success)
    && var clock := ClockAfter(a, start, i + 1);
       TakesLastRead(event, a[i + 1..], u, b, clock, clock + timeout)
  }

  /** How an unrelated item can change the probe, by positions in the stream. */
  ghost predicate DisturbsProbe(
    ok: Goal, event: Goal, a: seq<Arrival>, u: Arrival, b: seq<Arrival>, start: nat, timeout: nat, subscribed: bool) {
    || DisturbsFirst(ok, event, a, u, b, start, timeout, subscribed)
    || (subscribed && exists i: nat :: DisturbsAfter(ok, event, a, u, b, start, timeout, i))
  }

  /** Unrelated traffic that delays nothing leaves the outcome of the whole probe alone if
      and only if it takes the last read of neither wait. */
  lemma UnrelatedProbe(
    a: seq<Arrival>, u: Arrival, b: seq<Arrival>, start: nat, eventId: string, timeout: nat,
    published: bool, subscribed: bool)
    requires |eventId| >= 8
    requires Verdict(AwaitOk(eventId), u.item).None? && Verdict(AwaitEvent(SubId(eventId), eventId), u.item).None?
    requires DelaysNothing(u, b)
    ensures var ok, event := AwaitOk(eventId), AwaitEvent(SubId(eventId), eventId);
            Probe(a + [u] + b, start, eventId, timeout, published, subscribed) ==
            Probe(a + b, start, eventId, timeout, published, subscribed) <==>
            !(published && DisturbsProbe(ok, event, a, u, b, start, timeout, subscribed))
  {
    UnrelatedWaits(AwaitOk(eventId), AwaitEvent(SubId(eventId), eventId), a, u, b, start, timeout, subscribed);
  }

  /** The same for any two waits in sequence. */
  lemma UnrelatedWaits(
    ok: Goal, event: Goal, a: seq<Arrival>, u: Arrival, b: seq<Arrival>, start: nat, timeout: nat, subscribed: bool)
    requires Verdict(ok, u.item).None? && Verdict(event, u.item).None? && DelaysNothing(u, b)
    ensures AfterFirst(Wait(ok, a + [u] + b, start, start + timeout), event, timeout, subscribed) ==
            AfterFirst(Wait(ok, a + b, start, start + timeout), event, timeout, subscribed) <==>
            !DisturbsProbe(ok, event, a, u, b, start, timeout, subscribed)
  {
    var deadline := start + timeout;
    if TakesLastRead(ok, a, u, b, start, deadline) {
      UnrelatedAtDeadline(ok, event, a, u, b, start, timeout, subscribed);
      assert forall i: nat :: !DisturbsAfter(ok, event, a, u, b, start, timeout, i);
    } else if i: nat :| Decides(ok, a, start, deadline, i, Success) {
      UnrelatedAfterOk(ok, event, a, u, b, start, timeout, subscribed, i);
      assert forall j: nat :: DisturbsAfter(ok, event, a, u, b, start, timeout, j) ==> j == i;
    } else {
      UnrelatedOtherwise(ok, a, u, b, start, deadline);
    }
  }

  /** The first wait loses its last read. */
  lemma UnrelatedAtDeadline(
    ok: Goal, event: Goal, a: seq<Arrival>, u: Arrival, b: seq<Arrival>, start: nat, timeout: nat, subscribed: bool)
    requires Verdict(ok, u.item).None? && DelaysNothing(u, b) && TakesLastRead(ok, a, u, b, start, start + timeout)
    ensures AfterFirst(Wait(ok, a + [u] + b, start, start + timeout), event, timeout, subscribed) ==
            AfterFirst(Wait(ok, a + b, start, start + timeout), event, timeout, subscribed) <==>
            !DisturbsFirst(ok, event, a, u, b, start, timeout, subscribed)
  {
    var deadline := start + timeout;
    UnrelatedInsert(ok, a, u, b, start, deadline);
    TakenDecision(ok, a, u, b, start, deadline);
    AfterFirstTimesOut(WaitResult(Verdict(ok, b[0].item).value, b[1..], deadline), event, timeout, subscribed);
  }

  lemma AfterFirstTimesOut(first: WaitResult, event: Goal, timeout: nat, subscribed: bool)
    ensures AfterFirst(first, event, timeout, subscribed) == TimedOut <==>
            || first.outcome == TimedOut
            || (&& first.outcome == Success && subscribed
                && !DecidedInTime(event, first.rest, first.clock, first.clock + timeout))
  {
    TimedOutMeaning(event, first.rest, first.clock, first.clock + timeout);
  }

  lemma AfterFirstDecided(first: WaitResult, event: Goal, timeout: nat) returns (k: nat)
    requires first.outcome == Success && AfterFirst(first, event, timeout, true) == Success
    ensures Decides(event, first.rest, first.clock, first.clock + timeout, k, Success)
  {
    var deadline := first.clock + timeout;
    WaitMeaning(event, first.rest, first.clock, deadline, Success);
    k :| Decides(event, first.rest, first.clock, deadline, k, Success);
  }

  lemma AfterFirstSucceeds(first: WaitResult, event: Goal, timeout: nat, k: nat)
    requires first.outcome == Success
    requires Decides(event, first.rest, first.clock, first.clock + timeout, k, Success)
    ensures AfterFirst(first, event, timeout, true) == Success
  {
    DecidesWait(event, first.rest, first.clock, first.clock + timeout, k, Success);
  }

  /** The first wait succeeds before the insertion. */
  lemma UnrelatedAfterOk(
    ok: Goal, event: Goal, a: seq<Arrival>, u: Arrival, b: seq<Arrival>, start: nat, timeout: nat, subscribed: bool,
    i: nat)
    requires Verdict(event, u.item).None? && DelaysNothing(u, b)
    requires Decides(ok, a, start, start + timeout, i, Success)
    ensures AfterFirst(Wait(ok, a + [u] + b, start, start + timeout), event, timeout, subscribed) ==
            AfterFirst(Wait(ok, a + b, start, start + timeout), event, timeout, subscribed) <==>
            !(subscribed && DisturbsAfter(ok, event, a, u, b, start, timeout, i))
  {
    PrefixDecides(ok, a, b, start, start + timeout, i);
    PrefixDecides(ok, a, [u] + b, start, start + timeout, i);
    assert a + ([u] + b) == a + [u] + b;
    UnrelatedSecond(event, a[i + 1..], u, b, ClockAfter(a, start, i + 1), timeout, subscribed);
  }

  lemma UnrelatedSecond(
    event: Goal, left: seq<Arrival>, u: Arrival, b: seq<Arrival>, clock: nat, timeout: nat, subscribed: bool)
    requires Verdict(event, u.item).None? && DelaysNothing(u, b)
    ensures AfterFirst(WaitResult(Success, left + ([u] + b), clock), event, timeout, subscribed) ==
            AfterFirst(WaitResult(Success, left + b, clock), event, timeout, subscribed) <==>
            !(subscribed && TakesLastRead(event, left, u, b, clock, clock + timeout))
  {
    assert left + ([u] + b) == left + [u] + b;
    UnrelatedInsert(event, left, u, b, clock, clock + timeout);
  }

  /** The first wait fails, or succeeds later. */
  lemma UnrelatedOtherwise(ok: Goal, a: seq<Arrival>, u: Arrival, b: seq<Arrival>, start: nat, deadline: nat)
    requires Verdict(ok, u.item).None? && DelaysNothing(u, b)
    requires !TakesLastRead(ok, a, u, b, start, deadline)
    requires forall i: nat :: !Decides(ok, a, start, deadline, i, Success)
    ensures var r, s := Wait(ok, a + b, start, deadline), Wait(ok, a + [u] + b, start, deadline);
            s.outcome == r.outcome && (r.outcome == Success ==> s == r)
  {
    UnrelatedInsert(ok, a, u, b, start, deadline);
    if Wait(ok, a + b, start, deadline).outcome == Success {
      OkAfterInsertion(ok, a, b, start, deadline);
      UnrelatedRest(ok, a, u, b, start, deadline);
    }
  }

  /** A success that no item of `a` decides leaves fewer items than `b`. */
  lemma OkAfterInsertion(ok: Goal, a: seq<Arrival>, b: seq<Arrival>, start: nat, deadline: nat)
    requires forall i: nat :: !Decides(ok, a, start, deadline, i, Success)
    requires Wait(ok, a + b, start, deadline).outcome == Success
    ensures |Wait(ok, a + b, start, deadline).rest| < |b|
  {
    WaitMeaning(ok, a + b, start, deadline, Success);
    var k: nat :| Decides(ok, a + b, start, deadline, k, Success);
    DecidesWait(ok, a + b, start, deadline, k, Success);
    if k < |a| {
      DecidesPrefix(ok, a, b, start, deadline, k);
    }
  }

  /** A wait decided inside a prefix of the stream. */
  lemma PrefixDecides(goal: Goal, a: seq<Arrival>, b: seq<Arrival>, now: nat, deadline: nat, k: nat)
    requires Decides(goal, a, now, deadline, k, Success)
    ensures Wait(goal, a + b, now, deadline) == WaitResult(Success, a[k + 1..] + b, ClockAfter(a, now, k + 1))
  {
    ClockPrefix(a, b, now, k);
    ClockPrefix(a, b, now, k + 1);
    assert forall j :: 0 <= j <= k ==> (a + b)[j] == a[j];
    assert FirstDecisive(goal, a + b, k);
    DecidesWait(goal, a + b, now, deadline, k, Success);
    assert (a + b)[k + 1..] == a[k + 1..] + b;
  }

  lemma DecidesPrefix(goal: Goal, a: seq<Arrival>, b: seq<Arrival>, now: nat, deadline: nat, k: nat)
    requires k < |a| && Decides(goal, a + b, now, deadline, k, Success)
    ensures Decides(goal, a, now, deadline, k, Success)
  {
    ClockPrefix(a, b, now, k);
    assert forall j :: 0 <= j <= k ==> (a + b)[j] == a[j];
  }

  /** When the last read is taken, the wait would have been decided by the item it was taken from. */
  lemma TakenDecision(goal: Goal, a: seq<Arrival>, u: Arrival, b: seq<Arrival>, now: nat, deadline: nat)
    requires TakesLastRead(goal, a, u, b, now, deadline)
    ensures Wait(goal, a + b, now, deadline) == WaitResult(Verdict(goal, b[0].item).value, b[1..], deadline)
  {
    var x, n := a + b, |a|;
    assert x[n] == b[0] && x[n + 1..] == b[1..];
    ClockPrefix(a, b, now, n);
    assert FirstDecisive(goal, x, n) && InTime(x, now, deadline, n);
    WaitDecided(goal, x, now, deadline, n);
  }

  lemma {:induction false} ClockPrefix(a: seq<Arrival>, b: seq<Arrival>, now: nat, k: nat)
    requires k <= |a|
    ensures ClockAfter(a + b, now, k) == ClockAfter(a, now, k)
  {
    if k > 0 {
      ClockPrefix(a, b, now, k - 1);
    }
  }

  /** In particular, an item that comes strictly earlier than the next, or together with it at
      any time but the two deadlines, changes nothing. */
  lemma UndisturbedProbe(
    a: seq<Arrival>, u: Arrival, b: seq<Arrival>, start: nat, eventId: string, timeout: nat,
    published: bool, subscribed: bool)
    requires |eventId| >= 8
    requires Verdict(AwaitOk(eventId), u.item).None? && Verdict(AwaitEvent(SubId(eventId), eventId), u.item).None?
    requires DelaysNothing(u, b)
    requires b != [] && u.at == b[0].at ==>
               && u.at != start + timeout
               && u.at != Wait(AwaitOk(eventId), a + b, start, start + timeout).clock + timeout
    ensures Probe(a + [u] + b, start, eventId, timeout, published, subscribed) ==
            Probe(a + b, start, eventId, timeout, published, subscribed)
  {
    UnrelatedProbe(a, u, b, start, eventId, timeout, published, subscribed);
    var ok, event := AwaitOk(eventId), AwaitEvent(SubId(eventId), eventId);
    forall i: nat ensures !DisturbsAfter(ok, event, a, u, b, start, timeout, i) {
      if DisturbsAfter(ok, event, a, u, b, start, timeout, i) {
        DisturbsOnDeadline(ok, event, a, u, b, start, timeout, i);
        assert false;
      }
    }
  }

  lemma DisturbsOnDeadline(
    ok: Goal, event: Goal, a: seq<Arrival>, u: Arrival, b: seq<Arrival>, start: nat, timeout: nat, i: nat)
    requires DisturbsAfter(ok, event, a, u, b, start, timeout, i)
    ensures b != [] && u.at == b[0].at == Wait(ok, a + b, start, start + timeout).clock + timeout
  {
    PrefixDecides(ok, a, b, start, start + timeout, i);
  }

  /** Item `i` succeeds in the first wait and item `k` after it in the second, each the first
      decisive item of its wait and read in its own time. */
  ghost predicate BothSucceed(
    ok: Goal, event: Goal, arrivals: seq<Arrival>, start: nat, timeout: nat, i: nat, k: nat) {
    && Decides(ok, arrivals, start, start + timeout, i, Success)
    && var clock := ClockAfter(arrivals, start, i + 1);
       Decides(event, arrivals[i + 1..], clock, clock + timeout, k, Success)
  }

  lemma WaitsSound(ok: Goal, event: Goal, arrivals: seq<Arrival>, start: nat, timeout: nat, i: nat, k: nat)
    requires BothSucceed(ok, event, arrivals, start, timeout, i, k)
    ensures AfterFirst(Wait(ok, arrivals, start, start + timeout), event, timeout, true) == Success
  {
    var clock := ClockAfter(arrivals, start, i + 1);
    DecidesWait(ok, arrivals, start, start + timeout, i, Success);
    AfterFirstSucceeds(WaitResult(Success, arrivals[i + 1..], clock), event, timeout, k);
  }

  lemma WaitsComplete(ok: Goal, event: Goal, arrivals: seq<Arrival>, start: nat, timeout: nat) returns (i: nat, k: nat)
    requires AfterFirst(Wait(ok, arrivals, start, start + timeout), event, timeout, true) == Success
    ensures BothSucceed(ok, event, arrivals, start, timeout, i, k)
  {
    var deadline := start + timeout;
    WaitMeaning(ok, arrivals, start, deadline, Success);
    i :| Decides(ok, arrivals, start, deadline, i, Success);
    DecidesWait(ok, arrivals, start, deadline, i, Success);
    k := AfterFirstDecided(WaitResult(Success, arrivals[i + 1..], ClockAfter(arrivals, start, i + 1)), event, timeout);
  }

  /** The probe's second wait has its own subscription. */
  lemma SubIdMeaning(eventId: string)
    requires |eventId| >= 8
    ensures SubId(eventId) == "gittree-probe-" + eventId[..8]
  {
    assert PROBE_SUB_PREFIX + "-" == "gittree-probe-";
  }

  /** The probe ends with the outcome: in the first wait without success, or after item `i`
      succeeded in it. */
  ghost predicate ProbeGives(
    ok: Goal, event: Goal, arrivals: seq<Arrival>, start: nat, timeout: nat, subscribed: bool, outcome: Outcome) {
    || (outcome != Success && WaitGives(ok, arrivals, start, start + timeout, outcome))
    || exists i: nat :: GivesAfter(ok, event, arrivals, start, timeout, subscribed, outcome, i)
  }

  ghost predicate GivesAfter(
    ok: Goal, event: Goal, arrivals: seq<Arrival>, start: nat, timeout: nat, subscribed: bool, outcome: Outcome,
    i: nat) {
    && SettledBy(ok, arrivals, start, start + timeout, i, Success)
    && if !subscribed then outcome == TransportError
       else var clock := ClockAfter(arrivals, start, i + 1);
            WaitGives(event, arrivals[i + 1..], clock, clock + timeout, outcome)
  }

  /** Every outcome of the probe, exactly. */
  lemma ProbeOutcome(
    arrivals: seq<Arrival>, start: nat, eventId: string, timeout: nat, published: bool, subscribed: bool,
    outcome: Outcome)
    requires |eventId| >= 8
    ensures Probe(arrivals, start, eventId, timeout, published, subscribed) == outcome <==>
            if !published then outcome == TransportError
            else ProbeGives(AwaitOk(eventId), AwaitEvent(SubId(eventId), eventId), arrivals, start, timeout,
                            subscribed, outcome)
  {
    WaitsOutcome(AwaitOk(eventId), AwaitEvent(SubId(eventId), eventId), arrivals, start, timeout, subscribed, outcome);
  }

  lemma WaitsOutcome(
    ok: Goal, event: Goal, arrivals: seq<Arrival>, start: nat, timeout: nat, subscribed: bool, outcome: Outcome)
    ensures AfterFirst(Wait(ok, arrivals, start, start + timeout), event, timeout, subscribed) == outcome <==>
            ProbeGives(ok, event, arrivals, start, timeout, subscribed, outcome)
  {
    var deadline := start + timeout;
    var first := Wait(ok, arrivals, start, deadline);
    forall i: nat
      ensures GivesAfter(ok, event, arrivals, start, timeout, subscribed, outcome, i) ==>
                first.outcome == Success && AfterFirst(first, event, timeout, subscribed) == outcome
    {
      if SettledBy(ok, arrivals, start, deadline, i, Success) {
        AfterSuccess(ok, event, arrivals, start, timeout, subscribed, outcome, i);
      }
    }
    WaitOutcome(ok, arrivals, start, deadline, outcome);
    if first.outcome == Success {
      WaitOutcome(ok, arrivals, start, deadline, Success);
      var i: nat :| SettledBy(ok, arrivals, start, deadline, i, Success);
      AfterSuccess(ok, event, arrivals, start, timeout, subscribed, outcome, i);
    }
  }

  lemma AfterSuccess(
    ok: Goal, event: Goal, arrivals: seq<Arrival>, start: nat, timeout: nat, subscribed: bool, outcome: Outcome,
    i: nat)
    requires SettledBy(ok, arrivals, start, start + timeout, i, Success)
    ensures Wait(ok, arrivals, start, start + timeout).outcome == Success
    ensures AfterFirst(Wait(ok, arrivals, start, start + timeout), event, timeout, subscribed) == outcome <==>
            GivesAfter(ok, event, arrivals, start, timeout, subscribed, outcome, i)
  {
    SettledMeaning(ok, arrivals, start, start + timeout, i, Success);
    DecidesWait(ok, arrivals, start, start + timeout, i, Success);
    AfterGives(WaitResult(Success, arrivals[i + 1..], ClockAfter(arrivals, start, i + 1)), event, timeout, subscribed,
               outcome);
  }

  lemma AfterGives(first: WaitResult, event: Goal, timeout: nat, subscribed: bool, outcome: Outcome)
    requires first.outcome == Success
    ensures AfterFirst(first, event, timeout, subscribed) == outcome <==>
            if !subscribed then outcome == TransportError
            else WaitGives(event, first.rest, first.clock, first.clock + timeout, outcome)
  {
    WaitOutcome(event, first.rest, first.clock, first.clock + timeout, outcome);
  }

  /** The probe succeeds exactly when a positive OK decides the first wait and the event the second. */
  lemma ProbeSucceeds(arrivals: seq<Arrival>, start: nat, eventId: string, timeout: nat)
    requires |eventId| >= 8
    ensures Probe(arrivals, start, eventId, timeout, true, true) == Success <==>
            exists i: nat, k: nat ::
              BothSucceed(AwaitOk(eventId), AwaitEvent(SubId(eventId), eventId), arrivals, start, timeout, i, k)
  {
    var ok, event := AwaitOk(eventId), AwaitEvent(SubId(eventId), eventId);
    if Probe(arrivals, start, eventId, timeout, true, true) == Success {
      var i, k := WaitsComplete(ok, event, arrivals, start, timeout);
    }
    if i: nat, k: nat :| BothSucceed(ok, event, arrivals, start, timeout, i, k) {
      WaitsSound(ok, event, arrivals, start, timeout, i, k);
    }
  }
}

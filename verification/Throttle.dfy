/** The exception throttle: one send per key and window, decided in the order the mutex is taken. */
module Throttle {
  import opened Options
  import opened JsonValues

  /** A call, with the clock value it read before taking the mutex, or a reset of the whole state. */
  datatype Call = Ask(key: Option<string>, seconds: real, now: real) | Reset

  /** `key.blank?` */
  predicate BlankKey(key: Option<string>) {
    key.None? || forall c <- key.value :: IsSpace(c)
  }

  /** `seconds.to_i` truncates toward zero. */
  function ToI(seconds: real): int {
    if seconds >= 0.0 then seconds.Floor else -(-seconds).Floor
  }

  predicate Limited(c: Call) {
    c.Ask? && !BlankKey(c.key) && ToI(c.seconds) > 0
  }

  lemma LimitedWindow(c: Call)
    requires c.Ask?
    ensures Limited(c) <==> c.seconds >= 1.0 && c.key.Some? && exists x <- c.key.value :: !IsSpace(x)
  {
  }

  class Throttle {
    var throttledAt: map<string, real>

    constructor ()
      ensures throttledAt == map[]
    {
      throttledAt := map[];
    }

    method Throttled(key: Option<string>, seconds: real, now: real) returns (throttled: bool)
      modifies this
      ensures throttled == Blocks(old(throttledAt), Ask(key, seconds, now))
      ensures throttledAt == After(old(throttledAt), Ask(key, seconds, now))
    {
      if BlankKey(key) || ToI(seconds) <= 0 { return false; }
      if key.value in throttledAt && now - throttledAt[key.value] < seconds {
        return true;
      }
      throttledAt := throttledAt[key.value := now];
      return false;
    }

    method ResetThrottleState()
      modifies this
      ensures throttledAt == After(old(throttledAt), Reset)
    {
      throttledAt := map[];
    }
  }

  predicate Blocks(m: map<string, real>, c: Call) {
    Limited(c) && c.key.value in m && c.now - m[c.key.value] < c.seconds
  }

  function After(m: map<string, real>, c: Call): map<string, real> {
    match c
    case Reset => map[]
    case Ask(key, seconds, now) => if Limited(c) && !Blocks(m, c) then m[key.value := now] else m
  }

  function StateAfter(calls: seq<Call>): map<string, real> {
    if calls == [] then map[] else After(StateAfter(calls[..|calls| - 1]), calls[|calls| - 1])
  }

  // ── The reference: scan the whole send history ─────────────────────────────

  /** Some earlier send of the key lies within the window. */
  predicate RecentlySent(sends: seq<Call>, c: Call)
    requires forall s <- sends :: s.Ask?
    requires c.Ask?
  {
    exists s <- sends :: s.key == c.key && c.now - s.now < c.seconds
  }

  /** Every limited call that went through since the last reset, in order. */
  function Sends(calls: seq<Call>): (sends: seq<Call>)
    ensures forall s <- sends :: s.Ask? && Limited(s)
  {
    if calls == [] then []
    else
      var before, c := Sends(calls[..|calls| - 1]), calls[|calls| - 1];
      if c.Reset? then []
      else if Limited(c) && !RecentlySent(before, c) then before + [c]
      else before
  }

  ghost predicate SameKeyBefore(sends: seq<Call>, i: int, j: int) {
    0 <= i < j < |sends| && sends[i].Ask? && sends[j].Ask? && sends[i].key == sends[j].key
  }

  /** Later sends of a key are at least their own window later on the clock. */
  ghost predicate Spaced(sends: seq<Call>) {
    forall i, j :: SameKeyBefore(sends, i, j) ==> sends[j].now - sends[i].now >= sends[j].seconds
  }

  lemma {:induction false} SendsAreSpaced(calls: seq<Call>)
    ensures Spaced(Sends(calls))
  {
    if calls == [] {
    } else {
      var before, c := Sends(calls[..|calls| - 1]), calls[|calls| - 1];
      SendsAreSpaced(calls[..|calls| - 1]);
      if Sends(calls) == before + [c] {
        var after := before + [c];
        forall i, j | SameKeyBefore(after, i, j) ensures after[j].now - after[i].now >= after[j].seconds {
          if j < |before| {
            assert SameKeyBefore(before, i, j);
          } else {
            assert before[i] in before;
          }
        }
      }
    }
  }

  /** The stored time of a key is that of its last send, which is also its latest. */
  ghost predicate Remembers(m: map<string, real>, sends: seq<Call>, k: string) {
    if k in m
    then && (exists s <- sends :: s.Ask? && s.key == Some(k) && s.now == m[k])
         && (forall s <- sends :: s.Ask? && s.key == Some(k) ==> s.now <= m[k])
    else forall s <- sends :: s.Ask? ==> s.key != Some(k)
  }

  lemma {:induction false} StateRemembersSends(calls: seq<Call>, k: string)
    ensures Remembers(StateAfter(calls), Sends(calls), k)
  {
    if calls == [] {
    } else {
      var front, c := calls[..|calls| - 1], calls[|calls| - 1];
      StateRemembersSends(front, k);
      if Limited(c) {
        StateRemembersSends(front, c.key.value);
        MapAgreesWithScan(StateAfter(front), Sends(front), c);
      }
    }
  }

  lemma MapAgreesWithScan(m: map<string, real>, sends: seq<Call>, c: Call)
    requires forall s <- sends :: s.Ask?
    requires Limited(c) && Remembers(m, sends, c.key.value)
    ensures Blocks(m, c) <==> RecentlySent(sends, c)
  {
  }

  /** The throttle answers as a scan of all sends would, for every call sequence and every clock. */
  lemma ThrottleAgreesWithHistory(calls: seq<Call>, c: Call)
    requires c.Ask?
    ensures Blocks(StateAfter(calls), c) <==> Limited(c) && RecentlySent(Sends(calls), c)
  {
    if Limited(c) {
      StateRemembersSends(calls, c.key.value);
      MapAgreesWithScan(StateAfter(calls), Sends(calls), c);
    }
  }

  // ── Keys are independent ───────────────────────────────────────────────────

  predicate About(key: Option<string>, c: Call) {
    c.Reset? || c.key == key
  }

  function Only(calls: seq<Call>, key: Option<string>): (kept: seq<Call>)
    ensures forall c <- kept :: c in calls && About(key, c)
  {
    if calls == [] then []
    else
      var n := |calls| - 1;
      Only(calls[..n], key) + (if About(key, calls[n]) then [calls[n]] else [])
  }

  lemma OnlyMembers(calls: seq<Call>, key: Option<string>, c: Call)
    requires About(key, c)
    ensures c in Only(calls, key) <==> c in calls
  {
    if calls == [] {
    } else {
      assert calls == calls[..|calls| - 1] + [calls[|calls| - 1]];
      OnlyMembers(calls[..|calls| - 1], key, c);
    }
  }

  lemma SendsAppend(calls: seq<Call>, c: Call)
    ensures Sends(calls + [c]) ==
            if c.Reset? then []
            else if Limited(c) && !RecentlySent(Sends(calls), c) then Sends(calls) + [c]
            else Sends(calls)
  {
    assert (calls + [c])[..|calls|] == calls;
  }

  lemma OnlyAppend(calls: seq<Call>, key: Option<string>, c: Call)
    ensures Only(calls + [c], key) == if About(key, c) then Only(calls, key) + [c] else Only(calls, key)
  {
    assert (calls + [c])[..|calls|] == calls;
    assert Only(calls, key) + [] == Only(calls, key);
  }

  lemma {:induction false} SendsOfOneKey(calls: seq<Call>, key: Option<string>)
    ensures Sends(Only(calls, key)) == Only(Sends(calls), key)
  {
    if calls == [] {
    } else {
      var n := |calls| - 1;
      var front, c := calls[..n], calls[n];
      assert calls == front + [c];
      SendsOfOneKey(front, key);
      SendsAppend(front, c);
      OnlyAppend(front, key, c);
      OnlyAppend(Sends(front), key, c);
      if About(key, c) {
        SendsAppend(Only(front, key), c);
        if c.Ask? { SameScan(Sends(front), key, c); }
      }
    }
  }

  lemma SameScan(sends: seq<Call>, key: Option<string>, c: Call)
    requires forall s <- sends :: s.Ask?
    requires c.Ask? && c.key == key
    ensures RecentlySent(Only(sends, key), c) <==> RecentlySent(sends, c)
  {
    forall s | About(key, s) ensures s in Only(sends, key) <==> s in sends {
      OnlyMembers(sends, key, s);
    }
  }

  /** Calls on other keys never change an answer. */
  lemma KeysAreIndependent(calls: seq<Call>, c: Call)
    requires c.Ask?
    ensures Blocks(StateAfter(calls), c) <==> Blocks(StateAfter(Only(calls, c.key)), c)
  {
    ThrottleAgreesWithHistory(calls, c);
    ThrottleAgreesWithHistory(Only(calls, c.key), c);
    SendsOfOneKey(calls, c.key);
    SameScan(Sends(calls), c.key, c);
  }

  // ── The counting bound ─────────────────────────────────────────────────────

  /** The clock values of a key's sends within [from, from + span]. */
  function TimesWithin(sends: seq<Call>, key: Option<string>, from: real, span: real): seq<real> {
    if sends == [] then []
    else
      var n := |sends| - 1;
      var s := sends[n];
      TimesWithin(sends[..n], key, from, span)
      + (if s.Ask? && s.key == key && from <= s.now <= from + span then [s.now] else [])
  }

  ghost predicate Gaps(times: seq<real>, s: real) {
    forall i :: 0 < i < |times| ==> times[i] - times[i - 1] >= s
  }

  /** The times lie in the span, and the last of them is that of some send of the key. */
  lemma {:induction false} TimesAreOfSends(sends: seq<Call>, key: Option<string>, from: real, span: real)
    requires forall x <- sends :: x.Ask?
    ensures var times := TimesWithin(sends, key, from, span);
            && (forall t <- times :: from <= t <= from + span)
            && (times != [] ==> LastTimeOf(sends, key, times[|times| - 1]))
  {
    if sends == [] {
    } else {
      var n := |sends| - 1;
      TimesAreOfSends(sends[..n], key, from, span);
      var times := TimesWithin(sends, key, from, span);
      if times == TimesWithin(sends[..n], key, from, span) {
        if times != [] {
          var i :| 0 <= i < n && sends[..n][i].key == key && sends[..n][i].now == times[|times| - 1];
          assert sends[i].key == key;
        }
      } else {
        assert sends[n].key == key && sends[n].now == times[|times| - 1];
      }
    }
  }

  ghost predicate LastTimeOf(sends: seq<Call>, key: Option<string>, t: real)
    requires forall x <- sends :: x.Ask?
  {
    exists i :: 0 <= i < |sends| && sends[i].key == key && sends[i].now == t
  }

  lemma SpacedFront(sends: seq<Call>)
    requires Spaced(sends) && sends != []
    ensures Spaced(sends[..|sends| - 1])
  {
    var front := sends[..|sends| - 1];
    forall i, j | SameKeyBefore(front, i, j) ensures front[j].now - front[i].now >= front[j].seconds {
      assert SameKeyBefore(sends, i, j);
    }
  }

  lemma {:induction false} TimesHaveGaps(sends: seq<Call>, key: Option<string>, from: real, span: real, s: real)
    requires Spaced(sends)
    requires forall x <- sends :: x.Ask? && (x.key == key ==> x.seconds >= s)
    ensures Gaps(TimesWithin(sends, key, from, span), s)
  {
    if sends == [] {
    } else {
      var n := |sends| - 1;
      SpacedFront(sends);
      TimesHaveGaps(sends[..n], key, from, span, s);
      TimesAreOfSends(sends[..n], key, from, span);
      var before, times := TimesWithin(sends[..n], key, from, span), TimesWithin(sends, key, from, span);
      if before != [] && times != before {
        var i :| 0 <= i < n && sends[..n][i].key == key && sends[..n][i].now == before[|before| - 1];
        assert SameKeyBefore(sends, i, n);
      }
    }
  }

  lemma {:induction false} GapsFill(times: seq<real>, s: real)
    requires times != [] && Gaps(times, s)
    ensures times[|times| - 1] - times[0] >= (|times| - 1) as real * s
  {
    if |times| == 1 {
    } else {
      var front := times[..|times| - 1];
      GapsFill(front, s);
      assert (|times| - 1) as real * s == (|front| - 1) as real * s + s;
    }
  }

  lemma TimesFit(times: seq<real>, s: nat, from: real, span: real)
    requires s > 0 && span >= 0.0
    requires Gaps(times, s as real) && forall t <- times :: from <= t <= from + span
    ensures |times| <= (span / s as real).Floor + 1
  {
    if times == [] {
      AtMostQuotient(0, s, span);
    } else {
      GapsFill(times, s as real);
      assert times[0] in times && times[|times| - 1] in times;
      AtMostQuotient(|times| - 1, s, span);
    }
  }

  /** The sends of a key in a span of the clock, by their places in the history. */
  ghost function SendsWithin(sends: seq<Call>, key: Option<string>, from: real, span: real): set<nat> {
    set i: nat | i < |sends| && sends[i].Ask? && sends[i].key == key && from <= sends[i].now <= from + span
  }

  lemma SendsWithinGrows(sends: seq<Call>, c: Call, key: Option<string>, from: real, span: real)
    ensures var within := c.Ask? && c.key == key && from <= c.now <= from + span;
            SendsWithin(sends + [c], key, from, span) ==
            SendsWithin(sends, key, from, span) + (if within then {|sends|} else {})
  {
    var all := sends + [c];
    forall i: nat | i < |sends| ensures all[i] == sends[i] {}
  }

  lemma {:induction false} TimesCountSends(sends: seq<Call>, key: Option<string>, from: real, span: real)
    ensures |TimesWithin(sends, key, from, span)| == |SendsWithin(sends, key, from, span)|
  {
    if sends == [] {
      assert SendsWithin(sends, key, from, span) == {};
    } else {
      var n := |sends| - 1;
      TimesCountSends(sends[..n], key, from, span);
      SendsWithinGrows(sends[..n], sends[n], key, from, span);
      assert sends == sends[..n] + [sends[n]];
    }
  }

  /** With windows of at least s whole seconds, a span W holds at most floor(W / s) + 1 sends since a reset. */
  lemma SendsPerSpan(calls: seq<Call>, key: Option<string>, s: nat, from: real, span: real)
    requires s > 0 && span >= 0.0
    requires forall c <- calls :: c.Ask? && c.key == key ==> c.seconds >= s as real
    ensures |SendsWithin(Sends(calls), key, from, span)| <= (span / s as real).Floor + 1
  {
    TimesCountSends(Sends(calls), key, from, span);
    SendsAreSpaced(calls);
    SendsAreCalls(calls);
    TimesHaveGaps(Sends(calls), key, from, span, s as real);
    TimesAreOfSends(Sends(calls), key, from, span);
    TimesFit(TimesWithin(Sends(calls), key, from, span), s, from, span);
  }

  lemma AtMostQuotient(n: nat, s: nat, span: real)
    requires s > 0 && n as real * s as real <= span
    ensures n <= (span / s as real).Floor
  {
    var q := span / s as real;
    assert q * s as real == span;
    assert n as real <= q;
  }

  lemma {:induction false} SendsAreCalls(calls: seq<Call>)
    ensures forall s <- Sends(calls) :: s in calls
  {
    if calls == [] {
    } else {
      SendsAreCalls(calls[..|calls| - 1]);
    }
  }
}

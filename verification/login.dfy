/** Waiting for a device authorization to be approved (RFC 8628): a poll loop against a clock and the
    server's answers. Times are nanoseconds. */
module DeviceLogin {
  import opened Text

  const SECOND := 1_000_000_000
  const DEFAULT_INTERVAL := 5 * SECOND
  const SLOW_DOWN_STEP := 5 * SECOND

  /** What the server set: seconds until the code expires, and seconds between polls. */
  datatype Authorization = Authorization(expiresIn: int, interval: int)

  datatype Answer =
    | Pending
    | SlowDown
    | ExpiredToken
    | AccessDenied
    | OtherFailure
    | Token(token: string, kind: string, expiresIn: int, email: string, organization: string)

  /** One turn of the loop: the clock when it starts, whether its sleep is cut short, what the poll
      answers, and the clock when the answer is in. */
  datatype Turn = Turn(now: int, cutShort: bool, answer: Answer, after: int)

  datatype Login = Login(token: string, email: string, organization: string, issued: int, expires: int)

  datatype End =
    | LoggedIn(login: Login)
    | Expired
    | Denied
    | Failed
    | Polling

  function FirstInterval(a: Authorization): (d: int)
    ensures d > 0
  {
    if a.interval * SECOND <= 0 then DEFAULT_INTERVAL else a.interval * SECOND
  }

  predicate Bearer(kind: string) { kind == "" || ToLower(kind) == "bearer" }

  /** The deadline has passed, where there is one. */
  predicate Over(a: Authorization, start: int, now: int) {
    a.expiresIn > 0 && now >= start + a.expiresIn * SECOND
  }

  predicate KeepsPolling(t: Turn) { !t.cutShort && (t.answer.Pending? || t.answer.SlowDown?) }

  /** What one turn that does not keep polling ends with. */
  function Verdict(t: Turn): End {
    if t.cutShort then Failed
    else match t.answer
      case Pending => Polling
      case SlowDown => Polling
      case ExpiredToken => Expired
      case AccessDenied => Denied
      case OtherFailure => Failed
      case Token(token, kind, expiresIn, email, organization) =>
        if token == "" || !Bearer(kind) then Failed
        else
          var expires := if expiresIn > 0 then t.after + expiresIn * SECOND else 0;
          LoggedIn(Login(token, email, organization, t.after, expires))
  }

  /** The interval slept before poll `i`: the first one, and 5 seconds more for each `slow_down` before. */
  function IntervalAt(first: int, turns: seq<Turn>, i: nat): int
    requires i <= |turns|
  {
    if i == 0 then first
    else IntervalAt(first, turns, i - 1) + if turns[i - 1].answer.SlowDown? then SLOW_DOWN_STEP else 0
  }

  /** How a run of turns ends, and after how many polls. */
  function Ends(a: Authorization, start: int, turns: seq<Turn>): (End, nat) {
    if turns == [] then (Polling, 0)
    else if Over(a, start, turns[0].now) then (Expired, 0)
    else if turns[0].cutShort then (Failed, 0)
    else if KeepsPolling(turns[0]) then
      var (end, polls) := Ends(a, start, turns[1..]);
      (end, polls + 1)
    else (Verdict(turns[0]), 1)
  }

  /** `Wait`, over as many turns as are given. `slept` is the intervals it slept. */
  method Wait(a: Authorization, start: int, turns: seq<Turn>) returns (end: End, polls: nat, ghost slept: seq<int>)
    ensures (end, polls) == Ends(a, start, turns)
    ensures polls <= |slept| <= |turns|
    ensures forall i :: 0 <= i < |slept| ==> slept[i] == IntervalAt(FirstInterval(a), turns, i)
  {
    var interval := if a.interval * SECOND <= 0 then DEFAULT_INTERVAL else a.interval * SECOND;
    var deadline := start + a.expiresIn * SECOND;
    polls, slept := 0, [];
    while polls < |turns|
      invariant polls <= |turns| && |slept| == polls
      invariant Ends(a, start, turns) == (Ends(a, start, turns[polls..]).0, polls + Ends(a, start, turns[polls..]).1)
      invariant interval == IntervalAt(FirstInterval(a), turns, polls)
      invariant forall i :: 0 <= i < |slept| ==> slept[i] == IntervalAt(FirstInterval(a), turns, i)
    {
      var t := turns[polls];
      assert turns[polls..][1..] == turns[polls + 1..];
      if a.expiresIn > 0 && t.now >= deadline {
        return Expired, polls, slept;
      }
      slept := slept + [interval];
      if t.cutShort {
        return Failed, polls, slept;
      }
      polls := polls + 1;
      match t.answer {
        case Pending =>
        case SlowDown =>
          interval := interval + SLOW_DOWN_STEP;
        case ExpiredToken =>
          return Expired, polls, slept;
        case AccessDenied =>
          return Denied, polls, slept;
        case OtherFailure =>
          return Failed, polls, slept;
        case Token(token, kind, expiresIn, email, organization) =>
          if token == "" {
            return Failed, polls, slept;
          }
          if kind != "" && ToLower(kind) != "bearer" {
            return Failed, polls, slept;
          }
          var expires := if expiresIn > 0 then t.after + expiresIn * SECOND else 0;
          return LoggedIn(Login(token, email, organization, t.after, expires)), polls, slept;
      }
    }
    end := Polling;
  }

  // ---- how often it polls ----

  function SlowDowns(turns: seq<Turn>): nat {
    if turns == [] then 0 else SlowDowns(turns[..|turns| - 1]) + if turns[|turns| - 1].answer.SlowDown? then 1 else 0
  }

  /** The interval never shrinks, and is the first one and exactly 5 seconds for every `slow_down` so far
      (section 3.5 of RFC 8628). */
  lemma {:induction false} IntervalGrowsBySlowDowns(first: int, turns: seq<Turn>, i: nat)
    requires i <= |turns|
    ensures IntervalAt(first, turns, i) == first + SLOW_DOWN_STEP * SlowDowns(turns[..i])
    ensures forall j :: 0 <= j <= i ==> IntervalAt(first, turns, j) <= IntervalAt(first, turns, i)
  {
    if i > 0 {
      assert turns[..i][..i - 1] == turns[..i - 1];
      IntervalGrowsBySlowDowns(first, turns, i - 1);
    }
  }

  /** So what is slept before a poll is the server's interval, or 5 seconds where it names none, and 5 seconds more
      for each time it was told to slow down. */
  lemma {:induction false} IntervalInForce(a: Authorization, turns: seq<Turn>, i: nat)
    requires i <= |turns|
    ensures IntervalAt(FirstInterval(a), turns, i) ==
            ((if a.interval > 0 then a.interval else 5) + 5 * SlowDowns(turns[..i])) * 1_000_000_000
  {
    IntervalGrowsBySlowDowns(FirstInterval(a), turns, i);
  }

  /** Each sleep that is not cut short moves the clock on by at least the interval slept. */
  ghost predicate SleepsInFull(first: int, start: int, turns: seq<Turn>) {
    && (turns != [] ==> turns[0].now >= start)
    && (forall i :: 0 < i < |turns| ==> turns[i].now >= turns[i - 1].now + IntervalAt(first, turns, i - 1))
  }

  lemma {:induction false} ClockAt(first: int, start: int, turns: seq<Turn>, k: nat)
    requires SleepsInFull(first, start, turns) && k < |turns|
    ensures turns[k].now >= start + k * first
  {
    if k > 0 {
      ClockAt(first, start, turns, k - 1);
      IntervalGrowsBySlowDowns(first, turns, k - 1);
      assert IntervalAt(first, turns, 0) == first;
      assert k * first == (k - 1) * first + first;
    }
  }

  /** Every poll was made before the deadline, and every one but the last was told to keep polling. */
  lemma {:induction false} PollsAreInTime(a: Authorization, start: int, turns: seq<Turn>)
    ensures var (end, polls) := Ends(a, start, turns);
            && polls <= |turns|
            && (forall i :: 0 <= i < polls ==> !Over(a, start, turns[i].now) && !turns[i].cutShort)
            && (forall i :: 0 <= i < polls - 1 ==> KeepsPolling(turns[i]))
            && (end.Polling? ==> polls == |turns|)
  {
    hide Over;
    if turns != [] { PollsAreInTime(a, start, turns[1..]); }
  }

  /** Where the code expires and no sleep is short, however the server answers, all polls but the last fit into
      the lifetime, one first interval each: a server that never says the code expired cannot keep it polling. */
  lemma {:induction false} PollsAreBounded(a: Authorization, start: int, turns: seq<Turn>)
    requires a.expiresIn > 0 && SleepsInFull(FirstInterval(a), start, turns)
    ensures var (end, polls) := Ends(a, start, turns);
            && (polls > 0 ==> (polls - 1) * FirstInterval(a) < a.expiresIn * SECOND)
            && (end.Polling? ==> polls == |turns|)
  {
    var (end, polls) := Ends(a, start, turns);
    PollsAreInTime(a, start, turns);
    if polls > 0 { ClockAt(FirstInterval(a), start, turns, polls - 1); }
  }

  function Patient(first: int, start: int, n: nat): (turns: seq<Turn>)
    ensures |turns| == n && forall i :: 0 <= i < n ==> turns[i] == Turn(start + i * first, false, Pending, start)
  {
    seq(n, i => Turn(start + i * first, false, Pending, start))
  }

  /** The bound is reached: against a server that always says to wait, sleeping no longer than it must, it polls
      any number of times whose last but one falls within the lifetime. */
  lemma {:induction false} BoundIsReached(a: Authorization, start: int, n: nat)
    requires a.expiresIn > 0 && (n > 0 ==> (n - 1) * FirstInterval(a) < a.expiresIn * SECOND)
    ensures var turns := Patient(FirstInterval(a), start, n);
            SleepsInFull(FirstInterval(a), start, turns) && Ends(a, start, turns) == (Polling, n)
  {
    var first := FirstInterval(a);
    var turns := Patient(first, start, n);
    forall i | 0 <= i < n ensures IntervalAt(first, turns, i) == first && !Over(a, start, turns[i].now) {
      SameInterval(first, turns, i);
      Monotone(i, n - 1, first);
    }
    forall i | 0 < i < n ensures turns[i].now >= turns[i - 1].now + IntervalAt(first, turns, i - 1) {
      assert i * first == (i - 1) * first + first;
    }
    AllWait(a, start, turns);
  }

  lemma {:induction false} Monotone(x: int, y: int, d: int)
    requires d > 0 && x <= y
    ensures x * d <= y * d
  {
  }

  lemma {:induction false} SameInterval(first: int, turns: seq<Turn>, i: nat)
    requires i <= |turns| && forall t :: t in turns ==> t.answer.Pending?
    ensures IntervalAt(first, turns, i) == first
  {
    if i > 0 {
      assert turns[i - 1] in turns;
      SameInterval(first, turns, i - 1);
    }
  }

  lemma {:induction false} AllWait(a: Authorization, start: int, turns: seq<Turn>)
    requires forall i :: 0 <= i < |turns| ==> KeepsPolling(turns[i]) && !Over(a, start, turns[i].now)
    ensures Ends(a, start, turns) == (Polling, |turns|)
  {
    hide Over;
    if turns != [] { AllWait(a, start, turns[1..]); }
  }

  /** A code the server gives no lifetime is polled for as long as the server says so. */
  lemma {:induction false} NoLifetimeNoBound(a: Authorization, start: int, turns: seq<Turn>)
    requires a.expiresIn <= 0 && forall t :: t in turns ==> !t.cutShort && t.answer in {Pending, SlowDown}
    ensures Ends(a, start, turns) == (Polling, |turns|)
  {
    AllWait(a, start, turns);
  }

  // ---- how it ends ----

  /** A turn that comes in time, and that is told to wait. */
  predicate Waits(a: Authorization, start: int, t: Turn) {
    InTime(a, start, t) && !t.cutShort && t.answer in {Pending, SlowDown}
  }

  predicate InTime(a: Authorization, start: int, t: Turn) {
    a.expiresIn <= 0 || t.now < start + a.expiresIn * SECOND
  }

  /** No type, or `bearer` however its letters are cased. */
  predicate IsBearer(kind: string) {
    || kind == ""
    || (|kind| == 6 && kind[0] in "bB" && kind[1] in "eE" && kind[2] in "aA" && kind[3] in "rR" && kind[4] in "eE" &&
        kind[5] in "rR")
  }

  /** What a turn that is not told to wait ends the loop with. */
  predicate Decides(a: Authorization, start: int, t: Turn, end: End) {
    match end
    case Polling => false
    case Expired => !InTime(a, start, t) || (!t.cutShort && t.answer == ExpiredToken)
    case Denied => InTime(a, start, t) && !t.cutShort && t.answer == AccessDenied
    case LoggedIn(login) => InTime(a, start, t) && Grants(t, login)
    case Failed =>
      InTime(a, start, t) &&
        (t.cutShort || t.answer == OtherFailure ||
         (t.answer.Token? && (t.answer.token == "" || !IsBearer(t.answer.kind))))
  }

  predicate Grants(t: Turn, login: Login) {
    && !t.cutShort && t.answer.Token? && t.answer.token != "" && IsBearer(t.answer.kind)
    && login.token == t.answer.token && login.email == t.answer.email && login.organization == t.answer.organization
    && login.issued == t.after &&
         login.expires == if t.answer.expiresIn > 0 then t.after + t.answer.expiresIn * SECOND else 0
  }

  lemma {:induction false} BearerIs(kind: string)
    ensures Bearer(kind) <==> IsBearer(kind)
  {
    var lower := ToLower(kind);
    if |kind| == 6 {
      assert lower == "bearer" <==> lower[0] == 'b' && lower[1] == 'e' && lower[2] == 'a' && lower[3] == 'r' &&
                                    lower[4] == 'e' && lower[5] == 'r';
      assert "bB"[0] == 'b' && "bB"[1] == 'B' && "eE"[0] == 'e' && "eE"[1] == 'E' && "aA"[0] == 'a' && "aA"[1] == 'A';
      assert "rR"[0] == 'r' && "rR"[1] == 'R';
    }
  }

  /** The turn at `k` ends the loop so, every one before it having been told to wait. */
  ghost predicate DecidedAt(a: Authorization, start: int, turns: seq<Turn>, k: nat, end: End) {
    && k < |turns| && Decides(a, start, turns[k], end)
    && forall i :: 0 <= i < k ==> Waits(a, start, turns[i])
  }

  lemma {:induction false} FirstDecides(a: Authorization, start: int, turns: seq<Turn>, end: End)
    requires turns != [] && !Waits(a, start, turns[0])
    ensures Ends(a, start, turns).0 == end <==> Decides(a, start, turns[0], end)
  {
    if turns[0].answer.Token? { BearerIs(turns[0].answer.kind); }
    hide Bearer, IsBearer;
  }

  lemma {:induction false} DecidedNext(a: Authorization, start: int, turns: seq<Turn>, k: nat, end: End)
    requires turns != [] && Waits(a, start, turns[0])
    ensures DecidedAt(a, start, turns[1..], k, end) <==> DecidedAt(a, start, turns, k + 1, end)
    ensures !DecidedAt(a, start, turns, 0, end)
  {
    hide IsBearer;
    var rest := turns[1..];
    if DecidedAt(a, start, rest, k, end) {
      forall i | 0 <= i < k + 1 ensures Waits(a, start, turns[i]) {
        if i > 0 { assert Waits(a, start, rest[i - 1]); }
      }
    }
    if DecidedAt(a, start, turns, k + 1, end) {
      forall i | 0 <= i < k ensures Waits(a, start, rest[i]) {
        assert Waits(a, start, turns[i + 1]);
      }
    }
  }

  /** How waiting ends, and on what: it ends with exactly what some turn decides, every one before it having come
      in time and been told to wait; and it is still polling exactly when all turns were. */
  lemma {:induction false} EndsExactly(a: Authorization, start: int, turns: seq<Turn>, end: End)
    ensures Ends(a, start, turns).0 == end && end != Polling <==> exists k: nat :: DecidedAt(a, start, turns, k, end)
    ensures Ends(a, start, turns).0 == Polling <==> forall t :: t in turns ==> Waits(a, start, t)
  {
    if turns != [] {
      if Waits(a, start, turns[0]) {
        EndsExactly(a, start, turns[1..], end);
        forall k: nat
          ensures DecidedAt(a, start, turns[1..], k, end) <==> DecidedAt(a, start, turns, k + 1, end)
          ensures !DecidedAt(a, start, turns, 0, end)
        {
          DecidedNext(a, start, turns, k, end);
        }
        hide DecidedAt;
        if k: nat :| DecidedAt(a, start, turns, k, end) { assert k > 0 && DecidedAt(a, start, turns[1..], k - 1, end); }
        assert turns == [turns[0]] + turns[1..];
      } else {
        FirstDecides(a, start, turns, end);
        FirstDecides(a, start, turns, Polling);
        hide Decides, Waits, Ends;
        assert Decides(a, start, turns[0], end) ==> DecidedAt(a, start, turns, 0, end);
        assert turns[0] in turns;
      }
    }
  }

  /** A login comes of exactly one thing: a bearer token, or one of no stated type, answered in time to a
      poll every earlier one of which was told to wait. */
  lemma {:induction false} LoggedInExactly(a: Authorization, start: int, turns: seq<Turn>, login: Login)
    ensures Ends(a, start, turns).0 == LoggedIn(login) <==>
            exists k :: && 0 <= k < |turns| && InTime(a, start, turns[k]) && Grants(turns[k], login)
                        && forall i :: 0 <= i < k ==> Waits(a, start, turns[i])
  {
    EndsExactly(a, start, turns, LoggedIn(login));
    hide Ends, Grants, Waits, InTime;
    if k :| && 0 <= k < |turns| && InTime(a, start, turns[k]) && Grants(turns[k], login)
            && forall i :: 0 <= i < k ==> Waits(a, start, turns[i]) {
      assert DecidedAt(a, start, turns, k, LoggedIn(login));
    }
  }
}
